/**
 * The UTF-8 view of a string that Rust's `str` gives: the byte offset that
 * `char_indices` reports for each character, and slicing by byte offsets
 * (`slice`, `slice_from`), which is defined only at character boundaries.
 */
module Utf8 {

  /** Number of bytes UTF-8 uses to encode `c`. */
  function Width(c: char): (w: nat)
    ensures 1 <= w <= 4
  {
    if c as int < 0x80 then 1
    else if c as int < 0x800 then 2
    else if c as int < 0x1_0000 then 3
    else 4
  }

  /** Length in bytes of the UTF-8 encoding of `s` (Rust's `str::len`). */
  function Utf8Len(s: string): (n: nat)
    ensures |s| <= n <= 4 * |s|
  {
    if s == [] then 0 else Width(s[0]) + Utf8Len(s[1..])
  }

  predicate IsAscii(s: string) {
    forall k :: 0 <= k < |s| ==> s[k] as int < 0x80
  }

  lemma {:induction false} Utf8LenConcat(a: string, b: string)
    ensures Utf8Len(a + b) == Utf8Len(a) + Utf8Len(b)
    decreases |a|
  {
    if a == [] {
      assert a + b == b;
    } else {
      assert (a + b)[0] == a[0] && (a + b)[1..] == a[1..] + b;
      Utf8LenConcat(a[1..], b);
    }
  }

  /** An ASCII string takes one byte per character. */
  lemma {:induction false} AsciiUtf8Len(s: string)
    requires IsAscii(s)
    ensures Utf8Len(s) == |s|
    decreases |s|
  {
    if s != [] {
      AsciiUtf8Len(s[1..]);
    }
  }

  /** The byte offset `char_indices` pairs with the character `s[i]` (or the end, for i == |s|). */
  function Offset(s: string, i: nat): nat
    requires i <= |s|
  {
    Utf8Len(s[..i])
  }

  /** Each character advances the byte offset by its own width. */
  lemma OffsetStep(s: string, i: nat)
    requires i < |s|
    ensures Offset(s, i + 1) == Offset(s, i) + Width(s[i])
  {
    assert s[..i + 1] == s[..i] + [s[i]];
    Utf8LenConcat(s[..i], [s[i]]);
  }

  /** Offsets strictly increase: distinct characters have distinct offsets. */
  lemma OffsetStrictlyIncreasing(s: string, i: nat, j: nat)
    requires i < j <= |s|
    ensures Offset(s, i) + (j - i) <= Offset(s, j)
  {
    assert s[..j] == s[..i] + s[i..j];
    Utf8LenConcat(s[..i], s[i..j]);
  }

  /** Offsets depend only on the characters before them. */
  lemma OffsetOfPrefix(s: string, t: string, i: nat)
    requires i <= |s| && i <= |t| && s[..i] == t[..i]
    ensures Offset(s, i) == Offset(t, i)
  {
  }

  /**
   * The number of characters whose encodings lie wholly within the first `off`
   * bytes of `s`: the character index that byte offset `off` falls in.
   */
  function CharIndexAt(s: string, off: nat): (k: nat)
    ensures k <= |s|
    decreases |s|
  {
    if s == [] || off < Width(s[0]) then 0 else 1 + CharIndexAt(s[1..], off - Width(s[0]))
  }

  lemma {:induction false} CharIndexAtOffset(s: string, i: nat)
    requires i <= |s|
    ensures CharIndexAt(s, Offset(s, i)) == i
    decreases i
  {
    if i > 0 {
      assert s[..i] == [s[0]] + s[1..][..i - 1];
      Utf8LenConcat([s[0]], s[1..][..i - 1]);
      CharIndexAtOffset(s[1..], i - 1);
    }
  }

  lemma {:induction false} CharIndexAtMonotone(s: string, a: nat, b: nat)
    requires a <= b
    ensures CharIndexAt(s, a) <= CharIndexAt(s, b)
    decreases |s|
  {
    if s != [] && a >= Width(s[0]) {
      CharIndexAtMonotone(s[1..], a - Width(s[0]), b - Width(s[0]));
    }
  }

  /** Rust's `str::is_char_boundary`: `off` is the offset of a character or of the end. */
  predicate IsCharBoundary(s: string, off: nat) {
    Offset(s, CharIndexAt(s, off)) == off
  }

  /** Every character offset, and the end, is a boundary. */
  lemma OffsetIsCharBoundary(s: string, i: nat)
    requires i <= |s|
    ensures IsCharBoundary(s, Offset(s, i))
  {
    CharIndexAtOffset(s, i);
  }

  /** Rust's `s.slice(from, to)`: the characters whose encodings occupy bytes from..to. */
  function Slice(s: string, from: nat, to: nat): (r: string)
    requires from <= to && IsCharBoundary(s, from) && IsCharBoundary(s, to)
    ensures Utf8Len(r) == to - from
  {
    var i, j := CharIndexAt(s, from), CharIndexAt(s, to);
    CharIndexAtMonotone(s, from, to);
    assert s[..j] == s[..i] + s[i..j];
    Utf8LenConcat(s[..i], s[i..j]);
    s[i..j]
  }

  /** Rust's `s.slice_from(from)`: the characters from byte offset `from` to the end. */
  function SliceFrom(s: string, from: nat): (r: string)
    requires IsCharBoundary(s, from)
    ensures Utf8Len(r) + from == Utf8Len(s)
  {
    var i := CharIndexAt(s, from);
    assert s == s[..i] + s[i..];
    Utf8LenConcat(s[..i], s[i..]);
    s[i..]
  }

  /** Slicing between the offsets of characters i and j gives exactly those characters. */
  lemma SliceAtOffsets(s: string, i: nat, j: nat)
    requires i <= j <= |s|
    ensures Offset(s, i) <= Offset(s, j)
    ensures IsCharBoundary(s, Offset(s, i)) && IsCharBoundary(s, Offset(s, j))
    ensures Slice(s, Offset(s, i), Offset(s, j)) == s[i..j]
  {
    if i < j {
      OffsetStrictlyIncreasing(s, i, j);
    }
    CharIndexAtOffset(s, i);
    CharIndexAtOffset(s, j);
  }

  lemma SliceFromOffset(s: string, i: nat)
    requires i <= |s|
    ensures IsCharBoundary(s, Offset(s, i))
    ensures SliceFrom(s, Offset(s, i)) == s[i..]
  {
    CharIndexAtOffset(s, i);
  }

  /** In an ASCII string the byte offset of a character is its index. */
  lemma AsciiOffset(s: string, i: nat)
    requires IsAscii(s) && i <= |s|
    ensures Offset(s, i) == i
  {
    AsciiUtf8Len(s[..i]);
  }
}
