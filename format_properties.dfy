/**
 * What the template compiler promises, proved about the reference definition
 * (`Format.Scan`, `Format.Parsed`, `Format.Rendered`) that the scanner and the
 * formatter methods are proved to compute.
 */
module FormatProperties {

  import opened Wrappers
  import opened Utf8
  import opened Local
  import opened Decimal
  import opened Format

  // ---------------------------------------------------------------------------
  // Vocabulary
  // ---------------------------------------------------------------------------

  predicate IsBrace(c: char) {
    c == '{' || c == '}'
  }

  predicate BraceFree(t: string) {
    forall k :: 0 <= k < |t| ==> !IsBrace(t[k])
  }

  /** A field the parser can produce: a non-empty literal without braces, or a directive. */
  predicate ValidField(f: Field) {
    if f.Literal? then f.text != [] && BraceFree(f.text) else IsDirective(f)
  }

  /** Valid fields, and literal runs coalesced: no two literals side by side. */
  ghost predicate WellFormed(fields: seq<Field>) {
    && (forall k :: 0 <= k < |fields| ==> ValidField(fields[k]))
    && (forall j, k :: 0 <= j < k < |fields| && k == j + 1 ==> !(fields[j].Literal? && fields[k].Literal?))
  }

  predicate EndsOutsideLiteral(fields: seq<Field>) {
    fields == [] || !fields[|fields| - 1].Literal?
  }

  predicate AllKinds(ks: seq<char>) {
    forall k :: 0 <= k < |ks| ==> KindField(ks[k]).Some?
  }

  /** The directive body ":k0:k1..." for the kind letters `ks`. */
  function Pairs(ks: seq<char>): (body: string)
    ensures |body| == 2 * |ks|
  {
    if ks == [] then [] else [':', ks[0]] + Pairs(ks[1..])
  }

  /** The field chosen after reading the pairs `ks`, starting from `bit`: the last kind wins. */
  function LastKind(ks: seq<char>, bit: Option<Field>): Option<Field>
    requires AllKinds(ks)
  {
    if ks == [] then bit else KindField(ks[|ks| - 1])
  }

  /** The template text that denotes one field. */
  function UnparseField(f: Field): (t: string)
    ensures f.Literal? ==> t == f.text
    ensures !f.Literal? ==> |t| == 4 && t[0] == '{' && t[1] == ':' && t[3] == '}'
  {
    match f
    case Literal(t) => t
    case Year => "{:Y}"
    case YearOfCentury => "{:y}"
    case MonthName(_) => "{:M}"
    case Day => "{:D}"
    case WeekdayName(_) => "{:E}"
  }

  /** The canonical template text of a field sequence. */
  function Unparse(fields: seq<Field>): string {
    if fields == [] then "" else UnparseField(fields[0]) + Unparse(fields[1..])
  }

  // ---------------------------------------------------------------------------
  // Small facts
  // ---------------------------------------------------------------------------

  lemma WellFormedAppend(fields: seq<Field>, f: Field)
    requires WellFormed(fields) && ValidField(f)
    requires f.Literal? ==> EndsOutsideLiteral(fields)
    ensures WellFormed(fields + [f])
  {
    var r := fields + [f];
    forall j, k | 0 <= j < k < |r| && k == j + 1
      ensures !(r[j].Literal? && r[k].Literal?)
    {
      if k < |fields| {
        assert r[j] == fields[j] && r[k] == fields[k];
      }
    }
  }

  lemma BraceFreeExtend(s: string, a: nat, i: nat)
    requires a <= i < |s| && BraceFree(s[a..i]) && !IsBrace(s[i])
    ensures BraceFree(s[a..i + 1])
  {
    assert s[a..i + 1] == s[a..i] + [s[i]];
  }

  /** Running the directive scanner over ":k0:k1..." chooses the last kind. */
  lemma {:induction false} ScanDirectiveOverPairs(s: string, i: nat, open: nat, bit: Option<Field>, ks: seq<char>)
    requires open < i && i + 2 * |ks| <= |s| && AllKinds(ks)
    requires s[i..i + 2 * |ks|] == Pairs(ks)
    ensures ScanDirective(s, i, open, bit) == ScanDirective(s, i + 2 * |ks|, open, LastKind(ks, bit))
    decreases |ks|
  {
    if ks != [] {
      var n := i + 2 * |ks|;
      assert s[i..n][0] == ':' && s[i..n][1] == ks[0];
      assert s[i + 2..n] == s[i..n][2..];
      assert Pairs(ks)[2..] == Pairs(ks[1..]);
      ScanDirectiveOverPairs(s, i + 2, open, KindField(ks[0]), ks[1..]);
      if |ks| > 1 {
        assert ks[1..][|ks| - 2] == ks[|ks| - 1];
      }
    }
  }

  /** A directive that succeeds within the first `m` characters reads nothing beyond them. */
  lemma {:induction false} ScanDirectiveAgree(s: string, t: string, m: nat, i: nat, open: nat, bit: Option<Field>)
    requires open < i <= m <= |s| && m <= |t| && s[..m] == t[..m]
    requires ScanDirective(s, i, open, bit).Ok? && ScanDirective(s, i, open, bit).value.1 <= m
    ensures ScanDirective(t, i, open, bit) == ScanDirective(s, i, open, bit)
    decreases m - i
  {
    assert s[i] == s[..m][i] == t[..m][i] == t[i];
    if s[i] == ':' {
      assert s[i + 1] == s[..m][i + 1] == t[..m][i + 1] == t[i + 1];
      ScanDirectiveAgree(s, t, m, i + 2, open, KindField(s[i + 1]));
    }
  }

  lemma ScanDirectiveStep(s: string, i: nat, anchor: Option<nat>, acc: seq<Field>)
    requires i < |s| && s[i] == '{' && (anchor.Some? ==> anchor.value <= i)
    ensures ScanDirective(s, i + 1, i, None).Err? ==>
      Scan(s, i, anchor, acc) == Err(ScanDirective(s, i + 1, i, None).error)
    ensures ScanDirective(s, i + 1, i, None).Ok? ==>
      var (f, j) := ScanDirective(s, i + 1, i, None).value;
      Scan(s, i, anchor, acc) == Scan(s, j, None, CloseLiteral(s, i, anchor, acc) + [f])
  {
  }

  lemma ScanAtEnd(s: string, anchor: Option<nat>, acc: seq<Field>)
    requires anchor.Some? ==> anchor.value <= |s|
    ensures Scan(s, |s|, anchor, acc) == Ok(CloseLiteral(s, |s|, anchor, acc))
  {
  }

  /**
   * Scanning a template `p` that parses, followed by anything, reaches the end of
   * `p` outside any directive, in the same state that scanning `p` alone ends in.
   */
  lemma {:induction false} ScanPrefix(p: string, q: string, i: nat, anchor: Option<nat>, acc: seq<Field>)
    returns (anchor': Option<nat>, acc': seq<Field>)
    requires i <= |p| && (anchor.Some? ==> anchor.value <= i)
    requires Scan(p, i, anchor, acc).Ok?
    ensures anchor'.Some? ==> anchor'.value <= |p|
    ensures Scan(p + q, i, anchor, acc) == Scan(p + q, |p|, anchor', acc')
    ensures Scan(p, i, anchor, acc) == Scan(p, |p|, anchor', acc')
    decreases |p| - i
  {
    if i == |p| {
      return anchor, acc;
    }
    var s := p + q;
    assert s[..|p|] == p;
    assert s[i] == p[i];
    if p[i] == '{' {
      var acc1 := CloseLiteral(p, i, anchor, acc);
      assert anchor.Some? ==> s[anchor.value..i] == p[anchor.value..i];
      assert CloseLiteral(s, i, anchor, acc) == acc1;
      var (f, j) := ScanDirective(p, i + 1, i, None).value;
      ScanDirectiveAgree(p, s, |p|, i + 1, i, None);
      anchor', acc' := ScanPrefix(p, q, j, None, acc1 + [f]);
    } else {
      anchor', acc' := ScanPrefix(p, q, i + 1, if anchor.None? then Some(i) else anchor, acc);
    }
  }

  // ---------------------------------------------------------------------------
  // Empty input, literal-only input
  // ---------------------------------------------------------------------------

  /** The empty template parses to no fields, and no fields render as "". */
  lemma EmptyTemplate(when: LocalDate)
    ensures Parsed("") == Ok(DateFormat([]))
    ensures Rendered([], when) == ""
  {
  }

  /** Brace-free text is consumed as one pending literal run. */
  lemma {:induction false} ScanLiteralRun(s: string, i: nat, j: nat, anchor: Option<nat>, acc: seq<Field>)
    requires i <= j <= |s| && BraceFree(s[i..j]) && (anchor.Some? ==> anchor.value <= i)
    ensures Scan(s, i, anchor, acc) == Scan(s, j, if anchor.None? && i < j then Some(i) else anchor, acc)
    decreases j - i
  {
    if i < j {
      assert s[i..j][0] == s[i];
      assert s[i + 1..j] == s[i..j][1..];
      ScanLiteralRun(s, i + 1, j, if anchor.None? then Some(i) else anchor, acc);
    }
  }

  /** Non-empty text without braces is one literal, and renders as itself on every date. */
  lemma LiteralPassthrough(s: string, when: LocalDate)
    requires s != [] && BraceFree(s)
    ensures Parsed(s) == Ok(DateFormat([Literal(s)]))
    ensures Rendered(Parsed(s).value.fields, when) == s
  {
    assert s[0..|s|] == s;
    ScanLiteralRun(s, 0, |s|, None, []);
    assert CloseLiteral(s, |s|, Some(0), []) == [Literal(s)];
  }

  // ---------------------------------------------------------------------------
  // Shape of a successful parse
  // ---------------------------------------------------------------------------

  lemma {:induction false} ScanWellFormed(s: string, i: nat, anchor: Option<nat>, acc: seq<Field>)
    requires i <= |s|
    requires anchor.Some? ==> anchor.value < i && BraceFree(s[anchor.value..i])
    requires WellFormed(acc) && EndsOutsideLiteral(acc)
    ensures Scan(s, i, anchor, acc).Ok? ==> WellFormed(Scan(s, i, anchor, acc).value)
    decreases |s| - i
  {
    if i == |s| {
      if anchor.Some? {
        WellFormedAppend(acc, Literal(s[anchor.value..i]));
      }
    } else if s[i] == '{' {
      var acc1 := CloseLiteral(s, i, anchor, acc);
      if anchor.Some? {
        WellFormedAppend(acc, Literal(s[anchor.value..i]));
      }
      match ScanDirective(s, i + 1, i, None)
      case Err(_) =>
      case Ok((f, j)) =>
        WellFormedAppend(acc1, f);
        ScanWellFormed(s, j, None, acc1 + [f]);
    } else if s[i] == '}' {
    } else {
      var a := if anchor.None? then i else anchor.value;
      assert s[a..i] == [] || anchor.Some?;
      BraceFreeExtend(s, a, i);
      ScanWellFormed(s, i + 1, Some(a), acc);
    }
  }

  /**
   * Every literal the parser produces is non-empty and brace-free, no two
   * literals are adjacent, and every other field is one a kind letter selects
   * (never a short month or weekday name).
   */
  lemma ParsedWellFormed(s: string)
    ensures Parsed(s).Ok? ==> WellFormed(Parsed(s).value.fields)
    ensures Parsed(s).Ok? ==> forall k :: 0 <= k < |Parsed(s).value.fields| ==>
      Parsed(s).value.fields[k] != MonthName(false) && Parsed(s).value.fields[k] != WeekdayName(false)
  {
    ScanWellFormed(s, 0, None, []);
  }

  // ---------------------------------------------------------------------------
  // Directives
  // ---------------------------------------------------------------------------
  /** "{:k0:k1...:kn}" is accepted and yields the field of the last kind letter. */
  lemma LastKindWins(ks: seq<char>)
    requires ks != [] && AllKinds(ks)
    ensures Parsed(['{'] + Pairs(ks) + ['}']) == Ok(DateFormat([KindField(ks[|ks| - 1]).value]))
  {
    var s := ['{'] + Pairs(ks) + ['}'];
    var n := 1 + 2 * |ks|;
    assert s[0] == '{' && s[1..n] == Pairs(ks) && s[n] == '}' && |s| == n + 1;
    ScanDirectiveOverPairs(s, 1, 0, None, ks);
    var f := KindField(ks[|ks| - 1]).value;
    assert ScanDirective(s, n, 0, LastKind(ks, None)) == Ok((f, n + 1));
    ScanDirectiveStep(s, 0, None, []);
    assert CloseLiteral(s, 0, None, []) + [f] == [f];
    assert Scan(s, n + 1, None, [f]) == Ok([f]);
    assert Scan(s, 0, None, []) == Ok([f]);
  }

  // ---------------------------------------------------------------------------
  // Positioned errors after a template prefix that parses
  // ---------------------------------------------------------------------------

  /** A directive error met right after a valid prefix is the error of the whole parse. */
  lemma DirectiveErrorAfterPrefix(p: string, r: string)
    requires Parsed(p).Ok? && r != [] && r[0] == '{'
    requires ScanDirective(p + r, |p| + 1, |p|, None).Err?
    ensures Parsed(p + r) == Err(ScanDirective(p + r, |p| + 1, |p|, None).error)
  {
    var a, acc := ScanPrefix(p, r, 0, None, []);
    var s := p + r;
    assert s[|p|] == r[0];
    ScanDirectiveStep(s, |p|, a, acc);
  }

  /** A '}' outside a directive is reported at its own offset, whatever follows it. */
  lemma StrayCloseBraceReported(p: string, q: string)
    requires Parsed(p).Ok?
    ensures Parsed(p + ['}'] + q) == Err(CloseCurlyBrace(Utf8Len(p)))
  {
    var r := ['}'] + q;
    var s := p + r;
    assert p + ['}'] + q == s;
    var a, acc := ScanPrefix(p, r, 0, None, []);
    assert s[|p|] == '}' && s[..|p|] == p;
  }

  /** A '{' whose directive runs to the end of the input is reported at the '{'. */
  lemma UnclosedBraceReported(p: string, ks: seq<char>, colon: bool)
    requires Parsed(p).Ok? && AllKinds(ks)
    ensures Parsed(p + ['{'] + Pairs(ks) + (if colon then [':'] else [])) == Err(OpenCurlyBrace(Utf8Len(p)))
  {
    var tail: string := if colon then [':'] else [];
    var r := ['{'] + Pairs(ks) + tail;
    var s := p + r;
    var n := |p| + 1 + 2 * |ks|;
    UnclosedLayout(p, ks, colon);
    ScanDirectiveOverPairs(s, |p| + 1, |p|, None, ks);
    DirectiveUnclosedAt(s, n, |p|, LastKind(ks, None), colon);
    assert Offset(s, |p|) == Utf8Len(p);
    DirectiveErrorAfterPrefix(p, r);
  }

  /** Where the pieces of `p` "{" ":k0..." [":"] sit. */
  lemma UnclosedLayout(p: string, ks: seq<char>, colon: bool)
    ensures var tail: string := if colon then [':'] else [];
      var s := p + (['{'] + Pairs(ks) + tail);
      var n := |p| + 1 + 2 * |ks|;
      && p + ['{'] + Pairs(ks) + tail == s
      && s[|p| + 1..n] == Pairs(ks) && s[..|p|] == p
      && (if colon then n + 1 == |s| && s[n] == ':' else n == |s|)
  {
    var tail: string := if colon then [':'] else [];
    var r := ['{'] + Pairs(ks) + tail;
    var s := p + r;
    var n := |p| + 1 + 2 * |ks|;
    assert r[1..1 + 2 * |ks|] == Pairs(ks);
    assert s[|p| + 1..n] == r[1..1 + 2 * |ks|];
    assert s[..|p|] == p;
  }

  /** The directive scanner reaching the end of the input, or a final ':', reports the '{'. */
  lemma DirectiveUnclosedAt(s: string, n: nat, open: nat, bit: Option<Field>, colon: bool)
    requires open < n && (if colon then n + 1 == |s| && s[n] == ':' else n == |s|)
    ensures ScanDirective(s, n, open, bit) == Err(OpenCurlyBrace(Offset(s, open)))
  {
  }

  /** A directive closed before any ':' is a missing field, reported at its '{'. */
  lemma EmptyDirectiveReported(p: string, q: string)
    requires Parsed(p).Ok?
    ensures Parsed(p + ['{', '}'] + q) == Err(MissingField(Utf8Len(p)))
  {
    var r := ['{', '}'] + q;
    var s := p + r;
    assert p + ['{', '}'] + q == s;
    assert s[|p| + 1] == '}' && s[..|p|] == p;
    assert ScanDirective(s, |p| + 1, |p|, None) == Err(MissingField(Utf8Len(p)));
    DirectiveErrorAfterPrefix(p, r);
  }

  /**
   * An unexpected character inside a directive is reported at its own offset;
   * the flag says whether it stands right after a ':'.
   */
  lemma InvalidCharReported(p: string, ks: seq<char>, afterColon: bool, c: char, q: string)
    requires Parsed(p).Ok? && AllKinds(ks)
    requires afterColon ==> KindField(c).None?
    requires !afterColon ==> c != ':' && c != '}'
    ensures var body := ['{'] + Pairs(ks) + (if afterColon then [':'] else []);
      Parsed(p + body + [c] + q) == Err(InvalidChar(c, afterColon, Utf8Len(p + body)))
  {
    var body: string := ['{'] + Pairs(ks) + (if afterColon then [':'] else []);
    var r := body + [c] + q;
    var s := p + r;
    var n := |p| + 1 + 2 * |ks|;
    InvalidCharLayout(p, ks, afterColon, c, q);
    ScanDirectiveOverPairs(s, |p| + 1, |p|, None, ks);
    DirectiveInvalidAt(s, n, |p|, LastKind(ks, None), afterColon, c);
    assert Offset(s, |p + body|) == Utf8Len(p + body);
    DirectiveErrorAfterPrefix(p, r);
  }

  /** Where the pieces of `p` "{" ":k0..." [":"] `c` `q` sit. */
  lemma InvalidCharLayout(p: string, ks: seq<char>, afterColon: bool, c: char, q: string)
    ensures var body: string := ['{'] + Pairs(ks) + (if afterColon then [':'] else []);
      var s := p + (body + [c] + q);
      var n := |p| + 1 + 2 * |ks|;
      && p + body + [c] + q == s
      && |p + body| == (if afterColon then n + 1 else n) < |s|
      && s[|p| + 1..n] == Pairs(ks) && s[..|p + body|] == p + body
      && s[|p + body|] == c && (afterColon ==> s[n] == ':')
  {
    var body: string := ['{'] + Pairs(ks) + (if afterColon then [':'] else []);
    var r := body + [c] + q;
    var s := p + r;
    var n := |p| + 1 + 2 * |ks|;
    assert r[1..1 + 2 * |ks|] == Pairs(ks);
    assert s[|p| + 1..n] == r[1..1 + 2 * |ks|];
    assert s[..|p + body|] == p + body;
  }

  /** The directive scanner stops at an unexpected character, or at one after a ':' that is no kind letter. */
  lemma DirectiveInvalidAt(s: string, n: nat, open: nat, bit: Option<Field>, afterColon: bool, c: char)
    requires open < n && (if afterColon then n + 1 else n) < |s|
    requires afterColon ==> s[n] == ':' && s[n + 1] == c && KindField(c).None?
    requires !afterColon ==> s[n] == c && c != ':' && c != '}'
    ensures ScanDirective(s, n, open, bit) == Err(InvalidChar(c, afterColon, Offset(s, if afterColon then n + 1 else n)))
  {
  }

  // ---------------------------------------------------------------------------
  // Every reported error points at a real character
  // ---------------------------------------------------------------------------

  /** What each error says about the input it was reported for. */
  ghost predicate ErrorLocated(s: string, e: FormatError) {
    match e
    case InvalidChar(c, afterColon, pos) =>
      exists k :: 0 < k < |s| && s[k] == c && Offset(s, k) == pos
        && (afterColon <==> s[k - 1] == ':')
        && (afterColon ==> KindField(c).None?)
        && (!afterColon ==> c != ':' && c != '}' && (s[k - 1] == '{' || KindField(s[k - 1]).Some?))
    case OpenCurlyBrace(pos) =>
      exists k :: 0 <= k < |s| && s[k] == '{' && Offset(s, k) == pos && BraceFree(s[k + 1..])
    case CloseCurlyBrace(pos) =>
      exists k :: 0 <= k < |s| && s[k] == '}' && Offset(s, k) == pos && Parsed(s[..k]).Ok?
    case MissingField(pos) =>
      exists k :: 0 <= k < |s| - 1 && s[k] == '{' && s[k + 1] == '}' && Offset(s, k) == pos
  }

  predicate DirectiveChar(c: char) {
    c == ':' || KindField(c).Some?
  }

  lemma {:induction false} ScanDirectiveErrorLocated(s: string, i: nat, open: nat, bit: Option<Field>)
    requires open < i <= |s| && s[open] == '{'
    requires forall m :: open < m < i ==> DirectiveChar(s[m])
    requires i == open + 1 || KindField(s[i - 1]).Some?
    requires bit.None? ==> i == open + 1
    ensures ScanDirective(s, i, open, bit).Err? ==>
      !ScanDirective(s, i, open, bit).error.CloseCurlyBrace? &&
      ErrorLocated(s, ScanDirective(s, i, open, bit).error)
    decreases |s| - i
  {
    if i == |s| || (s[i] == ':' && i + 1 == |s|) {
      forall m | open + 1 <= m < |s|
        ensures !IsBrace(s[m])
      {
        assert m < i || s[m] == ':';
      }
      assert BraceFree(s[open + 1..]);
    } else if s[i] == ':' {
      if KindField(s[i + 1]).None? {
        assert s[i + 1] == s[i + 1] && Offset(s, i + 1) == Offset(s, i + 1);
      } else {
        ScanDirectiveErrorLocated(s, i + 2, open, KindField(s[i + 1]));
      }
    } else if s[i] == '}' {
      if bit.None? {
        assert s[open + 1] == '}';
      }
    } else {
      assert s[i] == s[i] && Offset(s, i) == Offset(s, i);
    }
  }

  lemma {:induction false} ScanErrorLocated(s: string, i: nat, anchor: Option<nat>, acc: seq<Field>)
    requires i <= |s| && (anchor.Some? ==> anchor.value <= i)
    ensures Scan(s, i, anchor, acc).Err? && !Scan(s, i, anchor, acc).error.CloseCurlyBrace? ==>
      ErrorLocated(s, Scan(s, i, anchor, acc).error)
    decreases |s| - i
  {
    if i < |s| {
      if s[i] == '{' {
        var acc1 := CloseLiteral(s, i, anchor, acc);
        ScanDirectiveErrorLocated(s, i + 1, i, None);
        match ScanDirective(s, i + 1, i, None)
        case Err(_) =>
        case Ok((f, j)) => ScanErrorLocated(s, j, None, acc1 + [f]);
      } else if s[i] != '}' {
        ScanErrorLocated(s, i + 1, if anchor.None? then Some(i) else anchor, acc);
      }
    }
  }

  /** A stray '}' is reported only after a prefix that is itself a valid template. */
  lemma {:induction false} ScanCloseBraceLocated(s: string, i: nat, anchor: Option<nat>, acc: seq<Field>)
    returns (k: nat)
    requires i <= |s| && (anchor.Some? ==> anchor.value <= i)
    requires Scan(s, i, anchor, acc).Err? && Scan(s, i, anchor, acc).error.CloseCurlyBrace?
    ensures i <= k < |s| && s[k] == '}' && Offset(s, k) == Scan(s, i, anchor, acc).error.pos
    ensures Scan(s[..k], i, anchor, acc).Ok?
    decreases |s| - i
  {
    if s[i] == '}' {
      return i;
    } else if s[i] == '{' {
      var acc1 := CloseLiteral(s, i, anchor, acc);
      var (f, j) := ScanDirective(s, i + 1, i, None).value;
      k := ScanCloseBraceLocated(s, j, None, acc1 + [f]);
      var t := s[..k];
      assert t[..k] == s[..k];
      ScanDirectiveAgree(s, t, k, i + 1, i, None);
      assert t[i] == '{';
      assert anchor.Some? ==> t[anchor.value..i] == s[anchor.value..i];
    } else {
      k := ScanCloseBraceLocated(s, i + 1, if anchor.None? then Some(i) else anchor, acc);
      assert s[..k][i] == s[i];
    }
  }

  /**
   * Every error is located at a character of the input: the offending
   * character, the '{' of the directive concerned, or the stray '}' (which
   * follows a valid template prefix, so it is the first stray '}').
   */
  lemma ParsedErrorLocated(s: string)
    ensures Parsed(s).Err? ==> ErrorLocated(s, Parsed(s).error)
  {
    if Parsed(s).Err? {
      if Parsed(s).error.CloseCurlyBrace? {
        var k := ScanCloseBraceLocated(s, 0, None, []);
        assert Parsed(s[..k]).Ok?;
      } else {
        ScanErrorLocated(s, 0, None, []);
      }
    }
  }

  // ---------------------------------------------------------------------------
  // Canonical text
  // ---------------------------------------------------------------------------

  lemma {:induction false} UnparseConcat(a: seq<Field>, b: seq<Field>)
    ensures Unparse(a + b) == Unparse(a) + Unparse(b)
    decreases |a|
  {
    if a == [] {
      assert a + b == b;
    } else {
      assert (a + b)[0] == a[0] && (a + b)[1..] == a[1..] + b;
      UnparseConcat(a[1..], b);
    }
  }

  /** One directive of canonical text, given how the text after it scans. */
  lemma ScanDirectiveTextThen(s: string, i: nat, anchor: Option<nat>, acc: seq<Field>, fields: seq<Field>)
    requires fields != [] && IsDirective(fields[0])
    requires i + 4 <= |s| && s[i..i + 4] == UnparseField(fields[0])
    requires anchor.Some? ==> anchor.value <= i
    requires Scan(s, i + 4, None, CloseLiteral(s, i, anchor, acc) + [fields[0]]) ==
      Ok(CloseLiteral(s, i, anchor, acc) + [fields[0]] + fields[1..])
    ensures Scan(s, i, anchor, acc) == Ok(CloseLiteral(s, i, anchor, acc) + fields)
  {
    ScanDirectiveText(s, i, anchor, acc, fields[0]);
    assert CloseLiteral(s, i, anchor, acc) + [fields[0]] + fields[1..] == CloseLiteral(s, i, anchor, acc) + fields;
  }

  lemma ScanDirectiveText(s: string, i: nat, anchor: Option<nat>, acc: seq<Field>, f: Field)
    requires IsDirective(f) && i + 4 <= |s| && s[i..i + 4] == UnparseField(f)
    requires anchor.Some? ==> anchor.value <= i
    ensures Scan(s, i, anchor, acc) == Scan(s, i + 4, None, CloseLiteral(s, i, anchor, acc) + [f])
  {
    assert s[i] == s[i..i + 4][0] == '{' && s[i + 1] == s[i..i + 4][1] == ':';
    assert s[i + 2] == s[i..i + 4][2] && s[i + 3] == s[i..i + 4][3] == '}';
    assert KindField(s[i + 2]) == Some(f);
    assert ScanDirective(s, i + 3, i, Some(f)) == Ok((f, i + 4));
    assert ScanDirective(s, i + 1, i, None) == Ok((f, i + 4));
    ScanDirectiveStep(s, i, anchor, acc);
  }

  lemma CloseLiteralText(s: string, i: nat, j: nat, acc: seq<Field>, fields: seq<Field>)
    requires fields != [] && fields[0].Literal? && i <= j <= |s| && s[i..j] == fields[0].text
    ensures CloseLiteral(s, j, Some(i), acc) + fields[1..] == acc + fields
  {
    assert CloseLiteral(s, j, Some(i), acc) == acc + [fields[0]];
    assert fields == [fields[0]] + fields[1..];
  }

  /** One literal field of canonical text, given how the text after it scans. */
  lemma ScanLiteralText(s: string, i: nat, acc: seq<Field>, fields: seq<Field>)
    requires fields != [] && fields[0].Literal? && ValidField(fields[0])
    requires i + |fields[0].text| <= |s| && s[i..i + |fields[0].text|] == fields[0].text
    requires Scan(s, i + |fields[0].text|, Some(i), acc) ==
      Ok(CloseLiteral(s, i + |fields[0].text|, Some(i), acc) + fields[1..])
    ensures Scan(s, i, None, acc) == Ok(acc + fields)
  {
    var j := i + |fields[0].text|;
    ScanLiteralRun(s, i, j, None, acc);
    CloseLiteralText(s, i, j, acc, fields);
  }

  lemma WellFormedCons(fields: seq<Field>)
    requires WellFormed(fields) && fields != []
    ensures ValidField(fields[0]) && WellFormed(fields[1..])
    ensures |fields| > 1 && fields[0].Literal? ==> !fields[1].Literal?
  {
    var rest := fields[1..];
    assert ValidField(fields[0]);
    forall j, k | 0 <= j < k < |rest| && k == j + 1
      ensures !(rest[j].Literal? && rest[k].Literal?)
    {
      assert rest[j] == fields[j + 1] && rest[k] == fields[k + 1];
    }
    if |fields| > 1 {
      assert !(fields[0].Literal? && fields[1].Literal?);
    }
  }

  lemma UnparseSplit(s: string, i: nat, fields: seq<Field>)
    requires fields != [] && i <= |s| && s[i..] == Unparse(fields)
    ensures i + |UnparseField(fields[0])| <= |s|
    ensures s[i..i + |UnparseField(fields[0])|] == UnparseField(fields[0])
    ensures s[i + |UnparseField(fields[0])|..] == Unparse(fields[1..])
  {
    var n := |UnparseField(fields[0])|;
    assert Unparse(fields) == UnparseField(fields[0]) + Unparse(fields[1..]);
    assert s[i..i + n] == s[i..][..n];
    assert s[i + n..] == s[i..][n..];
  }

  /**
   * Scanning the canonical text of `fields` from index `i`, with a pending
   * literal run only where the next field is not a literal, yields the fields
   * produced so far followed by `fields`.
   */
  lemma {:induction false} ScanUnparse(s: string, i: nat, anchor: Option<nat>, acc: seq<Field>, fields: seq<Field>)
    requires WellFormed(fields) && i <= |s| && s[i..] == Unparse(fields)
    requires anchor.Some? ==> anchor.value <= i && (fields == [] || !fields[0].Literal?)
    ensures Scan(s, i, anchor, acc) == Ok(CloseLiteral(s, i, anchor, acc) + fields)
    decreases |fields|, 1
  {
    if fields == [] {
      assert |s[i..]| == 0;
      ScanAtEnd(s, anchor, acc);
      assert CloseLiteral(s, i, anchor, acc) + fields == CloseLiteral(s, i, anchor, acc);
    } else if fields[0].Literal? {
      ScanUnparseLiteral(s, i, acc, fields);
    } else {
      ScanUnparseDirective(s, i, anchor, acc, fields);
    }
  }

  lemma {:induction false} ScanUnparseLiteral(s: string, i: nat, acc: seq<Field>, fields: seq<Field>)
    requires WellFormed(fields) && fields != [] && fields[0].Literal?
    requires i <= |s| && s[i..] == Unparse(fields)
    ensures Scan(s, i, None, acc) == Ok(acc + fields)
    decreases |fields|, 0
  {
    WellFormedCons(fields);
    UnparseSplit(s, i, fields);
    assert UnparseField(fields[0]) == fields[0].text;
    ScanUnparse(s, i + |fields[0].text|, Some(i), acc, fields[1..]);
    ScanLiteralText(s, i, acc, fields);
  }

  lemma {:induction false} ScanUnparseDirective(s: string, i: nat, anchor: Option<nat>, acc: seq<Field>, fields: seq<Field>)
    requires WellFormed(fields) && fields != [] && !fields[0].Literal?
    requires i <= |s| && s[i..] == Unparse(fields) && (anchor.Some? ==> anchor.value <= i)
    ensures Scan(s, i, anchor, acc) == Ok(CloseLiteral(s, i, anchor, acc) + fields)
    decreases |fields|, 0
  {
    WellFormedCons(fields);
    UnparseSplit(s, i, fields);
    var closed := CloseLiteral(s, i, anchor, acc);
    ScanUnparse(s, i + 4, None, closed + [fields[0]], fields[1..]);
    ScanDirectiveTextThen(s, i, anchor, acc, fields);
  }

  /** The canonical text of any well-formed field sequence parses back to it. */
  lemma ParseUnparse(fields: seq<Field>)
    requires WellFormed(fields)
    ensures Parsed(Unparse(fields)) == Ok(DateFormat(fields))
  {
    var s := Unparse(fields);
    assert s[0..] == s;
    ScanUnparse(s, 0, None, [], fields);
    assert [] + fields == fields;
  }

  /** Re-parsing the canonical text of a parsed template gives the same template. */
  lemma ParsedCanonical(s: string)
    requires Parsed(s).Ok?
    ensures Parsed(Unparse(Parsed(s).value.fields)) == Parsed(s)
  {
    ParsedWellFormed(s);
    ParseUnparse(Parsed(s).value.fields);
  }

  // ---------------------------------------------------------------------------
  // Rendering
  // ---------------------------------------------------------------------------

  /** Templates compose: rendering a concatenation concatenates the renderings. */
  lemma FormatConcat(a: DateFormat, b: DateFormat, when: LocalDate)
    ensures Rendered(a.fields + b.fields, when) == Rendered(a.fields, when) + Rendered(b.fields, when)
  {
    RenderedConcat(a.fields, b.fields, when);
  }

  /**
   * The numeric fields write the date's numbers in decimal, a minus sign first
   * for a negative one: reading the text back gives the number.
   */
  lemma NumbersReadBack(when: LocalDate)
    ensures RenderField(Year, when) != [] && SignedValue(RenderField(Year, when)) == when.year
    ensures RenderField(YearOfCentury, when) != [] && SignedValue(RenderField(YearOfCentury, when)) == when.yearOfCentury
    ensures RenderField(Day, when) != [] && SignedValue(RenderField(Day, when)) == when.day
  {
    IntToDecimalRoundTrip(when.year);
    IntToDecimalRoundTrip(when.yearOfCentury);
    IntToDecimalRoundTrip(when.day);
  }

  /** A short month or weekday name is the first three characters of the long one. */
  lemma ShortNamesAbbreviate(when: LocalDate)
    ensures RenderField(MonthName(false), when) == RenderField(MonthName(true), when)[..3]
    ensures RenderField(WeekdayName(false), when) == RenderField(WeekdayName(true), when)[..3]
  {
  }

  /** The name tables are one-to-one: a name identifies its month or weekday. */
  lemma NamesIdentify(m1: Month, m2: Month, d1: Weekday, d2: Weekday)
    ensures LongMonthName(m1) == LongMonthName(m2) ==> m1 == m2
    ensures ShortMonthName(m1) == ShortMonthName(m2) ==> m1 == m2
    ensures LongDayName(d1) == LongDayName(d2) ==> d1 == d2
    ensures ShortDayName(d1) == ShortDayName(d2) ==> d1 == d2
  {
  }
}
