/**
 * The date-template compiler: a format string such as "{:Y}-{:M}-{:D}" is
 * parsed into a sequence of fields, which is then rendered against a date.
 *
 * The parser is a single pass over the (byte offset, character) pairs of the
 * input. Runs of plain text become `Literal` fields; a directive "{:X}" becomes
 * the field its kind letter names. Errors carry the UTF-8 byte offset of the
 * character they are about.
 *
 * The reference definition of parsing is the pair of functions `Scan` and
 * `ScanDirective` below, stated over character indices. The `FormatParser`
 * class is the scanner itself, advancing an iterator and pushing fields in
 * place; its methods are proved to compute what those functions describe.
 */
module Format {

  import opened Wrappers
  import opened Utf8
  import opened Local
  import opened Decimal

  /** One unit of a parsed template. */
  datatype Field =
    | Literal(text: string)
    | Year
    | YearOfCentury
    | MonthName(long: bool)
    | Day
    | WeekdayName(long: bool)

  /** A parsed template: its fields in output order. */
  datatype DateFormat = DateFormat(fields: seq<Field>)

  /** A parse error and the byte offset it is reported at. */
  datatype FormatError =
    | InvalidChar(c: char, afterColon: bool, pos: nat)
    | OpenCurlyBrace(pos: nat)
    | CloseCurlyBrace(pos: nat)
    | MissingField(pos: nat)

  // ---------------------------------------------------------------------------
  // Name tables
  // ---------------------------------------------------------------------------

  function LongMonthName(month: Month): (name: string)
    ensures |name| >= 3
  {
    match month
    case January => "January"     case February => "February"
    case March => "March"         case April => "April"
    case May => "May"             case June => "June"
    case July => "July"           case August => "August"
    case September => "September" case October => "October"
    case November => "November"   case December => "December"
  }

  function ShortMonthName(month: Month): (name: string)
    ensures name == LongMonthName(month)[..3]
  {
    match month
    case January => "Jan"   case February => "Feb"
    case March => "Mar"     case April => "Apr"
    case May => "May"       case June => "Jun"
    case July => "Jul"      case August => "Aug"
    case September => "Sep" case October => "Oct"
    case November => "Nov"  case December => "Dec"
  }

  function LongDayName(day: Weekday): (name: string)
    ensures |name| >= 3
  {
    match day
    case Monday => "Monday"       case Tuesday => "Tuesday"
    case Wednesday => "Wednesday" case Thursday => "Thursday"
    case Friday => "Friday"       case Saturday => "Saturday"
    case Sunday => "Sunday"
  }

  function ShortDayName(day: Weekday): (name: string)
    ensures name == LongDayName(day)[..3]
  {
    match day
    case Monday => "Mon"    case Tuesday => "Tue"
    case Wednesday => "Wed" case Thursday => "Thu"
    case Friday => "Fri"    case Saturday => "Sat"
    case Sunday => "Sun"
  }

  // ---------------------------------------------------------------------------
  // Formatting
  // ---------------------------------------------------------------------------

  /** `Field::format`: the text one field contributes for the date `when`. */
  function RenderField(f: Field, when: LocalDate): string {
    match f
    case Literal(s) => s
    case Year => IntToDecimal(when.year)
    case YearOfCentury => IntToDecimal(when.yearOfCentury)
    case MonthName(long) => if long then LongMonthName(when.month) else ShortMonthName(when.month)
    case Day => IntToDecimal(when.day)
    case WeekdayName(long) => if long then LongDayName(when.weekday) else ShortDayName(when.weekday)
  }

  /** The output of a field sequence: each field's text, in order. */
  function Rendered(fields: seq<Field>, when: LocalDate): string {
    if fields == [] then "" else RenderField(fields[0], when) + Rendered(fields[1..], when)
  }

  lemma {:induction false} RenderedConcat(a: seq<Field>, b: seq<Field>, when: LocalDate)
    ensures Rendered(a + b, when) == Rendered(a, when) + Rendered(b, when)
    decreases |a|
  {
    if a == [] {
      assert a + b == b;
    } else {
      assert (a + b)[0] == a[0] && (a + b)[1..] == a[1..] + b;
      RenderedConcat(a[1..], b, when);
    }
  }

  /** `DateFormat::format`: writes every field, in order, into one output buffer. */
  method Format(df: DateFormat, when: LocalDate) returns (out: string)
    ensures out == Rendered(df.fields, when)
  {
    var buf := "";
    for i := 0 to |df.fields|
      invariant buf == Rendered(df.fields[..i], when)
    {
      var bit := df.fields[i];
      assert df.fields[..i + 1] == df.fields[..i] + [bit];
      RenderedConcat(df.fields[..i], [bit], when);
      buf := buf + RenderField(bit, when);
    }
    assert df.fields[..|df.fields|] == df.fields;
    out := buf;
  }

  // ---------------------------------------------------------------------------
  // Parsing: the reference definition
  // ---------------------------------------------------------------------------

  /** The fields a directive can produce. */
  predicate IsDirective(f: Field) {
    f == Year || f == YearOfCentury || f == MonthName(true) || f == Day || f == WeekdayName(true)
  }

  /** The kind letter that may follow ':' inside a directive, and the field it selects. */
  function KindField(c: char): (f: Option<Field>)
    ensures f.Some? <==> (c == 'Y' || c == 'y' || c == 'M' || c == 'D' || c == 'E')
    ensures f.Some? ==> IsDirective(f.value)
  {
    match c
    case 'Y' => Some(Year)
    case 'y' => Some(YearOfCentury)
    case 'M' => Some(MonthName(true))
    case 'D' => Some(Day)
    case 'E' => Some(WeekdayName(true))
    case _ => None
  }

  /**
   * The rest of a directive whose '{' is at index `open`, scanned from index `i`,
   * with `bit` the field chosen so far. On success: the field and the index just
   * past the closing '}'.
   */
  function ScanDirective(s: string, i: nat, open: nat, bit: Option<Field>): (r: Result<(Field, nat), FormatError>)
    requires open < i <= |s|
    ensures r.Ok? ==> i < r.value.1 <= |s| && s[r.value.1 - 1] == '}'
    ensures r.Ok? ==> forall m :: i <= m < r.value.1 - 1 ==> s[m] != '}'
    ensures r.Ok? && (bit.None? || IsDirective(bit.value)) ==> IsDirective(r.value.0)
    ensures r.Err? ==> !r.error.CloseCurlyBrace?
    decreases |s| - i
  {
    if i == |s| then Err(OpenCurlyBrace(Offset(s, open)))
    else if s[i] == ':' then
      if i + 1 == |s| then Err(OpenCurlyBrace(Offset(s, open)))
      else match KindField(s[i + 1])
        case None => Err(InvalidChar(s[i + 1], true, Offset(s, i + 1)))
        case Some(f) => ScanDirective(s, i + 2, open, Some(f))
    else if s[i] == '}' then
      match bit
      case Some(b) => Ok((b, i + 1))
      case None => Err(MissingField(Offset(s, open)))
    else Err(InvalidChar(s[i], false, Offset(s, i)))
  }

  /** The fields produced so far, with the pending literal run s[anchor..i] (if any) closed. */
  function CloseLiteral(s: string, i: nat, anchor: Option<nat>, acc: seq<Field>): seq<Field>
    requires i <= |s| && (anchor.Some? ==> anchor.value <= i)
  {
    if anchor.Some? then acc + [Literal(s[anchor.value..i])] else acc
  }

  /**
   * The template from index `i` on, given the start of the pending literal run
   * (`anchor`) and the fields already produced (`acc`).
   */
  function Scan(s: string, i: nat, anchor: Option<nat>, acc: seq<Field>): Result<seq<Field>, FormatError>
    requires i <= |s| && (anchor.Some? ==> anchor.value <= i)
    decreases |s| - i
  {
    if i == |s| then
      Ok(CloseLiteral(s, i, anchor, acc))
    else if s[i] == '{' then
      match ScanDirective(s, i + 1, i, None)
      case Err(e) => Err(e)
      case Ok((f, j)) => Scan(s, j, None, CloseLiteral(s, i, anchor, acc) + [f])
    else if s[i] == '}' then
      Err(CloseCurlyBrace(Offset(s, i)))
    else
      Scan(s, i + 1, if anchor.None? then Some(i) else anchor, acc)
  }

  /** What `DateFormat::parse` returns for `input`. */
  function Parsed(input: string): Result<DateFormat, FormatError> {
    match Scan(input, 0, None, [])
    case Ok(fields) => Ok(DateFormat(fields))
    case Err(e) => Err(e)
  }

  // ---------------------------------------------------------------------------
  // Parsing: the scanner
  // ---------------------------------------------------------------------------

  /**
   * `FormatParser`: the input, the position of its `char_indices` iterator
   * (`cursor`, in characters, and `front`, the byte offset the iterator reports
   * next), and the fields pushed so far.
   */
  class FormatParser {
    const input: string
    var cursor: nat
    var front: nat
    var fields: seq<Field>

    ghost predicate Valid()
      reads this
    {
      cursor <= |input| && front == Offset(input, cursor)
    }

    constructor (input: string)
      ensures Valid()
      ensures this.input == input && cursor == 0 && fields == []
    {
      this.input := input;
      cursor := 0;
      front := 0;
      fields := [];
    }

    /** `next`: the next (byte offset, character) pair, or None at the end. */
    method Next() returns (r: Option<(nat, char)>)
      requires Valid()
      modifies this`cursor, this`front
      ensures Valid()
      ensures old(cursor) < |input| ==>
        cursor == old(cursor) + 1 && r == Some((Offset(input, old(cursor)), input[old(cursor)]))
      ensures old(cursor) == |input| ==> cursor == old(cursor) && r == None
    {
      if cursor < |input| {
        var c := input[cursor];
        r := Some((front, c));
        OffsetStep(input, cursor);
        front := front + Width(c);
        cursor := cursor + 1;
      } else {
        r := None;
      }
    }

    /**
     * `get_input_slice`: a literal over bytes `from` up to `to`, or to the end
     * when `to` is None.
     */
    function GetInputSlice(from: nat, to: Option<nat>): (f: Field)
      reads this
      requires IsCharBoundary(input, from)
      requires to.Some? ==> from <= to.value && IsCharBoundary(input, to.value)
      ensures f.Literal?
      ensures to.Some? ==> Utf8Len(f.text) == to.value - from
      ensures to.None? ==> Utf8Len(f.text) == Utf8Len(input) - from
    {
      match to
      case None => Literal(SliceFrom(input, from))
      case Some(n) => Literal(Slice(input, from, n))
    }

    /**
     * At the byte offsets of characters i and j (or i and the end), the literal
     * `get_input_slice` builds holds exactly the characters between them.
     */
    lemma GetInputSliceAtOffsets(i: nat, j: Option<nat>)
      requires i <= |input| && (j.Some? ==> i <= j.value <= |input|)
      ensures IsCharBoundary(input, Offset(input, i))
      ensures j.Some? ==> Offset(input, i) <= Offset(input, j.value) && IsCharBoundary(input, Offset(input, j.value))
      ensures j.Some? ==> GetInputSlice(Offset(input, i), Some(Offset(input, j.value))) == Literal(input[i..j.value])
      ensures j.None? ==> GetInputSlice(Offset(input, i), None) == Literal(input[i..])
    {
      if j.Some? {
        SliceAtOffsets(input, i, j.value);
      } else {
        SliceFromOffset(input, i);
      }
    }

    /**
     * `parse_format_string`: scans to the end of the input, pushing literal and
     * directive fields, or stops at the first error. After an error the contract says
     * nothing of `fields`: the source keeps the fields already pushed, and
     * `Parse` discards them.
     */
    method ParseFormatString() returns (r: Result<(), FormatError>)
      requires Valid()
      modifies this`cursor, this`front, this`fields
      ensures Valid()
      ensures Scan(input, old(cursor), None, old(fields)).Ok? ==>
        r == Ok(()) && fields == Scan(input, old(cursor), None, old(fields)).value
      ensures Scan(input, old(cursor), None, old(fields)).Err? ==>
        r == Err(Scan(input, old(cursor), None, old(fields)).error)
    {
      ghost var spec := Scan(input, cursor, None, fields);
      var anchor: Option<nat> := None;
      ghost var anchorIndex: Option<nat> := None;
      while true
        invariant Valid()
        invariant anchorIndex.Some? ==> anchorIndex.value < cursor
        invariant anchor == if anchorIndex.Some? then Some(Offset(input, anchorIndex.value)) else None
        invariant Scan(input, cursor, anchorIndex, fields) == spec
        decreases |input| - cursor
      {
        ghost var i := cursor;
        var item := Next();
        match item
        case Some((newPos, '{')) =>
          ghost var closed := CloseLiteral(input, i, anchorIndex, fields);
          if anchor.Some? {
            var pos := anchor.value;
            anchor := None;
            SliceAtOffsets(input, anchorIndex.value, i);
            var field := Literal(Slice(input, pos, newPos));
            fields := fields + [field];
            anchorIndex := None;
          }
          assert fields == closed;
          var field := ParseAThing(newPos, i);
          if field.Err? {
            return Err(field.error);
          }
          fields := fields + [field.value];
        case Some((pos, '}')) =>
          return Err(CloseCurlyBrace(pos));
        case Some((pos, c)) =>
          if anchor.None? {
            anchor := Some(pos);
            anchorIndex := Some(i);
          }
        case None =>
          break;
      }
      assert cursor == |input|;
      if anchor.Some? {
        SliceFromOffset(input, anchorIndex.value);
        var field := Literal(SliceFrom(input, anchor.value));
        assert input[anchorIndex.value..] == input[anchorIndex.value..cursor];
        fields := fields + [field];
      }
      r := Ok(());
    }

    /**
     * `parse_a_thing`: the directive whose '{' is at byte offset
     * `openBracePosition` (character index `openIndex`), up to its '}'.
     */
    method ParseAThing(openBracePosition: nat, ghost openIndex: nat) returns (r: Result<Field, FormatError>)
      requires Valid() && openIndex < cursor && openBracePosition == Offset(input, openIndex)
      modifies this`cursor, this`front
      ensures Valid() && old(cursor) <= cursor
      ensures ScanDirective(input, old(cursor), openIndex, None).Ok? ==>
        var (f, j) := ScanDirective(input, old(cursor), openIndex, None).value;
        r == Ok(f) && cursor == j
      ensures ScanDirective(input, old(cursor), openIndex, None).Err? ==>
        r == Err(ScanDirective(input, old(cursor), openIndex, None).error)
    {
      ghost var spec := ScanDirective(input, cursor, openIndex, None);
      var bit: Option<Field> := None;
      while true
        invariant Valid() && openIndex < cursor && old(cursor) <= cursor
        invariant ScanDirective(input, cursor, openIndex, bit) == spec
        decreases |input| - cursor
      {
        var item := Next();
        match item
        case Some((pos, ':')) =>
          var kind := Next();
          match kind {
            case Some((pos', c)) =>
              var bitlet := KindField(c);
              if bitlet.None? {
                return Err(InvalidChar(c, true, pos'));
              }
              bit := bitlet;
            case None =>
              return Err(OpenCurlyBrace(openBracePosition));
          }
        case Some((_, '}')) =>
          break;
        case Some((pos, c)) =>
          return Err(InvalidChar(c, false, pos));
        case None =>
          return Err(OpenCurlyBrace(openBracePosition));
      }
      match bit
      case Some(b) =>
        return Ok(b);
      case None =>
        return Err(MissingField(openBracePosition));
    }
  }

  /** `DateFormat::parse`: runs a fresh scanner over the whole input. */
  method Parse(input: string) returns (r: Result<DateFormat, FormatError>)
    ensures r == Parsed(input)
  {
    var parser := new FormatParser(input);
    var outcome := parser.ParseFormatString();
    if outcome.Err? {
      return Err(outcome.error);
    }
    return Ok(DateFormat(parser.fields));
  }
}
