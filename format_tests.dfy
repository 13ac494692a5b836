/**
 * The unit tests of the template compiler (src/format.rs, `mod test`), stated
 * as facts about the reference definition `Format.Parsed`, together with a few
 * more inputs that pin down the error path and the formatter.
 */
module FormatTests {

  import opened Wrappers
  import opened Utf8
  import opened Local
  import opened Decimal
  import opened Format
  import opened FormatProperties

  lemma EmptyString()
    ensures Parsed("") == Ok(DateFormat([]))
  {
  }

  lemma EntirelyLiteral()
    ensures Parsed("Date!") == Ok(DateFormat([Literal("Date!")]))
  {
    LiteralPassthrough("Date!", LocalDate(0, 0, January, 1, Monday));
  }

  lemma SingleElement()
    ensures Parsed("{:Y}") == Ok(DateFormat([Year]))
  {
    assert Unparse([Year]) == "{:Y}";
    ParseUnparse([Year]);
  }

  lemma TwoLongYears()
    ensures Parsed("{:Y}{:Y}") == Ok(DateFormat([Year, Year]))
  {
    assert Unparse([Year, Year]) == "{:Y}{:Y}";
    ParseUnparse([Year, Year]);
  }

  lemma Surrounded()
    ensures Parsed("({:D})") == Ok(DateFormat([Literal("("), Day, Literal(")")]))
  {
    var fields := [Literal("("), Day, Literal(")")];
    assert Unparse(fields) == "({:D})";
    ParseUnparse(fields);
  }

  lemma ABunchOfElements()
    ensures Parsed("{:Y}-{:M}-{:D}") ==
      Ok(DateFormat([Year, Literal("-"), MonthName(true), Literal("-"), Day]))
  {
    var fields := [Year, Literal("-"), MonthName(true), Literal("-"), Day];
    assert Unparse(fields) == "{:Y}-{:M}-{:D}";
    ParseUnparse(fields);
  }

  lemma MissingFieldError()
    ensures Parsed("{}") == Err(MissingField(0))
  {
  }

  lemma InvalidCharError()
    ensures Parsed("{7}") == Err(InvalidChar('7', false, 1))
  {
  }

  lemma InvalidCharAfterColon()
    ensures Parsed("{:7}") == Err(InvalidChar('7', true, 2))
  {
  }

  lemma OpenCurlyBraceError()
    ensures Parsed("{") == Err(OpenCurlyBrace(0))
  {
  }

  lemma MysteryCloseBrace()
    ensures Parsed("}") == Err(CloseCurlyBrace(0))
  {
  }

  lemma AnotherMysteryCloseBrace()
    ensures Parsed("This is a test: }") == Err(CloseCurlyBrace(16))
  {
    TextThenStrayBrace("This is a test: }", "This is a test: ");
  }

  /** ASCII text without braces followed by '}' fails at that '}', whose offset is the text's length. */
  lemma TextThenStrayBrace(s: string, p: string)
    requires s == p + ['}'] && p != [] && BraceFree(p) && IsAscii(p)
    ensures Parsed(s) == Err(CloseCurlyBrace(|p|))
  {
    LiteralPassthrough(p, LocalDate(0, 0, January, 1, Monday));
    StrayCloseBraceReported(p, []);
    assert p + ['}'] + [] == s;
    AsciiUtf8Len(p);
  }

  /** No escaping: "{{" is a '{' where a ':' or '}' must follow. */
  lemma NoEscapingOpen()
    ensures Parsed("{{") == Err(InvalidChar('{', false, 1))
  {
  }

  /** No escaping: "}}" fails at its first '}'. */
  lemma NoEscapingClose()
    ensures Parsed("}}") == Err(CloseCurlyBrace(0))
  {
  }

  /** A colon must be followed by a kind letter. */
  lemma ColonThenClose()
    ensures Parsed("{:}") == Err(InvalidChar('}', true, 2))
  {
  }

  /** Later kinds overwrite earlier ones inside one directive. */
  lemma LaterKindOverwrites()
    ensures Parsed("{:Y:M}") == Ok(DateFormat([MonthName(true)]))
  {
    LastKindWins("YM");
    assert ['{'] + Pairs("YM") + ['}'] == "{:Y:M}";
  }

  /** Positions are byte offsets: "é" takes two bytes before the stray '}'. */
  lemma ByteOffsets()
    ensures Parsed("é}") == Err(CloseCurlyBrace(2))
  {
  }

  /** Formatting the parsed ISO-like template on 7 March 2015. */
  lemma FormatOneDate()
    ensures Rendered([Year, Literal("-"), MonthName(true), Literal("-"), Day],
                     LocalDate(2015, 15, March, 7, Saturday)) == "2015-March-7"
  {
    var when := LocalDate(2015, 15, March, 7, Saturday);
    assert NatToDecimal(20) == "20";
    assert NatToDecimal(2015) == "2015";
    assert RenderField(Year, when) == "2015";
    assert RenderField(Day, when) == "7";
    assert RenderField(MonthName(true), when) == "March";
    assert "2015" + "-" + ("March" + ("-" + ("7" + ""))) == "2015-March-7";
  }
}
