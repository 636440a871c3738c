/**
 * The behaviour the reader's unit tests describe, on the same inputs.
 */
module BooksExamples {
  import opened Strings
  import opened BookModel
  import opened Books
  import opened BooksProperties

  /** `F`, `L`, `T`, `D`: the record every parsing test expects. */
  const Expected := Book("F", "L", "T", "D")

  const Slash: Separator := '/'
  const Pipe: Separator := '|'
  const Comma: Separator := ','

  /** A line that joins four separator-free pieces on `d` splits back into them. */
  lemma SplitFour(d: Separator, a: string, b: string, c: string, e: string)
    requires d !in a && d !in b && d !in c && d !in e
    ensures Split(a + [d] + (b + [d] + (c + [d] + e)), d) == [a, b, c, e]
  {
    var p := [a, b, c, e];
    assert p[1..] == [b, c, e] && p[1..][1..] == [c, e] && p[1..][1..][1..] == [e];
    assert Join(p[1..][1..], [d]) == c + [d] + e;
    assert Join(p[1..], [d]) == b + [d] + (c + [d] + e);
    SplitJoin(p, d);
  }

  /** A line of four separator-free pieces parses to their strips, in the separator's field order. */
  lemma FourPiecesParse(d: Separator, a: string, b: string, c: string, e: string)
    requires d !in a && d !in b && d !in c && d !in e
    ensures ParseWith(d, a + [d] + (b + [d] + (c + [d] + e))) == Success(
      if d == '|' then Book(Strip(a), Strip(b), Strip(c), Strip(e))
      else if d == '/' then Book(Strip(b), Strip(c), Strip(e), Strip(a))
      else Book(Strip(c), Strip(b), Strip(a), Strip(e)))
  {
    SplitFour(d, a, b, c, e);
    ParseWithFields(d, a + [d] + (b + [d] + (c + [d] + e)));
  }

  /** Single characters, bare or padded with whitespace, strip to themselves. */
  lemma StripOneChar(c: char)
    requires !IsSpace(c)
    ensures Strip([c]) == [c] && Strip([' ', c, ' ']) == [c] && Strip([c, '\n']) == [c]
  {
    assert [' ', c, ' '][1..] == [c, ' '];
    assert TrimStart([' ', c, ' ']) == [c, ' '];
    assert [c, ' '][..1] == [c];
    assert [c, '\n'][..1] == [c];
  }

  /** The strips of the padded and bare fields the parsing examples use. */
  lemma FieldStrips()
    ensures Strip("F") == "F" && Strip("L") == "L" && Strip("T") == "T" && Strip("D") == "D"
    ensures Strip(" F ") == "F" && Strip("D\n") == "D"
  {
    StripOneChar('F');
    StripOneChar('L');
    StripOneChar('T');
    StripOneChar('D');
  }

  // ---------------------------------------------------------------------
  // `_get_delimiter` on a fresh reader
  // ---------------------------------------------------------------------

  lemma DetectPipe()
    ensures DetectDelimiter("F|L") == Success(Pipe)
  {
    assert "F|L"[1] == '|';
    DetectFirst("F|L", 1);
  }

  lemma DetectSlash()
    ensures DetectDelimiter("F/L") == Success(Slash)
  {
    assert "F/L"[1] == '/';
    DetectFirst("F/L", 0);
  }

  lemma DetectComma()
    ensures DetectDelimiter("F,L") == Success(Comma)
  {
    assert "F,L"[1] == ',';
    DetectFirst("F,L", 2);
  }

  lemma DetectNone()
    ensures DetectDelimiter("F:L") == Failure(UnknownDelimiter("F:L"))
  {
  }

  /** A line holding both `/` and `|` is read as a `/` line, the first of the list. */
  lemma DetectSlashBeforePipe()
    ensures DetectDelimiter("a|b/c") == Success(Slash)
  {
    assert "a|b/c"[3] == '/';
    DetectFirst("a|b/c", 0);
  }

  // ---------------------------------------------------------------------
  // `_line_process` on a fresh reader
  // ---------------------------------------------------------------------

  lemma PipeDetect()
    ensures DetectDelimiter(" F |L|T|D\n") == Success(Pipe)
  {
    var line := " F |L|T|D\n";
    assert line[3] == '|';
    assert '/' !in line;
    DetectFirst(line, 1);
  }

  lemma PipeParse()
    ensures ParseWith('|', " F |L|T|D\n") == Success(Expected)
  {
    assert " F |L|T|D\n" == " F " + "|" + ("L" + "|" + ("T" + "|" + "D\n"));
    FourPiecesParse('|', " F ", "L", "T", "D\n");
    FieldStrips();
  }

  lemma PipeLineParses()
    ensures ProcessLine(None, " F |L|T|D\n") == (Some(Pipe), Success(Expected))
  {
    PipeDetect();
    PipeParse();
  }

  lemma SlashParse()
    ensures ParseWith('/', "D/F/L/T") == Success(Expected)
  {
    assert "D/F/L/T" == "D" + "/" + ("F" + "/" + ("L" + "/" + "T"));
    FourPiecesParse('/', "D", "F", "L", "T");
    FieldStrips();
  }

  lemma SlashLineParses()
    ensures ProcessLine(None, "D/F/L/T") == (Some(Slash), Success(Expected))
  {
    assert "D/F/L/T"[1] == '/';
    DetectFirst("D/F/L/T", 0);
    SlashParse();
  }

  lemma CommaParse()
    ensures ParseWith(',', "T,L,F,D") == Success(Expected)
  {
    assert "T,L,F,D" == "T" + "," + ("L" + "," + ("F" + "," + "D"));
    FourPiecesParse(',', "T", "L", "F", "D");
    FieldStrips();
  }

  lemma CommaLineParses()
    ensures ProcessLine(None, "T,L,F,D") == (Some(Comma), Success(Expected))
  {
    var line := "T,L,F,D";
    assert line[1] == ',';
    assert '/' !in line && '|' !in line;
    DetectFirst(line, 2);
    CommaParse();
  }

  /** Each separator after a separator-free piece adds one to the count. */
  lemma CountAfterPiece(x: string, d: char, rest: string)
    requires d !in x
    ensures Count(x + [d] + rest, d) == Count(rest, d) + 1
  {
    SplitAfterPiece(x, d, rest);
  }

  /** Five fields are refused. */
  lemma FiveFieldsFail()
    ensures ParseWith('|', " F |L|T|D|D\n") == Failure(MalformedLine(" F |L|T|D|D\n"))
  {
    assert " F |L|T|D|D\n" == " F " + "|" + ("L" + "|" + ("T" + "|" + ("D" + "|" + "D\n")));
    CountAfterPiece(" F ", '|', "L" + "|" + ("T" + "|" + ("D" + "|" + "D\n")));
    CountAfterPiece("L", '|', "T" + "|" + ("D" + "|" + "D\n"));
    CountAfterPiece("T", '|', "D" + "|" + "D\n");
    CountAfterPiece("D", '|', "D\n");
  }

  /** Three fields are refused. */
  lemma ThreeFieldsFail()
    ensures ParseWith('|', " F |L|T") == Failure(MalformedLine(" F |L|T"))
  {
    assert " F |L|T" == " F " + "|" + ("L" + "|" + "T");
    CountAfterPiece(" F ", '|', "L" + "|" + "T");
    CountAfterPiece("L", '|', "T");
  }

  lemma FiveFieldsDetect()
    ensures DetectDelimiter(" F |L|T|D|D\n") == Success(Pipe)
  {
    var line := " F |L|T|D|D\n";
    assert line[3] == '|';
    assert '/' !in line;
    DetectFirst(line, 1);
  }

  /**
   * The first malformed line fails to parse but leaves `|` cached, and the
   * second, read with that cached delimiter, fails too.
   */
  lemma UnknownFormatLines()
    ensures var first := ProcessLine(None, " F |L|T|D|D\n");
      && first == (Some(Pipe), Failure(MalformedLine(" F |L|T|D|D\n")))
      && ProcessLine(first.0, " F |L|T") == (Some(Pipe), Failure(MalformedLine(" F |L|T")))
  {
    FiveFieldsDetect();
    FiveFieldsFail();
    ThreeFieldsFail();
  }
}
