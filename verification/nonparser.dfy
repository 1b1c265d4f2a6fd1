/** The line-oriented `.non` puzzle reader. A file is the sequence of its
    lines, each keeping its trailing newline (the last one may lack it), so
    no line is empty. A clue section is a `columns` or `rows` header followed by one clue per
    line; every other line is `key value` metadata. */
module NonParser {
  import opened Wrappers
  import opened Decimal
  import opened PyStr
  import opened Placement
  import opened Encoding

  /** A line as reading a text file yields it: its text and its newline,
      or the unterminated text of the last line; never empty. */
  type Line = s: string | |s| > 0 witness "\n"

  /** The exceptions the reader can raise. `line[0]` never raises, since no
      line of a file is empty. */
  datatype ParseError =
    | ValueError(field: string) // `int()` of a field that is not a number
    | TypeError                 // unpacking the `None` returned when a clue section reaches the end of input
    | KeyError(key: string)     // no `columns` (key "c") or `rows` (key "r") section
    | NotBlocks(key: string)    // a `c ...` or `r ...` metadata line replaced a clue list with text

  // --------------------------------------------------------------- clue lines

  /** Every field reads as the number at the same position of `clue`. */
  predicate ReadsAs(fields: seq<string>, clue: Clue) {
    |clue| == |fields| && forall k :: 0 <= k < |fields| ==> PyInt(fields[k]) == Some(clue[k])
  }

  /** Field `k` is the first that does not read, and `e` reports it. */
  predicate FirstBadField(fields: seq<string>, k: nat, e: ParseError) {
    && k < |fields| && PyInt(fields[k]).None? && e == ValueError(fields[k])
    && forall i :: 0 <= i < k ==> PyInt(fields[i]).Some?
  }

  /** The values of a list of conversions in order, or the position of the
      first conversion that failed. */
  function Collect(vs: seq<Option<int>>): (r: Result<Clue, nat>)
    ensures r.Success? ==> |r.value| == |vs| && forall k :: 0 <= k < |vs| ==> vs[k] == Some(r.value[k])
    ensures r.Failure? ==> r.error < |vs| && vs[r.error].None? && forall i :: 0 <= i < r.error ==> vs[i].Some?
  {
    if |vs| == 0 then Success([])
    else match vs[0]
      case None => Failure(0)
      case Some(v) =>
        match Collect(vs[1..])
        case Failure(k) =>
          assert vs[k + 1] == vs[1..][k];
          assert forall i :: 1 <= i < k + 1 ==> vs[i] == vs[1..][i - 1];
          Failure(k + 1)
        case Success(rest) =>
          assert forall k :: 1 <= k < |vs| ==> vs[k] == vs[1..][k - 1];
          Success([v] + rest)
  }

  /** `[int(x) for x in fields]`: the first field that is not a number raises. */
  function ParseFields(fields: seq<string>): (r: Result<Clue, ParseError>)
    ensures r.Success? ==> ReadsAs(fields, r.value)
    ensures r.Failure? ==> exists k :: FirstBadField(fields, k, r.error)
  {
    var vs := seq(|fields|, k requires 0 <= k < |fields| => PyInt(fields[k]));
    match Collect(vs)
    case Success(clue) =>
      assert ReadsAs(fields, clue) by {
        forall k | 0 <= k < |fields| ensures PyInt(fields[k]) == Some(clue[k]) {
          assert vs[k] == PyInt(fields[k]);
        }
      }
      Success(clue)
    case Failure(k) =>
      assert FirstBadField(fields, k, ValueError(fields[k])) by {
        assert vs[k] == PyInt(fields[k]);
        forall i | 0 <= i < k ensures PyInt(fields[i]).Some? {
          assert vs[i] == PyInt(fields[i]);
        }
      }
      Failure(ValueError(fields[k]))
  }

  /** The comma-separated fields of a line, trailing newlines removed. */
  function Fields(line: string): seq<string>
  {
    Split(RStrip(line, '\n'), ',')
  }

  /** The clue on one line: exactly `"0\n"` is the empty clue; any other
      line gives the numbers its fields read as, or the error of the first
      field that does not read. */
  function ClueOfLine(line: string): (r: Result<Clue, ParseError>)
    ensures line == "0\n" ==> r == Success([])
    ensures line != "0\n" && r.Success? ==> ReadsAs(Fields(line), r.value)
    ensures line != "0\n" && r.Failure? ==> exists k :: FirstBadField(Fields(line), k, r.error)
  {
    if line == "0\n" then Success([]) else ParseFields(Fields(line))
  }

  predicate StartsWithDigit(line: string) {
    |line| > 0 && IsDigit(line[0])
  }

  /** A clue section as read: its clues, the first line after them, and the
      lines that follow that one. */
  datatype Section = Section(clues: seq<Clue>, terminator: Line, rest: seq<Line>)

  /** Reads clue lines up to the first line that does not start with a
      digit. `Success(None)` is the implicit `None` returned when the input
      runs out first. */
  function ProcessBlocks(lines: seq<Line>): (r: Result<Option<Section>, ParseError>)
    ensures r.Success? && r.value.Some? ==>
      var sec := r.value.value; var j := |sec.clues|;
      && j < |lines| && sec.terminator == lines[j] && sec.rest == lines[j + 1..]
      && !IsDigit(sec.terminator[0])
  {
    if |lines| == 0 then Success(None)
    else
      var line := lines[0];
      if !IsDigit(line[0]) then Success(Some(Section([], line, lines[1..])))
      else match ClueOfLine(line)
        case Failure(e) => Failure(e)
        case Success(clue) =>
          match ProcessBlocks(lines[1..])
          case Failure(e) => Failure(e)
          case Success(None) => Success(None)
          case Success(Some(sec)) =>
            assert lines[1..][|sec.clues| + 1..] == lines[|sec.clues| + 2..];
            Success(Some(Section([clue] + sec.clues, sec.terminator, sec.rest)))
  }

  /** The first `j` lines are clue lines that read without error. */
  predicate ClueLines(lines: seq<Line>, j: nat)
    requires j <= |lines|
  {
    forall i :: 0 <= i < j ==> StartsWithDigit(lines[i]) && ClueOfLine(lines[i]).Success?
  }

  /** A section read by `ProcessBlocks` holds one clue per consumed line, in
      order, and ends at the first line that does not start with a digit;
      the lines after that one are left unread. */
  lemma {:induction false} ProcessBlocksSection(lines: seq<Line>)
    requires ProcessBlocks(lines).Success? && ProcessBlocks(lines).value.Some?
    ensures var sec := ProcessBlocks(lines).value.value; var j := |sec.clues|;
      && j < |lines| && sec.terminator == lines[j] && sec.rest == lines[j + 1..]
      && !IsDigit(sec.terminator[0])
      && forall i :: 0 <= i < j ==> StartsWithDigit(lines[i]) && ClueOfLine(lines[i]) == Success(sec.clues[i])
  {
    if StartsWithDigit(lines[0]) {
      ProcessBlocksSection(lines[1..]);
      var sec := ProcessBlocks(lines[1..]).value.value;
      assert lines[1..][|sec.clues| + 1..] == lines[|sec.clues| + 2..];
      forall i | 1 <= i < |sec.clues| + 1 ensures lines[i] == lines[1..][i - 1] { }
    }
  }

  /** `ProcessBlocks` returns `None` exactly when every line is a clue line
      that reads without error. */
  lemma {:induction false} ProcessBlocksExhausted(lines: seq<Line>)
    ensures ProcessBlocks(lines) == Success(None) <==> ClueLines(lines, |lines|)
  {
    if |lines| > 0 {
      ClueLinesCons(lines);
      if StartsWithDigit(lines[0]) && ClueOfLine(lines[0]).Success? {
        ProcessBlocksExhausted(lines[1..]);
      }
    }
  }

  /** All lines are clue lines that read exactly when the first is and all
      the others are. */
  lemma ClueLinesCons(lines: seq<Line>)
    requires |lines| > 0
    ensures ClueLines(lines, |lines|)
        <==> StartsWithDigit(lines[0]) && ClueOfLine(lines[0]).Success? && ClueLines(lines[1..], |lines| - 1)
  {
    forall i | 1 <= i < |lines| ensures lines[i] == lines[1..][i - 1] { }
  }

  /** An error comes from the first clue line that does not read, after
      clue lines that all read. */
  lemma {:induction false} ProcessBlocksRaises(lines: seq<Line>)
    requires ProcessBlocks(lines).Failure?
    ensures var e := ProcessBlocks(lines).error;
      exists j :: 0 <= j < |lines| && ClueLines(lines, j) && RaisedAt(lines, j, e)
  {
    var e := ProcessBlocks(lines).error;
    if ClueOfLine(lines[0]).Failure? {
      assert ClueLines(lines, 0) && RaisedAt(lines, 0, e);
    } else {
      ProcessBlocksRaises(lines[1..]);
      var j :| 0 <= j < |lines| - 1 && ClueLines(lines[1..], j) && RaisedAt(lines[1..], j, e);
      RaisedLater(lines, j, e);
    }
  }

  /** Line `j` raises error `e`: it starts with a digit and does not read. */
  predicate RaisedAt(lines: seq<Line>, j: nat, e: ParseError)
    requires j < |lines|
  {
    IsDigit(lines[j][0]) && ClueOfLine(lines[j]) == Failure(e)
  }

  /** An error after a first clue line that reads is one line further on. */
  lemma RaisedLater(lines: seq<Line>, j: nat, e: ParseError)
    requires j < |lines| - 1 && StartsWithDigit(lines[0]) && ClueOfLine(lines[0]).Success?
    requires ClueLines(lines[1..], j) && RaisedAt(lines[1..], j, e)
    ensures ClueLines(lines, j + 1) && RaisedAt(lines, j + 1, e)
  {
    assert lines[j + 1] == lines[1..][j];
    forall i | 1 <= i < j + 1 ensures lines[i] == lines[1..][i - 1] { }
  }

  // ------------------------------------------------------------ whole files

  /** What the reader collects per key: clue lists for the sections, text
      for metadata. */
  datatype Value = Blocks(clues: seq<Clue>) | Text(text: string)

  /** The reading loop: `line` is the current line, `rest` the unread lines,
      `non` what has been collected. A header hands the following lines to
      `ProcessBlocks` and examines the line that ended the section next,
      without reading another; any other line is split at its first space
      into a key and a value with trailing newlines removed, or ignored when
      it has no space. `line` is what `readline` returned: the empty string
      only at the end of input, which ends the loop. */
  function ParseLoop(line: string, rest: seq<Line>, non: map<string, Value>): (r: Result<map<string, Value>, ParseError>)
    ensures r.Success? ==> non.Keys <= r.value.Keys
    decreases |rest|
  {
    if line == "" then Success(non)
    else if line == "columns\n" || line == "rows\n" then
      var key := if line == "columns\n" then "c" else "r";
      match ProcessBlocks(rest)
      case Failure(e) => Failure(e)
      case Success(None) => Failure(TypeError)
      case Success(Some(sec)) => ParseLoop(sec.terminator, sec.rest, non[key := Blocks(sec.clues)])
    else
      var non' := match SplitOnce(line, ' ')
        case None => non
        case Some((k, v)) => non[k := Text(RStrip(v, '\n'))];
      if |rest| == 0 then Success(non') else ParseLoop(rest[0], rest[1..], non')
  }

  function TextOf(non: map<string, Value>, key: string): Option<string> {
    if key in non && non[key].Text? then Some(non[key].text) else None
  }

  /** A stored value as a list of clues: a section's clues, or none for an
      empty text, whose length Python takes as zero lines. Other text is no
      clue list. */
  function ClueListOf(v: Value): Option<seq<Clue>> {
    match v
    case Blocks(clues) => Some(clues)
    case Text(t) => if t == "" then Some([]) else None
  }

  /** Builds the puzzle from what was collected: the column clues under
      "c", the row clues under "r", the title under "title" and the author
      under "by". */
  function Build(non: map<string, Value>): (r: Result<Nonogram, ParseError>)
    ensures r.Success? <==> && "c" in non && "r" in non
                            && (non["c"].Blocks? || non["c"] == Text(""))
                            && (non["r"].Blocks? || non["r"] == Text(""))
    ensures r.Success? && non["c"].Blocks? ==> r.value.columnBlocks == non["c"].clues
    ensures r.Success? && non["r"].Blocks? ==> r.value.rowBlocks == non["r"].clues
    ensures r.Success? && non["c"].Text? ==> r.value.columnBlocks == []
    ensures r.Success? && non["r"].Text? ==> r.value.rowBlocks == []
    ensures r.Success? ==> r.value.title == TextOf(non, "title") && r.value.author == TextOf(non, "by")
    ensures "c" !in non ==> r == Failure(KeyError("c"))
    ensures "c" in non && "r" !in non ==> r == Failure(KeyError("r"))
  {
    if "c" !in non then Failure(KeyError("c"))
    else if "r" !in non then Failure(KeyError("r"))
    else if ClueListOf(non["c"]).None? then Failure(NotBlocks("c"))
    else if ClueListOf(non["r"]).None? then Failure(NotBlocks("r"))
    else Success(Nonogram(ClueListOf(non["c"]).value, ClueListOf(non["r"]).value, TextOf(non, "title"), TextOf(non, "by")))
  }

  /** Reads a whole `.non` file. An empty file has no column section; a
      puzzle with columns (rows) is only read from a file holding the
      `columns` (`rows`) header. */
  function ParseNon(lines: seq<Line>): (r: Result<Nonogram, ParseError>)
    ensures |lines| == 0 ==> r == Failure(KeyError("c"))
    ensures r.Success? && |r.value.columnBlocks| > 0 ==> "columns\n" in lines
    ensures r.Success? && |r.value.rowBlocks| > 0 ==> "rows\n" in lines
  {
    var collected := if |lines| == 0 then ParseLoop("", [], map[]) else ParseLoop(lines[0], lines[1..], map[]);
    match collected
    case Failure(e) => Failure(e)
    case Success(non) =>
      if |lines| > 0 then
        HeadersOfClues(lines, non);
        Build(non)
      else Build(non)
  }

  /** The clues built from what a file's lines collected come from the
      section headers among those lines. */
  lemma HeadersOfClues(lines: seq<Line>, non: map<string, Value>)
    requires |lines| > 0 && ParseLoop(lines[0], lines[1..], map[]) == Success(non)
    ensures Build(non).Success? && |Build(non).value.columnBlocks| > 0 ==> "columns\n" in lines
    ensures Build(non).Success? && |Build(non).value.rowBlocks| > 0 ==> "rows\n" in lines
  {
    HeaderRead(lines[0], lines[1..], map[], "columns\n", "c");
    HeaderRead(lines[0], lines[1..], map[], "rows\n", "r");
    assert lines == [lines[0]] + lines[1..];
  }

  /** A clue list only comes from a section: if reading leaves clues under
      `key` where there were none, the header of that key was read. */
  lemma {:induction false} HeaderRead(line: string, rest: seq<Line>, non: map<string, Value>, header: string, key: string)
    requires (header, key) == ("columns\n", "c") || (header, key) == ("rows\n", "r")
    requires ParseLoop(line, rest, non).Success?
    ensures var out := ParseLoop(line, rest, non).value;
      key in out && out[key].Blocks? && !(key in non && non[key].Blocks?) ==> line == header || header in rest
    decreases |rest|, 1
  {
    if line == "" {
    } else if line == "columns\n" || line == "rows\n" {
      if line != header {
        HeaderReadAfterSection(line, rest, non, header, key);
      }
    } else if |rest| > 0 {
      HeaderReadAfterMeta(line, rest, non, header, key);
    }
  }

  /** `HeaderRead` past the section of the other header. */
  lemma {:induction false} HeaderReadAfterSection(line: string, rest: seq<Line>, non: map<string, Value>, header: string, key: string)
    requires (header, key) == ("columns\n", "c") || (header, key) == ("rows\n", "r")
    requires (line == "columns\n" || line == "rows\n") && line != header
    requires ParseLoop(line, rest, non).Success?
    ensures var out := ParseLoop(line, rest, non).value;
      key in out && out[key].Blocks? && !(key in non && non[key].Blocks?) ==> header in rest
    decreases |rest|, 0
  {
    var k := if line == "columns\n" then "c" else "r";
    var sec := ProcessBlocks(rest).value.value;
    assert ParseLoop(line, rest, non) == ParseLoop(sec.terminator, sec.rest, non[k := Blocks(sec.clues)]);
    HeaderRead(sec.terminator, sec.rest, non[k := Blocks(sec.clues)], header, key);
    InLater(rest, |sec.clues|, header);
  }

  /** `HeaderRead` past a line that is no header. */
  lemma {:induction false} HeaderReadAfterMeta(line: string, rest: seq<Line>, non: map<string, Value>, header: string, key: string)
    requires (header, key) == ("columns\n", "c") || (header, key) == ("rows\n", "r")
    requires line != "" && line != "columns\n" && line != "rows\n" && |rest| > 0
    requires ParseLoop(line, rest, non).Success?
    ensures var out := ParseLoop(line, rest, non).value;
      key in out && out[key].Blocks? && !(key in non && non[key].Blocks?) ==> header in rest
    decreases |rest|, 0
  {
    var non' := match SplitOnce(line, ' ')
      case None => non
      case Some((k, v)) => non[k := Text(RStrip(v, '\n'))];
    assert ParseLoop(line, rest, non) == ParseLoop(rest[0], rest[1..], non');
    HeaderRead(rest[0], rest[1..], non', header, key);
    InLater(rest, 0, header);
  }

  /** An element at or after position `j` is an element. */
  lemma InLater<T>(xs: seq<T>, j: nat, x: T)
    requires j < |xs|
    ensures xs[j] == x || x in xs[j + 1..] ==> x in xs
  {
    if x in xs[j + 1..] {
      var i :| 0 <= i < |xs| - j - 1 && xs[j + 1..][i] == x;
      assert xs[j + 1 + i] == x;
    }
  }

  // ---------------------------------------------------------------- writing

  /** The fields of a clue line: each block in decimal. */
  function FormatFields(clue: Clue): (fields: seq<string>)
    ensures |fields| == |clue|
  {
    seq(|clue|, k requires 0 <= k < |clue| => FormatInt(clue[k]))
  }

  /** The line for one clue, in the form the reader expects. */
  function FormatClue(clue: Clue): Line
  {
    if |clue| == 0 then "0\n" else Join(FormatFields(clue), ',') + "\n"
  }

  function FormatClues(clues: seq<Clue>): (lines: seq<Line>)
    ensures |lines| == |clues|
  {
    seq(|clues|, i requires 0 <= i < |clues| => FormatClue(clues[i]))
  }

  function MetaLine(key: string, value: Option<string>): seq<Line>
  {
    match value
    case None => []
    case Some(v) => [key + " " + v + "\n"]
  }

  /** A `.non` file for a puzzle: title and author lines, the column
      section, the row section, and a blank line that ends the row section. */
  function FormatNon(p: Nonogram): seq<Line>
  {
    MetaLine("title", p.title) + MetaLine("by", p.author) + SectionLines(p)
  }

  /** The column section, the row section, and the blank line after them. */
  function SectionLines(p: Nonogram): seq<Line>
  {
    ["columns\n"] + FormatClues(p.columnBlocks) + ["rows\n"] + FormatClues(p.rowBlocks) + ["\n"]
  }

  /** A clue the line format can carry: non-negative blocks, and not the
      single zero block, whose line `"0\n"` reads back as the empty clue. */
  predicate Writable(clue: Clue) {
    NonNegative(clue) && clue != [0]
  }

  /** Text a metadata line can carry: no character that ends a line when
      a file is read in text mode. */
  predicate WritableText(t: Option<string>) {
    t.Some? ==> '\n' !in t.value && '\r' !in t.value
  }

  predicate WritableNonogram(p: Nonogram) {
    && (forall c :: 0 <= c < |p.columnBlocks| ==> Writable(p.columnBlocks[c]))
    && (forall r :: 0 <= r < |p.rowBlocks| ==> Writable(p.rowBlocks[r]))
    && WritableText(p.title) && WritableText(p.author)
  }

  /** Numbers in a field list read back as themselves. */
  lemma ParseFormattedFields(clue: Clue)
    ensures ParseFields(FormatFields(clue)) == Success(clue)
  {
    var fields := FormatFields(clue);
    forall k | 0 <= k < |clue| ensures PyInt(fields[k]) == Some(clue[k]) {
      PyIntFormatInt(clue[k]);
    }
    var r := ParseFields(fields);
    assert r.value == clue;
  }

  /** The first character of a join is that of its first piece. */
  lemma JoinFirst(parts: seq<string>, sep: char)
    requires |parts| > 0 && |parts[0]| > 0
    ensures |Join(parts, sep)| > 0 && Join(parts, sep)[0] == parts[0][0]
  {
    if |parts| > 1 {
      assert Join(parts, sep) == parts[0] + [sep] + Join(parts[1..], sep);
    }
  }

  /** Only the empty clue is written as the line `0`. */
  lemma NotZeroLine(clue: Clue)
    requires Writable(clue) && |clue| > 0
    ensures FormatClue(clue) != "0\n"
  {
    var fields := FormatFields(clue);
    var joined := Join(fields, ',');
    if |fields| > 1 {
      assert joined == fields[0] + [','] + Join(fields[1..], ',');
      assert joined[|fields[0]|] == ',';
      assert |joined| > 1;
    } else {
      var d := Show(clue[0]);
      assert joined == fields[0] == d;
      assert clue == [clue[0]];
      ShowValue(clue[0]);
      assert DigitsValue("0") == 0;
      assert d != "0";
      assert (d + "\n")[..|d|] == d;
    }
  }

  /** A clue line starts with a digit and reads back as its clue. */
  lemma ClueLineRoundTrip(clue: Clue)
    requires Writable(clue)
    ensures StartsWithDigit(FormatClue(clue))
    ensures ClueOfLine(FormatClue(clue)) == Success(clue)
  {
    if |clue| > 0 {
      FormattedLineStart(clue);
      FormattedLineFields(clue);
      NotZeroLine(clue);
      ParseFormattedFields(clue);
    }
  }

  /** A written clue line starts with the first digit of its first block. */
  lemma FormattedLineStart(clue: Clue)
    requires Writable(clue) && |clue| > 0
    ensures StartsWithDigit(FormatClue(clue))
  {
    var fields := FormatFields(clue);
    JoinFirst(fields, ',');
    assert FormatClue(clue) == Join(fields, ',') + "\n";
  }

  /** The fields of a written clue line are the written blocks. */
  lemma FormattedLineFields(clue: Clue)
    requires |clue| > 0
    ensures Fields(FormatClue(clue)) == FormatFields(clue)
  {
    var fields := FormatFields(clue);
    assert FormatClue(clue) == Join(fields, ',') + "\n";
    FormattedFieldsNoComma(clue);
    assert IsDigit(fields[|fields| - 1][|fields[|fields| - 1]| - 1]);
    JoinedLineFields(fields);
  }

  /** Written blocks hold no comma. */
  lemma FormattedFieldsNoComma(clue: Clue)
    ensures forall k :: 0 <= k < |clue| ==> ',' !in FormatFields(clue)[k]
  {
    forall k | 0 <= k < |clue| ensures ',' !in FormatFields(clue)[k] {
    }
  }

  /** Comma-free fields joined by commas, with a newline appended, split
      back into those fields. */
  lemma JoinedLineFields(fields: seq<string>)
    requires |fields| > 0 && |fields[|fields| - 1]| > 0
    requires fields[|fields| - 1][|fields[|fields| - 1]| - 1] != '\n'
    requires forall k :: 0 <= k < |fields| ==> ',' !in fields[k]
    ensures Fields(Join(fields, ',') + "\n") == fields
  {
    var joined := Join(fields, ',');
    JoinLast(fields, ',');
    RStripOne(joined, '\n');
    SplitJoin(fields, ',');
  }

  /** `ProcessBlocks` reads back the lines written for a list of clues,
      stopping at the following line when that line does not start with a
      digit. */
  lemma ProcessBlocksRoundTrip(clues: seq<Clue>, terminator: Line, rest: seq<Line>)
    requires forall i :: 0 <= i < |clues| ==> Writable(clues[i])
    requires !IsDigit(terminator[0])
    ensures ProcessBlocks(FormatClues(clues) + [terminator] + rest) == Success(Some(Section(clues, terminator, rest)))
  {
    var lines := FormatClues(clues);
    forall i | 0 <= i < |lines| ensures StartsWithDigit(lines[i]) && ClueOfLine(lines[i]) == Success(clues[i]) {
      ClueLineRoundTrip(clues[i]);
    }
    ProcessBlocksOfClueLines(lines, clues, terminator, rest);
  }

  /** Clue lines that read as `clues`, followed by a line that does not
      start with a digit, form one section; the converse of
      `ProcessBlocksSection`. */
  lemma {:induction false} ProcessBlocksOfClueLines(lines: seq<Line>, clues: seq<Clue>, terminator: Line, rest: seq<Line>)
    requires |lines| == |clues|
    requires forall i :: 0 <= i < |lines| ==> StartsWithDigit(lines[i]) && ClueOfLine(lines[i]) == Success(clues[i])
    requires !IsDigit(terminator[0])
    ensures ProcessBlocks(lines + [terminator] + rest) == Success(Some(Section(clues, terminator, rest)))
    decreases |lines|, 1
  {
    if |lines| > 0 {
      ClueLinesStep(lines, clues, terminator, rest);
    } else {
      assert lines + [terminator] + rest == [terminator] + rest;
      ProcessBlocksStops(terminator, rest);
    }
  }

  /** One more clue line in front of a section read from clue lines. */
  lemma {:induction false} ClueLinesStep(lines: seq<Line>, clues: seq<Clue>, terminator: Line, rest: seq<Line>)
    requires |lines| == |clues| > 0
    requires forall i :: 0 <= i < |lines| ==> StartsWithDigit(lines[i]) && ClueOfLine(lines[i]) == Success(clues[i])
    requires !IsDigit(terminator[0])
    ensures ProcessBlocks(lines + [terminator] + rest) == Success(Some(Section(clues, terminator, rest)))
    decreases |lines|, 0
  {
    var tail := lines[1..] + [terminator] + rest;
    assert ProcessBlocks(tail) == Success(Some(Section(clues[1..], terminator, rest))) by {
      forall i | 0 <= i < |lines| - 1
        ensures StartsWithDigit(lines[1..][i]) && ClueOfLine(lines[1..][i]) == Success(clues[1..][i])
      {
        assert lines[1..][i] == lines[i + 1] && clues[1..][i] == clues[i + 1];
      }
      ProcessBlocksOfClueLines(lines[1..], clues[1..], terminator, rest);
    }
    assert StartsWithDigit(lines[0]) && ClueOfLine(lines[0]) == Success(clues[0]);
    HeadTail(lines, terminator, rest);
    ProcessBlocksCons(lines[0], clues[0], tail, Section(clues[1..], terminator, rest));
    assert [clues[0]] + clues[1..] == clues;
  }

  /** Splitting off the first element of a non-empty front part. */
  lemma HeadTail<T>(xs: seq<T>, x: T, ys: seq<T>)
    requires |xs| > 0
    ensures xs + [x] + ys == [xs[0]] + (xs[1..] + [x] + ys)
  {
  }

  /** A line that does not start with a digit ends a section at once. */
  lemma ProcessBlocksStops(terminator: Line, rest: seq<Line>)
    requires !IsDigit(terminator[0])
    ensures ProcessBlocks([terminator] + rest) == Success(Some(Section([], terminator, rest)))
  {
    assert ([terminator] + rest)[1..] == rest;
  }

  /** A clue line that reads in front of a section adds its clue first. */
  lemma ProcessBlocksCons(line: Line, clue: Clue, tail: seq<Line>, sec: Section)
    requires StartsWithDigit(line) && ClueOfLine(line) == Success(clue)
    requires ProcessBlocks(tail) == Success(Some(sec))
    ensures ProcessBlocks([line] + tail) == Success(Some(Section([clue] + sec.clues, sec.terminator, sec.rest)))
  {
    assert ([line] + tail)[1..] == tail;
  }

  /** A value without newlines, written with one, reads back unchanged. */
  lemma RStripNewline(v: string)
    requires '\n' !in v
    ensures RStrip(v + "\n", '\n') == v
  {
    RStripOne(v, '\n');
  }

  /** A line holding a space is neither section header. */
  lemma SpacedIsNoHeader(line: string)
    requires ' ' in line
    ensures line != "columns\n" && line != "rows\n" && line != ""
  {
    assert ' ' !in "columns\n";
    assert ' ' !in "rows\n";
  }

  /** A line with a space is split at its first space: the value, without
      trailing newlines, is stored under the text before the space, and
      reading goes on with the next line or ends with the input. */
  lemma ParseLoopMeta(key: string, v: string, next: Line, rest: seq<Line>, non: map<string, Value>)
    requires ' ' !in key
    ensures ParseLoop(key + " " + v, [next] + rest, non) == ParseLoop(next, rest, non[key := Text(RStrip(v, '\n'))])
    ensures ParseLoop(key + " " + v, [], non) == Success(non[key := Text(RStrip(v, '\n'))])
  {
    var line := key + " " + v;
    assert line == key + [' '] + v;
    SplitOnceAfter(key, ' ', v);
    assert line[|key|] == ' ';
    SpacedIsNoHeader(line);
    assert ([next] + rest)[1..] == rest;
  }

  /** A line without a space that is no section header stores nothing. */
  lemma ParseLoopIgnored(line: Line, next: Line, rest: seq<Line>, non: map<string, Value>)
    requires ' ' !in line && line != "columns\n" && line != "rows\n"
    ensures ParseLoop(line, [next] + rest, non) == ParseLoop(next, rest, non)
    ensures ParseLoop(line, [], non) == Success(non)
  {
  }

  /** A header hands the clue lines after it to `ProcessBlocks`, stores
      their clues under its key, and goes on with the line that ended the
      section. */
  lemma ParseLoopSection(header: string, lines: seq<Line>, clues: seq<Clue>, terminator: Line, rest: seq<Line>, non: map<string, Value>)
    requires header == "columns\n" || header == "rows\n"
    requires |lines| == |clues|
    requires forall i :: 0 <= i < |lines| ==> StartsWithDigit(lines[i]) && ClueOfLine(lines[i]) == Success(clues[i])
    requires !IsDigit(terminator[0])
    ensures ParseLoop(header, lines + [terminator] + rest, non)
         == ParseLoop(terminator, rest, non[(if header == "columns\n" then "c" else "r") := Blocks(clues)])
  {
    ProcessBlocksOfClueLines(lines, clues, terminator, rest);
  }

  /** `ParseLoopSection` for the lines written for a list of clues. */
  lemma ParseLoopWrittenSection(header: string, clues: seq<Clue>, terminator: Line, rest: seq<Line>, non: map<string, Value>)
    requires header == "columns\n" || header == "rows\n"
    requires forall i :: 0 <= i < |clues| ==> Writable(clues[i])
    requires !IsDigit(terminator[0])
    ensures ParseLoop(header, FormatClues(clues) + [terminator] + rest, non)
         == ParseLoop(terminator, rest, non[(if header == "columns\n" then "c" else "r") := Blocks(clues)])
  {
    ProcessBlocksRoundTrip(clues, terminator, rest);
  }

  /** The blank line a written file ends with stores nothing and ends the
      input. */
  lemma BlankLineEnds(non: map<string, Value>)
    ensures ParseLoop("\n", [], non) == Success(non)
  {
    assert SplitOnce("\n", ' ') == None;
  }

  /** Reading the two written sections stores both clue lists over whatever
      metadata was collected before them. */
  lemma ParseSections(p: Nonogram, non: map<string, Value>)
    requires WritableNonogram(p)
    ensures var body := SectionLines(p);
      ParseLoop(body[0], body[1..], non) == Success(non["c" := Blocks(p.columnBlocks)]["r" := Blocks(p.rowBlocks)])
  {
    var body := SectionLines(p);
    var rows := FormatClues(p.rowBlocks) + ["\n"];
    assert body[0] == "columns\n";
    assert body[1..] == FormatClues(p.columnBlocks) + ["rows\n"] + rows;
    ParseLoopWrittenSection("columns\n", p.columnBlocks, "rows\n", rows, non);
    ParseRowsSection(p.rowBlocks, non["c" := Blocks(p.columnBlocks)]);
  }

  /** The written row section and the blank line after it store the row
      clues and end the input. */
  lemma ParseRowsSection(rows: seq<Clue>, non: map<string, Value>)
    requires forall i :: 0 <= i < |rows| ==> Writable(rows[i])
    ensures ParseLoop("rows\n", FormatClues(rows) + ["\n"], non) == Success(non["r" := Blocks(rows)])
  {
    assert FormatClues(rows) + ["\n"] == FormatClues(rows) + ["\n"] + [];
    ParseLoopWrittenSection("rows\n", rows, "\n", [], non);
    BlankLineEnds(non["r" := Blocks(rows)]);
  }

  /** What a written metadata line, if any, adds to the collected values. */
  function WithMeta(non: map<string, Value>, key: string, value: Option<string>): map<string, Value>
  {
    if value.Some? then non[key := Text(value.value)] else non
  }

  /** Reading a written metadata line, if any, and then the lines after it. */
  lemma ParseMetaLine(key: string, value: Option<string>, tail: seq<Line>, non: map<string, Value>)
    requires key == "title" || key == "by"
    requires WritableText(value) && |tail| > 0
    ensures var lines := MetaLine(key, value) + tail;
      ParseLoop(lines[0], lines[1..], non) == ParseLoop(tail[0], tail[1..], WithMeta(non, key, value))
  {
    var lines := MetaLine(key, value) + tail;
    if value.Some? {
      assert lines[0] == key + " " + (value.value + "\n") && lines[1..] == tail;
      assert tail == [tail[0]] + tail[1..];
      ParseLoopMeta(key, value.value + "\n", tail[0], tail[1..], non);
      RStripNewline(value.value);
    } else {
      assert lines == tail;
    }
  }

  /** The values collected from a written file: its metadata, then both
      clue lists. */
  function Collected(p: Nonogram): map<string, Value>
  {
    WithMeta(WithMeta(map[], "title", p.title), "by", p.author)
      ["c" := Blocks(p.columnBlocks)]["r" := Blocks(p.rowBlocks)]
  }

  lemma CollectWritten(p: Nonogram)
    requires WritableNonogram(p)
    ensures var lines := FormatNon(p); |lines| > 0 && ParseLoop(lines[0], lines[1..], map[]) == Success(Collected(p))
  {
    var body := SectionLines(p);
    var meta := WithMeta(WithMeta(map[], "title", p.title), "by", p.author);
    CollectMeta(p);
    ParseSections(p, meta);
  }

  /** The written metadata lines store the title and author and hand over
      to the first section header. */
  lemma CollectMeta(p: Nonogram)
    requires WritableNonogram(p)
    ensures var lines := FormatNon(p); var body := SectionLines(p);
      |lines| > 0 && ParseLoop(lines[0], lines[1..], map[])
                     == ParseLoop(body[0], body[1..], WithMeta(WithMeta(map[], "title", p.title), "by", p.author))
  {
    var body := SectionLines(p);
    var byAndBody := MetaLine("by", p.author) + body;
    assert FormatNon(p) == MetaLine("title", p.title) + byAndBody;
    var non1 := WithMeta(map[], "title", p.title);
    ParseMetaLine("title", p.title, byAndBody, map[]);
    ParseMetaLine("by", p.author, body, non1);
  }

  lemma BuildCollected(p: Nonogram)
    ensures Build(Collected(p)) == Success(p)
  {
    var final := Collected(p);
    assert TextOf(final, "title") == p.title;
    assert TextOf(final, "by") == p.author;
  }

  /** Reading what `FormatNon` writes gives the puzzle back. The section
      headers and the blank last line never clash with metadata. */
  lemma NonRoundTrip(p: Nonogram)
    requires WritableNonogram(p)
    ensures ParseNon(FormatNon(p)) == Success(p)
  {
    CollectWritten(p);
    BuildCollected(p);
  }

  /** `c` and `r` lines with empty values stand for empty clue lists: the
      file below is read as the puzzle with no rows and no columns. */
  lemma EmptyValueClues()
    ensures ParseNon(["c \n", "r \n"]) == Success(Nonogram([], [], None, None))
  {
    var non := map["c" := Text("")]["r" := Text("")];
    EmptyValuesCollected();
    assert ["c \n", "r \n"][1..] == ["r \n"];
    assert non["c"] == Text("") && non["r"] == Text("") && "title" !in non && "by" !in non;
    assert Build(non) == Success(Nonogram([], [], None, None));
  }

  /** The lines `c ` and `r ` store empty texts under `c` and `r`. */
  lemma EmptyValuesCollected()
    ensures ParseLoop("c \n", ["r \n"], map[]) == Success(map["c" := Text("")]["r" := Text("")])
  {
    assert "c \n" == "c" + " " + "\n" && "r \n" == "r" + " " + "\n";
    assert RStrip("\n", '\n') == "";
    ParseLoopMeta("c", "\n", "r \n", [], map[]);
    ParseLoopMeta("r", "\n", "r \n", [], map["c" := Text("")]);
  }

  /** Written clue lines with nothing after them run `ProcessBlocks` to the
      end of input. */
  lemma WrittenCluesExhaust(clues: seq<Clue>)
    requires forall i :: 0 <= i < |clues| ==> Writable(clues[i])
    ensures ProcessBlocks(FormatClues(clues)) == Success(None)
  {
    var ls := FormatClues(clues);
    forall i | 0 <= i < |ls| ensures StartsWithDigit(ls[i]) && ClueOfLine(ls[i]).Success? {
      ClueLineRoundTrip(clues[i]);
    }
    ProcessBlocksExhausted(ls);
  }

  /** A header whose section reaches the end of input cannot unpack the
      `None` it gets back. */
  lemma HeaderAtEndOfInput(header: string, rest: seq<Line>, non: map<string, Value>)
    requires header == "columns\n" || header == "rows\n"
    requires ProcessBlocks(rest) == Success(None)
    ensures ParseLoop(header, rest, non) == Failure(TypeError)
  {
  }

  /** A file whose row section runs to the end of input, with no line after
      the last clue, is rejected: `ProcessBlocks` returns `None` and
      unpacking it raises `TypeError`. */
  lemma RowsAtEndOfInput(cols: seq<Clue>, rows: seq<Clue>)
    requires forall i :: 0 <= i < |cols| ==> Writable(cols[i])
    requires forall i :: 0 <= i < |rows| ==> Writable(rows[i])
    ensures ParseNon(["columns\n"] + FormatClues(cols) + ["rows\n"] + FormatClues(rows)) == Failure(TypeError)
  {
    var lines := ["columns\n"] + FormatClues(cols) + ["rows\n"] + FormatClues(rows);
    assert lines[0] == "columns\n";
    assert lines[1..] == FormatClues(cols) + ["rows\n"] + FormatClues(rows);
    ParseLoopWrittenSection("columns\n", cols, "rows\n", FormatClues(rows), map[]);
    WrittenCluesExhaust(rows);
    HeaderAtEndOfInput("rows\n", FormatClues(rows), map["c" := Blocks(cols)]);
  }
}
