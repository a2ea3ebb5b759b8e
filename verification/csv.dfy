/** The CSV text built by the emission-limit screen's export: every cell is
    wrapped in double quotes without escaping, cells are joined by commas and
    lines by newlines. A reader for that format gives the export a partner, so
    that what survives a round trip can be stated exactly. */
module Csv {
  import opened Wrappers
  import opened Text

  predicate IsDigit(ch: char)
  {
    '0' <= ch <= '9'
  }

  predicate AllDigits(s: string)
  {
    forall i :: 0 <= i < |s| ==> IsDigit(s[i])
  }

  function DigitChar(d: int): (ch: char)
    requires 0 <= d < 10
    ensures IsDigit(ch)
  {
    ('0' as int + d) as char
  }

  function DigitValue(ch: char): (d: int)
    requires IsDigit(ch)
    ensures 0 <= d < 10
  {
    ch as int - '0' as int
  }

  /** Decimal digits of `n`, most significant first, with no leading zero. */
  function NatToString(n: nat): (r: string)
    ensures |r| >= 1 && AllDigits(r)
    ensures |r| > 1 ==> r[0] != '0'
    decreases n
  {
    if n < 10 then [DigitChar(n)] else NatToString(n / 10) + [DigitChar(n % 10)]
  }

  /** `n.toString()` for an integer-valued number: a minus sign for negatives, then the digits. */
  function IntToString(n: int): (r: string)
    ensures |r| >= 1
    ensures r[0] == '-' <==> n < 0
    ensures n >= 0 ==> AllDigits(r)
    ensures n < 0 ==> |r| >= 2 && AllDigits(r[1..])
    ensures n >= 0 && |r| > 1 ==> r[0] != '0'
    ensures n < 0 ==> r[1] != '0'
  {
    if n < 0 then "-" + NatToString(-n) else NatToString(n)
  }

  /** The value of a string of decimal digits, most significant first. */
  function DigitsValue(s: string): nat
    requires AllDigits(s)
    decreases |s|
  {
    if |s| == 0 then 0 else DigitsValue(s[..|s| - 1]) * 10 + DigitValue(s[|s| - 1])
  }

  /** The decimal text of an integer holds neither a quote nor a newline. */
  lemma IntTextSafe(n: int)
    ensures Safe(IntToString(n))
  {
    var a := IntToString(n);
    assert forall k :: 0 <= k < |a| ==> IsDigit(a[k]) || a[k] == '-' by {
      if n < 0 {
        assert forall k :: 1 <= k < |a| ==> a[1..][k - 1] == a[k];
      }
    }
  }

  /** Reads a decimal integer: an optional minus sign and at least one digit. */
  function ParseInt(s: string): Option<int>
  {
    if |s| > 0 && s[0] == '-' then
      if |s| > 1 && AllDigits(s[1..]) then Some(0 - DigitsValue(s[1..]) as int) else None
    else if |s| > 0 && AllDigits(s) then Some(DigitsValue(s))
    else None
  }

  lemma {:induction false} NatToStringValue(n: nat)
    ensures DigitsValue(NatToString(n)) == n
    decreases n
  {
    if n >= 10 {
      NatToStringValue(n / 10);
      var s := NatToString(n);
      assert s[..|s| - 1] == NatToString(n / 10);
    }
  }

  /** Reading a written integer gives it back. */
  lemma IntRoundTrip(n: int)
    ensures ParseInt(IntToString(n)) == Some(n)
  {
    if n < 0 {
      NegativeRoundTrip(-n);
    } else {
      NatRoundTrip(n);
    }
  }

  lemma NatRoundTrip(n: nat)
    ensures ParseInt(NatToString(n)) == Some(n)
  {
    NatToStringValue(n);
    assert NatToString(n)[0] != '-';
  }

  lemma NegativeRoundTrip(m: nat)
    requires m > 0
    ensures ParseInt("-" + NatToString(m)) == Some(-(m as int))
  {
    NatToStringValue(m);
    assert ("-" + NatToString(m))[1..] == NatToString(m);
  }

  /** `"${cell}"`: the cell between two double quotes, nothing escaped. */
  function Quote(cell: string): string
  {
    "\"" + cell + "\""
  }

  function QuoteAll(cells: seq<string>): (r: seq<string>)
    ensures |r| == |cells|
  {
    seq(|cells|, i requires 0 <= i < |cells| => Quote(cells[i]))
  }

  /** One line: `cells.map(cell => `"${cell}"`).join(",")`. */
  function Line(cells: seq<string>): string
  {
    Join(',', QuoteAll(cells))
  }

  /** A line of two or more cells: the first cell quoted, a comma, and the line of the rest. */
  lemma LineCons(cell: string, cells: seq<string>)
    requires |cells| >= 1
    ensures Line([cell] + cells) == Quote(cell) + "," + Line(cells)
  {
    assert QuoteAll([cell] + cells)[1..] == QuoteAll(cells);
  }

  function Lines(rows: seq<seq<string>>): (r: seq<string>)
    ensures |r| == |rows|
  {
    seq(|rows|, i requires 0 <= i < |rows| => Line(rows[i]))
  }

  /** The whole text: the lines joined by newlines. */
  function Document(rows: seq<seq<string>>): (r: string)
  {
    Join('\n', Lines(rows))
  }

  /** A cell this format carries unchanged: it holds no quote and no newline. */
  predicate Safe(cell: string)
  {
    '"' !in cell && '\n' !in cell
  }

  predicate SafeRow(cells: seq<string>)
  {
    forall i :: 0 <= i < |cells| ==> Safe(cells[i])
  }

  predicate SafeRows(rows: seq<seq<string>>)
  {
    forall k :: 0 <= k < |rows| ==> SafeRow(rows[k])
  }

  /** A row the reader can give back: at least one cell, and no quote in any cell. */
  predicate Readable(cells: seq<string>)
  {
    |cells| >= 1 && forall i :: 0 <= i < |cells| ==> '"' !in cells[i]
  }

  /** Reads the rest of a quoted cell whose opening quote is already consumed:
      everything up to the next quote, and what follows that quote. */
  function ReadQuoted(s: string): (r: Option<(string, string)>)
    ensures r.Some? ==> '"' !in r.value.0 && s == r.value.0 + "\"" + r.value.1
    ensures r.None? ==> '"' !in s
    decreases |s|
  {
    if |s| == 0 then None
    else if s[0] == '"' then Some(("", s[1..]))
    else
      match ReadQuoted(s[1..])
      case None => None
      case Some((cell, rest)) => Some(([s[0]] + cell, rest))
  }

  /** A line whose first quoted cell has been read is that cell quoted,
      followed by what came after the closing quote. */
  lemma QuotedThenRest(line: string, cell: string, rest: string)
    requires |line| > 0 && line[0] == '"' && line[1..] == cell + "\"" + rest
    ensures |rest| == 0 ==> line == Quote(cell)
    ensures |rest| > 0 && rest[0] == ',' ==> line == Quote(cell) + "," + rest[1..]
  {
    assert line == [line[0]] + line[1..];
    if |rest| > 0 {
      assert rest == [rest[0]] + rest[1..];
    }
  }

  /** Reads one line of quoted, comma-separated cells. Whatever it accepts is
      exactly the line `Line` writes for the cells it returns. */
  function ParseLine(line: string): (r: Option<seq<string>>)
    ensures r.Some? ==> |r.value| >= 1 && Line(r.value) == line
    ensures r.Some? ==> forall i :: 0 <= i < |r.value| ==> '"' !in r.value[i]
    decreases |line|
  {
    if |line| == 0 || line[0] != '"' then None
    else
      match ReadQuoted(line[1..])
      case None => None
      case Some((cell, rest)) =>
        if |rest| == 0 then
          QuotedThenRest(line, cell, rest);
          Some([cell])
        else if rest[0] != ',' then None
        else
          match ParseLine(rest[1..])
          case None => None
          case Some(cells) =>
            QuotedThenRest(line, cell, rest);
            LineCons(cell, cells);
            Some([cell] + cells)
  }

  function ParseLines(lines: seq<string>): (r: Option<seq<seq<string>>>)
    ensures r.Some? ==> |r.value| == |lines|
    ensures r.Some? ==> forall k :: 0 <= k < |lines| ==> Readable(r.value[k]) && Line(r.value[k]) == lines[k]
    decreases |lines|
  {
    if |lines| == 0 then Some([])
    else
      match ParseLine(lines[0])
      case None => None
      case Some(cells) =>
        match ParseLines(lines[1..])
        case None => None
        case Some(rows) => Some([cells] + rows)
  }

  /** Reads a whole text back into rows of cells. */
  function ParseDocument(text: string): Option<seq<seq<string>>>
  {
    ParseLines(Split(text, '\n'))
  }

  /** A character of a cell other than a quote or a comma is a character of its line. */
  lemma {:induction false} LineKeepsCellChars(cells: seq<string>, ch: char)
    requires ch != '"' && ch != ','
    ensures ch in Line(cells) <==> exists i :: 0 <= i < |cells| && ch in cells[i]
    decreases |cells|
  {
    if |cells| > 1 {
      LineKeepsCellChars(cells[1..], ch);
      LineCons(cells[0], cells[1..]);
      assert [cells[0]] + cells[1..] == cells;
      if exists i :: 0 <= i < |cells| && ch in cells[i] {
        var i :| 0 <= i < |cells| && ch in cells[i];
        if i > 0 {
          assert ch in cells[1..][i - 1];
        }
      }
    } else if |cells| == 1 {
      assert Line(cells) == Quote(cells[0]);
    }
  }

  lemma {:induction false} ReadQuotedCell(cell: string, rest: string)
    requires '"' !in cell
    ensures ReadQuoted(cell + "\"" + rest) == Some((cell, rest))
    decreases |cell|
  {
    var s := cell + "\"" + rest;
    if |cell| > 0 {
      assert s[1..] == cell[1..] + "\"" + rest;
      ReadQuotedCell(cell[1..], rest);
      assert [cell[0]] + cell[1..] == cell;
    } else {
      assert s[1..] == rest;
    }
  }

  /** A quoted cell without a quote of its own reads back whole: the reader
      stops at the closing quote and nothing is left over. */
  lemma QuoteReadsBack(cell: string)
    requires '"' !in cell
    ensures Quote(cell)[0] == '"'
    ensures ReadQuoted(Quote(cell)[1..]) == Some((cell, ""))
  {
    assert Quote(cell)[1..] == cell + "\"" + "";
    ReadQuotedCell(cell, "");
  }

  lemma {:induction false} ParseLineRoundTrip(cells: seq<string>)
    requires |cells| >= 1
    requires forall i :: 0 <= i < |cells| ==> '"' !in cells[i]
    ensures ParseLine(Line(cells)) == Some(cells)
    decreases |cells|
  {
    var line := Line(cells);
    if |cells| == 1 {
      assert line == Quote(cells[0]);
      assert line[1..] == cells[0] + "\"" + "";
      ReadQuotedCell(cells[0], "");
      assert cells == [cells[0]];
    } else {
      var tail := Line(cells[1..]);
      LineCons(cells[0], cells[1..]);
      assert [cells[0]] + cells[1..] == cells;
      assert line == Quote(cells[0]) + "," + tail;
      assert line[1..] == cells[0] + "\"" + ([','] + tail);
      ReadQuotedCell(cells[0], [','] + tail);
      assert ([','] + tail)[1..] == tail;
      ParseLineRoundTrip(cells[1..]);
      assert [cells[0]] + cells[1..] == cells;
    }
  }

  lemma LinesCons(rows: seq<seq<string>>)
    requires |rows| > 0
    ensures Lines(rows) == [Line(rows[0])] + Lines(rows[1..])
  {
  }

  lemma ParseLinesCons(line: string, lines: seq<string>, cells: seq<string>, rows: seq<seq<string>>)
    requires ParseLine(line) == Some(cells) && ParseLines(lines) == Some(rows)
    ensures ParseLines([line] + lines) == Some([cells] + rows)
  {
    assert ([line] + lines)[0] == line && ([line] + lines)[1..] == lines;
  }

  lemma {:induction false} ParseLinesRoundTrip(rows: seq<seq<string>>)
    requires forall k :: 0 <= k < |rows| ==> Readable(rows[k])
    ensures ParseLines(Lines(rows)) == Some(rows)
    decreases |rows|
  {
    if |rows| > 0 {
      LinesCons(rows);
      ParseLineRoundTrip(rows[0]);
      ParseLinesRoundTrip(rows[1..]);
      ParseLinesCons(Line(rows[0]), Lines(rows[1..]), rows[0], rows[1..]);
      assert [rows[0]] + rows[1..] == rows;
    }
  }

  /** When no cell holds a newline, neither does any line, so the text splits
      back into exactly one line per row; quotes in cells do not matter here. */
  lemma LineCount(rows: seq<seq<string>>)
    requires |rows| >= 1
    requires forall k, i :: 0 <= k < |rows| && 0 <= i < |rows[k]| ==> '\n' !in rows[k][i]
    ensures Split(Document(rows), '\n') == Lines(rows)
    ensures |Split(Document(rows), '\n')| == |rows|
  {
    forall k | 0 <= k < |rows| ensures '\n' !in Lines(rows)[k] {
      LineKeepsCellChars(rows[k], '\n');
    }
    SplitJoin(Lines(rows), '\n');
  }

  /** The round trip of the export format: reading back the written text
      yields the rows exactly when every row has a cell and no cell holds a
      quote or a newline -- nothing is escaped. */
  lemma DocumentRoundTrip(rows: seq<seq<string>>)
    requires |rows| >= 1
    requires forall k :: 0 <= k < |rows| ==> |rows[k]| >= 1
    ensures ParseDocument(Document(rows)) == Some(rows) <==> SafeRows(rows)
  {
    if SafeRows(rows) {
      LineCount(rows);
      ParseLinesRoundTrip(rows);
    }
    if ParseDocument(Document(rows)) == Some(rows) {
      var lines := Split(Document(rows), '\n');
      forall k, i | 0 <= k < |rows| && 0 <= i < |rows[k]| ensures Safe(rows[k][i]) {
        assert Line(rows[k]) == lines[k];
        assert '\n' !in lines[k];
        LineKeepsCellChars(rows[k], '\n');
      }
    }
  }
}
