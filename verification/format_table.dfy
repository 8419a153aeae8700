/** Tabular printing scaled to the terminal width: cell sanitising, fitting a
    cell to an exact width, border lines, and the table itself. The terminal
    width and the emoji remover are parameters of `Table`. */
module FormatTable {
  import opened Sums
  import opened Strings
  import SpareColumns

  /** The single-character ellipsis that marks a cut-off cell. */
  const Ellipsis: char := '\U{2026}'

  predicate IsAscii(c: char)
  {
    c as int < 128
  }

  /** `asciiify`: encoding to ASCII with `errors="ignore"` drops every
      character outside 7-bit ASCII and keeps the rest in order. */
  function Asciiify(text: string): (r: string)
    ensures |r| <= |text|
    ensures forall i :: 0 <= i < |r| ==> IsAscii(r[i])
    ensures (forall i :: 0 <= i < |text| ==> IsAscii(text[i])) ==> r == text
  {
    if text == [] then []
    else
      var k := |text| - 1;
      assert text[..k] + [text[k]] == text;
      Asciiify(text[..k]) + (if IsAscii(text[k]) then [text[k]] else [])
  }

  /** Sanitising works piece by piece: the result for a concatenation is the
      concatenation of the results. With the single-character case this pins
      `Asciiify` down completely. */
  lemma {:induction false} AsciiifyAppend(a: string, b: string)
    ensures Asciiify(a + b) == Asciiify(a) + Asciiify(b)
    decreases |b|
  {
    if b == [] {
      assert a + b == a;
    } else {
      var k := |b| - 1;
      assert (a + b)[..|a + b| - 1] == a + b[..k];
      AsciiifyAppend(a, b[..k]);
    }
  }

  lemma AsciiifyOne(c: char)
    ensures Asciiify([c]) == if IsAscii(c) then [c] else []
  {
    assert [c][..0] == [];
  }

  /** Every ASCII character keeps its number of occurrences, and no other
      character survives. */
  lemma {:induction false} AsciiifyCounts(text: string, c: char)
    ensures multiset(Asciiify(text))[c] == if IsAscii(c) then multiset(text)[c] else 0
  {
    if text != [] {
      var k := |text| - 1;
      AsciiifyCounts(text[..k], c);
      assert text[..k] + [text[k]] == text;
    }
  }

  /** Sanitising twice is sanitising once. */
  lemma AsciiifyIdempotent(text: string)
    ensures Asciiify(Asciiify(text)) == Asciiify(text)
  {
  }

  /** The cell text as `fixed_length` measures it: stripped, with every newline
      (`\n`) turned into a space. It holds no newline and neither starts
      nor ends with whitespace; other line separators such as `\r` stay. */
  function Cleaned(text: string): (t: string)
    ensures '\n' !in t
    ensures t == [] || (!IsSpace(t[0]) && !IsSpace(t[|t| - 1]))
    ensures |t| <= |text|
  {
    var s := Strip(text);
    assert IsSpace('\n');
    ReplaceNewlines(s)
  }

  /** Python's slice `t[:k]`: the first `k` characters, or for a negative
      `k` all but the last `-k`, and never more than there are. */
  function SliceTo(t: string, k: int): (r: string)
    ensures |r| == if k >= 0 then (if k < |t| then k else |t|) else (if |t| + k > 0 then |t| + k else 0)
    ensures r == t[..|r|]
  {
    if k >= 0 then t[..if k < |t| then k else |t|]
    else t[..if |t| + k > 0 then |t| + k else 0]
  }

  /** The cut-off branch of `fixed_length`: the slice `t[:length - 1]` and an
      ellipsis. */
  function Truncated(t: string, length: int): (r: string)
    requires '\n' !in t
    ensures '\n' !in r
    ensures |r| >= 1 && r[|r| - 1] == Ellipsis
    ensures |r| - 1 <= |t| && r[..|r| - 1] == t[..|r| - 1]
    ensures |t| > length >= 1 ==> |r| == length
  {
    var kept := SliceTo(t, length - 1);
    assert forall i :: 0 <= i < |kept| ==> kept[i] == t[i];
    kept + [Ellipsis]
  }

  /** The padding branch of `fixed_length`: `t` left-aligned in `length`
      columns. */
  function Padded(t: string, length: int): (r: string)
    requires '\n' !in t
    requires |t| < length
    ensures '\n' !in r
    ensures |r| == length
    ensures r[..|t|] == t && forall i :: |t| <= i < |r| ==> r[i] == ' '
  {
    t + Repeat(' ', length - |t|)
  }

  /** `fixed_length(text, length)`: the cleaned text if it has exactly
      `length` characters, its first `length - 1` characters and an ellipsis
      if it is longer, and the text padded with spaces if it is shorter. For
      `length >= 1` the result has exactly `length` characters; it never
      holds a newline (`\n`); it starts with as much of the cleaned text as fits
      before the last position. */
  function FixedLength(text: string, length: int): (r: string)
    ensures '\n' !in r
    ensures length >= 1 ==> |r| == length
    ensures var t := Cleaned(text);
      var keep := if |t| < length - 1 then |t| else length - 1;
      length >= 1 ==> r[..keep] == t[..keep]
    ensures var t := Cleaned(text);
      |t| <= length ==> r[..|t|] == t && forall i :: |t| <= i < |r| ==> r[i] == ' '
    ensures var t := Cleaned(text);
      |t| > length >= 1 ==> r[length - 1] == Ellipsis
  {
    var t := Cleaned(text);
    if |t| == length then t
    else if |t| > length then Truncated(t, length)
    else Padded(t, length)
  }

  /** At a width of zero or below a cell is not cut to the width: Python's
      negative slice keeps all but the last `1 - length` characters and the
      ellipsis is added after them. Only an empty cell at width zero matches
      the width exactly and stays empty. */
  lemma FixedLengthNonPositive(text: string, length: int)
    requires length <= 0
    ensures var t := Cleaned(text);
      var r := FixedLength(text, length);
      if t == [] && length == 0 then r == []
      else
        && |r| == (if |t| + length > 1 then |t| + length else 1)
        && r[|r| - 1] == Ellipsis
        && |r| > length
        && |r| - 1 <= |t| && r[..|r| - 1] == t[..|r| - 1]
  {
    var t := Cleaned(text);
    if t != [] || length != 0 {
      assert FixedLength(text, length) == SliceTo(t, length - 1) + [Ellipsis];
    }
  }

  /** A fitted cell has no whitespace at either end unless it was padded. */
  lemma FixedLengthTruncatedClean(text: string, length: int)
    requires length >= 1 && |Cleaned(text)| > length
    ensures Cleaned(FixedLength(text, length)) == FixedLength(text, length)
  {
    var t := Cleaned(text);
    var r := FixedLength(text, length);
    assert !IsSpace(Ellipsis);
    if length > 1 {
      assert r[0] == r[..length - 1][0] == t[..length - 1][0];
    }
    StripUnchanged(r);
    ReplaceNewlinesNoop(r);
  }

  lemma FixedLengthPaddedClean(text: string, length: int)
    requires |Cleaned(text)| <= length
    ensures Cleaned(FixedLength(text, length)) == Cleaned(text)
  {
    var t := Cleaned(text);
    FixedLengthStripsBack(text, length);
    ReplaceNewlinesNoop(t);
  }

  /** A cell is fitted from its cleaned text alone. */
  lemma FixedLengthOfCleaned(a: string, b: string, length: int)
    requires Cleaned(a) == Cleaned(b)
    ensures FixedLength(a, length) == FixedLength(b, length)
  {
  }

  /** Text that is already clean and of the width is kept as it is. */
  lemma FixedLengthExact(r: string, length: int)
    requires Cleaned(r) == r && |r| == length
    ensures FixedLength(r, length) == r
  {
  }

  /** Fitting a fitted cell again to the same width changes nothing. */
  lemma FixedLengthIdempotent(text: string, length: int)
    requires length >= 1
    ensures FixedLength(FixedLength(text, length), length) == FixedLength(text, length)
  {
    if |Cleaned(text)| <= length {
      FixedLengthPaddedClean(text, length);
      FixedLengthOfCleaned(FixedLength(text, length), text, length);
    } else {
      FixedLengthTruncatedClean(text, length);
      FixedLengthExact(FixedLength(text, length), length);
    }
  }

  /** Padding is undone by stripping: a cell whose cleaned text fits strips
      back to that text. */
  lemma FixedLengthStripsBack(text: string, length: int)
    requires |Cleaned(text)| <= length
    ensures Strip(FixedLength(text, length)) == Cleaned(text)
  {
    var t := Cleaned(text);
    if |t| == length {
      assert FixedLength(text, length) == t;
      StripUnchanged(t);
    } else {
      assert FixedLength(text, length) == Padded(t, length);
      PaddedStripsBack(t, length);
    }
  }

  lemma PaddedStripsBack(t: string, length: int)
    requires '\n' !in t && |t| < length
    requires t == [] || (!IsSpace(t[0]) && !IsSpace(t[|t| - 1]))
    ensures Strip(Padded(t, length)) == t
  {
    StripPadded(t, length - |t|);
  }

  /** Every character of the cleaned text is a character of the text or a
      space. */
  lemma CleanedChars(text: string)
    ensures forall c :: c in Cleaned(text) ==> c == ' ' || c in text
  {
    var s := Strip(text);
    var t := ReplaceNewlines(s);
    var lead := |text| - |TrimStart(text)|;
    forall c | c in t
      ensures c == ' ' || c in text
    {
      var i :| 0 <= i < |t| && t[i] == c;
      if s[i] != '\n' {
        assert s[i] == text[lead + i];
      }
    }
  }

  /** A cut-off cell holds only characters of the text and the ellipsis. */
  lemma TruncatedChars(t: string, length: int)
    requires '\n' !in t
    ensures forall c :: c in Truncated(t, length) ==> c in t || c == Ellipsis
  {
    var r := Truncated(t, length);
    var k := |r| - 1;
    forall c | c in r
      ensures c in t || c == Ellipsis
    {
      var i :| 0 <= i < |r| && r[i] == c;
      if i < k {
        assert r[..k][i] == c;
        assert t[..k][i] == t[i];
      }
    }
  }

  /** A padded cell holds only characters of the text and spaces. */
  lemma PaddedChars(t: string, length: int)
    requires '\n' !in t && |t| < length
    ensures forall c :: c in Padded(t, length) ==> c in t || c == ' '
  {
    var r := Padded(t, length);
    forall c | c in r
      ensures c in t || c == ' '
    {
      var i :| 0 <= i < |r| && r[i] == c;
      if i < |t| {
        assert r[..|t|][i] == c;
      }
    }
  }

  /** A fitted cell holds only characters of the text, spaces and the
      ellipsis. */
  lemma FixedLengthChars(text: string, length: int)
    ensures forall c :: c in FixedLength(text, length) ==> c in text || c == ' ' || c == Ellipsis
  {
    CleanedChars(text);
    var t := Cleaned(text);
    if |t| == length {
      assert FixedLength(text, length) == t;
    } else if |t| > length {
      assert FixedLength(text, length) == Truncated(t, length);
      TruncatedChars(t, length);
    } else {
      assert FixedLength(text, length) == Padded(t, length);
      PaddedChars(t, length);
    }
  }

  /** `generate_border(widths)`: for each width in order, that many hyphens
      (none for a width below one) and two spaces. */
  function GenerateBorder(widths: seq<int>): (r: string)
    ensures forall i :: 0 <= i < |r| ==> r[i] == '-' || r[i] == ' '
    ensures (forall i :: 0 <= i < |widths| ==> widths[i] >= 0) ==> |r| == SumInt(widths) + 2 * |widths|
  {
    if widths == [] then ""
    else
      var k := |widths| - 1;
      GenerateBorder(widths[..k]) + Repeat('-', widths[k]) + "  "
  }

  /** A border of several column groups is their borders side by side. */
  lemma {:induction false} GenerateBorderAppend(a: seq<int>, b: seq<int>)
    ensures GenerateBorder(a + b) == GenerateBorder(a) + GenerateBorder(b)
    decreases |b|
  {
    if b == [] {
      assert a + b == a;
    } else {
      var k := |b| - 1;
      assert (a + b)[..|a + b| - 1] == a + b[..k];
      GenerateBorderAppend(a, b[..k]);
    }
  }

  /** One column's border: its hyphens, then the two-space gap. */
  lemma GenerateBorderOne(w: int)
    ensures GenerateBorder([w]) == Repeat('-', w) + "  "
  {
    assert [w][..0] == [];
  }

  /** The `[formatting]` options of the configuration. */
  datatype Formatting = Formatting(removeEmojis: bool, enforceAscii: bool)

  /** The cleaning applied to every cell: ASCII enforcement when it is on,
      else emoji removal (`clean`, the emoji library's replacement, given as
      a parameter) when that is on, else nothing. */
  function Sanitize(formatting: Formatting, clean: string -> string, text: string): (r: string)
    ensures formatting.enforceAscii ==> forall i :: 0 <= i < |r| ==> IsAscii(r[i])
    ensures formatting.enforceAscii ==> r == Asciiify(text)
    ensures !formatting.enforceAscii && formatting.removeEmojis ==> r == clean(text)
    ensures !formatting.enforceAscii && !formatting.removeEmojis ==> r == text
  {
    if formatting.enforceAscii then Asciiify(text)
    else if formatting.removeEmojis then clean(text)
    else text
  }

  /** One configured column, in display order: its minimum width, its
      flexibility weight, and the cap on its extra width (0 for none). */
  datatype ColumnSpec = ColumnSpec(minWidth: nat, weight: real, cap: nat)

  predicate WellFormed(columns: seq<ColumnSpec>)
  {
    forall i :: 0 <= i < |columns| ==> columns[i].weight >= 0.0
  }

  function MinWidths(columns: seq<ColumnSpec>): (r: seq<int>)
    ensures |r| == |columns|
    ensures forall i :: 0 <= i < |r| ==> r[i] == columns[i].minWidth
  {
    seq(|columns|, i requires 0 <= i < |columns| => columns[i].minWidth)
  }

  function Weights(columns: seq<ColumnSpec>): (r: seq<real>)
    ensures |r| == |columns|
    ensures forall i :: 0 <= i < |r| ==> r[i] == columns[i].weight
  {
    seq(|columns|, i requires 0 <= i < |columns| => columns[i].weight)
  }

  function Caps(columns: seq<ColumnSpec>): (r: seq<nat>)
    ensures |r| == |columns|
    ensures forall i :: 0 <= i < |r| ==> r[i] == columns[i].cap
  {
    seq(|columns|, i requires 0 <= i < |columns| => columns[i].cap)
  }

  /** `spare_cols`: the terminal width less every minimum width, two columns
      per gap between columns, and a safety buffer of three. */
  function SpareWidth(columns: seq<ColumnSpec>, terminalWidth: int): (spare: int)
    ensures spare >= 0 <==> SumInt(MinWidths(columns)) + 2 * (|columns| - 1) + 3 <= terminalWidth
  {
    terminalWidth - SumInt(MinWidths(columns)) - 2 * (|columns| - 1) - 3
  }

  /** `true_widths`: each column's minimum plus the extra the allocator gives
      it. A locked column stays at its minimum and a capped one gets at most
      its cap on top of it. */
  function Widths(columns: seq<ColumnSpec>, terminalWidth: int): (w: seq<int>)
    requires WellFormed(columns)
    ensures |w| == |columns|
    ensures forall i :: 0 <= i < |w| && columns[i].weight == 0.0 ==> w[i] == columns[i].minWidth
    ensures forall i :: 0 <= i < |w| && columns[i].cap != 0 ==> w[i] <= columns[i].minWidth + columns[i].cap
  {
    var weights, caps := Weights(columns), Caps(columns);
    var extra := SpareColumns.SplitSpare(SpareWidth(columns, terminalWidth), weights, caps);
    AddExtras(columns, extra)
  }

  /** Each column's minimum plus its extra width. */
  function AddExtras(columns: seq<ColumnSpec>, extra: seq<int>): (w: seq<int>)
    requires |extra| == |columns|
    ensures |w| == |columns|
    ensures forall i :: 0 <= i < |w| ==> w[i] - columns[i].minWidth == extra[i]
  {
    seq(|columns|, i requires 0 <= i < |columns| => columns[i].minWidth + extra[i])
  }

  /** When the terminal leaves spare width, every column gets at least its
      minimum, and the columns with their two-space gaps and the safety
      buffer fit within the terminal. */
  lemma WidthsFitTerminal(columns: seq<ColumnSpec>, terminalWidth: int)
    requires WellFormed(columns)
    requires SpareWidth(columns, terminalWidth) >= 0
    ensures var w := Widths(columns, terminalWidth);
      && (forall i :: 0 <= i < |w| ==> w[i] >= columns[i].minWidth)
      && SumInt(w) + 2 * (|columns| - 1) + 3 <= terminalWidth
  {
    var spare := SpareWidth(columns, terminalWidth);
    var extra := SpareColumns.SplitSpare(spare, Weights(columns), Caps(columns));
    SpareColumns.SplitSpareWithinBudget(spare, Weights(columns), Caps(columns));
    SumIntAdd(MinWidths(columns), extra, Widths(columns, terminalWidth));
  }

  /** One table row: each cell fitted to its column's width, joined by two
      spaces. A row with fewer cells than columns uses the first widths. */
  function RenderRow(cells: seq<string>, widths: seq<int>): (line: string)
    requires |cells| <= |widths|
    ensures '\n' !in line
  {
    var fitted := seq(|cells|, i requires 0 <= i < |cells| => FixedLength(cells[i], widths[i]));
    JoinKeeps(c => c != '\n', fitted, "  ");
    Join(fitted, "  ")
  }

  /** A row with a cell for every column, all widths positive, is exactly
      as wide as the columns and the gaps between them. */
  lemma RenderRowLength(cells: seq<string>, widths: seq<int>)
    requires |cells| == |widths| >= 1
    requires forall i :: 0 <= i < |widths| ==> widths[i] >= 1
    ensures |RenderRow(cells, widths)| == SumInt(widths) + 2 * (|widths| - 1)
  {
    var fitted := seq(|cells|, i requires 0 <= i < |cells| => FixedLength(cells[i], widths[i]));
    JoinLength(fitted, "  ");
    assert Lengths(fitted) == widths;
  }

  function SanitizeRow(formatting: Formatting, clean: string -> string, row: seq<string>): (r: seq<string>)
    ensures |r| == |row|
    ensures forall i :: 0 <= i < |row| ==> r[i] == Sanitize(formatting, clean, row[i])
  {
    seq(|row|, i requires 0 <= i < |row| => Sanitize(formatting, clean, row[i]))
  }

  /** The body lines: each row's sanitised cells fitted to the widths. */
  function RenderRows(rows: seq<seq<string>>, widths: seq<int>, formatting: Formatting,
                      clean: string -> string): (body: seq<string>)
    requires forall j :: 0 <= j < |rows| ==> |rows[j]| <= |widths|
    ensures |body| == |rows|
    ensures forall j :: 0 <= j < |rows| ==> body[j] == RenderRow(SanitizeRow(formatting, clean, rows[j]), widths)
    ensures forall j :: 0 <= j < |body| ==> '\n' !in body[j]
  {
    seq(|rows|, j requires 0 <= j < |rows| => RenderRow(SanitizeRow(formatting, clean, rows[j]), widths))
  }

  /** The border is free of newlines. */
  lemma BorderOneLine(widths: seq<int>)
    ensures '\n' !in GenerateBorder(widths)
  {
  }

  /** Body lines between two copies of a border line. */
  function Framed(border: string, body: seq<string>): (lines: seq<string>)
    ensures |lines| == |body| + 2
    ensures lines[0] == border && lines[|lines| - 1] == border
    ensures forall j :: 0 <= j < |body| ==> lines[j + 1] == body[j]
    ensures '\n' !in border && (forall j :: 0 <= j < |body| ==> '\n' !in body[j])
      ==> forall k :: 0 <= k < |lines| ==> '\n' !in lines[k]
  {
    [border] + body + [border]
  }

  /** The rendered lines, top border to bottom border; none holds a line
      break. */
  function TableLines(rows: seq<seq<string>>, widths: seq<int>, formatting: Formatting,
                      clean: string -> string): (lines: seq<string>)
    requires forall j :: 0 <= j < |rows| ==> |rows[j]| <= |widths|
    ensures |lines| == |rows| + 2
    ensures lines[0] == GenerateBorder(widths) && lines[|lines| - 1] == GenerateBorder(widths)
    ensures forall j :: 0 <= j < |rows| ==> lines[j + 1] == RenderRow(SanitizeRow(formatting, clean, rows[j]), widths)
    ensures forall k :: 0 <= k < |lines| ==> '\n' !in lines[k]
  {
    BorderOneLine(widths);
    Framed(GenerateBorder(widths), RenderRows(rows, widths, formatting, clean))
  }

  /** `table(data, config)` with the terminal width passed in: the border,
      one line per row of sanitised cells fitted to the column widths, and
      the same border again, joined by newlines. Split at its newlines
      the output gives back exactly those lines. */
  function Table(rows: seq<seq<string>>, columns: seq<ColumnSpec>, formatting: Formatting,
                 clean: string -> string, terminalWidth: int): (r: string)
    requires WellFormed(columns)
    requires forall j :: 0 <= j < |rows| ==> |rows[j]| <= |columns|
    ensures var lines := SplitOn(r, '\n');
      var widths := Widths(columns, terminalWidth);
      && |lines| == |rows| + 2
      && lines[0] == GenerateBorder(widths)
      && lines[|lines| - 1] == GenerateBorder(widths)
      && forall j :: 0 <= j < |rows| ==>
           lines[j + 1] == RenderRow(SanitizeRow(formatting, clean, rows[j]), widths)
  {
    var lines := TableLines(rows, Widths(columns, terminalWidth), formatting, clean);
    SplitJoin(lines, '\n');
    Join(lines, "\n")
  }

  /** ASCII enforcement takes precedence: with it on, the emoji setting and
      the emoji remover make no difference to the output. */
  lemma AsciiPreemptsEmojiRemoval(rows: seq<seq<string>>, columns: seq<ColumnSpec>,
                                  removeEmojis1: bool, removeEmojis2: bool,
                                  clean1: string -> string, clean2: string -> string, terminalWidth: int)
    requires WellFormed(columns)
    requires forall j :: 0 <= j < |rows| ==> |rows[j]| <= |columns|
    ensures Table(rows, columns, Formatting(removeEmojis1, true), clean1, terminalWidth)
         == Table(rows, columns, Formatting(removeEmojis2, true), clean2, terminalWidth)
  {
    var widths := Widths(columns, terminalWidth);
    forall j | 0 <= j < |rows|
      ensures SanitizeRow(Formatting(removeEmojis1, true), clean1, rows[j])
           == SanitizeRow(Formatting(removeEmojis2, true), clean2, rows[j])
    {
    }
    assert RenderRows(rows, widths, Formatting(removeEmojis1, true), clean1)
        == RenderRows(rows, widths, Formatting(removeEmojis2, true), clean2);
  }

  predicate AsciiOrEllipsis(c: char)
  {
    IsAscii(c) || c == Ellipsis
  }

  /** With ASCII enforcement on, a rendered row holds nothing but ASCII and
      the ellipsis of cut-off cells. */
  lemma AsciiRow(row: seq<string>, widths: seq<int>, removeEmojis: bool, clean: string -> string)
    requires |row| <= |widths|
    ensures forall c :: (c in RenderRow(SanitizeRow(Formatting(removeEmojis, true), clean, row), widths)
      ==> AsciiOrEllipsis(c))
  {
    var cells := SanitizeRow(Formatting(removeEmojis, true), clean, row);
    var fitted := seq(|cells|, i requires 0 <= i < |cells| => FixedLength(cells[i], widths[i]));
    forall i, c | 0 <= i < |fitted| && c in fitted[i]
      ensures AsciiOrEllipsis(c)
    {
      FixedLengthChars(cells[i], widths[i]);
      if c in cells[i] {
        var m :| 0 <= m < |cells[i]| && cells[i][m] == c;
      }
    }
    JoinKeeps(AsciiOrEllipsis, fitted, "  ");
  }

  /** With ASCII enforcement on, the output holds nothing but ASCII and the
      ellipsis of cut-off cells. */
  lemma AsciiTableOutput(rows: seq<seq<string>>, columns: seq<ColumnSpec>, removeEmojis: bool,
                         clean: string -> string, terminalWidth: int)
    requires WellFormed(columns)
    requires forall j :: 0 <= j < |rows| ==> |rows[j]| <= |columns|
    ensures forall c :: (c in Table(rows, columns, Formatting(removeEmojis, true), clean, terminalWidth)
      ==> AsciiOrEllipsis(c))
  {
    var formatting := Formatting(removeEmojis, true);
    var widths := Widths(columns, terminalWidth);
    var lines := TableLines(rows, widths, formatting, clean);
    forall k, c | 0 <= k < |lines| && c in lines[k]
      ensures AsciiOrEllipsis(c)
    {
      if 0 < k < |lines| - 1 {
        AsciiRow(rows[k - 1], widths, removeEmojis, clean);
      }
    }
    JoinKeeps(AsciiOrEllipsis, lines, "\n");
  }

  /** With spare width and every minimum at least one, each row that has a
      cell for every column is exactly as wide as the columns and their gaps,
      which stays three short of the terminal width; the borders are two
      characters wider than such a row. */
  lemma TableRowsFitTerminal(rows: seq<seq<string>>, columns: seq<ColumnSpec>, formatting: Formatting,
                             clean: string -> string, terminalWidth: int)
    requires WellFormed(columns)
    requires |columns| >= 1
    requires forall j :: 0 <= j < |rows| ==> |rows[j]| == |columns|
    requires forall i :: 0 <= i < |columns| ==> columns[i].minWidth >= 1
    requires SpareWidth(columns, terminalWidth) >= 0
    ensures var lines := SplitOn(Table(rows, columns, formatting, clean, terminalWidth), '\n');
      var widths := Widths(columns, terminalWidth);
      && |lines[0]| == SumInt(widths) + 2 * |columns|
      && forall k :: 1 <= k < |lines| - 1 ==>
           |lines[k]| == SumInt(widths) + 2 * (|columns| - 1) <= terminalWidth - 3
  {
    var widths := Widths(columns, terminalWidth);
    var lines := SplitOn(Table(rows, columns, formatting, clean, terminalWidth), '\n');
    WidthsFitTerminal(columns, terminalWidth);
    assert forall i :: 0 <= i < |widths| ==> widths[i] >= 1;
    assert |lines[0]| == SumInt(widths) + 2 * |columns|;
    forall k | 1 <= k < |lines| - 1
      ensures |lines[k]| == SumInt(widths) + 2 * (|columns| - 1)
    {
      var cells := SanitizeRow(formatting, clean, rows[k - 1]);
      assert lines[k] == RenderRow(cells, widths);
      RenderRowLength(cells, widths);
    }
  }
}
