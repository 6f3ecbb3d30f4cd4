/**
 * String and table formatting: src/format.ts.
 *
 * Strings are sequences of UTF-16 code units. The table and replacement
 * operations are written on top of the JavaScript built-ins of `JsStrings`.
 */
module Format {
  import opened Wrappers
  import opened JsStrings

  // ---------------------------------------------------------------------------
  // Case mapping of one code unit
  // ---------------------------------------------------------------------------

  /**
   * `c.toUpperCase()` for one code unit: ASCII letters, plus the sharp s,
   * whose full upper-case mapping is the two code units "SS".
   */
  function UpperCase(c: char): (r: string)
    ensures 1 <= |r| <= 2
  {
    if 'a' <= c <= 'z' then [(c as int - 32) as char]
    else if c == '\U{00DF}' then "SS"
    else [c]
  }

  /**
   * `c.toLowerCase()` for one code unit: ASCII letters, plus the dotted
   * capital I, whose full lower-case mapping is the two code units "i̇".
   */
  function LowerCase(c: char): (r: string)
    ensures 1 <= |r| <= 2
  {
    if 'A' <= c <= 'Z' then [(c as int + 32) as char]
    else if c == '\U{0130}' then "i\U{0307}"
    else [c]
  }

  // ---------------------------------------------------------------------------
  // capitalize / uncapitalize
  // ---------------------------------------------------------------------------

  /**
   * `capitalize(text)`, with the rest of the text taken from index 1: the first
   * code unit is replaced by its upper-case mapping and every later one is kept.
   */
  function Capitalize(text: string): (r: string)
    ensures |text| == 0 ==> r == ""
    ensures |text| > 0 ==> |r| == |UpperCase(text[0])| + |text| - 1
    ensures |text| > 0 ==> r[..|UpperCase(text[0])|] == UpperCase(text[0])
    ensures forall i :: 1 <= i < |text| ==> r[|r| - |text| + i] == text[i]
  {
    if |text| == 0 then "" else UpperCase(text[0]) + text[1..]
  }

  /**
   * `capitalize(text)` as src/format.ts writes it: the rest of the text is
   * `text.slice(firstCharacter.length)`, where `firstCharacter` is the
   * upper-cased first code unit. When that mapping is two code units long
   * the second code unit of the input is lost.
   */
  function CapitalizeAsWritten(text: string): (r: string)
    ensures |text| <= 1 || |UpperCase(text[0])| == 1 ==> r == Capitalize(text)
    ensures |text| >= 2 && |UpperCase(text[0])| == 2 ==> r == UpperCase(text[0]) + text[2..]
  {
    var first := if |text| == 0 then "" else UpperCase(text[0]);
    first + Slice(text, |first|, |text|)
  }

  /** `uncapitalize(text)`, with the rest of the text taken from index 1. */
  function Uncapitalize(text: string): (r: string)
    ensures |text| == 0 ==> r == ""
    ensures |text| > 0 ==> |r| == |LowerCase(text[0])| + |text| - 1
    ensures |text| > 0 ==> r[..|LowerCase(text[0])|] == LowerCase(text[0])
    ensures forall i :: 1 <= i < |text| ==> r[|r| - |text| + i] == text[i]
  {
    if |text| == 0 then "" else LowerCase(text[0]) + text[1..]
  }

  /** `uncapitalize(text)` as src/format.ts writes it, slicing by the length of the lower-cased first code unit. */
  function UncapitalizeAsWritten(text: string): (r: string)
    ensures |text| <= 1 || |LowerCase(text[0])| == 1 ==> r == Uncapitalize(text)
    ensures |text| >= 2 && |LowerCase(text[0])| == 2 ==> r == LowerCase(text[0]) + text[2..]
  {
    var first := if |text| == 0 then "" else LowerCase(text[0]);
    first + Slice(text, |first|, |text|)
  }

  /** The sharp s upper-cases to two code units, so the code as written drops the "a" of "ßa". */
  lemma CapitalizeAsWrittenDropsACodeUnit()
    ensures CapitalizeAsWritten("\U{00DF}a") == "SS"
    ensures Capitalize("\U{00DF}a") == "SSa"
  {
  }

  /** The dotted capital I lower-cases to two code units, so the code as written drops the "A" of "İA". */
  lemma UncapitalizeAsWrittenDropsACodeUnit()
    ensures UncapitalizeAsWritten("\U{0130}A") == "i\U{0307}"
    ensures Uncapitalize("\U{0130}A") == "i\U{0307}A"
  {
  }

  lemma CapitalizeExample()
    ensures Capitalize("hello") == "Hello"
  {
  }

  lemma UncapitalizeExample()
    ensures Uncapitalize("HELLO") == "hELLO"
  {
  }

  /** On a text that starts with an ASCII lower-case letter, `uncapitalize` undoes `capitalize`. */
  lemma UncapitalizeUndoesCapitalize(text: string)
    requires |text| > 0 && 'a' <= text[0] <= 'z'
    ensures Uncapitalize(Capitalize(text)) == text
  {
  }

  /** On a text that starts with an ASCII upper-case letter, `capitalize` undoes `uncapitalize`. */
  lemma CapitalizeUndoesUncapitalize(text: string)
    requires |text| > 0 && 'A' <= text[0] <= 'Z'
    ensures Capitalize(Uncapitalize(text)) == text
  {
  }

  /** Capitalizing twice is capitalizing once. */
  lemma CapitalizeIdempotent(text: string)
    ensures Capitalize(Capitalize(text)) == Capitalize(text)
  {
  }

  /** Uncapitalizing twice is uncapitalizing once. */
  lemma UncapitalizeIdempotent(text: string)
    ensures Uncapitalize(Uncapitalize(text)) == Uncapitalize(text)
  {
  }

  // ---------------------------------------------------------------------------
  // truncate
  // ---------------------------------------------------------------------------

  /**
   * `truncate(text, maxLength, suffix)` for an integer `maxLength`; the source's
   * default suffix is "". A negative `maxLength` is read by `slice` as counting
   * from the end of the text.
   */
  function Truncate(text: string, maxLength: int, suffix: string): (r: string)
    ensures |text| <= maxLength ==> r == text
    ensures 0 <= maxLength < |text| ==> r == text[..maxLength] + suffix
    ensures maxLength < 0 ==> r == text[..if |text| + maxLength < 0 then 0 else |text| + maxLength] + suffix
  {
    if |text| > maxLength then Slice(text, 0, maxLength) + suffix else text
  }

  lemma TruncateExample()
    ensures Truncate("hello, world", 5, "...") == "hello..."
  {
  }

  /** A cut text is exactly `maxLength` code units of the original followed by the suffix, which may make it longer than `maxLength`. */
  lemma TruncateLength(text: string, maxLength: int, suffix: string)
    requires 0 <= maxLength < |text|
    ensures |Truncate(text, maxLength, suffix)| == maxLength + |suffix|
    ensures Truncate(text, maxLength, suffix)[..maxLength] <= text
  {
  }

  /** With the default empty suffix the result never exceeds `maxLength`, and truncating again changes nothing. */
  lemma TruncateWithoutSuffix(text: string, maxLength: nat)
    ensures |Truncate(text, maxLength, "")| <= maxLength
    ensures Truncate(text, maxLength, "") <= text
    ensures Truncate(Truncate(text, maxLength, ""), maxLength, "") == Truncate(text, maxLength, "")
  {
  }

  // ---------------------------------------------------------------------------
  // maxColumnLength / formatTable
  // ---------------------------------------------------------------------------

  /** A row of cells; rows of one table may differ in length. */
  type Row = seq<string>

  type Table = seq<Row>

  function Max(a: nat, b: nat): nat
  {
    if a < b then b else a
  }

  /** The length of cell `j` of `row`, or 0 when the row has no such cell. */
  function CellLength(row: Row, j: nat): nat
  {
    if j < |row| then |row[j]| else 0
  }

  /** The widest cell of column `j` over the rows that have a cell there (0 when none has). */
  function ColumnWidth(rows: Table, j: nat): nat
  {
    if |rows| == 0 then 0 else Max(ColumnWidth(rows[..|rows| - 1], j), CellLength(rows[|rows| - 1], j))
  }

  /** `ColumnWidth` is the maximum: no cell of the column is wider, and some cell is that wide unless it is 0. */
  lemma {:induction false} ColumnWidthIsMaximum(rows: Table, j: nat)
    ensures forall i :: 0 <= i < |rows| && j < |rows[i]| ==> |rows[i][j]| <= ColumnWidth(rows, j)
    ensures ColumnWidth(rows, j) == 0 || exists i :: 0 <= i < |rows| && j < |rows[i]| && |rows[i][j]| == ColumnWidth(rows, j)
  {
    if |rows| > 0 {
      var init := rows[..|rows| - 1];
      ColumnWidthIsMaximum(init, j);
      assert forall i :: 0 <= i < |init| ==> init[i] == rows[i];
    }
  }

  /** Taking one more row into account raises a column's width to that row's cell at most. */
  lemma ColumnWidthStep(table: Table, r: nat, j: nat)
    requires r < |table|
    ensures ColumnWidth(table[..r + 1], j) == Max(ColumnWidth(table[..r], j), CellLength(table[r], j))
  {
    assert table[..r + 1][..r] == table[..r];
  }

  /**
   * The column widths `maxColumnLength` computes: one per cell of the first
   * row, each the widest cell of its column. Cells of longer rows past the
   * first row's width have no entry.
   */
  function ColumnWidths(table: Table): (widths: seq<nat>)
    requires |table| > 0
    ensures |widths| == |table[0]|
  {
    seq(|table[0]|, j requires 0 <= j < |table[0]| => ColumnWidth(table, j))
  }

  /**
   * `maxColumnLength(table)`. The source reads `table[0]`, so an empty table
   * is a TypeError there; here it is excluded. `lengths[index]` is
   * `undefined` past the first row's width and `undefined < n` is false, so
   * longer rows never add an entry.
   */
  method MaxColumnLength(table: Table) returns (lengths: seq<nat>)
    requires |table| > 0
    ensures lengths == ColumnWidths(table)
    ensures |lengths| == |table[0]|
    ensures forall j, i :: 0 <= j < |lengths| && 0 <= i < |table| && j < |table[i]| ==> |table[i][j]| <= lengths[j]
    ensures forall j :: 0 <= j < |lengths| ==> exists i :: 0 <= i < |table| && j < |table[i]| && |table[i][j]| == lengths[j]
  {
    var first := table[0];
    var widths := new nat[|first|](j => if 0 <= j < |first| then |first[j]| else 0);
    var r := 0;
    while r < |table|
      invariant 0 <= r <= |table|
      invariant forall j :: 0 <= j < widths.Length ==> widths[j] == Max(|first[j]|, ColumnWidth(table[..r], j))
    {
      var row := table[r];
      var index := 0;
      while index < |row|
        invariant 0 <= index <= |row|
        invariant forall j :: 0 <= j < widths.Length && j < index ==>
          widths[j] == Max(|first[j]|, Max(ColumnWidth(table[..r], j), |row[j]|))
        invariant forall j :: index <= j < widths.Length ==> widths[j] == Max(|first[j]|, ColumnWidth(table[..r], j))
      {
        if index < widths.Length && widths[index] < |row[index]| {
          widths[index] := |row[index]|;
        }
        index := index + 1;
      }
      forall j | 0 <= j < widths.Length
        ensures widths[j] == Max(|first[j]|, ColumnWidth(table[..r + 1], j))
      {
        ColumnWidthStep(table, r, j);
      }
      r := r + 1;
    }
    assert table[..|table|] == table;
    forall j | 0 <= j < widths.Length
      ensures widths[j] == ColumnWidth(table, j)
    {
      ColumnWidthIsMaximum(table, j);
    }
    lengths := widths[..];
    ColumnWidthsAreMaxima(table);
  }

  /** Every entry of `ColumnWidths` is the maximum cell length of its column. */
  lemma ColumnWidthsAreMaxima(table: Table)
    requires |table| > 0
    ensures forall j, i :: 0 <= j < |table[0]| && 0 <= i < |table| && j < |table[i]| ==> |table[i][j]| <= ColumnWidths(table)[j]
    ensures forall j :: 0 <= j < |table[0]| ==> exists i :: 0 <= i < |table| && j < |table[i]| && |table[i][j]| == ColumnWidths(table)[j]
  {
    forall j | 0 <= j < |table[0]|
      ensures forall i :: 0 <= i < |table| && j < |table[i]| ==> |table[i][j]| <= ColumnWidths(table)[j]
      ensures exists i :: 0 <= i < |table| && j < |table[i]| && |table[i][j]| == ColumnWidths(table)[j]
    {
      ColumnWidthIsMaximum(table, j);
    }
  }

  /**
   * Cell `j` of a row after `column.padEnd(maxLengths[index])`. Past the first
   * row's width `maxLengths[index]` is `undefined`, which `padEnd` reads as a
   * target length of 0, so such a cell is left as it is.
   */
  function PadCell(cell: string, j: nat, widths: seq<nat>): (r: string)
    ensures |cell| <= |r| && r[..|cell|] == cell
    ensures forall k :: |cell| <= k < |r| ==> r[k] == ' '
    ensures j < |widths| && |cell| <= widths[j] ==> |r| == widths[j]
    ensures j < |widths| && widths[j] < |cell| ==> r == cell
    ensures j >= |widths| ==> r == cell
  {
    PadEnd(cell, if j < |widths| then widths[j] else 0)
  }

  function PaddedRow(row: Row, widths: seq<nat>): (cells: seq<string>)
    ensures |cells| == |row|
  {
    seq(|row|, j requires 0 <= j < |row| => PadCell(row[j], j, widths))
  }

  /** The lines of `formatTable(table, delimiter)`: each row's padded cells joined by the delimiter. */
  function FormattedLines(table: Table, delimiter: string): (lines: seq<string>)
    requires |table| > 0
    ensures |lines| == |table|
  {
    var widths := ColumnWidths(table);
    seq(|table|, i requires 0 <= i < |table| => Join(PaddedRow(table[i], widths), delimiter))
  }

  /** `formatTable(table, delimiter)`; the source's default delimiter is " ". */
  function FormatTable(table: Table, delimiter: string): (r: string)
    requires |table| > 0
    ensures |r| == SumLengths(FormattedLines(table, delimiter)) + |table| - 1
  {
    JoinLength(FormattedLines(table, delimiter), "\n");
    Join(FormattedLines(table, delimiter), "\n")
  }

  /** Sum of a sequence of widths. */
  function SumWidths(widths: seq<nat>): nat
  {
    if |widths| == 0 then 0 else SumWidths(widths[..|widths| - 1]) + widths[|widths| - 1]
  }

  /** Where column `j` begins on every line: the widths of the columns before it plus one delimiter after each. */
  function ColumnOffset(widths: seq<nat>, j: nat, delimiterLength: nat): nat
    requires j <= |widths|
  {
    SumWidths(widths[..j]) + j * delimiterLength
  }

  lemma {:induction false} SumLengthsOfWidths(parts: seq<string>, widths: seq<nat>, n: nat)
    requires n <= |parts| && n <= |widths|
    requires forall k :: 0 <= k < n ==> |parts[k]| == widths[k]
    ensures SumLengths(parts[..n]) == SumWidths(widths[..n])
  {
    if n > 0 {
      assert parts[..n][..n - 1] == parts[..n - 1];
      assert widths[..n][..n - 1] == widths[..n - 1];
      SumLengthsOfWidths(parts, widths, n - 1);
    }
  }

  /**
   * When the cells up to `j` have exactly the widths `widths`, cell `j` of the
   * joined row occupies `widths[j]` code units from `ColumnOffset`, followed by
   * the delimiter when another cell comes after it.
   */
  lemma AlignedCell(cells: seq<string>, widths: seq<nat>, delimiter: string, j: nat)
    requires j < |cells| && j < |widths|
    requires forall k :: 0 <= k <= j ==> |cells[k]| == widths[k]
    ensures var line := Join(cells, delimiter);
            var start := ColumnOffset(widths, j, |delimiter|);
            && start + widths[j] <= |line|
            && line[start..start + widths[j]] == cells[j]
            && (j + 1 < |cells| ==>
                  && start + widths[j] + |delimiter| <= |line|
                  && line[start + widths[j]..start + widths[j] + |delimiter|] == delimiter)
  {
    SumLengthsOfWidths(cells, widths, j);
    PartAt(cells, delimiter, j);
    if j + 1 < |cells| {
      PartAt(cells, delimiter, j + 1);
      NextPartOffset(cells, delimiter, j);
    }
  }

  /** Inside the first row's width, every padded cell of a column is as long as the column's widest cell. */
  lemma PaddedCellWidth(table: Table, i: nat, j: nat)
    requires i < |table| && j < |table[i]| && j < |table[0]|
    ensures |PaddedRow(table[i], ColumnWidths(table))[j]| == ColumnWidth(table, j)
  {
  }

  /**
   * Line `i` of the output is the `i`-th formatted row, and it follows a
   * newline unless it is the first.
   */
  lemma FormatTableLine(table: Table, delimiter: string, i: nat)
    requires i < |table|
    ensures var lines := FormattedLines(table, delimiter);
            var start := PartOffset(lines, i, "\n");
            && start + |lines[i]| <= |FormatTable(table, delimiter)|
            && FormatTable(table, delimiter)[start..start + |lines[i]|] == lines[i]
            && (i > 0 ==> FormatTable(table, delimiter)[start - 1] == '\n')
  {
    var lines := FormattedLines(table, delimiter);
    PartAt(lines, "\n", i);
  }

  /**
   * Columns line up: on every line that has cell `j` within the first row's
   * width, that cell starts at the same offset, `ColumnOffset`, is followed
   * only by spaces up to the column width, and then by the delimiter when
   * the row goes on.
   */
  lemma FormatTableAligned(table: Table, delimiter: string, i: nat, j: nat)
    requires i < |table| && j < |table[i]| && j < |table[0]|
    ensures var line := FormattedLines(table, delimiter)[i];
            var widths := ColumnWidths(table);
            var start := ColumnOffset(widths, j, |delimiter|);
            var cell := table[i][j];
            && |cell| <= widths[j]
            && start + widths[j] <= |line|
            && line[start..start + |cell|] == cell
            && (forall k :: start + |cell| <= k < start + widths[j] ==> line[k] == ' ')
            && (j + 1 < |table[i]| ==>
                  && start + widths[j] + |delimiter| <= |line|
                  && line[start + widths[j]..start + widths[j] + |delimiter|] == delimiter)
  {
    var widths := ColumnWidths(table);
    var cells := PaddedRow(table[i], widths);
    assert Join(cells, delimiter) == FormattedLines(table, delimiter)[i];
    forall k | 0 <= k <= j
      ensures |cells[k]| == widths[k]
    {
      PaddedCellWidth(table, i, k);
    }
    AlignedCell(cells, widths, delimiter, j);
    var start := ColumnOffset(widths, j, |delimiter|);
    var line := Join(cells, delimiter);
    assert line[start..start + |table[i][j]|] == cells[j][..|table[i][j]|];
  }

  // ---------------------------------------------------------------------------
  // multiReplace
  // ---------------------------------------------------------------------------

  /**
   * The `[searchValue, replaceValue]` pairs of `Object.entries(replacements)`,
   * in the order the scan tries them.
   */
  type Replacements = seq<(string, string)>

  /** The first pair at or after index `from` whose search value starts `rest`. */
  function FirstMatchFrom(rest: string, replacements: Replacements, from: nat): (k: Option<nat>)
    requires from <= |replacements|
    ensures k.Some? ==> from <= k.value < |replacements| && StartsWith(rest, replacements[k.value].0)
    ensures k.Some? ==> forall m :: from <= m < k.value ==> !StartsWith(rest, replacements[m].0)
    ensures k.None? ==> forall m :: from <= m < |replacements| ==> !StartsWith(rest, replacements[m].0)
    decreases |replacements| - from
  {
    if from == |replacements| then None
    else if StartsWith(rest, replacements[from].0) then Some(from)
    else FirstMatchFrom(rest, replacements, from + 1)
  }

  /** The pair the scan applies at a position whose remaining input is `rest`. */
  function FirstMatch(rest: string, replacements: Replacements): Option<nat>
  {
    FirstMatchFrom(rest, replacements, 0)
  }

  /** `prefix` in front of a result, or still no result. */
  function Prepend(prefix: string, tail: Option<string>): Option<string>
  {
    match tail
    case None => None
    case Some(s) => Some(prefix + s)
  }

  /**
   * The output of `multiReplace(text, replacements)`, or `None` when the source
   * never returns: at a position where the first matching search value is
   * empty, the scan appends its replacement and advances by 0, forever.
   */
  function MultiReplaced(text: string, replacements: Replacements): Option<string>
    decreases |text|
  {
    if |text| == 0 then Some("")
    else
      match FirstMatch(text, replacements)
      case None => Prepend([text[0]], MultiReplaced(text[1..], replacements))
      case Some(k) =>
        var (search, replace) := replacements[k];
        if |search| == 0 then None
        else Prepend(replace, MultiReplaced(text[|search|..], replacements))
  }

  lemma PrependNothing(tail: Option<string>)
    ensures Prepend("", tail) == tail
  {
    if tail.Some? {
      assert "" + tail.value == tail.value;
    }
  }

  lemma PrependPrepend(a: string, b: string, tail: Option<string>)
    ensures Prepend(a, Prepend(b, tail)) == Prepend(a + b, tail)
  {
    if tail.Some? {
      assert a + (b + tail.value) == (a + b) + tail.value;
    }
  }

  /**
   * `multiReplace(text, replacements)`: one left-to-right scan. At each
   * position the pairs are tried in order; the first whose search value starts
   * the rest of the input has its replacement appended and is skipped over,
   * and when none matches one code unit is copied. Replaced text is never
   * scanned again. `None` is the run that never ends (see `MultiReplaced`).
   */
  method MultiReplace(text: string, replacements: Replacements) returns (r: Option<string>)
    ensures r == MultiReplaced(text, replacements)
  {
    var result := "";
    var i := 0;
    assert text[i..] == text;
    PrependNothing(MultiReplaced(text, replacements));
    while i < |text|
      invariant 0 <= i <= |text|
      invariant MultiReplaced(text, replacements) == Prepend(result, MultiReplaced(text[i..], replacements))
      decreases |text| - i
    {
      var rest := text[i..];
      var hit: Option<nat> := None;
      for k := 0 to |replacements|
        invariant FirstMatch(rest, replacements) == FirstMatchFrom(rest, replacements, k)
      {
        if StartsWith(rest, replacements[k].0) {
          hit := Some(k);
          break;
        }
      }
      assert hit.Some? ==> hit == FirstMatch(rest, replacements);
      assert hit.None? ==> FirstMatch(rest, replacements).None?;
      match hit {
        case None =>
          assert rest[1..] == text[i + 1..];
          PrependPrepend(result, [text[i]], MultiReplaced(text[i + 1..], replacements));
          result := result + [text[i]];
          i := i + 1;
        case Some(k) =>
          var (search, replace) := replacements[k];
          if |search| == 0 {
            return None;
          }
          assert rest[|search|..] == text[i + |search|..];
          PrependPrepend(result, replace, MultiReplaced(text[i + |search|..], replacements));
          result := result + replace;
          i := i + |search|;
      }
    }
    assert MultiReplaced(text[i..], replacements) == Some("");
    assert result + "" == result;
    r := Some(result);
  }

  /** Every search value is non-empty: the condition under which the source's scan always ends. */
  predicate NonEmptyKeys(replacements: Replacements)
  {
    forall k :: 0 <= k < |replacements| ==> |replacements[k].0| > 0
  }

  /** With no empty search value the scan always ends. */
  lemma {:induction false} MultiReplacedTerminates(text: string, replacements: Replacements)
    requires NonEmptyKeys(replacements)
    ensures MultiReplaced(text, replacements).Some?
    decreases |text|
  {
    if |text| > 0 {
      match FirstMatch(text, replacements)
      case None => MultiReplacedTerminates(text[1..], replacements);
      case Some(k) => MultiReplacedTerminates(text[|replacements[k].0|..], replacements);
    }
  }

  /**
   * An empty search value that is reached before any other pair matches makes
   * the scan run forever on any non-empty input.
   */
  lemma EmptyKeyDiverges(text: string, replacements: Replacements, k: nat)
    requires |text| > 0 && k < |replacements| && replacements[k].0 == ""
    requires forall m :: 0 <= m < k ==> !StartsWith(text, replacements[m].0)
    ensures MultiReplaced(text, replacements).None?
  {
  }

  /** A search value that occurs nowhere in `text`. */
  predicate OccursNowhere(search: string, text: string)
  {
    forall i :: 0 <= i < |text| ==> !StartsWith(text[i..], search)
  }

  /** When no search value occurs in the input, the input is copied unchanged. */
  lemma {:induction false} MultiReplacedNoMatch(text: string, replacements: Replacements)
    requires forall k :: 0 <= k < |replacements| ==> OccursNowhere(replacements[k].0, text)
    ensures MultiReplaced(text, replacements) == Some(text)
    decreases |text|
  {
    if |text| > 0 {
      forall k | 0 <= k < |replacements|
        ensures !StartsWith(text, replacements[k].0) && OccursNowhere(replacements[k].0, text[1..])
      {
        assert text[0..] == text;
        forall i | 0 <= i < |text[1..]|
          ensures !StartsWith(text[1..][i..], replacements[k].0)
        {
          assert text[1..][i..] == text[i + 1..];
        }
      }
      assert FirstMatch(text, replacements).None?;
      MultiReplacedNoMatch(text[1..], replacements);
      assert [text[0]] + text[1..] == text;
    }
  }

  /**
   * When every replacement is as long as its search value, the output is as
   * long as the input.
   */
  lemma {:induction false} MultiReplacedKeepsLength(text: string, replacements: Replacements)
    requires NonEmptyKeys(replacements)
    requires forall k :: 0 <= k < |replacements| ==> |replacements[k].1| == |replacements[k].0|
    ensures MultiReplaced(text, replacements).Some?
    ensures |MultiReplaced(text, replacements).value| == |text|
    decreases |text|
  {
    if |text| > 0 {
      match FirstMatch(text, replacements)
      case None => MultiReplacedKeepsLength(text[1..], replacements);
      case Some(k) => MultiReplacedKeepsLength(text[|replacements[k].0|..], replacements);
    }
  }

  /**
   * Where several search values start the input, the first in order wins: the
   * output starts with its replacement.
   */
  lemma FirstPairWins(text: string, replacements: Replacements, k: nat)
    requires NonEmptyKeys(replacements)
    requires k < |replacements| && StartsWith(text, replacements[k].0)
    requires forall m :: 0 <= m < k ==> !StartsWith(text, replacements[m].0)
    ensures MultiReplaced(text, replacements).Some?
    ensures replacements[k].1 <= MultiReplaced(text, replacements).value
  {
    MultiReplacedTerminates(text, replacements);
    assert FirstMatch(text, replacements) == Some(k);
    MultiReplacedTerminates(text[|replacements[k].0|..], replacements);
  }

  /**
   * A reference definition for the case where every search value is one code
   * unit: each code unit of the input is mapped on its own, to the replacement
   * of the first pair that searches for it, or to itself.
   */
  function CharImage(c: char, replacements: Replacements): string
  {
    if |replacements| == 0 then [c]
    else if replacements[0].0 == [c] then replacements[0].1
    else CharImage(c, replacements[1..])
  }

  function Translate(text: string, replacements: Replacements): string
  {
    if |text| == 0 then "" else CharImage(text[0], replacements) + Translate(text[1..], replacements)
  }

  lemma {:induction false} FirstMatchIsCharImage(text: string, replacements: Replacements, from: nat)
    requires |text| > 0 && from <= |replacements|
    requires forall k :: 0 <= k < |replacements| ==> |replacements[k].0| == 1
    ensures FirstMatchFrom(text, replacements, from).None? ==> CharImage(text[0], replacements[from..]) == [text[0]]
    ensures FirstMatchFrom(text, replacements, from).Some? ==>
      CharImage(text[0], replacements[from..]) == replacements[FirstMatchFrom(text, replacements, from).value].1
    decreases |replacements| - from
  {
    if from < |replacements| {
      var search := replacements[from].0;
      assert search == [search[0]];
      assert StartsWith(text, search) <==> search == [text[0]];
      assert replacements[from..][1..] == replacements[from + 1..];
      FirstMatchIsCharImage(text, replacements, from + 1);
    }
  }

  /** With one-code-unit search values, `multiReplace` is the code-unit-wise `Translate`. */
  lemma {:induction false} MultiReplacedSingleUnits(text: string, replacements: Replacements)
    requires forall k :: 0 <= k < |replacements| ==> |replacements[k].0| == 1
    ensures MultiReplaced(text, replacements) == Some(Translate(text, replacements))
    decreases |text|
  {
    if |text| > 0 {
      FirstMatchIsCharImage(text, replacements, 0);
      assert replacements[0..] == replacements;
      MultiReplacedSingleUnits(text[1..], replacements);
    }
  }

  /** The two replacements swap "a" and "c" without either undoing the other. */
  lemma MultiReplaceExample()
    ensures MultiReplaced("a b c", [("a", "c"), ("c", "a")]) == Some("c b a")
  {
    var reps := [("a", "c"), ("c", "a")];
    assert "a b c"[1..] == " b c" && " b c"[1..] == "b c" && "b c"[1..] == " c" && " c"[1..] == "c" && "c"[1..] == "";
    Skips(" b c", reps);
    Skips("b c", reps);
    Skips(" c", reps);
    assert StartsWith("a b c", "a") && StartsWith("c", "c") && !StartsWith("c", "a");
    assert FirstMatch("c", reps) == Some(1);
    assert FirstMatch("a b c", reps) == Some(0);
    assert "a" + "" == "a" && [' '] + "a" == " a" && ['b'] + " a" == "b a" && [' '] + "b a" == " b a";
    assert "c" + " b a" == "c b a";
    ReplaceStep("c", reps, 1);
    assert MultiReplaced("c", reps) == Some("a");
    CopyStep(" c", reps);
    assert MultiReplaced(" c", reps) == Some(" a");
    CopyStep("b c", reps);
    assert MultiReplaced("b c", reps) == Some("b a");
    CopyStep(" b c", reps);
    assert MultiReplaced(" b c", reps) == Some(" b a");
    ReplaceStep("a b c", reps, 0);
  }

  /** One step of the scan that applies pair `k`. */
  lemma ReplaceStep(text: string, replacements: Replacements, k: nat)
    requires |text| > 0 && FirstMatch(text, replacements) == Some(k) && |replacements[k].0| > 0
    ensures MultiReplaced(text, replacements)
         == Prepend(replacements[k].1, MultiReplaced(text[|replacements[k].0|..], replacements))
  {
  }

  /** One step of the scan that copies a code unit. */
  lemma CopyStep(text: string, replacements: Replacements)
    requires |text| > 0 && FirstMatch(text, replacements).None?
    ensures MultiReplaced(text, replacements) == Prepend([text[0]], MultiReplaced(text[1..], replacements))
  {
  }

  /** Neither "a" nor "c" starts a text whose first code unit is something else. */
  lemma Skips(text: string, reps: Replacements)
    requires reps == [("a", "c"), ("c", "a")]
    requires |text| > 0 && text[0] != 'a' && text[0] != 'c'
    ensures FirstMatch(text, reps).None?
  {
  }

  /** Replaced text is not scanned again: "a" becomes "b" even though "b" is itself a search value. */
  lemma ReplacementNotRescanned()
    ensures MultiReplaced("a", [("a", "b"), ("b", "c")]) == Some("b")
  {
    assert "a"[..1] == "a" && "a"[1..] == "";
    assert FirstMatch("a", [("a", "b"), ("b", "c")]) == Some(0);
    ReplaceStep("a", [("a", "b"), ("b", "c")], 0);
    assert "b" + "" == "b";
  }
}
