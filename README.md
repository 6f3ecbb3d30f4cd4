# pizzafox/util: string formatting and key renaming, modelled in Dafny

This project models two value-level parts of the `pizzafox/util` TypeScript
utility library and proves what they promise:

- **src/format.ts**: `capitalize` and `uncapitalize` (rewrite only the first
  character), `truncate` (cut at a bound and append a suffix),
  `maxColumnLength` and `formatTable` (compute column widths and right-pad
  cells into aligned lines), and `multiReplace` (a single left-to-right
  scan in which the first matching search value wins and replaced text is
  never scanned again).
- **src/object.ts**: `rename`, which copies an object, binds the new key to
  the old key's value and drops the old key.

Files:

- `wrappers.dfy`, module `Wrappers`: `Option`, where `None` stands for
  JavaScript's `undefined` (and, for `multiReplace`, for a scan that never
  ends).
- `js_strings.dfy`, module `JsStrings`: the JavaScript built-ins the format
  code is written with (`slice`, `startsWith`, `padEnd`, `join`), with
  lemmas that locate each part inside a joined string.
- `format.dfy`, module `Format`: src/format.ts. `maxColumnLength` and
  `multiReplace` update variables in loops in the source, so they are
  methods with loop invariants, proved against the functions `ColumnWidths`
  and `MultiReplaced`; the other operations are functions.
- `object.dfy`, module `Objects`: src/object.ts. An object is a
  `map<K, Option<V>>` of its own keys.

Strings are sequences of code units, one `char` for each code unit (see
"## Left out" for where Dafny's `char` differs from a UTF-16 code unit). Case
mapping is a function from one code unit to a string: ASCII letters, plus
the two code units whose full mapping is two code units long that the
finding below uses (U+00DF upper-cases to "SS", U+0130 lower-cases to
"i" followed by U+0307).

Rows of a table may be ragged. A row shorter than the first row contributes
nothing to the missing columns. Cells of a longer row past the first row's
width do not widen any column and are not padded, because
`maxLengths[index]` is `undefined` there and `padEnd(undefined)` pads to
length 0.

## Model

| member | source | states |
|---|---|---|
| `Format.Capitalize` | src/format.ts:17-21 | empty text gives empty text; otherwise the first code unit becomes its upper-case mapping and every later code unit is kept, in place after it |
| `Format.CapitalizeAsWritten` | src/format.ts:17-21 | the code as written agrees with `Capitalize` on texts of at most one code unit and whenever the first code unit upper-cases to one code unit, and drops the second code unit when it upper-cases to two |
| `Format.CapitalizeAsWrittenDropsACodeUnit` | src/format.ts:18-20 | on "ßa" the code as written gives "SS" where "SSa" is meant |
| `Format.CapitalizeExample` | src/format.ts:8 | `capitalize('hello')` is "Hello" |
| `Format.Uncapitalize` | src/format.ts:37-41 | empty text gives empty text; otherwise the first code unit becomes its lower-case mapping and every later code unit is kept |
| `Format.UncapitalizeAsWritten` | src/format.ts:37-41 | the code as written agrees with `Uncapitalize` on texts of at most one code unit and whenever the first code unit lower-cases to one code unit, and drops the second code unit when it lower-cases to two |
| `Format.UncapitalizeAsWrittenDropsACodeUnit` | src/format.ts:38-40 | on "İA" the code as written gives "i̇" where "i̇A" is meant |
| `Format.UncapitalizeExample` | src/format.ts:28 | `uncapitalize('HELLO')` is "hELLO": only the first character changes |
| `Format.UncapitalizeUndoesCapitalize` | src/format.ts:13 | on a text starting with an ASCII lower-case letter, `uncapitalize` inverts `capitalize` |
| `Format.CapitalizeUndoesUncapitalize` | src/format.ts:33 | on a text starting with an ASCII upper-case letter, `capitalize` inverts `uncapitalize` |
| `Format.CapitalizeIdempotent` | src/format.ts:17-21 | capitalizing twice equals capitalizing once |
| `Format.UncapitalizeIdempotent` | src/format.ts:37-41 | uncapitalizing twice equals uncapitalizing once |
| `Format.Truncate` | src/format.ts:57-63 | a text no longer than `maxLength` is returned unchanged; a longer one becomes its first `maxLength` code units followed by the suffix; a negative `maxLength` keeps all but the last `-maxLength` code units, as `slice` reads it |
| `Format.TruncateExample` | src/format.ts:48 | `truncate('hello, world', 5, '...')` is "hello..." |
| `Format.TruncateLength` | src/format.ts:58-59 | a cut text is `maxLength` code units plus the suffix long, which can exceed `maxLength`, and starts with a prefix of the input |
| `Format.TruncateWithoutSuffix` | src/format.ts:57-62 | with the default empty suffix the result is a prefix of the text, is at most `maxLength` long, and truncating it again changes nothing |
| `Format.ColumnWidthIsMaximum` | src/format.ts:76-85 | the width of a column is at least every cell of that column in the rows that have one, and equals one of them (or is 0 when none has one) |
| `Format.ColumnWidthStep` | src/format.ts:81-83 | taking one more row into account raises a column's width to that row's cell length only when it is longer |
| `Format.MaxColumnLength` | src/format.ts:73-88 | the result has one entry per cell of the first row, and each entry is the maximum cell length of its column over all rows that have that column |
| `Format.PadCell` | src/format.ts:101 | a padded cell is the original cell followed only by spaces; within the first row's width it is exactly as long as the column width when the cell fits, and unchanged when the cell is longer; past that width it is unchanged |
| `Format.PaddedCellWidth` | src/format.ts:99-101 | every padded cell within the first row's width has the length of its column's widest cell |
| `Format.FormatTable` | src/format.ts:98-102 | the output is as long as all formatted lines together plus one newline between each pair of neighbouring lines |
| `Format.FormatTableLine` | src/format.ts:98-101 | line `i` of the output is row `i` formatted, and every line but the first follows a newline |
| `Format.FormatTableAligned` | src/format.ts:98-101 | within the first row's width, on every line, cell `j` starts at the same offset (the widths of the earlier columns plus one delimiter each), is followed by spaces up to the column width, then by the delimiter when the row goes on |
| `Format.FirstMatchFrom` | src/format.ts:126-132 | the pair chosen at a position is the first in order whose search value starts the rest of the input; no pair is chosen when none does |
| `Format.MultiReplace` | src/format.ts:119-139 | the scan's output is `MultiReplaced`: the first matching pair's replacement is emitted and its search value skipped, otherwise one code unit is copied; `None` when an empty search value is hit and the scan never ends |
| `Format.MultiReplacedTerminates` | src/format.ts:124-136 | when no search value is empty the scan always ends |
| `Format.EmptyKeyDiverges` | src/format.ts:127-129 | an empty search value reached before any other pair matches makes the scan on a non-empty input run forever |
| `Format.MultiReplacedNoMatch` | src/format.ts:124-134 | when no search value occurs in the input, the input is returned unchanged |
| `Format.MultiReplacedKeepsLength` | src/format.ts:124-136 | when every replacement is as long as its search value, the output is as long as the input |
| `Format.FirstPairWins` | src/format.ts:126-131 | when several search values start the input, the output begins with the replacement of the first in order |
| `Format.MultiReplacedSingleUnits` | src/format.ts:119-139 | with one-code-unit search values the scan equals the independent code-unit-wise translation `Translate` |
| `Format.MultiReplaceExample` | src/format.ts:111 | `multiReplace('a b c', {a: 'c', c: 'a'})` is "c b a" |
| `Format.ReplacementNotRescanned` | src/format.ts:128-130 | replacing "a" by "b" emits "b" even though "b" is itself a search value: replaced output is not scanned again |
| `Objects.Rename` | src/object.ts:25-34 | equal keys give an equal copy; otherwise the old key is gone, the new key holds the old key's value (`undefined` when it was absent, overwriting any earlier value), and every other key keeps its presence and value |
| `Objects.RenameKeys` | src/object.ts:30 | for distinct keys the result's keys are the input's keys with the old key replaced by the new one |
| `Objects.RenameSize` | src/object.ts:30 | for distinct keys: renaming a present key onto an absent key keeps the number of keys, and onto a present key loses one key and its value; renaming an absent key adds one key when the new key was absent, and keeps the count when it was present (its value becomes `undefined`) |
| `Objects.RenameAbsentOntoAbsentExample` | src/object.ts:30 | `rename({c: 2}, 'b', 'a')` is `{a: undefined, c: 2}`: one key becomes two |
| `Objects.RenameRoundTrip` | src/object.ts:25-34 | renaming a present key onto an absent one and back gives the original object |
| `Objects.RenameExample` | src/object.test.ts:5 | `rename({a: 1, c: 2}, 'a', 'b')` is `{b: 1, c: 2}` |
| `Objects.RenameSameKeyExample` | src/object.test.ts:7 | `rename({a: 1, c: 2}, 'a', 'a')` is `{a: 1, c: 2}` |
| `Objects.RenameAbsentKeyExample` | src/object.test.ts:10 | `rename({a: 1, c: 2}, 'b', 'a')` is `{a: undefined, c: 2}` |

## Left out

- `Format.MaxColumnLength`: requires a non-empty table; the source reads `table[0]` and throws a TypeError on an empty one, and `formatTable` inherits that, so `Format.FormatTable` has the same requirement.
- `Format.MultiReplace`: a run that never ends is returned as `None`, which does not tell apart the two ways the source fails there. When the empty search value's replacement is also empty, the loop adds nothing and never advances, so the call hangs forever. Otherwise the loop keeps growing its result until the engine throws a RangeError once the string is too long.
- Case mapping covers ASCII letters and the two code units used in the findings; the rest of Unicode's case mapping, and locale-sensitive mapping, are not modelled.
- A character outside the Basic Multilingual Plane is two UTF-16 code units; the model works on code units and does not model surrogate pairs. Dafny's `char` is a Unicode scalar value, not a UTF-16 code unit: the lone surrogate code units U+D800 to U+DFFF, which a JavaScript string can hold, cannot be represented, and a `char` above U+FFFF, which no single code unit can be, is representable.
- `truncate` is modelled for integer `maxLength`; fractional, `NaN` and infinite numbers are not modelled.
- Key order is not modelled: `Object.entries` order is taken to be the order of the `Replacements` sequence, and the order of keys in a renamed object is not represented.
- `rename` keys are compared as one key type; JavaScript's coercion of number keys to strings (so that `1` and `'1'` are different by `===` but name the same property), symbol keys, and values read through the prototype chain by `object[oldKey]` are not modelled.
- The fresh-copy guarantee of `rename` is by construction: maps are values, so the input cannot change; object identity is not represented.
- Cells of a table are strings; holes in sparse arrays and non-string cells are not modelled.
- Type-level machinery (`NonUnion`, the overload signatures, the `Capitalize<T>`/`Uncapitalize<T>` return types) has no run-time behaviour and is not modelled.
- src/stopwatch.ts is not part of this model: it reads a high-resolution clock and returns a floating-point duration.
- src/sample.ts is not part of this model: it draws from `Math.random()`.
- The array and statistics modules are not part of this model: only their tests are available, not their implementations.

## Findings

| source | as written | input that shows it | evidently intended | confidence | as-written member | corrected member |
|---|---|---|---|---|---|---|
| src/format.ts:18-20 | the rest of the text is `text.slice(firstCharacter.length)`, the length of the upper-cased first code unit | `capitalize('ßa')` gives "SS" | the rest starts at index 1: "SSa" | high; not executed | `Format.CapitalizeAsWritten`, `Format.CapitalizeAsWrittenDropsACodeUnit` | `Format.Capitalize` |
| src/format.ts:38-40 | the rest of the text is `text.slice(firstCharacter.length)`, the length of the lower-cased first code unit | `uncapitalize('İA')` gives "i̇" (two code units) | the rest starts at index 1: "i̇A" | high; not executed | `Format.UncapitalizeAsWritten`, `Format.UncapitalizeAsWrittenDropsACodeUnit` | `Format.Uncapitalize` |
