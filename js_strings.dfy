/**
 * The JavaScript built-ins that src/format.ts is written with, on strings of
 * UTF-16 code units (`string` here is `seq<char>`, one `char` per code unit):
 * `String.prototype.slice`, `startsWith` and `padEnd`, and `Array.prototype.join`.
 */
module JsStrings {

  /** How `slice` reads one of its integer arguments: negative counts from the end, then clamp to [0, len]. */
  function RelativeIndex(i: int, len: nat): (r: nat)
    ensures r <= len
    ensures 0 <= i ==> r == if i <= len then i else len
    ensures i < 0 ==> r + -i == len || (r == 0 && len < -i)
  {
    if i < 0 then (if len + i < 0 then 0 else len + i)
    else if i > len then len
    else i
  }

  /** `s.slice(start, end)` for integer arguments. */
  function Slice(s: string, start: int, end: int): (r: string)
    ensures 0 <= start <= end <= |s| ==> r == s[start..end]
    ensures |r| <= |s|
  {
    var from, to := RelativeIndex(start, |s|), RelativeIndex(end, |s|);
    if from < to then s[from..to] else []
  }

  /** `s.startsWith(prefix)`. The empty prefix starts every string. */
  predicate StartsWith(s: string, prefix: string)
  {
    |prefix| <= |s| && s[..|prefix|] == prefix
  }

  /** A string of `n` spaces. */
  function Spaces(n: nat): (r: string)
    ensures |r| == n
    ensures forall i :: 0 <= i < n ==> r[i] == ' '
  {
    seq(n, _ => ' ')
  }

  /** `s.padEnd(target)` with the default fill: spaces are appended until the length reaches `target`. */
  function PadEnd(s: string, target: int): (r: string)
    ensures |r| == if target <= |s| then |s| else target
    ensures r[..|s|] == s
    ensures forall i :: |s| <= i < |r| ==> r[i] == ' '
  {
    if target <= |s| then s else s + Spaces(target - |s|)
  }

  /** `parts.join(sep)`: the parts in order with `sep` between neighbours. */
  function Join(parts: seq<string>, sep: string): string
  {
    if |parts| == 0 then ""
    else if |parts| == 1 then parts[0]
    else Join(parts[..|parts| - 1], sep) + sep + parts[|parts| - 1]
  }

  /** Total length of the parts. */
  function SumLengths(parts: seq<string>): nat
  {
    if |parts| == 0 then 0 else SumLengths(parts[..|parts| - 1]) + |parts[|parts| - 1]|
  }

  /** Where part `j` begins inside `Join(parts, sep)`: every earlier part and one separator after each. */
  function PartOffset(parts: seq<string>, j: nat, sep: string): nat
    requires j <= |parts|
  {
    SumLengths(parts[..j]) + j * |sep|
  }

  lemma {:induction false} JoinLength(parts: seq<string>, sep: string)
    requires |parts| > 0
    ensures |Join(parts, sep)| == SumLengths(parts) + (|parts| - 1) * |sep|
  {
    var n := |parts|;
    if n > 1 {
      var init := parts[..n - 1];
      JoinLength(init, sep);
      assert Join(parts, sep) == Join(init, sep) + sep + parts[n - 1];
      assert SumLengths(parts) == SumLengths(init) + |parts[n - 1]|;
      assert (n - 1) * |sep| == (n - 2) * |sep| + |sep|;
    }
  }

  /** Joining a prefix of the parts gives a prefix of the joined string. */
  lemma {:induction false} JoinPrefix(parts: seq<string>, sep: string, n: nat)
    requires 0 < n <= |parts|
    ensures Join(parts[..n], sep) <= Join(parts, sep)
  {
    if n < |parts| {
      var init := parts[..|parts| - 1];
      assert init[..n] == parts[..n];
      JoinPrefix(init, sep, n);
      assert Join(init, sep) <= Join(parts, sep);
    } else {
      assert parts[..n] == parts;
    }
  }

  /**
   * Part `j` of `parts` stands at `PartOffset(parts, j, sep)` of the joined string, with `sep`
   * right before it when it is not the first part.
   */
  lemma PartAt(parts: seq<string>, sep: string, j: nat)
    requires j < |parts|
    ensures PartOffset(parts, j, sep) + |parts[j]| <= |Join(parts, sep)|
    ensures Join(parts, sep)[PartOffset(parts, j, sep)..PartOffset(parts, j, sep) + |parts[j]|] == parts[j]
    ensures j > 0 ==> Join(parts, sep)[PartOffset(parts, j, sep) - |sep|..PartOffset(parts, j, sep)] == sep
  {
    var upto := parts[..j + 1];
    assert upto[..j] == parts[..j];
    assert upto[|upto| - 1] == parts[j];
    JoinPrefix(parts, sep, j + 1);
    JoinLength(upto, sep);
    assert SumLengths(upto) == SumLengths(parts[..j]) + |parts[j]|;
    var whole := Join(upto, sep);
    var off := PartOffset(parts, j, sep);
    assert |whole| == off + |parts[j]|;
    if j > 0 {
      JoinLength(parts[..j], sep);
      assert whole == Join(parts[..j], sep) + sep + parts[j];
    } else {
      assert whole == parts[0];
    }
    assert whole[off..off + |parts[j]|] == parts[j];
  }

  /** The part after part `j` begins one separator after part `j` ends. */
  lemma NextPartOffset(parts: seq<string>, sep: string, j: nat)
    requires j + 1 <= |parts|
    ensures PartOffset(parts, j + 1, sep) == PartOffset(parts, j, sep) + |parts[j]| + |sep|
  {
    assert parts[..j + 1][..j] == parts[..j];
    assert (j + 1) * |sep| == j * |sep| + |sep|;
  }
}
