/**
 Python's string and text-file primitives, as far as the modelled code uses them: substring
 search, `str.split`, and `readline` on an open file (one byte per character).
 */
module Text {

  datatype Option<+T> = None | Some(value: T)

  /** `pat` occurs in `s` at index `i`. */
  predicate OccursAt(s: string, pat: string, i: int) {
    0 <= i && i + |pat| <= |s| && s[i..i + |pat|] == pat
  }

  predicate Contains(s: string, pat: string) {
    Find(s, pat, 0) != -1
  }

  /** `s.find(pat, from)` */
  function Find(s: string, pat: string, from: nat): (r: int)
    ensures r == -1 || (from <= r && OccursAt(s, pat, r))
    ensures forall i :: from <= i && (r == -1 || i < r) ==> !OccursAt(s, pat, i)
    decreases |s| - from
  {
    if OccursAt(s, pat, from) then from
    else if from >= |s| then -1
    else Find(s, pat, from + 1)
  }

  /** Python's `s.split(sep)` for a non-empty separator. */
  function Split(s: string, sep: string): (parts: seq<string>)
    requires |sep| > 0
    ensures |parts| >= 1
    decreases |s|
  {
    var k := Find(s, sep, 0);
    if k == -1 then [s] else [s[..k]] + Split(s[k + |sep|..], sep)
  }

  /** `sep.join(parts)` */
  function Join(parts: seq<string>, sep: string): (s: string) {
    if |parts| == 0 then "" else if |parts| == 1 then parts[0]
    else parts[0] + sep + Join(parts[1..], sep)
  }

  /** The offset just after the line that `readline` returns when the file stands at `pos`. */
  function LineEnd(text: string, pos: nat): (e: nat)
    requires pos <= |text|
    ensures pos <= e <= |text|
    ensures pos < |text| ==> pos < e
    ensures e < |text| ==> pos < e && text[e - 1] == '\n'
    decreases |text| - pos
  {
    if pos == |text| then pos
    else if text[pos] == '\n' then pos + 1
    else LineEnd(text, pos + 1)
  }

  /** A line holds no newline except possibly as its last character. */
  lemma LineHasNoInnerNewline(text: string, pos: nat, i: int)
    requires pos <= |text| && pos <= i < LineEnd(text, pos) - 1
    ensures text[i] != '\n'
    decreases |text| - pos
  {
    if pos < i { LineHasNoInnerNewline(text, pos + 1, i); }
  }

  lemma LineEndBound(text: string, pos: nat, k: nat)
    requires pos <= k < |text| && text[k] == '\n'
    ensures LineEnd(text, pos) <= k + 1 && text[LineEnd(text, pos) - 1] == '\n'
    decreases |text| - pos
  {
    if text[pos] != '\n' { LineEndBound(text, pos + 1, k); }
  }

  lemma LineEndIs(text: string, pos: nat, k: nat)
    requires pos <= k < |text| && text[k] == '\n'
    requires forall i :: pos <= i < k ==> text[i] != '\n'
    ensures LineEnd(text, pos) == k + 1
    decreases k - pos
  {
    if pos < k { LineEndIs(text, pos + 1, k); }
  }

  predicate IsLineStart(text: string, q: int) {
    0 <= q < |text| && (q == 0 || text[q - 1] == '\n')
  }

  /** The line that begins at `q`, with its newline if it has one. */
  function LineAt(text: string, q: int): (line: string)
    requires 0 <= q <= |text|
  {
    text[q..LineEnd(text, q)]
  }
}
