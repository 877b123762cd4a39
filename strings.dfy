/** Small string helpers shared by the segmenter, the tokenizer and the emitter. */
module Strings {

  /** Length of the longest prefix of `s` whose characters are all inside `cls`
      (when `member`) or all outside it (when `!member`). */
  function Run(s: string, cls: set<char>, member: bool): (n: nat)
    ensures n <= |s|
    ensures forall i :: 0 <= i < n ==> (s[i] in cls) == member
    ensures n < |s| ==> (s[n] in cls) != member
    decreases |s|
  {
    if s == [] || (s[0] in cls) != member then 0 else 1 + Run(s[1..], cls, member)
  }

  /** A run followed by a character of the other kind (or nothing) is measured exactly. */
  lemma RunOfPrefix(a: string, b: string, cls: set<char>, member: bool)
    requires forall i :: 0 <= i < |a| ==> (a[i] in cls) == member
    requires b == [] || (b[0] in cls) != member
    ensures Run(a + b, cls, member) == |a|
  {
    var s := a + b;
    assert forall i :: 0 <= i < |a| ==> s[i] == a[i];
    if |a| < |s| {
      assert s[|a|] == b[0];
    }
  }

  /** Python's `sep.join(parts)`. */
  function JoinWith(parts: seq<string>, sep: string): string
    decreases |parts|
  {
    if parts == [] then []
    else if |parts| == 1 then parts[0]
    else parts[0] + sep + JoinWith(parts[1..], sep)
  }

  /** Python's `"".join(parts)`. */
  function Concat(parts: seq<string>): string
    decreases |parts|
  {
    if parts == [] then [] else parts[0] + Concat(parts[1..])
  }
}
