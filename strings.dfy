/** The Python `str` operations the recipe editor relies on, over `seq<char>`. */
module Strings {

  /** Python's `str.isspace()`: the characters `\s` matches in a str pattern and
      that `strip()`, `rstrip()` and `split(None)` remove. */
  predicate IsSpace(c: char) {
    c == ' ' || '\t' <= c <= '\r' || '\U{1c}' <= c <= '\U{1f}' || c == '\U{85}' || c == '\U{a0}'
    || c == '\U{1680}' || '\U{2000}' <= c <= '\U{200a}' || c == '\U{2028}' || c == '\U{2029}'
    || c == '\U{202f}' || c == '\U{205f}' || c == '\U{3000}'
  }

  /** The line boundaries of `str.splitlines()` (`\r\n` counts as one). */
  predicate IsLineBreak(c: char) {
    '\n' <= c <= '\r' || '\U{1c}' <= c <= '\U{1e}' || c == '\U{85}' || c == '\U{2028}' || c == '\U{2029}'
  }

  predicate StartsWith(s: string, prefix: string) {
    |prefix| <= |s| && s[..|prefix|] == prefix
  }

  predicate EndsWith(s: string, suffix: string) {
    |suffix| <= |s| && s[|s| - |suffix|..] == suffix
  }

  /** `s.find(c)`: the index of the first `c`, or -1. */
  function Find(s: string, c: char): (i: int)
    ensures -1 <= i < |s|
    ensures i >= 0 ==> s[i] == c
    ensures forall j :: 0 <= j < |s| && (i < 0 || j < i) ==> s[j] != c
  {
    if s == [] then -1
    else if s[0] == c then 0
    else
      var k := Find(s[1..], c);
      if k < 0 then -1 else k + 1
  }

  /** `s.rfind(c)`: the index of the last `c`, or -1. */
  function RFind(s: string, c: char): (i: int)
    ensures -1 <= i < |s|
    ensures i >= 0 ==> s[i] == c
    ensures forall j :: 0 <= j < |s| && i < j ==> s[j] != c
  {
    if s == [] then -1
    else if s[|s| - 1] == c then |s| - 1
    else RFind(s[..|s| - 1], c)
  }

  /** `Find` returns the position of the first occurrence, whatever its recursion. */
  lemma {:induction false} FindUnique(s: string, c: char, i: nat)
    requires i < |s| && s[i] == c
    requires forall j :: 0 <= j < i ==> s[j] != c
    ensures Find(s, c) == i
  {
    if i > 0 {
      FindUnique(s[1..], c, i - 1);
    }
  }

  /** `RFind` returns the position of the last occurrence. */
  lemma {:induction false} RFindUnique(s: string, c: char, i: nat)
    requires i < |s| && s[i] == c
    requires forall j :: i < j < |s| ==> s[j] != c
    ensures RFind(s, c) == i
    decreases |s|
  {
    if i < |s| - 1 {
      RFindUnique(s[..|s| - 1], c, i);
    }
  }

  /** Python slicing `s[i:j]` for indices inside the string: empty when `j < i`. */
  function Slice(s: string, i: nat, j: nat): string
    requires i <= |s| && j <= |s|
  {
    if i <= j then s[i..j] else ""
  }

  /** `s.split(c)` with a one-character separator. */
  function Split(s: string, c: char): (parts: seq<string>)
    ensures |parts| >= 1
    ensures forall k :: 0 <= k < |parts| ==> c !in parts[k]
    decreases |s|
  {
    var i := Find(s, c);
    if i < 0 then [s]
    else
      var head := s[..i];
      assert forall j :: 0 <= j < |head| ==> head[j] == s[j];
      var rest := Split(s[i + 1..], c);
      assert forall k :: 1 <= k < 1 + |rest| ==> ([head] + rest)[k] == rest[k - 1];
      [head] + rest
  }

  /** Splitting at the first separator: the piece before it, then the rest split. */
  lemma SplitAt(s: string, c: char, i: nat)
    requires i < |s| && s[i] == c && c !in s[..i]
    ensures Split(s, c) == [s[..i]] + Split(s[i + 1..], c)
  {
    forall j | 0 <= j < i ensures s[j] != c {
      assert s[..i][j] == s[j];
    }
    FindUnique(s, c, i);
  }

  /** `sep.join(xs)`. */
  function Join(xs: seq<string>, sep: string): string
  {
    if xs == [] then ""
    else if |xs| == 1 then xs[0]
    else xs[0] + sep + Join(xs[1..], sep)
  }

  /** Splitting a joined list on a separator no piece contains gives the list back. */
  lemma {:induction false} SplitJoin(xs: seq<string>, c: char)
    requires xs != []
    requires forall k :: 0 <= k < |xs| ==> c !in xs[k]
    ensures Split(Join(xs, [c]), c) == xs
  {
    if |xs| > 1 {
      var s := Join(xs, [c]);
      var rest := Join(xs[1..], [c]);
      assert s == xs[0] + ([c] + rest);
      assert s[|xs[0]|] == c;
      var i := Find(s, c);
      assert i == |xs[0]|;
      assert s[..i] == xs[0];
      assert s[i + 1..] == rest;
      SplitJoin(xs[1..], c);
    }
  }

  /** `s.split(c, 1)[-1]`: the text after the first `c`, or all of `s`. */
  function AfterFirst(s: string, c: char): (r: string)
    ensures c in s ==> |r| < |s|
  {
    var i := Find(s, c);
    if i < 0 then s else s[i + 1..]
  }

  /** A prefix one element longer is the prefix with that element appended. */
  lemma TakeOneMore<T>(s: seq<T>, k: nat)
    requires k < |s|
    ensures s[..k + 1] == s[..k] + [s[k]]
  {
  }

  /** The three pieces of a concatenation are found again by slicing. */
  lemma ThreePieces<T>(a: seq<T>, b: seq<T>, c: seq<T>)
    ensures var s := a + b + c;
      && s[..|a|] == a
      && s[|a|..|a| + |b|] == b
      && s[|a| + |b|..] == c
  {
  }

  /** After a prefix whose only `c` is its last character comes the rest. */
  lemma AfterFirstPrefix(p: string, v: string, c: char)
    requires p != [] && p[|p| - 1] == c && c !in p[..|p| - 1]
    ensures AfterFirst(p + v, c) == v
  {
    var s := p + v;
    var n := |p| - 1;
    forall j | 0 <= j < n ensures s[j] != c {
      assert s[j] == p[..n][j];
    }
    FindUnique(s, c, n);
    assert s[n + 1..] == v;
  }

  /** The index of the first line boundary, or -1. */
  function FirstBreak(s: string): (i: int)
    ensures -1 <= i < |s|
    ensures i >= 0 ==> IsLineBreak(s[i])
    ensures forall j :: 0 <= j < |s| && (i < 0 || j < i) ==> !IsLineBreak(s[j])
  {
    if s == [] then -1
    else if IsLineBreak(s[0]) then 0
    else
      var k := FirstBreak(s[1..]);
      if k < 0 then -1 else k + 1
  }

  predicate NoBreak(line: string) {
    forall j :: 0 <= j < |line| ==> !IsLineBreak(line[j])
  }

  /** `s.splitlines()`: the lines of `s`, without their boundaries; no final empty line. */
  function SplitLines(s: string): (lines: seq<string>)
    ensures forall k :: 0 <= k < |lines| ==> NoBreak(lines[k])
    decreases |s|
  {
    if s == [] then []
    else
      var i := FirstBreak(s);
      if i < 0 then [s]
      else
        var next := if s[i] == '\r' && i + 1 < |s| && s[i + 1] == '\n' then i + 2 else i + 1;
        [s[..i]] + SplitLines(s[next..])
  }

  /** The character sets `strip` is asked to remove. */
  datatype CharClass = Whitespace | Quotes

  predicate InClass(c: char, k: CharClass) {
    match k
    case Whitespace => IsSpace(c)
    case Quotes => c == '\'' || c == '"'
  }

  /** `s.lstrip(...)`: drops the leading characters of class `k`. */
  function LStrip(s: string, k: CharClass): (r: string)
    ensures |r| <= |s| && r == s[|s| - |r|..]
    ensures forall j :: 0 <= j < |s| - |r| ==> InClass(s[j], k)
    ensures r != [] ==> !InClass(r[0], k)
  {
    if s != [] && InClass(s[0], k) then LStrip(s[1..], k) else s
  }

  /** `s.rstrip(...)`: drops the trailing characters of class `k`. */
  function RStrip(s: string, k: CharClass): (r: string)
    ensures |r| <= |s| && r == s[..|r|]
    ensures forall j :: |r| <= j < |s| ==> InClass(s[j], k)
    ensures r != [] ==> !InClass(r[|r| - 1], k)
  {
    if s != [] && InClass(s[|s| - 1], k) then RStrip(s[..|s| - 1], k) else s
  }

  /** `s.strip(...)`: both ends. */
  function Strip(s: string, k: CharClass): string
  {
    RStrip(LStrip(s, k), k)
  }

  /** Stripping the right end of `p + s` never reaches into `p` when `p` ends
      with a character outside the class. */
  lemma RStripAfterPrefix(p: string, s: string, k: CharClass)
    requires p != [] && !InClass(p[|p| - 1], k)
    ensures RStrip(p + s, k) == p + RStrip(s, k)
    decreases |s|
  {
    if s != [] && InClass(s[|s| - 1], k) {
      assert (p + s)[..|p + s| - 1] == p + s[..|s| - 1];
      RStripAfterPrefix(p, s[..|s| - 1], k);
    }
  }

  /** The longest prefix of `s` whose characters all satisfy `p`. */
  function TakeWhile(s: string, p: char -> bool): (r: string)
    ensures |r| <= |s| && r == s[..|r|]
    ensures forall j :: 0 <= j < |r| ==> p(r[j])
    ensures |r| < |s| ==> !p(s[|r|])
  {
    if s != [] && p(s[0]) then [s[0]] + TakeWhile(s[1..], p) else []
  }
}
