/** The version and release fields of a recipe: how `pkgver=` and `pkgrel=` lines
    are read, how the next release is computed and how the lines are rewritten.
    A recipe is the sequence of its lines, each without its newline. */
module Release {
  import opened Wrappers
  import opened Strings
  import opened Numbers

  /** A release as the reader returns it: an integer when `int()` accepts the
      text, the text itself otherwise. */
  datatype Rel = IntRel(n: int) | StrRel(s: string)

  /** `str(rel)`. */
  function RelText(r: Rel): string {
    match r
    case IntRel(n) => IntToString(n)
    case StrRel(s) => s
  }

  /** `str(rel)` of an optional release: Python spells the missing one `None`. */
  function OptRelText(r: Option<Rel>): string {
    match r
    case None => "None"
    case Some(x) => RelText(x)
  }

  /** The release text read from a line, as an integer when it is one. */
  function ParseRel(t: string): (r: Rel)
    ensures r.StrRel? ==> r.s == t
    ensures r.IntRel? ==> ParseInt(t) == Some(r.n)
    ensures ParseInt(t).Some? ==> r == IntRel(ParseInt(t).value)
  {
    RelOf(ParseInt(t), t)
  }

  function RelOf(n: Option<int>, t: string): Rel {
    if n.Some? then IntRel(n.value) else StrRel(t)
  }

  /** `_next_pkgrel`: one more than an integer release; for a text release, one
      more than the integer its first `.`-separated segment spells, or a
      ValueError from `int()`. */
  function NextRel(r: Rel): (res: Result<int, Error>)
    ensures res.Err? ==> res.error == ValueError
  {
    match r
    case IntRel(n) => Ok(n + 1)
    case StrRel(s) => SuccessorOf(Split(s, '.')[0])
  }

  /** Text without the separator is its own first segment. */
  lemma FirstSegmentWhole(s: string, c: char)
    requires c !in s
    ensures Split(s, c)[0] == s
  {
    assert Find(s, c) < 0;
  }

  /** The first segment is the text before the first separator. */
  lemma FirstSegmentBefore(s: string, c: char, i: nat)
    requires i < |s| && s[i] == c && c !in s[..i]
    ensures Split(s, c)[0] == s[..i]
  {
    forall j | 0 <= j < i ensures s[j] != c {
      assert s[..i][j] == s[j];
    }
    FindUnique(s, c, i);
  }

  /** Reading a release as an integer or keeping it as text does not change its
      successor: text `int()` accepts holds no `.`. */
  lemma NextRelOfParsed(t: string)
    ensures NextRel(ParseRel(t)) == NextRel(StrRel(t))
  {
    if ParseInt(t).Some? {
      NextRelOfInteger(t, ParseInt(t).value);
    } else {
      NextRelOfTextual(t);
    }
  }

  /** A release `int()` accepts: both readings have the same successor. */
  lemma NextRelOfInteger(t: string, n: int)
    requires ParseInt(t) == Some(n)
    ensures NextRel(ParseRel(t)) == NextRel(StrRel(t))
  {
    NextRelOfNumber(t, n);
    NextRelOfInt(n);
  }

  /** A release `int()` refuses is kept as text already. */
  lemma NextRelOfTextual(t: string)
    requires ParseInt(t).None?
    ensures NextRel(ParseRel(t)) == NextRel(StrRel(t))
  {
  }

  /** The successor of an integer release. */
  lemma NextRelOfInt(n: int)
    ensures NextRel(IntRel(n)) == Ok(n + 1)
  {
  }

  lemma NextRelOfNumber(t: string, n: int)
    requires ParseInt(t) == Some(n)
    ensures NextRel(StrRel(t)) == Ok(n + 1)
  {
    ParsedHasNoDot(t);
    FirstSegmentWhole(t, '.');
    SuccessorOfNumber(t, n);
  }

  lemma SuccessorOfNumber(t: string, n: int)
    requires ParseInt(t) == Some(n)
    ensures SuccessorOf(t) == Ok(n + 1)
  {
    assert Successor(Some(n)) == Ok(n + 1);
  }

  lemma NextRelExamples()
    ensures NextRel(IntRel(3)) == Ok(4)
    ensures NextRel(IntRel(0)) == Ok(1)
    ensures NextRel(StrRel("3.2")) == Ok(4)
    ensures NextRel(StrRel(".5")) == Err(ValueError)
  {
    NextRelDotted();
    NextRelLeadingDot();
  }

  /** A dotted release counts from its first segment. */
  lemma NextRelDotted()
    ensures NextRel(StrRel("3.2")) == Ok(4)
  {
    FirstSegmentBefore("3.2", '.', 1);
    assert "3.2"[..1] == "3";
    ParseDigits("3");
    SuccessorOfNumber("3", DigitsValue("3"));
  }

  /** A release starting with a dot has an empty first segment, which `int()` refuses. */
  lemma NextRelLeadingDot()
    ensures NextRel(StrRel(".5")) == Err(ValueError)
  {
    FirstSegmentBefore(".5", '.', 0);
    assert ".5"[..0] == "";
    ParseEmpty();
  }

  // ---------------------------------------------------------------- reading

  predicate IsVerLine(line: string) {
    StartsWith(line, "pkgver=")
  }

  predicate IsRelLine(line: string) {
    StartsWith(line, "pkgrel=")
  }

  /** `l.rstrip().split('=', 1)[-1]`: the value of a `pkgver=` line. */
  function VerValue(line: string): string {
    AfterFirst(RStrip(line, Whitespace), '=')
  }

  /** The value of a `pkgrel=` line: its text with quotes stripped, then `int()`. */
  function RelValue(line: string): Rel {
    ParseRel(Strip(VerValue(line), Quotes))
  }

  /** The pkgver `get_pkgver_and_pkgrel` returns: the value of the LAST `pkgver=`
      line, or nothing when there is none. */
  function ReadVer(lines: seq<string>): (r: Option<string>)
    ensures r.None? <==> forall i :: 0 <= i < |lines| ==> !IsVerLine(lines[i])
  {
    if lines == [] then None
    else
      var last := lines[|lines| - 1];
      if IsVerLine(last) then Some(VerValue(last))
      else
        var init := lines[..|lines| - 1];
        assert forall i :: 0 <= i < |init| ==> init[i] == lines[i];
        ReadVer(init)
  }

  /** The pkgrel `get_pkgver_and_pkgrel` returns: the value of the LAST `pkgrel=`
      line, or nothing when there is none. */
  function ReadRel(lines: seq<string>): (r: Option<Rel>)
    ensures r.None? <==> forall i :: 0 <= i < |lines| ==> !IsRelLine(lines[i])
  {
    if lines == [] then None
    else
      var last := lines[|lines| - 1];
      if IsRelLine(last) then Some(RelValue(last))
      else
        var init := lines[..|lines| - 1];
        assert forall i :: 0 <= i < |init| ==> init[i] == lines[i];
        ReadRel(init)
  }

  /** `get_pkgver_and_pkgrel` on an optional recipe: a missing file reads as nothing. */
  function ReadVersion(file: Option<seq<string>>): (r: (Option<string>, Option<Rel>))
    ensures file.None? ==> r == (None, None)
    ensures file.Some? ==> (r.0.None? <==> forall i :: 0 <= i < |file.value| ==> !IsVerLine(file.value[i]))
    ensures file.Some? ==> (r.1.None? <==> forall i :: 0 <= i < |file.value| ==> !IsRelLine(file.value[i]))
  {
    match file
    case None => (None, None)
    case Some(lines) => (ReadVer(lines), ReadRel(lines))
  }

  /** Reading a recipe one more line at a time: a `pkgver=` line read last
      overrides what came before it. */
  lemma ReadVerSnoc(lines: seq<string>, line: string)
    ensures ReadVer(lines + [line]) == if IsVerLine(line) then Some(VerValue(line)) else ReadVer(lines)
  {
    assert (lines + [line])[..|lines|] == lines;
  }

  /** The same for `pkgrel=` lines. */
  lemma ReadRelSnoc(lines: seq<string>, line: string)
    ensures ReadRel(lines + [line]) == if IsRelLine(line) then Some(RelValue(line)) else ReadRel(lines)
  {
    assert (lines + [line])[..|lines|] == lines;
  }

  /** The last `pkgver=` line decides the pkgver read. */
  lemma {:induction false} ReadVerLast(lines: seq<string>, i: nat)
    requires i < |lines| && IsVerLine(lines[i])
    requires forall j :: i < j < |lines| ==> !IsVerLine(lines[j])
    ensures ReadVer(lines) == Some(VerValue(lines[i]))
    decreases |lines|
  {
    if i < |lines| - 1 {
      ReadVerLast(lines[..|lines| - 1], i);
    }
  }

  /** The last `pkgrel=` line decides the pkgrel read. */
  lemma {:induction false} ReadRelLast(lines: seq<string>, i: nat)
    requires i < |lines| && IsRelLine(lines[i])
    requires forall j :: i < j < |lines| ==> !IsRelLine(lines[j])
    ensures ReadRel(lines) == Some(RelValue(lines[i]))
    decreases |lines|
  {
    if i < |lines| - 1 {
      ReadRelLast(lines[..|lines| - 1], i);
    }
  }

  /** A line written as `pkgrel=<n>` reads back as the integer `n`. */
  lemma RelLineReadsBack(n: int)
    ensures RelValue("pkgrel=" + IntToString(n)) == IntRel(n)
  {
    var t := IntToString(n);
    var line := "pkgrel=" + t;
    NoSpaceInNumber(n);
    RStripNone(line, Whitespace);
    KeyPrefixes();
    AfterFirstPrefix("pkgrel=", t, '=');
    StripNone(t, Quotes);
    ParseIntToString(n);
  }

  /** A line written as `pkgver=<v>` reads back as `v` without trailing whitespace. */
  lemma VerLineReadsBack(v: string)
    ensures VerValue("pkgver=" + v) == RStrip(v, Whitespace)
  {
    var p := "pkgver=";
    KeyPrefixes();
    RStripAfterPrefix(p, v, Whitespace);
    AfterFirstPrefix(p, RStrip(v, Whitespace), '=');
  }

  /** The two keys end in their only `=`. */
  lemma KeyPrefixes()
    ensures "pkgver="[6] == '=' && '=' !in "pkgver="[..6]
    ensures "pkgrel="[6] == '=' && '=' !in "pkgrel="[..6]
  {
    assert "pkgver="[..6] == "pkgver";
    assert "pkgrel="[..6] == "pkgrel";
  }

  /** The spelling of an integer holds neither whitespace nor quotes. */
  lemma NoSpaceInNumber(n: int)
    ensures forall j :: 0 <= j < |IntToString(n)| ==> !IsSpace(IntToString(n)[j]) && !InClass(IntToString(n)[j], Quotes)
  {
    var t := IntToString(n);
    if n < 0 {
      var ds := NatToString(-n);
      assert t == "-" + ds;
      forall j | 0 <= j < |t| ensures IsDigit(t[j]) || t[j] == '-' {
        if j > 0 { assert t[j] == ds[j - 1]; }
      }
    }
  }

  /** Text with no character of the class is not changed by stripping it. */
  lemma StripNone(s: string, k: CharClass)
    requires forall j :: 0 <= j < |s| ==> !InClass(s[j], k)
    ensures Strip(s, k) == s
  {
    RStripNone(s, k);
  }

  lemma RStripNone(s: string, k: CharClass)
    requires s == [] || !InClass(s[|s| - 1], k)
    ensures RStrip(s, k) == s
  {
  }

  // ------------------------------------------------------------ update_pkgrel

  predicate IsQuote(c: char) {
    c == '\'' || c == '"'
  }

  /** The characters of `[\d.]`. */
  predicate IsRelChar(c: char) {
    IsDigit(c) || c == '.'
  }

  /** A match of ``(?<=^pkgrel=)['"]?([\d.]+)['"]?`` on a line: it always starts
      right after `pkgrel=` (index 7); `end` is where it stops and `group` is
      the captured release. */
  datatype RelMatch = RelMatch(end: nat, group: string)

  /** Where the release text starts: after `pkgrel=` and an optional opening quote. */
  function ValueStart(line: string): nat {
    if 7 < |line| && IsQuote(line[7]) then 8 else 7
  }

  /** Where the pattern matches on a line. An opening quote is taken only when
      digits or dots follow it (otherwise the pattern backtracks and fails on
      the quote); the run of digits and dots is the longest one; one closing
      quote is taken when present. */
  function MatchRel(line: string): (r: Option<RelMatch>)
    ensures r.Some? <==> IsRelLine(line) && ValueStart(line) < |line| && IsRelChar(line[ValueStart(line)])
    ensures r.Some? ==> IsRelLine(line)
    ensures r.Some? ==> 7 < r.value.end <= |line| && r.value.group != []
    ensures r.Some? ==> forall j :: 0 <= j < |r.value.group| ==> IsRelChar(r.value.group[j])
    ensures r.Some? ==>
      var s := ValueStart(line);
      var e := s + |r.value.group|;
      && e <= |line| && line[s..e] == r.value.group
      && (e == |line| || !IsRelChar(line[e]))
      && r.value.end == (if e < |line| && IsQuote(line[e]) then e + 1 else e)
  {
    if !IsRelLine(line) then None
    else
      var g := TakeWhile(line[ValueStart(line)..], IsRelChar);
      if g == [] then None
      else
        var e := ValueStart(line) + |g|;
        Some(RelMatch(if e < |line| && IsQuote(line[e]) then e + 1 else e, g))
  }

  /** The index of the first line the pattern matches, or -1: `re.sub` with
      `count=1` and `re.MULTILINE` rewrites only that one. */
  function FirstMatch(lines: seq<string>): (i: int)
    ensures -1 <= i < |lines|
    ensures i >= 0 ==> MatchRel(lines[i]).Some?
    ensures forall j :: 0 <= j < |lines| && (i < 0 || j < i) ==> MatchRel(lines[j]).None?
  {
    if lines == [] then -1
    else if MatchRel(lines[0]).Some? then 0
    else
      var k := FirstMatch(lines[1..]);
      if k < 0 then -1 else k + 1
  }

  /** The release the replacer writes: the one given, or the successor of the
      matched text (computed once, on the first match). */
  function ReplacementRel(rel: Option<Rel>, group: string): Result<Rel, Error> {
    match rel
    case Some(r) => Ok(r)
    case None =>
      match NextRel(StrRel(group))
      case Ok(n) => Ok(IntRel(n))
      case Err(e) => Err(e)
  }

  /** `update_pkgrel(rel)` on the recipe's lines. The matched text on the first
      matching line is replaced by `str(rel)`; an error from `_next_pkgrel`
      propagates before anything is written. */
  function UpdatePkgrelLines(lines: seq<string>, rel: Option<Rel>): (r: Result<seq<string>, Error>)
    ensures r.Err? ==> rel.None? && r.error == ValueError
  {
    var i := FirstMatch(lines);
    if i < 0 then Ok(lines)
    else
      var m := MatchRel(lines[i]).value;
      match ReplacementRel(rel, m.group)
      case Err(e) => Err(e)
      case Ok(r) => Ok(lines[i := lines[i][..7] + RelText(r) + lines[i][m.end..]])
  }

  /** Only the first matching line changes: its `pkgrel=` prefix and the text
      after the match are kept, the match becomes the new release; with no
      match the recipe is unchanged. */
  lemma UpdatePkgrelFrame(lines: seq<string>, rel: Option<Rel>)
    requires UpdatePkgrelLines(lines, rel).Ok?
    ensures var out := UpdatePkgrelLines(lines, rel).value;
      && |out| == |lines|
      && (FirstMatch(lines) < 0 ==> out == lines)
      && (forall j :: 0 <= j < |lines| && j != FirstMatch(lines) ==> out[j] == lines[j])
      && (FirstMatch(lines) >= 0 ==>
            var i := FirstMatch(lines);
            var m := MatchRel(lines[i]).value;
            exists r :: ReplacementRel(rel, m.group) == Ok(r)
                     && out[i] == "pkgrel=" + RelText(r) + lines[i][m.end..])
  {
    var i := FirstMatch(lines);
    if i >= 0 {
      assert lines[i][..7] == "pkgrel=";
    }
  }

  /** `update_pkgrel()` with no release fails exactly when the first match
      captured text starting with `.`, whose first segment `int()` rejects. */
  lemma UpdatePkgrelFails(lines: seq<string>, rel: Option<Rel>)
    ensures UpdatePkgrelLines(lines, rel).Err? <==>
      rel.None? && FirstMatch(lines) >= 0 && MatchRel(lines[FirstMatch(lines)]).value.group[0] == '.'
  {
    var i := FirstMatch(lines);
    if rel.None? && i >= 0 {
      var g := MatchRel(lines[i]).value.group;
      GroupSuccessor(g);
    }
  }

  /** The first `.`-separated segment of a `[\d.]+` text is its leading digits. */
  lemma LeadingDigitsSegment(g: string)
    requires forall j :: 0 <= j < |g| ==> IsRelChar(g[j])
    ensures Split(g, '.')[0] == TakeWhile(g, IsDigit)
  {
    var d := TakeWhile(g, IsDigit);
    if |d| == |g| {
      assert d == g;
      assert '.' !in g by {
        forall j | 0 <= j < |g| ensures g[j] != '.' { assert IsDigit(d[j]); }
      }
      FirstSegmentWhole(g, '.');
    } else {
      assert g[|d|] == '.';
      assert g[..|d|] == d;
      assert '.' !in g[..|d|] by {
        forall j | 0 <= j < |d| ensures d[j] != '.' { assert IsDigit(d[j]); }
      }
      FirstSegmentBefore(g, '.', |d|);
    }
  }

  /** The successor of a captured `[\d.]+` text exists iff it starts with a digit,
      and it is one more than its leading digits. */
  lemma GroupSuccessor(g: string)
    requires g != [] && forall j :: 0 <= j < |g| ==> IsRelChar(g[j])
    ensures NextRel(StrRel(g)).Err? <==> g[0] == '.'
    ensures g[0] != '.' ==> NextRel(StrRel(g)) == Ok(DigitsValue(TakeWhile(g, IsDigit)) + 1)
  {
    LeadingDigitsSegment(g);
    var d := TakeWhile(g, IsDigit);
    assert NextRel(StrRel(g)) == SuccessorOf(d);
    if g[0] == '.' {
      LeadingDot(g);
    } else {
      LeadingDigit(g);
    }
  }

  lemma LeadingDot(g: string)
    requires g != [] && g[0] == '.'
    ensures SuccessorOf(TakeWhile(g, IsDigit)).Err?
  {
    assert TakeWhile(g, IsDigit) == [];
    ParseEmpty();
  }

  lemma LeadingDigit(g: string)
    requires g != [] && IsDigit(g[0])
    ensures SuccessorOf(TakeWhile(g, IsDigit)) == Ok(DigitsValue(TakeWhile(g, IsDigit)) + 1)
  {
    LeadingDigitsAll(g);
    DigitsSuccessor(TakeWhile(g, IsDigit));
  }

  /** The leading digits of a text are digits, and there is one when it starts with one. */
  lemma {:induction false} LeadingDigitsAll(s: string)
    ensures AllDigits(TakeWhile(s, IsDigit))
    ensures s != [] && IsDigit(s[0]) ==> TakeWhile(s, IsDigit) != []
    decreases |s|
  {
    if s != [] && IsDigit(s[0]) {
      var rest := TakeWhile(s[1..], IsDigit);
      LeadingDigitsAll(s[1..]);
      assert TakeWhile(s, IsDigit) == [s[0]] + rest;
      forall j | 0 <= j < |rest| + 1 ensures IsDigit(([s[0]] + rest)[j]) {
        if j > 0 { assert ([s[0]] + rest)[j] == rest[j - 1]; }
      }
    }
  }

  lemma DigitsSuccessor(d: string)
    requires d != [] && AllDigits(d)
    ensures SuccessorOf(d) == Ok(DigitsValue(d) + 1)
  {
    ParseDigits(d);
  }

  /** One more than the integer `int()` reads from the text. */
  function SuccessorOf(t: string): Result<int, Error> {
    Successor(ParseInt(t))
  }

  /** One more than a parsed integer; the ValueError of a failed parse. */
  function Successor(n: Option<int>): Result<int, Error> {
    if n.Some? then Ok(n.value + 1) else Err(ValueError)
  }

  /** Nothing but the release changes: the pkgver an update leaves is the one it found. */
  lemma UpdatePkgrelKeepsVer(lines: seq<string>, rel: Option<Rel>)
    requires UpdatePkgrelLines(lines, rel).Ok?
    ensures ReadVer(UpdatePkgrelLines(lines, rel).value) == ReadVer(lines)
  {
    var out := UpdatePkgrelLines(lines, rel).value;
    UpdatePkgrelFrame(lines, rel);
    var i := FirstMatch(lines);
    if i >= 0 {
      var m := MatchRel(lines[i]).value;
      var r :| ReplacementRel(rel, m.group) == Ok(r) && out[i] == "pkgrel=" + RelText(r) + lines[i][m.end..];
      RelPrefixedNotVer(RelText(r), lines[i][m.end..]);
      RelLineNotVer(lines[i]);
      SameVerLines(lines, out);
    }
  }

  /** A `pkgrel=` line is not a `pkgver=` line. */
  lemma RelLineNotVer(line: string)
    requires IsRelLine(line)
    ensures !IsVerLine(line)
  {
    assert line[3] == "pkgrel="[3];
  }

  lemma RelPrefixedNotVer(t: string, u: string)
    ensures !IsVerLine("pkgrel=" + t + u)
  {
    var line := "pkgrel=" + t + u;
    assert line[3] == 'r';
  }

  /** Recipes whose lines agree on being `pkgver=` lines, and on the value of
      those, read the same pkgver. */
  lemma {:induction false} SameVerLines(a: seq<string>, b: seq<string>)
    requires |a| == |b|
    requires forall j :: 0 <= j < |a| ==> IsVerLine(a[j]) == IsVerLine(b[j])
    requires forall j :: 0 <= j < |a| && IsVerLine(a[j]) ==> a[j] == b[j]
    ensures ReadVer(a) == ReadVer(b)
  {
    if a != [] {
      SameVerLines(a[..|a| - 1], b[..|b| - 1]);
    }
  }

  /** Setting the release of a recipe whose one `pkgrel=` line holds just a
      release reads back as the release set. */
  lemma SetThenRead(lines: seq<string>, i: nat, n: int)
    requires i < |lines| && MatchRel(lines[i]).Some? && MatchRel(lines[i]).value.end == |lines[i]|
    requires forall j :: 0 <= j < |lines| && j != i ==> !IsRelLine(lines[j])
    ensures UpdatePkgrelLines(lines, Some(IntRel(n))).Ok?
    ensures ReadRel(UpdatePkgrelLines(lines, Some(IntRel(n))).value) == Some(IntRel(n))
  {
    var i' := FirstMatch(lines);
    assert i' == i;
    var out := UpdatePkgrelLines(lines, Some(IntRel(n))).value;
    assert lines[i][|lines[i]|..] == "";
    assert out[i] == "pkgrel=" + IntToString(n);
    RelLineReadsBack(n);
    ReadRelLast(out, i);
  }

  // ------------------------------------------------ update_pkgver_and_pkgrel

  /** One line as `update_pkgver_and_pkgrel` prints it back: when the version
      changes, `pkgver=` lines get the new version; `pkgrel=` lines get `relText`. */
  function RewriteVersionLine(line: string, newver: string, changed: bool, relText: string): string {
    if IsVerLine(line) && changed then "pkgver=" + newver
    else if IsRelLine(line) then "pkgrel=" + relText
    else line
  }

  function RewriteVersion(lines: seq<string>, newver: string, changed: bool, relText: string): (out: seq<string>)
    ensures |out| == |lines|
    ensures forall j :: 0 <= j < |lines| && !IsVerLine(lines[j]) && !IsRelLine(lines[j]) ==> out[j] == lines[j]
    ensures forall j :: 0 <= j < |lines| && IsRelLine(lines[j]) ==> out[j] == "pkgrel=" + relText
    ensures forall j :: 0 <= j < |lines| && IsVerLine(lines[j]) ==> out[j] == if changed then "pkgver=" + newver else lines[j]
  {
    seq(|lines|, j requires 0 <= j < |lines| => RewriteVersionLine(lines[j], newver, changed, relText))
  }

  /** The line a new version's release is reset to. */
  lemma ResetRelLine()
    ensures "pkgrel=1" == "pkgrel=" + "1"
  {
  }

  /** Rewriting one more line appends its rewritten form. */
  lemma RewriteVersionSnoc(lines: seq<string>, line: string, newver: string, changed: bool, relText: string)
    ensures RewriteVersion(lines + [line], newver, changed, relText) ==
            RewriteVersion(lines, newver, changed, relText) + [RewriteVersionLine(line, newver, changed, relText)]
  {
    var a := lines + [line];
    assert forall j :: 0 <= j < |lines| ==> a[j] == lines[j];
  }

  /** With the version unchanged, lines before any `pkgrel=` line are kept. */
  lemma RewriteBeforeRelease(lines: seq<string>, newver: string, relText: string)
    requires forall j :: 0 <= j < |lines| ==> !IsRelLine(lines[j])
    ensures RewriteVersion(lines, newver, false, relText) == lines
  {
  }

  /** The index of the first `pkgrel=` line, or -1. */
  function FirstRelLine(lines: seq<string>): (i: int)
    ensures -1 <= i < |lines|
    ensures i >= 0 ==> IsRelLine(lines[i])
    ensures forall j :: 0 <= j < |lines| && (i < 0 || j < i) ==> !IsRelLine(lines[j])
  {
    if lines == [] then -1
    else if IsRelLine(lines[0]) then 0
    else
      var k := FirstRelLine(lines[1..]);
      if k < 0 then -1 else k + 1
  }

  /** A `pkgrel=` line with none read before it is the first one. */
  lemma FirstRelLineAt(lines: seq<string>, k: nat)
    requires k < |lines| && IsRelLine(lines[k]) && ReadRel(lines[..k]).None?
    ensures FirstRelLine(lines) == k
  {
    assert forall j :: 0 <= j < k ==> lines[..k][j] == lines[j];
  }

  /** `update_pkgver_and_pkgrel(newver)`: the outcome and the recipe it leaves.
      Both values must have been read (AssertionError otherwise, nothing
      written). A new version resets the release to 1; the same version bumps
      it to `_next_pkgrel`, whose ValueError surfaces at the first `pkgrel=`
      line, so the in-place rewrite keeps only the lines printed before it. */
  function UpdateVersionLines(lines: seq<string>, newver: string): (r: (Outcome<Error>, seq<string>))
    ensures r.0.Fail? ==> r.0.error == AssertionError || r.0.error == ValueError
  {
    var ver := ReadVer(lines);
    var rel := ReadRel(lines);
    if ver.None? || rel.None? then (Fail(AssertionError), lines)
    else if ver.value != newver then (Pass, RewriteVersion(lines, newver, true, "1"))
    else
      match NextRel(rel.value)
      case Ok(n) => (Pass, RewriteVersion(lines, newver, false, IntToString(n)))
      case Err(e) => (Fail(e), lines[..FirstRelLine(lines)])
  }

  /** The failures: AssertionError exactly when a value is missing, ValueError
      exactly when the version is unchanged and the release has no successor;
      with ValueError the recipe loses its first `pkgrel=` line and all after it. */
  lemma UpdateVersionFailures(lines: seq<string>, newver: string)
    ensures var (o, out) := UpdateVersionLines(lines, newver);
      && (o == Fail(AssertionError) <==> ReadVer(lines).None? || ReadRel(lines).None?)
      && (o == Fail(ValueError) <==>
            ReadVer(lines) == Some(newver) && ReadRel(lines).Some? && NextRel(ReadRel(lines).value).Err?)
      && (o == Fail(AssertionError) ==> out == lines)
      && (o == Fail(ValueError) ==> 0 <= FirstRelLine(lines) && out == lines[..FirstRelLine(lines)])
  {
    if ReadRel(lines).Some? {
      assert FirstRelLine(lines) >= 0;
    }
  }

  /** Recipes whose pkgver lines all hold `v` read `v` when they read anything. */
  lemma {:induction false} ReadVerUniform(lines: seq<string>, v: string)
    requires forall j :: 0 <= j < |lines| && IsVerLine(lines[j]) ==> VerValue(lines[j]) == v
    ensures ReadVer(lines).Some? ==> ReadVer(lines).value == v
  {
    if lines != [] && !IsVerLine(lines[|lines| - 1]) {
      ReadVerUniform(lines[..|lines| - 1], v);
    }
  }

  /** Recipes whose pkgrel lines all hold `r` read `r` when they read anything. */
  lemma {:induction false} ReadRelUniform(lines: seq<string>, r: Rel)
    requires forall j :: 0 <= j < |lines| && IsRelLine(lines[j]) ==> RelValue(lines[j]) == r
    ensures ReadRel(lines).Some? ==> ReadRel(lines).value == r
  {
    if lines != [] && !IsRelLine(lines[|lines| - 1]) {
      ReadRelUniform(lines[..|lines| - 1], r);
    }
  }

  /** A rewrite keeps which lines are `pkgver=` and `pkgrel=` lines. */
  lemma RewriteKeepsKinds(lines: seq<string>, newver: string, changed: bool, relText: string)
    ensures var out := RewriteVersion(lines, newver, changed, relText);
      forall j :: 0 <= j < |lines| ==>
        IsVerLine(out[j]) == IsVerLine(lines[j]) && IsRelLine(out[j]) == IsRelLine(lines[j])
  {
    var out := RewriteVersion(lines, newver, changed, relText);
    forall j | 0 <= j < |lines|
      ensures IsVerLine(out[j]) == IsVerLine(lines[j]) && IsRelLine(out[j]) == IsRelLine(lines[j])
    {
      var l := lines[j];
      if IsVerLine(l) && changed {
        assert out[j][..7] == "pkgver=";
      } else if IsRelLine(l) {
        assert out[j][..7] == "pkgrel=";
      }
    }
  }

  /** A rewrite leaves every other line as it was. */
  lemma RewriteFrame(lines: seq<string>, newver: string)
    requires UpdateVersionLines(lines, newver).0 == Pass
    ensures var out := UpdateVersionLines(lines, newver).1;
      && |out| == |lines|
      && forall j :: 0 <= j < |lines| && !IsVerLine(lines[j]) && !IsRelLine(lines[j]) ==> out[j] == lines[j]
  {
  }

  /** The rewritten recipe reads back the release written, and, when the
      version is replaced, the new version (up to trailing whitespace). */
  lemma RewriteReadsBack(lines: seq<string>, newver: string, changed: bool, n: int)
    requires ReadVer(lines).Some? && ReadRel(lines).Some?
    ensures var out := RewriteVersion(lines, newver, changed, IntToString(n));
      && ReadRel(out) == Some(IntRel(n))
      && (changed ==> ReadVer(out) == Some(RStrip(newver, Whitespace)))
      && (!changed ==> ReadVer(out) == ReadVer(lines))
  {
    RewriteReadsRelBack(lines, newver, changed, n);
    RewriteReadsVerBack(lines, newver, changed, IntToString(n));
  }

  lemma RewriteReadsRelBack(lines: seq<string>, newver: string, changed: bool, n: int)
    requires ReadRel(lines).Some?
    ensures ReadRel(RewriteVersion(lines, newver, changed, IntToString(n))) == Some(IntRel(n))
  {
    var out := RewriteVersion(lines, newver, changed, IntToString(n));
    RewriteKeepsKinds(lines, newver, changed, IntToString(n));
    RelLineReadsBack(n);
    assert ReadRel(out).Some?;
    ReadRelUniform(out, IntRel(n));
  }

  lemma RewriteReadsVerBack(lines: seq<string>, newver: string, changed: bool, relText: string)
    requires ReadVer(lines).Some?
    ensures var out := RewriteVersion(lines, newver, changed, relText);
      && (changed ==> ReadVer(out) == Some(RStrip(newver, Whitespace)))
      && (!changed ==> ReadVer(out) == ReadVer(lines))
  {
    var out := RewriteVersion(lines, newver, changed, relText);
    RewriteKeepsKinds(lines, newver, changed, relText);
    if changed {
      assert ReadVer(out).Some?;
      VerLineReadsBack(newver);
      ReadVerUniform(out, RStrip(newver, Whitespace));
    } else {
      SameVerLines(lines, out);
    }
  }

  /** After a successful update the recipe reads back the version and release
      just written: a new version (up to trailing whitespace) with release 1,
      or the old version with the next release. */
  lemma UpdateVersionReadsBack(lines: seq<string>, newver: string)
    requires UpdateVersionLines(lines, newver).0 == Pass
    ensures var out := UpdateVersionLines(lines, newver).1;
      && (ReadVer(lines) != Some(newver) ==>
            ReadVer(out) == Some(RStrip(newver, Whitespace)) && ReadRel(out) == Some(IntRel(1)))
      && (ReadVer(lines) == Some(newver) ==>
            ReadVer(out) == ReadVer(lines) && ReadRel(out) == Some(IntRel(NextRel(ReadRel(lines).value).value)))
  {
    if ReadVer(lines) != Some(newver) {
      assert IntToString(1) == "1";
      RewriteReadsBack(lines, newver, true, 1);
    } else {
      RewriteReadsBack(lines, newver, false, NextRel(ReadRel(lines).value).value);
    }
  }
}
