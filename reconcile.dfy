/** The release reconciliation of `aur_pre_build`: after the recipe is replaced
    by the AUR's copy, its release is merged with the local one (phase 1) and,
    after refreshing a VCS checkout, raised above the local one (phase 2).
    Each phase is a function from the recipe it finds to the recipe it leaves;
    a recipe is `None` when the file is missing. */
module Reconcile {
  import opened Wrappers
  import opened Strings
  import opened Numbers
  import opened Release
  import PublishGuard

  /** `pyalpm.vercmp`: negative, zero or positive as the first version orders
      below, equal to or above the second. It is foreign code; the model takes
      it as a parameter. */
  type VerCmp = (string, string) -> int

  /** Python truthiness of the local pkgver: present and non-empty. */
  predicate Truthy(ver: Option<string>) {
    ver.Some? && ver.value != []
  }

  /** `update_pkgrel(rel)` on a recipe that may be missing (`open` fails). */
  function UpdatePkgrelFile(file: Option<seq<string>>, rel: Option<Rel>): (r: Result<Option<seq<string>>, Error>)
    ensures r.Ok? ==> file.Some? && r.value.Some?
    ensures r.Err? ==> (file.None? && r.error == FileNotFound) || (file.Some? && rel.None? && r.error == ValueError)
  {
    match file
    case None => Err(FileNotFound)
    case Some(lines) =>
      match UpdatePkgrelLines(lines, rel)
      case Err(e) => Err(e)
      case Ok(out) => Ok(Some(out))
  }

  /** Phase 1. When the local and fetched versions agree and the local release
      does not order below the fetched one, the fetched release is bumped by
      `update_pkgrel()`, which reads the fetched file: the result is the
      successor of the FETCHED release. Otherwise the fetched recipe stands. */
  function Phase1(localVer: Option<string>, localRel: Option<Rel>, fetched: Option<seq<string>>, vercmp: VerCmp)
    : (r: Result<Option<seq<string>>, Error>)
    ensures !Truthy(localVer) || localVer != ReadVersion(fetched).0 ==> r == Ok(fetched)
    ensures r.Ok? ==> (r.value.None? <==> fetched.None?)
    ensures r.Err? ==> fetched.Some? && r.error == ValueError
  {
    var (aurVer, aurRel) := ReadVersion(fetched);
    if Truthy(localVer) && localVer == aurVer then
      if vercmp("1-" + OptRelText(localRel), "1-" + OptRelText(aurRel)) < 0 then Ok(fetched)
      else UpdatePkgrelFile(fetched, None)
    else Ok(fetched)
  }

  /** The release phase 2 wants: 1 without a local release, else its successor. */
  function Wanted(localRel: Option<Rel>): (r: Result<int, Error>)
    ensures localRel.None? ==> r == Ok(1)
    ensures forall n :: localRel == Some(IntRel(n)) ==> r == Ok(n + 1)
    ensures r.Err? ==> localRel.Some? && r.error == ValueError
  {
    match localRel
    case None => Ok(1)
    case Some(r) => NextRel(r)
  }

  /** Phase 2, on the recipe as the VCS refresh left it. When the local version
      is still the refreshed one, the release is set to the wanted one if that
      orders strictly above the refreshed release. */
  function Phase2(localVer: Option<string>, localRel: Option<Rel>, refreshed: Option<seq<string>>, vercmp: VerCmp)
    : (r: Result<Option<seq<string>>, Error>)
    ensures !Truthy(localVer) || localVer != ReadVersion(refreshed).0 ==> r == Ok(refreshed)
    ensures r.Ok? ==> (r.value.None? <==> refreshed.None?)
    ensures r.Err? ==> r.error == ValueError && localRel.Some? && NextRel(localRel.value).Err?
  {
    var (newVer, newRel) := ReadVersion(refreshed);
    if Truthy(localVer) && localVer == newVer then
      match Wanted(localRel)
      case Err(e) => Err(e)
      case Ok(next) =>
        if vercmp("1-" + IntToString(next), "1-" + OptRelText(newRel)) > 0 then
          UpdatePkgrelFile(refreshed, Some(IntRel(next)))
        else Ok(refreshed)
    else Ok(refreshed)
  }

  /** `do_vcs_update` defaults to whether the package name has a VCS suffix. */
  function DoVcsUpdate(name: string, doVcsUpdate: Option<bool>): (r: bool)
    ensures doVcsUpdate.Some? ==> r == doVcsUpdate.value
    ensures doVcsUpdate.None? ==>
      (r <==> EndsWith(name, "-git") || EndsWith(name, "-hg") || EndsWith(name, "-svn") || EndsWith(name, "-bzr"))
  {
    match doVcsUpdate
    case Some(b) => b
    case None => PublishGuard.IsVcs(name)
  }

  // ----------------------------------------------------------------- lemmas

  /** Neither phase ever changes the pkgver. */
  lemma Phase1KeepsVersion(localVer: Option<string>, localRel: Option<Rel>, fetched: Option<seq<string>>, vercmp: VerCmp)
    requires Phase1(localVer, localRel, fetched, vercmp).Ok?
    ensures ReadVersion(Phase1(localVer, localRel, fetched, vercmp).value).0 == ReadVersion(fetched).0
  {
    if fetched.Some? && UpdatePkgrelLines(fetched.value, None).Ok? {
      UpdatePkgrelKeepsVer(fetched.value, None);
    }
  }

  lemma Phase2KeepsVersion(localVer: Option<string>, localRel: Option<Rel>, refreshed: Option<seq<string>>, vercmp: VerCmp)
    requires Phase2(localVer, localRel, refreshed, vercmp).Ok?
    ensures ReadVersion(Phase2(localVer, localRel, refreshed, vercmp).value).0 == ReadVersion(refreshed).0
  {
    var w := Wanted(localRel);
    if refreshed.Some? && w.Ok? && UpdatePkgrelLines(refreshed.value, Some(IntRel(w.value))).Ok? {
      UpdatePkgrelKeepsVer(refreshed.value, Some(IntRel(w.value)));
    }
  }

  /** The fetched recipe is left alone when the versions differ, when the local
      version is empty or missing, or when the fetched release is ahead. */
  lemma Phase1Untouched(localVer: Option<string>, localRel: Option<Rel>, fetched: Option<seq<string>>, vercmp: VerCmp)
    requires
      || !Truthy(localVer) || localVer != ReadVersion(fetched).0
      || vercmp("1-" + OptRelText(localRel), "1-" + OptRelText(ReadVersion(fetched).1)) < 0
    ensures Phase1(localVer, localRel, fetched, vercmp) == Ok(fetched)
  {
  }

  /** Phase 2 leaves the recipe alone when the refresh changed the version, or
      when the refreshed release is not below the wanted one. */
  lemma Phase2Untouched(localVer: Option<string>, localRel: Option<Rel>, refreshed: Option<seq<string>>, vercmp: VerCmp)
    requires
      || !Truthy(localVer) || localVer != ReadVersion(refreshed).0
      || (Wanted(localRel).Ok? &&
          vercmp("1-" + IntToString(Wanted(localRel).value), "1-" + OptRelText(ReadVersion(refreshed).1)) <= 0)
    ensures Phase2(localVer, localRel, refreshed, vercmp) == Ok(refreshed)
  {
  }

  /** A recipe whose only `pkgrel=` line is exactly `pkgrel=<g>`, with `g` a
      run of digits and dots not starting with a dot. */
  predicate PlainRelease(lines: seq<string>, i: nat, g: string) {
    && i < |lines| && lines[i] == "pkgrel=" + g
    && g != [] && g[0] != '.' && (forall j :: 0 <= j < |g| ==> IsRelChar(g[j]))
    && (forall j :: 0 <= j < |lines| && j != i ==> !IsRelLine(lines[j]))
  }

  lemma {:induction false} TakeWhileAll(s: string, p: char -> bool)
    requires forall j :: 0 <= j < |s| ==> p(s[j])
    ensures TakeWhile(s, p) == s
    decreases |s|
  {
    if s != [] {
      TakeWhileAll(s[1..], p);
    }
  }

  /** Such a line matches the `pkgrel=` pattern as a whole, and reads as `g`. */
  lemma PlainReleaseLine(g: string)
    requires g != [] && forall j :: 0 <= j < |g| ==> IsRelChar(g[j])
    ensures MatchRel("pkgrel=" + g) == Some(RelMatch(|"pkgrel=" + g|, g))
    ensures RelValue("pkgrel=" + g) == ParseRel(g)
  {
    PlainReleaseMatches(g);
    PlainReleaseValue(g);
  }

  lemma PlainReleaseMatches(g: string)
    requires g != [] && forall j :: 0 <= j < |g| ==> IsRelChar(g[j])
    ensures MatchRel("pkgrel=" + g) == Some(RelMatch(|"pkgrel=" + g|, g))
  {
    var line := "pkgrel=" + g;
    assert line[..7] == "pkgrel=";
    assert line[7..] == g && line[7] == g[0];
    assert !IsQuote(g[0]);
    TakeWhileAll(g, IsRelChar);
  }

  lemma PlainReleaseValue(g: string)
    requires g != [] && forall j :: 0 <= j < |g| ==> IsRelChar(g[j])
    ensures RelValue("pkgrel=" + g) == ParseRel(g)
  {
    var line := "pkgrel=" + g;
    assert !IsSpace(line[|line| - 1]);
    assert RStrip(line, Whitespace) == line;
    KeyPrefixes();
    AfterFirstPrefix("pkgrel=", g, '=');
    assert forall j :: 0 <= j < |g| ==> !InClass(g[j], Quotes);
    StripNone(g, Quotes);
  }

  /** The first pattern match of such a recipe is its one `pkgrel=` line. */
  lemma PlainReleaseMatch(lines: seq<string>, i: nat, g: string)
    requires PlainRelease(lines, i, g)
    ensures FirstMatch(lines) == i
    ensures MatchRel(lines[i]) == Some(RelMatch(|lines[i]|, g))
    ensures ReadRel(lines) == Some(ParseRel(g))
  {
    PlainReleaseLine(g);
    ReadRelLast(lines, i);
  }

  /** Bumping such a recipe (`update_pkgrel()`) writes, and reads back, the
      successor of the release it read. */
  lemma BumpReadsBack(lines: seq<string>, i: nat, g: string)
    requires PlainRelease(lines, i, g)
    ensures NextRel(ReadRel(lines).value).Ok?
    ensures UpdatePkgrelLines(lines, None).Ok?
    ensures ReadRel(UpdatePkgrelLines(lines, None).value) == Some(IntRel(NextRel(ReadRel(lines).value).value))
  {
    PlainReleaseMatch(lines, i, g);
    GroupSuccessor(g);
    NextRelOfParsed(g);
    var n := NextRel(StrRel(g)).value;
    BumpIsSet(lines, g, n);
    SetReadsBack(lines, i, g, n);
  }

  /** Bumping writes what setting the successor writes. */
  lemma BumpIsSet(lines: seq<string>, g: string, n: int)
    requires FirstMatch(lines) >= 0 && MatchRel(lines[FirstMatch(lines)]).value.group == g
    requires NextRel(StrRel(g)) == Ok(n)
    ensures UpdatePkgrelLines(lines, None) == UpdatePkgrelLines(lines, Some(IntRel(n)))
  {
  }

  /** Setting the release of such a recipe (`update_pkgrel(n)`) reads back `n`. */
  lemma SetReadsBack(lines: seq<string>, i: nat, g: string, n: int)
    requires PlainRelease(lines, i, g)
    ensures UpdatePkgrelLines(lines, Some(IntRel(n))).Ok?
    ensures ReadRel(UpdatePkgrelLines(lines, Some(IntRel(n))).value) == Some(IntRel(n))
  {
    PlainReleaseMatch(lines, i, g);
    SetThenRead(lines, i, n);
  }

  /** Phase 1 takes the bumping branch exactly when the local version is the
      fetched one and the local release does not order below the fetched. */
  lemma Phase1Branch(localVer: Option<string>, localRel: Option<Rel>, fetched: seq<string>, vercmp: VerCmp)
    requires Truthy(localVer) && localVer == ReadVer(fetched)
    requires vercmp("1-" + OptRelText(localRel), "1-" + OptRelText(ReadRel(fetched))) >= 0
    ensures Phase1(localVer, localRel, Some(fetched), vercmp) == UpdatePkgrelFile(Some(fetched), None)
  {
    assert ReadVersion(Some(fetched)) == (ReadVer(fetched), ReadRel(fetched));
  }

  /** Phase 1 on a fetched recipe with one plain release, same version, local
      release not behind: the result holds the successor of the FETCHED
      release (not of the local one). */
  lemma Phase1BumpsFetched(localVer: Option<string>, localRel: Option<Rel>, fetched: seq<string>, i: nat, g: string, vercmp: VerCmp)
    returns (out: seq<string>, next: int)
    requires PlainRelease(fetched, i, g)
    requires Truthy(localVer) && localVer == ReadVer(fetched)
    requires vercmp("1-" + OptRelText(localRel), "1-" + OptRelText(ReadRel(fetched))) >= 0
    ensures ReadRel(fetched).Some? && NextRel(ReadRel(fetched).value) == Ok(next)
    ensures Phase1(localVer, localRel, Some(fetched), vercmp) == Ok(Some(out))
    ensures ReadRel(out) == Some(IntRel(next))
    ensures forall m :: ReadRel(fetched) == Some(IntRel(m)) ==> next == m + 1
  {
    BumpReadsBack(fetched, i, g);
    out := UpdatePkgrelLines(fetched, None).value;
    next := NextRel(ReadRel(fetched).value).value;
    Phase1Branch(localVer, localRel, fetched, vercmp);
  }

  /** Phase 2 on a refreshed recipe of the local version: it sets the wanted
      release when that orders above the refreshed one, and keeps the recipe
      otherwise. */
  lemma Phase2Branch(localVer: Option<string>, localRel: Option<Rel>, refreshed: seq<string>, vercmp: VerCmp)
    requires Truthy(localVer) && localVer == ReadVer(refreshed)
    requires Wanted(localRel).Ok?
    ensures var want := "1-" + IntToString(Wanted(localRel).value);
      Phase2(localVer, localRel, Some(refreshed), vercmp) ==
        if vercmp(want, "1-" + OptRelText(ReadRel(refreshed))) > 0
        then UpdatePkgrelFile(Some(refreshed), Some(IntRel(Wanted(localRel).value)))
        else Ok(Some(refreshed))
  {
    assert ReadVersion(Some(refreshed)) == (ReadVer(refreshed), ReadRel(refreshed));
  }

  /** With a reflexive comparator, phase 2 leaves the larger of the wanted
      release and the refreshed one: the wanted one when it orders above, the
      refreshed recipe untouched otherwise; either way the final release does
      not order below the refreshed one. */
  lemma Phase2TakesMaximum(localVer: Option<string>, localRel: Option<Rel>, refreshed: seq<string>, i: nat, g: string, vercmp: VerCmp)
    returns (out: seq<string>)
    requires forall x :: vercmp(x, x) == 0
    requires PlainRelease(refreshed, i, g)
    requires Truthy(localVer) && localVer == ReadVer(refreshed)
    requires Wanted(localRel).Ok?
    ensures Phase2(localVer, localRel, Some(refreshed), vercmp) == Ok(Some(out))
    ensures var want := "1-" + IntToString(Wanted(localRel).value);
      var before := "1-" + OptRelText(ReadRel(refreshed));
      && (vercmp(want, before) > 0 ==> ReadRel(out) == Some(IntRel(Wanted(localRel).value)))
      && (vercmp(want, before) <= 0 ==> out == refreshed)
      && vercmp("1-" + OptRelText(ReadRel(out)), before) >= 0
  {
    var next := Wanted(localRel).value;
    var want := "1-" + IntToString(next);
    var before := "1-" + OptRelText(ReadRel(refreshed));
    Phase2Branch(localVer, localRel, refreshed, vercmp);
    if vercmp(want, before) > 0 {
      SetReadsBack(refreshed, i, g, next);
      out := UpdatePkgrelLines(refreshed, Some(IntRel(next))).value;
      assert OptRelText(ReadRel(out)) == IntToString(next);
    } else {
      out := refreshed;
      assert vercmp(before, before) == 0;
    }
  }

  /** Phase 2 fails only on a local release without a successor. */
  lemma Phase2Fails(localVer: Option<string>, localRel: Option<Rel>, refreshed: Option<seq<string>>, vercmp: VerCmp)
    requires Phase2(localVer, localRel, refreshed, vercmp).Err?
    ensures Phase2(localVer, localRel, refreshed, vercmp).error == ValueError
    ensures localRel.Some? && NextRel(localRel.value).Err?
  {
    var (newVer, _) := ReadVersion(refreshed);
    if Truthy(localVer) && localVer == newVer && Wanted(localRel).Ok? {
      UpdatePkgrelFails(refreshed.value, Some(IntRel(Wanted(localRel).value)));
    }
  }
}
