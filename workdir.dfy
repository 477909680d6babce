/** The package's working directory as the recipe helpers see it: a map from
    file names to their lines, edited in place by the helpers, plus the two
    lists `aur_pre_build` records for `aur_post_build`. */
module WorkingDir {
  import Strings
  import opened Wrappers
  import opened Numbers
  import opened Ordering
  import opened ArrayField
  import opened Release
  import opened Filters
  import opened Reconcile

  const Pkgbuild := "PKGBUILD"

  /** File name to contents, one string per line. */
  type Files = map<string, seq<string>>

  /** The recipe of a directory; `None` when the file is missing. */
  function RecipeOf(files: Files): Option<seq<string>> {
    if Pkgbuild in files then Some(files[Pkgbuild]) else None
  }

  /** The directory with its recipe replaced, when there is one to write. */
  function WithRecipe(files: Files, recipe: Option<seq<string>>): (r: Files)
    ensures recipe.Some? ==> RecipeOf(r) == recipe
    ensures forall f :: f != Pkgbuild ==> (f in r <==> f in files) && (f in r ==> r[f] == files[f])
  {
    match recipe
    case None => files
    case Some(lines) => files[Pkgbuild := lines]
  }

  // ------------------------------------------------------------ array fields

  /** The arrays the fixed-name helpers `add_arch` ... `add_groups` extend. */
  datatype Field = Arch | Depends | MakeDepends | CheckDepends | Conflicts | Replaces | Provides | Groups

  function FieldName(f: Field): (name: string)
    ensures name != [] && '(' !in name && '=' !in name
  {
    match f
    case Arch => "arch"
    case Depends => "depends"
    case MakeDepends => "makedepends"
    case CheckDepends => "checkdepends"
    case Conflicts => "conflicts"
    case Replaces => "replaces"
    case Provides => "provides"
    case Groups => "groups"
  }

  /** Distinct fields extend distinct arrays. */
  lemma FieldNameInjective(f: Field, g: Field)
    requires FieldName(f) == FieldName(g)
    ensures f == g
  {
    match f
    case Arch => assert FieldName(g)[0] == 'a';
    case Depends => assert FieldName(g)[..2] == "de";
    case MakeDepends => assert FieldName(g)[0] == 'm';
    case CheckDepends => assert FieldName(g)[..2] == "ch";
    case Conflicts => assert FieldName(g)[..3] == "con";
    case Replaces => assert FieldName(g)[0] == 'r';
    case Provides => assert FieldName(g)[0] == 'p';
    case Groups => assert FieldName(g)[0] == 'g';
  }

  // --------------------------------------------------------- clean_directory

  /** The directory after `clean_directory` unlinks the tracked files that are
      not special (a file already missing is skipped). */
  function Cleaned(files: Files, tracked: seq<string>, special: set<string>): (r: Files)
    ensures forall f :: f in r ==> f in files && r[f] == files[f]
    ensures forall f :: f in files && (f in special || f !in Elems(tracked)) ==> f in r
  {
    files - Elems(Publishable(tracked, special))
  }

  lemma {:induction false} PublishableAppend(files: seq<string>, f: string, special: set<string>)
    ensures Publishable(files + [f], special) == Publishable(files, special) + (if f in special then [] else [f])
    decreases |files|
  {
    if files == [] {
      assert [] + [f] == [f];
    } else {
      assert (files + [f])[1..] == files[1..] + [f];
      PublishableAppend(files[1..], f, special);
    }
  }

  /** Cleaning removes exactly the tracked files that are not special. */
  lemma CleanedRemoves(files: Files, tracked: seq<string>, special: set<string>, f: string)
    ensures f in Cleaned(files, tracked, special) <==> f in files && (f in special || f !in Elems(tracked))
    ensures f in Cleaned(files, tracked, special) ==> Cleaned(files, tracked, special)[f] == files[f]
  {
  }

  // ----------------------------------------------------------- AUR snapshot

  /** A member of the AUR snapshot archive: its path and its lines. */
  datatype Member = Member(path: string, content: seq<string>)

  /** The names `_download_aur_pkgbuild` returns: one per extracted member, in
      archive order. */
  function ExtractedNames(members: seq<Member>): (names: seq<string>)
    ensures |names| <= |members|
    ensures forall j :: 0 <= j < |names| ==> '/' !in names[j] && !IsMetadata(names[j])
  {
    if members == [] then []
    else
      var last := members[|members| - 1];
      var init := ExtractedNames(members[..|members| - 1]);
      match ExtractedName(last.path)
      case None => init
      case Some(n) => init + [n]
  }

  /** The directory after extracting the members; a later member overwrites
      an earlier one of the same name. */
  function Extract(files: Files, members: seq<Member>): (r: Files)
    ensures files.Keys <= r.Keys
  {
    if members == [] then files
    else
      var last := members[|members| - 1];
      var init := Extract(files, members[..|members| - 1]);
      match ExtractedName(last.path)
      case None => init
      case Some(n) => init[n := last.content]
  }

  /** Every returned name is a file of the directory afterwards, and files
      under any other name are left as they were. */
  lemma {:induction false} ExtractFrame(files: Files, members: seq<Member>, f: string)
    ensures f in Elems(ExtractedNames(members)) ==> f in Extract(files, members)
    ensures f !in Elems(ExtractedNames(members)) ==>
      (f in Extract(files, members) <==> f in files) && (f in files ==> Extract(files, members)[f] == files[f])
    decreases |members|
  {
    if members != [] {
      var init := members[..|members| - 1];
      ExtractFrame(files, init, f);
      var names := ExtractedNames(init);
      match ExtractedName(members[|members| - 1].path)
      case None =>
      case Some(n) => ElemsConcat(names, [n]);
    }
  }

  /** The last member extracted under a name decides its content. */
  lemma {:induction false} ExtractLastWins(files: Files, members: seq<Member>, k: nat)
    requires k < |members| && ExtractedName(members[k].path).Some?
    requires forall j :: k < j < |members| ==> ExtractedName(members[j].path) != ExtractedName(members[k].path)
    ensures ExtractedName(members[k].path).value in Extract(files, members)
    ensures Extract(files, members)[ExtractedName(members[k].path).value] == members[k].content
    decreases |members|
  {
    if k < |members| - 1 {
      var init := members[..|members| - 1];
      assert init[k] == members[k];
      ExtractLastWins(files, init, k);
    }
  }

  // ------------------------------------------------------------ aur_pre_build

  /** The release merge of `aur_pre_build` on the directory holding the fetched
      files: phase 1, then, for a VCS update, the refresh and phase 2. The
      refresh (`vcs_update`) says whether `makepkg` succeeded and gives the
      directory it leaves; a failed refresh ends the merge with the
      CalledProcessError of `run_cmd`. The directory is returned as the failing
      step leaves it. */
  function Reconciled(localVer: Option<string>, localRel: Option<Rel>, fetched: Files, doVcs: bool,
                      refresh: Files -> (bool, Files), vercmp: VerCmp): (r: (Outcome<Error>, Files))
    ensures r.0.Fail? ==> r.0.error == ValueError || r.0.error == CalledProcessError
    ensures r.0.Fail? && !doVcs ==> r.0.error == ValueError && r.1 == fetched
    ensures r.0 == Fail(CalledProcessError) ==>
      var p1 := Phase1(localVer, localRel, RecipeOf(fetched), vercmp);
      && p1.Ok? && doVcs
      && var after := refresh(WithRecipe(fetched, p1.value));
         !after.0 && r.1 == after.1
  {
    match Phase1(localVer, localRel, RecipeOf(fetched), vercmp)
    case Err(e) => (Fail(e), fetched)
    case Ok(r1) =>
      var after1 := WithRecipe(fetched, r1);
      if !doVcs then (Pass, after1)
      else
        var (made, refreshed) := refresh(after1);
        if !made then (Fail(CalledProcessError), refreshed)
        else
          match Phase2(localVer, localRel, RecipeOf(refreshed), vercmp)
          case Err(e) => (Fail(e), refreshed)
          case Ok(r2) => (Pass, WithRecipe(refreshed, r2))
  }

  /** Phase 1 leaves the recipe it was given, or a bumped one when there was one. */
  lemma Phase1Recipe(localVer: Option<string>, localRel: Option<Rel>, fetched: Files, vercmp: VerCmp)
    requires Phase1(localVer, localRel, RecipeOf(fetched), vercmp).Ok?
    ensures var r1 := Phase1(localVer, localRel, RecipeOf(fetched), vercmp).value;
      RecipeOf(WithRecipe(fetched, r1)) == r1
  {
  }

  /** Without a VCS update the merged recipe keeps the AUR's pkgver; with one it
      keeps the refreshed pkgver. No file but the recipe is touched beyond what
      the refresh does. */
  lemma ReconciledKeepsVersion(localVer: Option<string>, localRel: Option<Rel>, fetched: Files, doVcs: bool,
                               refresh: Files -> (bool, Files), vercmp: VerCmp)
    requires Reconciled(localVer, localRel, fetched, doVcs, refresh, vercmp).0 == Pass
    ensures var out := Reconciled(localVer, localRel, fetched, doVcs, refresh, vercmp).1;
      var r1 := Phase1(localVer, localRel, RecipeOf(fetched), vercmp).value;
      var before := if doVcs then refresh(WithRecipe(fetched, r1)).1 else fetched;
      && ReadVersion(RecipeOf(out)).0 == ReadVersion(RecipeOf(before)).0
      && forall f :: f != Pkgbuild ==> (f in out <==> f in before) && (f in out ==> out[f] == before[f])
  {
    Phase1KeepsVersion(localVer, localRel, RecipeOf(fetched), vercmp);
    Phase1Recipe(localVer, localRel, fetched, vercmp);
    if doVcs {
      var refreshed := refresh(WithRecipe(fetched, Phase1(localVer, localRel, RecipeOf(fetched), vercmp).value)).1;
      Phase2KeepsVersion(localVer, localRel, RecipeOf(refreshed), vercmp);
      Phase2Recipe(localVer, localRel, refreshed, vercmp);
    }
  }

  lemma Phase2Recipe(localVer: Option<string>, localRel: Option<Rel>, refreshed: Files, vercmp: VerCmp)
    requires Phase2(localVer, localRel, RecipeOf(refreshed), vercmp).Ok?
    ensures var r2 := Phase2(localVer, localRel, RecipeOf(refreshed), vercmp).value;
      RecipeOf(WithRecipe(refreshed, r2)) == r2
  {
  }

  /** The merge fails with CalledProcessError exactly when phase 1 succeeded
      and the VCS refresh failed; any other failure is a release without a
      successor, in phase 1 (the fetched one) or phase 2 (the local one). */
  lemma ReconciledFails(localVer: Option<string>, localRel: Option<Rel>, fetched: Files, doVcs: bool,
                        refresh: Files -> (bool, Files), vercmp: VerCmp)
    requires Reconciled(localVer, localRel, fetched, doVcs, refresh, vercmp).0.Fail?
    ensures var e := Reconciled(localVer, localRel, fetched, doVcs, refresh, vercmp).0.error;
      var p1 := Phase1(localVer, localRel, RecipeOf(fetched), vercmp);
      && (e == ValueError || e == CalledProcessError)
      && (e == CalledProcessError <==> p1.Ok? && doVcs && !refresh(WithRecipe(fetched, p1.value)).0)
  {
    if Phase1(localVer, localRel, RecipeOf(fetched), vercmp).Ok? {
      var after := refresh(WithRecipe(fetched, Phase1(localVer, localRel, RecipeOf(fetched), vercmp).value));
      if doVcs && after.0 {
        Phase2Fails(localVer, localRel, RecipeOf(after.1), vercmp);
      }
    }
  }

  /** The line loop of `update_pkgver_and_pkgrel`: each `pkgver=` line gets
      the new version when it changed, each `pkgrel=` line gets 1 or, for the
      same version, `_next_pkgrel` of the release read. An error from
      `_next_pkgrel` ends the loop at that line, with only the lines printed
      before it. */
  method RewriteVersionLines(lines: seq<string>, newver: string, changed: bool, pkgrel: Rel)
    returns (o: Outcome<Error>, out: seq<string>)
    ensures changed ==> o == Pass && out == RewriteVersion(lines, newver, true, "1")
    ensures !changed && NextRel(pkgrel).Ok? ==>
      o == Pass && out == RewriteVersion(lines, newver, false, IntToString(NextRel(pkgrel).value))
    ensures !changed && NextRel(pkgrel).Err? && FirstRelLine(lines) < 0 ==> o == Pass && out == lines
    ensures !changed && NextRel(pkgrel).Err? && FirstRelLine(lines) >= 0 ==>
      o == Fail(ValueError) && out == lines[..FirstRelLine(lines)]
  {
    var next := NextRel(pkgrel);
    ghost var relText := if changed then "1" else if next.Ok? then IntToString(next.value) else "";
    out := [];
    var k := 0;
    while k < |lines|
      invariant 0 <= k <= |lines|
      invariant out == RewriteVersion(lines[..k], newver, changed, relText)
      invariant !changed && next.Err? ==> ReadRel(lines[..k]).None?
    {
      var line := lines[k];
      Strings.TakeOneMore(lines, k);
      RewriteVersionSnoc(lines[..k], line, newver, changed, relText);
      ReadRelSnoc(lines[..k], line);
      if IsVerLine(line) && changed {
        line := "pkgver=" + newver;
      } else if IsRelLine(line) {
        if changed {
          line := "pkgrel=1";
          ResetRelLine();
        } else {
          if next.Err? {
            FirstRelLineAt(lines, k);
            RewriteBeforeRelease(lines[..k], newver, relText);
            return Fail(next.error), out;
          }
          line := "pkgrel=" + IntToString(next.value);
        }
      }
      out := out + [line];
      k := k + 1;
    }
    assert lines[..k] == lines;
    if !changed && next.Err? {
      RewriteBeforeRelease(lines, newver, relText);
    }
    o := Pass;
  }

  // ---------------------------------------------------------------- the class

  class WorkDir {
    var files: Files
    /** `_g.aur_pre_files`: what `clean_directory` removed. */
    var preFiles: seq<string>
    /** `_g.aur_building_files`: what the snapshot extraction wrote. */
    var buildingFiles: seq<string>

    constructor (files: Files)
      ensures this.files == files && preFiles == [] && buildingFiles == []
    {
      this.files := files;
      preFiles := [];
      buildingFiles := [];
    }

    /** `add_into_array(which, values)`: the in-place rewrite of the recipe,
        line by line, then the append when no line assigned `which`. */
    method AddIntoArray(which: string, values: seq<string>) returns (o: Outcome<Error>)
      modifies this
      ensures RecipeOf(old(files)).None? ==> o == Fail(FileNotFound) && files == old(files)
      ensures RecipeOf(old(files)).Some? ==>
        o == Pass && files == old(files)[Pkgbuild := AddIntoArrayLines(old(files)[Pkgbuild], which, values)]
      ensures preFiles == old(preFiles) && buildingFiles == old(buildingFiles)
    {
      if Pkgbuild !in files {
        return Fail(FileNotFound);
      }
      var lines := files[Pkgbuild];
      var out: seq<string> := [];
      var appeared := false;
      var k := 0;
      while k < |lines|
        invariant 0 <= k <= |lines|
        invariant out == EditAll(lines[..k], which, values)
        invariant appeared == HasField(lines[..k], which)
        invariant files == old(files) && preFiles == old(preFiles) && buildingFiles == old(buildingFiles)
      {
        var line := lines[k];
        EditAllSnoc(lines[..k], line, which, values);
        Strings.TakeOneMore(lines, k);
        if MatchesField(line, which) {
          line := AddIntoArrayLine(line, values);
          appeared := true;
        }
        out := out + [line];
        k := k + 1;
      }
      assert lines[..k] == lines;
      assert out == EditAll(lines, which, values) && appeared == HasField(lines, which);
      if !appeared {
        EditAllNoField(lines, which, values);
        out := out + [NewFieldLine(which, values)];
      }
      assert out == AddIntoArrayLines(lines, which, values);
      files := files[Pkgbuild := out];
      return Pass;
    }

    /** `add_arch`, `add_depends`, ... `add_groups`. */
    method AddTo(field: Field, values: seq<string>) returns (o: Outcome<Error>)
      modifies this
      ensures RecipeOf(old(files)).None? ==> o == Fail(FileNotFound) && files == old(files)
      ensures RecipeOf(old(files)).Some? ==>
        o == Pass && files == old(files)[Pkgbuild := AddIntoArrayLines(old(files)[Pkgbuild], FieldName(field), values)]
      ensures preFiles == old(preFiles) && buildingFiles == old(buildingFiles)
    {
      o := AddIntoArray(FieldName(field), values);
    }

    /** `get_pkgver_and_pkgrel`: one pass over the recipe, each `pkgrel=` or
        `pkgver=` line overwriting what an earlier one gave. */
    method GetPkgverAndPkgrel() returns (ver: Option<string>, rel: Option<Rel>)
      ensures (ver, rel) == ReadVersion(RecipeOf(files))
    {
      ver, rel := None, None;
      if Pkgbuild !in files {
        return;
      }
      var lines := files[Pkgbuild];
      var k := 0;
      while k < |lines|
        invariant 0 <= k <= |lines|
        invariant ver == ReadVer(lines[..k]) && rel == ReadRel(lines[..k])
      {
        var l := lines[k];
        ReadVerSnoc(lines[..k], l);
        ReadRelSnoc(lines[..k], l);
        Strings.TakeOneMore(lines, k);
        if IsRelLine(l) {
          rel := Some(RelValue(l));
        } else if IsVerLine(l) {
          ver := Some(VerValue(l));
        }
        k := k + 1;
      }
      assert lines[..k] == lines;
    }

    /** `update_pkgver_and_pkgrel(newver)`: check both values were read, then
        rewrite the recipe in place. */
    method UpdatePkgverAndPkgrel(newver: string) returns (o: Outcome<Error>)
      modifies this
      ensures RecipeOf(old(files)).None? ==> o == Fail(AssertionError) && files == old(files)
      ensures RecipeOf(old(files)).Some? ==>
        var (o', out) := UpdateVersionLines(old(files)[Pkgbuild], newver);
        o == o' && files == old(files)[Pkgbuild := out]
      ensures preFiles == old(preFiles) && buildingFiles == old(buildingFiles)
    {
      var pkgver, pkgrel := GetPkgverAndPkgrel();
      if pkgver.None? || pkgrel.None? {
        return Fail(AssertionError);
      }
      var lines := files[Pkgbuild];
      var out;
      o, out := RewriteVersionLines(lines, newver, pkgver.value != newver, pkgrel.value);
      files := files[Pkgbuild := out];
    }

    /** `update_pkgrel(rel)`: read the recipe, substitute, write it back; an
        error from `_next_pkgrel` propagates before the write. */
    method UpdatePkgrel(rel: Option<Rel>) returns (o: Outcome<Error>)
      modifies this
      ensures var r := UpdatePkgrelFile(RecipeOf(old(files)), rel);
        && (r.Err? ==> o == Fail(r.error) && files == old(files))
        && (r.Ok? ==> o == Pass && files == WithRecipe(old(files), r.value))
      ensures preFiles == old(preFiles) && buildingFiles == old(buildingFiles)
    {
      if Pkgbuild !in files {
        return Fail(FileNotFound);
      }
      var r := UpdatePkgrelLines(files[Pkgbuild], rel);
      if r.Err? {
        return Fail(r.error);
      }
      files := files[Pkgbuild := r.value];
      return Pass;
    }

    /** `clean_directory()`, given the output of `git ls-files` and the special
        files: unlink every tracked file that is not special and return them. */
    method CleanDirectory(tracked: seq<string>, special: set<string>) returns (removed: seq<string>)
      modifies this
      ensures removed == Publishable(tracked, special)
      ensures files == Cleaned(old(files), tracked, special)
      ensures preFiles == old(preFiles) && buildingFiles == old(buildingFiles)
    {
      removed := [];
      var k := 0;
      while k < |tracked|
        invariant 0 <= k <= |tracked|
        invariant removed == Publishable(tracked[..k], special)
        invariant files == old(files) - Elems(removed)
        invariant preFiles == old(preFiles) && buildingFiles == old(buildingFiles)
      {
        var f := tracked[k];
        PublishableAppend(tracked[..k], f, special);
        Strings.TakeOneMore(tracked, k);
        if f !in special {
          ElemsConcat(removed, [f]);
          removed := removed + [f];
          files := files - {f};
        }
        k := k + 1;
      }
      assert tracked[..k] == tracked;
    }

    /** `_download_aur_pkgbuild(name)`, given the snapshot the download yields
        (`None` when no URL served it): extract each member that passes the
        name filter under its last path component and return those names. */
    method DownloadAurPkgbuild(name: string, snapshot: Option<seq<Member>>) returns (r: Result<seq<string>, Error>)
      modifies this
      ensures snapshot.None? ==> r == Err(AurDownloadError(name)) && files == old(files)
      ensures snapshot.Some? ==> r == Ok(ExtractedNames(snapshot.value)) && files == Extract(old(files), snapshot.value)
      ensures preFiles == old(preFiles) && buildingFiles == old(buildingFiles)
    {
      if snapshot.None? {
        return Err(AurDownloadError(name));
      }
      var members := snapshot.value;
      var names: seq<string> := [];
      var k := 0;
      while k < |members|
        invariant 0 <= k <= |members|
        invariant names == ExtractedNames(members[..k])
        invariant files == Extract(old(files), members[..k])
        invariant preFiles == old(preFiles) && buildingFiles == old(buildingFiles)
      {
        var m := members[k];
        assert members[..k + 1][..k] == members[..k];
        match ExtractedName(m.path) {
          case Some(n) =>
            files := files[n := m.content];
            names := names + [n];
          case None =>
        }
        k := k + 1;
      }
      assert members[..k] == members;
      return Ok(names);
    }

    /** Phase 1 of `aur_pre_build` on the fetched recipe: re-read it and, when
        the local version is the fetched one and the local release is not
        behind, bump the fetched release. */
    method MergeFetched(pkgver: Option<string>, pkgrel: Option<Rel>, vercmp: VerCmp) returns (o: Outcome<Error>)
      modifies this
      ensures var r := Phase1(pkgver, pkgrel, RecipeOf(old(files)), vercmp);
        && (r.Err? ==> o == Fail(r.error) && files == old(files))
        && (r.Ok? ==> o == Pass && files == WithRecipe(old(files), r.value))
      ensures preFiles == old(preFiles) && buildingFiles == old(buildingFiles)
    {
      var aurVer, aurRel := GetPkgverAndPkgrel();
      o := Pass;
      if Truthy(pkgver) && pkgver == aurVer {
        if vercmp("1-" + OptRelText(pkgrel), "1-" + OptRelText(aurRel)) < 0 {
          // the AUR's release is ahead: keep it
        } else {
          o := UpdatePkgrel(None);
        }
      }
    }

    /** Phase 2 of `aur_pre_build` on the refreshed recipe: when the local
        version is still the refreshed one, raise the release to the wanted
        one if that orders above it. */
    method RaiseRefreshed(pkgver: Option<string>, pkgrel: Option<Rel>, vercmp: VerCmp) returns (o: Outcome<Error>)
      modifies this
      ensures var r := Phase2(pkgver, pkgrel, RecipeOf(old(files)), vercmp);
        && (r.Err? ==> o == Fail(r.error) && files == old(files))
        && (r.Ok? ==> o == Pass && files == WithRecipe(old(files), r.value))
      ensures preFiles == old(preFiles) && buildingFiles == old(buildingFiles)
    {
      var newVer, newRel := GetPkgverAndPkgrel();
      o := Pass;
      if Truthy(pkgver) && pkgver == newVer {
        var next := Wanted(pkgrel);
        if next.Err? {
          return Fail(next.error);
        }
        if vercmp("1-" + IntToString(next.value), "1-" + OptRelText(newRel)) > 0 {
          o := UpdatePkgrel(Some(IntRel(next.value)));
        }
      }
    }

    /** `aur_pre_build`. The AUR's maintainer, the tracked and special files,
        the downloaded snapshot, the VCS refresh (`vcs_update`) and `vercmp`
        are parameters; `name` is the package name already resolved. */
    method AurPreBuild(name: string, doVcsUpdate: Option<bool>, maintainers: Maintainers, aurMaintainer: Option<string>,
                       tracked: seq<string>, special: set<string>, snapshot: Option<seq<Member>>,
                       refresh: Files -> (bool, Files), vercmp: VerCmp) returns (o: Outcome<Error>)
      modifies this
      ensures CheckMaintainer(maintainers, aurMaintainer).Fail? ==>
        o == CheckMaintainer(maintainers, aurMaintainer) &&
        files == old(files) && preFiles == old(preFiles) && buildingFiles == old(buildingFiles)
      ensures CheckMaintainer(maintainers, aurMaintainer).Pass? ==> preFiles == Publishable(tracked, special)
      ensures CheckMaintainer(maintainers, aurMaintainer).Pass? && snapshot.None? ==>
        o == Fail(AurDownloadError(name)) &&
        files == Cleaned(old(files), tracked, special) && buildingFiles == old(buildingFiles)
      ensures CheckMaintainer(maintainers, aurMaintainer).Pass? && snapshot.Some? ==>
        && buildingFiles == ExtractedNames(snapshot.value)
        && var (localVer, localRel) := ReadVersion(RecipeOf(old(files)));
           var fetched := Extract(Cleaned(old(files), tracked, special), snapshot.value);
           (o, files) == Reconciled(localVer, localRel, fetched, DoVcsUpdate(name, doVcsUpdate), refresh, vercmp)
    {
      o := CheckMaintainer(maintainers, aurMaintainer);
      if o.Fail? {
        return;
      }
      var pkgver, pkgrel := GetPkgverAndPkgrel();
      preFiles := CleanDirectory(tracked, special);
      var downloaded := DownloadAurPkgbuild(name, snapshot);
      if downloaded.Err? {
        return Fail(downloaded.error);
      }
      buildingFiles := downloaded.value;

      o := MergeFetched(pkgver, pkgrel, vercmp);
      if o.Fail? || !DoVcsUpdate(name, doVcsUpdate) {
        return;
      }
      var (made, refreshed) := refresh(files);
      files := refreshed;
      if !made {
        return Fail(CalledProcessError);
      }
      o := RaiseRefreshed(pkgver, pkgrel, vercmp);
    }
  }
}
