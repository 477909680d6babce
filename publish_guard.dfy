/** Whether a change to the AUR copy of a package is worth publishing: a diff
    whose only changed lines bump the release (or, for a VCS package, the
    version and release) is not. */
module PublishGuard {
  import opened Strings
  import opened Ordering

  /** `pkgname.endswith(VCS_SUFFIXES)`. */
  predicate IsVcs(name: string) {
    EndsWith(name, "-git") || EndsWith(name, "-hg") || EndsWith(name, "-svn") || EndsWith(name, "-bzr")
  }

  /** A line of a unified diff that adds or removes text (file headers excluded). */
  predicate IsChanged(line: string) {
    (StartsWith(line, "+") || StartsWith(line, "-")) && !StartsWith(line, "+++") && !StartsWith(line, "---")
  }

  /** A changed line whose text, after its marker, is not routine churn: any
      text but `pkgrel=...`, or for a VCS package any but `pkgver=`/`pkgrel=`. */
  predicate Significant(isVcs: bool, line: string) {
    && IsChanged(line)
    && var text := line[1..];
    && !StartsWith(text, "pkgrel=")
    && (isVcs ==> !StartsWith(text, "pkgver="))
  }

  /** The loop of `_allow_update_aur_repo` over the lines of the diff: true at
      the first significant changed line, false when none is. */
  function AllowUpdateLines(isVcs: bool, lines: seq<string>): (allow: bool)
    ensures allow <==> exists j :: 0 <= j < |lines| && Significant(isVcs, lines[j])
  {
    if lines == [] then false
    else if !IsChanged(lines[0]) then
      assert forall j :: 1 <= j < |lines| ==> lines[j] == lines[1..][j - 1];
      AllowUpdateLines(isVcs, lines[1..])
    else
      var text := lines[0][1..];
      if isVcs && !StartsWith(text, "pkgver=") && !StartsWith(text, "pkgrel=") then true
      else if !isVcs && !StartsWith(text, "pkgrel=") then true
      else
        assert forall j :: 1 <= j < |lines| ==> lines[j] == lines[1..][j - 1];
        AllowUpdateLines(isVcs, lines[1..])
  }

  /** `_allow_update_aur_repo(pkgname, diff)`. */
  function AllowUpdate(name: string, diff: string): (allow: bool)
    ensures allow <==> exists j :: 0 <= j < |SplitLines(diff)| && Significant(IsVcs(name), SplitLines(diff)[j])
  {
    var lines := SplitLines(diff);
    assert forall j {:trigger lines[j]} :: 0 <= j < |lines| ==> lines[j] == SplitLines(diff)[j];
    AllowUpdateLines(IsVcs(name), lines)
  }

  /** The decision does not depend on the order of the diff's lines, nor on
      repeated lines: only on which lines occur. */
  lemma AllowUpdateOrderFree(isVcs: bool, a: seq<string>, b: seq<string>)
    requires Elems(a) == Elems(b)
    ensures AllowUpdateLines(isVcs, a) == AllowUpdateLines(isVcs, b)
  {
    if AllowUpdateLines(isVcs, a) {
      var j :| 0 <= j < |a| && Significant(isVcs, a[j]);
      assert a[j] in Elems(b);
      var k :| 0 <= k < |b| && b[k] == a[j];
    }
    if AllowUpdateLines(isVcs, b) {
      var j :| 0 <= j < |b| && Significant(isVcs, b[j]);
      assert b[j] in Elems(a);
      var k :| 0 <= k < |a| && a[k] == b[j];
    }
  }

  /** The VCS policy ignores more churn: a diff it allows, the plain policy
      allows too. */
  lemma VcsAllowsLess(lines: seq<string>)
    ensures AllowUpdateLines(true, lines) ==> AllowUpdateLines(false, lines)
  {
    if AllowUpdateLines(true, lines) {
      var j :| 0 <= j < |lines| && Significant(true, lines[j]);
      assert Significant(false, lines[j]);
    }
  }

  /** A diff that changes nothing but releases is not published; one that also
      changes something else is. */
  lemma ReleaseOnlyDiff(lines: seq<string>, isVcs: bool)
    requires forall j :: 0 <= j < |lines| && IsChanged(lines[j]) ==> StartsWith(lines[j][1..], "pkgrel=")
    ensures !AllowUpdateLines(isVcs, lines)
    ensures forall other :: IsChanged(other) && !StartsWith(other[1..], "pkgrel=") && !StartsWith(other[1..], "pkgver=") ==>
      AllowUpdateLines(isVcs, lines + [other])
  {
    forall other | IsChanged(other) && !StartsWith(other[1..], "pkgrel=") && !StartsWith(other[1..], "pkgver=")
      ensures AllowUpdateLines(isVcs, lines + [other])
    {
      assert (lines + [other])[|lines|] == other;
      assert Significant(isVcs, other);
    }
  }

  /** A version bump of a VCS package is routine churn; of any other package it
      is published. */
  lemma VersionBumpDiff(minus: string, plus: string)
    requires StartsWith(minus, "-pkgver=") && StartsWith(plus, "+pkgver=")
    ensures !AllowUpdateLines(true, [minus, plus])
    ensures AllowUpdateLines(false, [minus, plus])
  {
    assert minus[1] == 'p' && plus[1] == 'p';
    assert minus[1..][..7] == minus[1..8] == "pkgver=";
    assert plus[1..][..7] == plus[1..8] == "pkgver=";
    assert !StartsWith(minus[1..], "pkgrel=") by { assert minus[1..][..7][3] == 'v'; }
    assert Significant(false, minus);
  }
}
