/** The small pure pieces around the recipe editor: the maintainer check, the
    decoding of a shell array, the `optdepends` split and the name filters. */
module Filters {
  import opened Wrappers
  import opened Strings
  import opened Ordering

  // ------------------------------------------------------------ maintainers

  /** The `maintainers` argument of `aur_pre_build`: one name or a collection. */
  datatype Maintainers = Single(name: string) | Several(names: seq<string>)

  /** Python truthiness of the argument: an empty name or collection skips the check. */
  predicate Given(ms: Maintainers) {
    match ms
    case Single(n) => n != []
    case Several(ns) => ns != []
  }

  /** The maintainer check of `aur_pre_build`; `aur` is the `Maintainer` the AUR
      reports (`None` for an orphaned package). */
  function CheckMaintainer(ms: Maintainers, aur: Option<string>): (r: Outcome<Error>)
    ensures r.Fail? ==> r.error == MaintainerMismatch(aur)
    ensures r == Pass <==>
      !Given(ms) || (ms.Single? && aur == Some(ms.name)) || (ms.Several? && aur.Some? && aur.value in ms.names)
  {
    if !Given(ms) then Pass
    else
      var error := match ms
        case Single(n) => aur != Some(n)
        case Several(ns) => aur.None? || aur.value !in ns;
      if error then Fail(MaintainerMismatch(aur)) else Pass
  }

  /** Naming one maintainer is the same as listing just that one. */
  lemma SingleIsList(name: string, aur: Option<string>)
    requires name != []
    ensures CheckMaintainer(Single(name), aur) == CheckMaintainer(Several([name]), aur)
  {
  }

  // ---------------------------------------------------- NUL-separated arrays

  /** What `printf "%s\0" "${array[@]}"` writes: each element followed by NUL;
      with no elements the format is still used once, with an empty argument. */
  function EncodeArray(items: seq<string>): string {
    if items == [] then "\0" else Terminated(items)
  }

  function Terminated(items: seq<string>): string {
    if items == [] then "" else items[0] + "\0" + Terminated(items[1..])
  }

  /** The decoding in `obtain_array`: a lone NUL is an unset array, anything
      else is split on NUL with the piece after the last NUL dropped. */
  function DecodeArray(res: string): (r: Option<seq<string>>)
    ensures r.Some? ==> |r.value| == |Split(res, '\0')| - 1
  {
    if res == "\0" then None
    else
      var parts := Split(res, '\0');
      Some(parts[..|parts| - 1])
  }

  /** Decoding what the shell wrote gives back the array's elements, except that
      an empty array and an array holding one empty string both read as unset. */
  lemma DecodeEncode(items: seq<string>)
    requires forall k :: 0 <= k < |items| ==> '\0' !in items[k]
    ensures DecodeArray(EncodeArray(items)) == if items == [] || items == [""] then None else Some(items)
  {
    if items != [] && items != [""] {
      TerminatedSplit(items);
      assert Terminated(items) != "\0" by {
        if |items| == 1 { assert |items[0]| > 0; assert |Terminated(items)| > 1; }
        else { assert |Terminated(items)| >= |items[0]| + 1 + |Terminated(items[1..])|; }
      }
    } else if items == [""] {
      assert Terminated(items) == "\0";
    }
  }

  /** Splitting NUL-terminated elements gives the elements and one empty tail. */
  lemma {:induction false} TerminatedSplit(items: seq<string>)
    requires forall k :: 0 <= k < |items| ==> '\0' !in items[k]
    ensures Split(Terminated(items), '\0') == items + [""]
  {
    if items == [] {
      assert Find("", '\0') < 0;
    } else {
      var first := items[0];
      var rest := Terminated(items[1..]);
      var s := first + ("\0" + rest);
      assert Terminated(items) == s;
      var n := |first|;
      assert s[..n] == first && s[n] == '\0' && s[n + 1..] == rest;
      assert '\0' !in first;
      SplitAt(s, '\0', n);
      TerminatedSplit(items[1..]);
      calc {
        Split(s, '\0');
        [first] + Split(rest, '\0');
        [first] + (items[1..] + [""]);
        ([first] + items[1..]) + [""];
        { assert [first] + items[1..] == items; }
        items + [""];
      }
    }
  }

  // ------------------------------------------------------------- optdepends

  /** What `obtain_optdepends` returns: nothing (unset array), the array as it
      is, or the `name: description` pairs as a dictionary. */
  datatype OptDepends = Unset | Items(items: seq<string>) | Pairs(table: map<string, string>)

  /** `item.split(':', 1)` as the unpacking `(pkg, desc)` needs it: the text
      before and after the first colon. */
  function Halves(item: string): (string, string) {
    var i := Find(item, ':');
    if i < 0 then (item, "") else (item[..i], item[i + 1..])
  }

  /** The key of an item: the name before its first colon, stripped. */
  function Name(item: string): string {
    Strip(Halves(item).0, Whitespace)
  }

  /** The value of an item: the description after its first colon, stripped. */
  function Description(item: string): string {
    Strip(Halves(item).1, Whitespace)
  }

  /** Every item splits into two halves (has a colon). */
  predicate AllPaired(items: seq<string>) {
    items == [] || (Find(items[|items| - 1], ':') >= 0 && AllPaired(items[..|items| - 1]))
  }

  lemma {:induction false} AllPairedIff(items: seq<string>)
    ensures AllPaired(items) <==> forall k :: 0 <= k < |items| ==> ':' in items[k]
  {
    if items != [] {
      var init := items[..|items| - 1];
      AllPairedIff(init);
      assert forall k :: 0 <= k < |init| ==> init[k] == items[k];
      assert Find(items[|items| - 1], ':') >= 0 <==> ':' in items[|items| - 1];
    }
  }

  /** A dictionary comprehension `{key(x): value(x) for x in items}`: later
      items overwrite earlier ones. */
  function Table(items: seq<string>, key: string -> string, value: string -> string): map<string, string> {
    if items == [] then map[]
    else
      var last := items[|items| - 1];
      Table(items[..|items| - 1], key, value)[key(last) := value(last)]
  }

  /** The table's keys are exactly the keys of the items. */
  lemma {:induction false} TableKeys(items: seq<string>, key: string -> string, value: string -> string)
    ensures forall k :: 0 <= k < |items| ==> key(items[k]) in Table(items, key, value)
    ensures forall x :: x in Table(items, key, value) ==> exists k :: 0 <= k < |items| && key(items[k]) == x
  {
    if items != [] {
      var init := items[..|items| - 1];
      TableKeys(init, key, value);
      var m := Table(items, key, value);
      forall k | 0 <= k < |items| ensures key(items[k]) in m {
        if k < |init| { assert init[k] == items[k]; }
      }
      forall x | x in m ensures exists k :: 0 <= k < |items| && key(items[k]) == x {
        if x != key(items[|items| - 1]) {
          var k :| 0 <= k < |init| && key(init[k]) == x;
          assert init[k] == items[k];
        }
      }
    }
  }

  /** The value kept for a key is the one of the last item with that key. */
  lemma {:induction false} TableLastWins(items: seq<string>, key: string -> string, value: string -> string, k: nat)
    requires k < |items|
    requires forall j :: k < j < |items| ==> key(items[j]) != key(items[k])
    ensures key(items[k]) in Table(items, key, value)
    ensures Table(items, key, value)[key(items[k])] == value(items[k])
    decreases |items|
  {
    if k < |items| - 1 {
      var init := items[..|items| - 1];
      assert init[k] == items[k];
      forall j | k < j < |init| ensures key(init[j]) != key(init[k]) {
        assert init[j] == items[j];
      }
      TableLastWins(init, key, value, k);
    }
  }

  /** `{pkg.strip(): desc.strip() for (pkg, desc) in (item.split(':', 1) ...)}`:
      an item without a colon fails the unpacking with ValueError. */
  function PairTable(items: seq<string>): (r: Result<map<string, string>, Error>)
    ensures r.Ok? <==> forall k :: 0 <= k < |items| ==> ':' in items[k]
    ensures r.Ok? ==> r.value == Table(items, Name, Description)
  {
    AllPairedIff(items);
    if AllPaired(items) then Ok(Table(items, Name, Description)) else Err(ValueError)
  }

  /** `obtain_optdepends(parse_dict)` given what `obtain_array('optdepends')`
      decoded. An unset or empty array is returned as it is, even when a
      dictionary was asked for. */
  function OptDependsOf(arr: Option<seq<string>>, parseDict: bool): (r: Result<OptDepends, Error>)
    ensures arr.None? ==> r == Ok(Unset)
    ensures arr == Some([]) ==> r == Ok(Items([]))
    ensures r.Err? <==> parseDict && arr.Some? && exists k :: 0 <= k < |arr.value| && ':' !in arr.value[k]
    ensures !parseDict && arr.Some? ==> r == Ok(Items(arr.value))
  {
    match arr
    case None => Ok(Unset)
    case Some(items) =>
      if items == [] || !parseDict then Ok(Items(items))
      else
        match PairTable(items)
        case Err(e) => Err(e)
        case Ok(m) => Ok(Pairs(m))
  }

  // ------------------------------------------------------------ file names

  /** `[f for f in files if f not in SPECIAL_FILES]`: the files of a package
      directory that are its recipe and are removed or published. */
  function Publishable(files: seq<string>, special: set<string>): (r: seq<string>)
    ensures |r| <= |files|
    ensures Elems(r) == Elems(files) - special
  {
    if files == [] then []
    else
      var rest := Publishable(files[1..], special);
      assert Elems(files) == {files[0]} + Elems(files[1..]) by {
        assert files == [files[0]] + files[1..];
        ElemsConcat([files[0]], files[1..]);
      }
      if files[0] in special then rest
      else
        ElemsConcat([files[0]], rest);
        [files[0]] + rest
  }

  /** Keeping files is order-preserving: the kept names are a subsequence. */
  lemma {:induction false} PublishableIsSubsequence(files: seq<string>, special: set<string>)
    ensures IsSubsequence(Publishable(files, special), files)
  {
    if files != [] {
      PublishableIsSubsequence(files[1..], special);
    }
  }

  /** `a` can be obtained from `b` by dropping elements. */
  predicate IsSubsequence(a: seq<string>, b: seq<string>)
    decreases |b|
  {
    a == [] || (b != [] && ((a[0] == b[0] && IsSubsequence(a[1..], b[1..])) || IsSubsequence(a, b[1..])))
  }

  /** The tail `os.path.split` gives: the text after the last `/`. */
  function PathTail(name: string): (tail: string)
    ensures '/' !in tail
  {
    var i := RFind(name, '/');
    name[i + 1..]
  }

  /** Whether `os.path.split` gives a non-empty head: exactly when the name has a
      `/` (a head made of slashes only is kept as it is, any other loses only
      its trailing slashes). */
  predicate HasHead(name: string) {
    '/' in name
  }

  /** The names `_download_aur_pkgbuild` skips when extracting the snapshot. */
  predicate IsMetadata(tail: string) {
    tail == ".AURINFO" || tail == ".SRCINFO" || tail == ".gitignore"
  }

  /** The name an archive member is extracted under, or nothing when it is
      skipped: members outside a directory (the top directory itself) and the
      AUR's metadata files. Nested members are flattened to their last part. */
  function ExtractedName(name: string): (r: Option<string>)
    ensures r.Some? <==> '/' in name && !IsMetadata(PathTail(name))
    ensures r.Some? ==> '/' !in r.value && !IsMetadata(r.value)
  {
    if !HasHead(name) then None
    else
      var tail := PathTail(name);
      if IsMetadata(tail) then None else Some(tail)
  }

  /** A member of the snapshot's directory is extracted under its own name. */
  lemma ExtractedInDirectory(dir: string, file: string)
    requires '/' !in file && !IsMetadata(file)
    ensures ExtractedName(dir + "/" + file) == Some(file)
  {
    var name := dir + "/" + file;
    assert name[|dir|] == '/';
    forall j | |dir| < j < |name| ensures name[j] != '/' {
      assert name[j] == file[j - |dir| - 1];
    }
    RFindUnique(name, '/', |dir|);
    assert name[|dir| + 1..] == file;
  }

  // ------------------------------------------------------------ git status

  predicate NotSpace(c: char) {
    !IsSpace(c)
  }

  /** `f` is a whole whitespace-separated field of `line` starting at `k`, with
      only whitespace before it. */
  predicate FieldAt(line: string, f: string, k: nat) {
    && k + |f| <= |line|
    && (forall j :: 0 <= j < k ==> IsSpace(line[j]))
    && line[k..k + |f|] == f
    && (k + |f| == |line| || IsSpace(line[k + |f|]))
  }

  /** `x.split(None, 1)[0]`: the first whitespace-separated field, or nothing on
      a blank line (where indexing the empty split raises IndexError). */
  function FirstField(line: string): (r: Option<string>)
    ensures r.Some? ==> r.value != [] && forall j :: 0 <= j < |r.value| ==> !IsSpace(r.value[j])
    ensures r.None? <==> forall j :: 0 <= j < |line| ==> IsSpace(line[j])
    ensures r.Some? ==> exists k :: FieldAt(line, r.value, k)
  {
    var t := LStrip(line, Whitespace);
    if t == [] then None
    else
      var f := TakeWhile(t, NotSpace);
      var k := |line| - |t|;
      assert line[k..k + |f|] == f;
      assert k + |f| < |line| ==> line[k + |f|] == t[|f|];
      assert FieldAt(line, f, k);
      Some(f)
  }

  /** A status line of an untracked file. */
  predicate Untracked(line: string) {
    FirstField(line) == Some("??")
  }

  /** `[x for x in lines if x.split(None, 1)[0] != '??']`: the status lines
      `git_commit` counts. It fails on the first blank line. */
  function TrackedChanges(lines: seq<string>): (r: Result<seq<string>, Error>)
    ensures r.Err? ==> r.error == IndexError
    ensures r.Ok? ==> |r.value| <= |lines|
  {
    if lines == [] then Ok([])
    else
      var rest := TrackedChanges(lines[1..]);
      match FirstField(lines[0])
      case None => Err(IndexError)
      case Some(f) =>
        match rest
        case Err(e) => Err(e)
        case Ok(t) => Ok(if f != "??" then [lines[0]] + t else t)
  }

  /** A line `split(None, 1)` leaves nothing of. */
  predicate Blank(line: string) {
    FirstField(line).None?
  }

  /** The filter fails exactly when some status line is blank. */
  lemma {:induction false} TrackedChangesFails(lines: seq<string>)
    ensures TrackedChanges(lines).Err? <==> exists j :: 0 <= j < |lines| && Blank(lines[j])
    decreases |lines|
  {
    if lines != [] {
      var tail := lines[1..];
      TrackedChangesFails(tail);
      if Blank(lines[0]) {
        assert TrackedChanges(lines).Err?;
      } else if TrackedChanges(tail).Err? {
        assert TrackedChanges(lines).Err?;
        var j :| 0 <= j < |tail| && Blank(tail[j]);
        assert lines[j + 1] == tail[j];
      } else {
        assert TrackedChanges(lines).Ok?;
        forall j | 0 <= j < |lines| ensures !Blank(lines[j]) {
          if j > 0 { assert lines[j] == tail[j - 1]; }
        }
      }
    }
  }

  /** When it succeeds, it keeps nothing exactly when every line is an
      untracked file. */
  lemma {:induction false} TrackedChangesEmpty(lines: seq<string>)
    requires TrackedChanges(lines).Ok?
    ensures TrackedChanges(lines).value == [] <==> forall j :: 0 <= j < |lines| ==> Untracked(lines[j])
    decreases |lines|
  {
    if lines != [] {
      var tail := lines[1..];
      TrackedChangesEmpty(tail);
      if TrackedChanges(tail).value == [] && Untracked(lines[0]) {
        forall j | 0 <= j < |lines| ensures Untracked(lines[j]) {
          if j > 0 { assert lines[j] == tail[j - 1]; }
        }
      } else if !Untracked(lines[0]) {
        assert FirstField(lines[0]).value != "??";
      } else {
        var j :| 0 <= j < |tail| && !Untracked(tail[j]);
        assert lines[j + 1] == tail[j];
      }
    }
  }

  /** Whether `git_commit` goes on to commit, given the output of `git status -s`.
      Without the status check it always does; with it, only when some listed
      file is not an untracked one. */
  function ShouldCommit(status: string, checkStatus: bool): (r: Result<bool, Error>)
    ensures !checkStatus ==> r == Ok(true)
    ensures checkStatus && r.Ok? ==>
      (r.value <==> exists j :: 0 <= j < |SplitLines(status)| && !Untracked(SplitLines(status)[j]))
  {
    if !checkStatus then Ok(true)
    else
      match TrackedChanges(SplitLines(status))
      case Err(e) => Err(e)
      case Ok(ret) => TrackedChangesEmpty(SplitLines(status)); Ok(ret != [])
  }
}
