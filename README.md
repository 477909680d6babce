# lilac recipe editing and AUR release merge, in Dafny

lilac is the Arch Linux packaging bot. This project models the part of
`lilac2/api.py` that edits a package's recipe, the `PKGBUILD`. A recipe here
is a sequence of lines, each without its line break. The model covers:

- **The array-field editor.** `_unquote_item` and `_add_into_array` work on one
  line. `add_into_array` works on the whole recipe, and `add_arch` …
  `add_groups` are fixed-name instances of it.
- **The version and release reader, and release arithmetic.**
  `get_pkgver_and_pkgrel`, `_next_pkgrel`, `update_pkgver_and_pkgrel` and
  `update_pkgrel`.
- **The release merge of `aur_pre_build`.** The maintainer check, then cleaning
  the directory and unpacking the AUR snapshot. After that come two phases:
  1. keep or bump the fetched release;
  2. after a VCS refresh, raise the release to the wanted one.
- **The publish guard `_allow_update_aur_repo`.** It decides, from a unified
  diff, whether anything besides `pkgver=`/`pkgrel=` churn changed.
- **Small pure pieces.**
  - the NUL-separated array decoding of `obtain_array`;
  - the `name: description` table of `obtain_optdepends`;
  - the special-file filter of `clean_directory`;
  - the member-name filter of `_download_aur_pkgbuild`;
  - the "some tracked change" test of `git_commit`.

The package's working directory is a class, `WorkingDir.WorkDir`. Its field
`files` maps file names to their lines; `PKGBUILD` is absent when the file is
missing. Its fields `preFiles` and `buildingFiles` stand for the globals
`_g.aur_pre_files` and `_g.aur_building_files`.

The operations that rewrite the recipe line by line are methods with loops,
each proved against a specification function:

| Python operation | Dafny method |
|---|---|
| `add_into_array` | `AddIntoArray` |
| `get_pkgver_and_pkgrel` | `GetPkgverAndPkgrel` |
| `update_pkgver_and_pkgrel` | `UpdatePkgverAndPkgrel` / `RewriteVersionLines` |
| `clean_directory` | `CleanDirectory` |
| the extraction loop | `DownloadAurPkgbuild` |

Their specification functions are:

- `AddIntoArrayLines`;
- `ReadVersion`;
- `UpdateVersionLines`;
- `Publishable`/`Cleaned`;
- `Extract`;
- `Reconciled`, which is the specification of `AurPreBuild`.

The properties are lemmas about those functions.

Modules:

- `Wrappers`: Option, Result, Outcome and the error kinds.
- `Strings`: Python's `find`, `rfind`, `split`, `join`, `splitlines` and `strip`.
- `Numbers`: Python's `int()` and `str()` on integers.
- `Ordering`: string order, `sorted(set(...))`.
- `ArrayField`: the array editor.
- `Release`: reading and updating pkgver and pkgrel.
- `PublishGuard`: the diff check.
- `Filters`: the small pure pieces.
- `Reconcile`: the two phases.
- `WorkingDir`: the directory and its methods.

### Behaviour worth knowing

- **Phase 1 bumps the fetched release.** `update_pkgrel()` runs with no
  argument after the AUR snapshot has replaced the recipe. `_next_pkgrel` then
  applies to the fetched release, not the local one (`lilac2/api.py:482`,
  `lilac2/api.py:211`). Local `1.0-2` with fetched `1.0-1` ends as `1.0-2`.
- **The reader keeps the last line.** `get_pkgver_and_pkgrel` overwrites its
  variables on every `pkgver=`/`pkgrel=` line, so the last such line decides
  (`lilac2/api.py:160-169`).
- **`add_into_array` rewrites every matching line.** Every line matching
  `\s*which=` is rewritten, not only the first (`lilac2/api.py:72-76`).
- **A plain `which=value` line is swallowed.** A matching line without `(`
  has `l == -1`, so the whole line becomes the existing listing
  (`lilac2/api.py:51-57`). `depends=foo` with the value `a` becomes
  `'a' 'depends=foo'`, which no longer matches `\s*depends=`. The
  idempotence lemmas therefore require matching lines to be bracketed.

## Model

| member | source | states |
|---|---|---|
| ArrayField.UnquoteItem | lilac2/api.py:44-49 | The result is None exactly when the text has no character outside space and quotes. Otherwise it is a non-empty run of non-space, non-quote characters that the pattern can capture at some position, with only spaces, tabs and quotes before it. It starts with a skippable character only when nothing else is available. |
| ArrayField.UnquoteQuote | lilac2/api.py:44-49 | Single-quoting an item and unquoting it gives the item back. |
| ArrayField.RenderIsJoin | lilac2/api.py:61 | A non-empty listing is the quoted items joined by single spaces. |
| ArrayField.ItemsOfRender | lilac2/api.py:58-61 | Splitting a rendered listing on single spaces and unquoting each token gives back exactly the rendered items, in order. |
| ArrayField.AddIntoArrayLineShape | lilac2/api.py:51-63 | On a line whose first `(` precedes its last `)`, everything up to and including that `(` and everything from that `)` is kept. Between them is the quoted listing of a strictly ascending sequence. Its elements are exactly the items already there plus the added values. |
| ArrayField.PartitionRebuilt | lilac2/api.py:52-57 | A rebuilt line cuts back into the same outer pieces and the new middle, and stays bracketed. |
| ArrayField.AddIntoArrayLine | lilac2/api.py:51-63 | `_add_into_array` keeps a line bracketed, and keeps the text through its first `(` and from its last `)`. |
| ArrayField.AddIntoArrayLineOpener | lilac2/api.py:51-63 | On a line with no `)`, such as the opening line `depends=(` of a multi-line array, everything up to and including the first `(` is kept. The quoted listing follows, with nothing after it. The listing is strictly ascending and holds exactly the items after the `(` plus the added values. With no `(` either, the whole line counts as the existing listing. |
| ArrayField.PlainFieldLineSwallowed | lilac2/api.py:51-63 | A line with neither `(` nor `)`, such as `depends=foo`, becomes only the quoted listing of its whole text's items plus the values. The result no longer matches `\s*which=` for a name not starting with a quote. |
| ArrayField.AddIntoArrayLineTwice | lilac2/api.py:51-63 | On a line whose first `(` precedes its last `)`, with well-formed values `a`: adding `a` and then `b` equals adding `a + b` at once. |
| ArrayField.AddIntoArrayLineIdempotent | lilac2/api.py:51-63 | Re-adding the same well-formed values to a bracketed line leaves it unchanged. |
| ArrayField.AddIntoArrayLineValueOrder | lilac2/api.py:58-60 | Only the set of added values matters, not their order or repetition. |
| ArrayField.MatchesFieldIff | lilac2/api.py:71-73 | `MatchesField`, the model of `re.match(r'\s*' + which + '=')`, holds exactly when some run of leading whitespace is followed by `which=`. |
| ArrayField.EditAll | lilac2/api.py:72-76 | The line loop keeps the number of lines. A line not matching `\s*which=` is printed verbatim; a matching one becomes `_add_into_array` of itself. |
| ArrayField.AddIntoArrayLines | lilac2/api.py:65-82 | With a matching line, the line count is kept; without one, exactly `which=(...)` is appended at the end. Every matching line becomes `_add_into_array` of itself, and every other line stays verbatim. |
| ArrayField.EditAllSnoc | lilac2/api.py:72-76 | One more input line adds exactly one more edited line. A field is seen iff it was seen before or this line assigns it. |
| ArrayField.EditAllNoField | lilac2/api.py:72-76 | When no line assigns the field, the loop leaves every line verbatim. |
| ArrayField.NewFieldLineForm | lilac2/api.py:78-82 | The appended line is `which=(` followed by the sorted, distinct values listed and then `)`. It assigns `which`. |
| ArrayField.EmptyUnionNewField | lilac2/api.py:78-82 | Appending with no values gives `which=('')`. |
| ArrayField.EditedLineStillMatches | lilac2/api.py:73-74 | A rewritten matching line whose first `(` precedes its last `)` still matches `\s*which=`, for a `which` without `(`. |
| ArrayField.EditLineStable | lilac2/api.py:72-76 | For a `which` without `(`, well-formed values, and a line that is bracketed if it matches: editing it twice with the same values equals editing it once, and a matching line keeps matching. |
| ArrayField.EditAllStable | lilac2/api.py:72-76 | For a `which` without `(`, well-formed values, and matching lines that are all bracketed: running the loop twice with the same values equals running it once, and a present field stays present. |
| ArrayField.AppendedRecipeStable | lilac2/api.py:78-82 | For a `which` without `(` and well-formed values: after the append, a second `add_into_array` with the same values rewrites only the appended line, to itself. |
| ArrayField.AddIntoArrayLinesIdempotent | lilac2/api.py:65-82 | `add_into_array` with the same values twice leaves the recipe as one call does. This holds when matching lines are bracketed and values are well-formed. |
| Ordering.SortedDistinct | lilac2/api.py:58-60 | `sorted(set(xs))` is strictly ascending and holds exactly the elements of `xs`. |
| Ordering.SortedUnique | lilac2/api.py:58-60 | Two strictly ascending sequences with the same elements are equal, so the listing depends only on the set. |
| WorkingDir.FieldName | lilac2/api.py:84-106 | Each fixed field name is non-empty and holds no `(` or `=`. |
| WorkingDir.FieldNameInjective | lilac2/api.py:84-106 | Distinct `add_*` helpers edit distinct fields. |
| WorkingDir.WorkDir.AddIntoArray | lilac2/api.py:65-82 | A missing recipe fails with FileNotFoundError and changes nothing. Otherwise the recipe becomes `AddIntoArrayLines` of the old one, and no other file or global changes. |
| WorkingDir.WorkDir.AddTo | lilac2/api.py:84-106 | `add_arch` … `add_groups`: `add_into_array` on the helper's fixed field name, with the same frame. |
| Filters.DecodeArray | lilac2/api.py:125-129 | A decoded array has one element fewer than the NUL-split pieces. |
| Filters.TerminatedSplit | lilac2/api.py:128 | Splitting NUL-terminated items on NUL gives the items plus one empty piece. |
| Filters.DecodeEncode | lilac2/api.py:119-129 | Decoding what `printf "%s\0"` writes gives the items back. The empty array and the array `("")` both read as unset (a lone NUL). |
| Filters.PairTable | lilac2/api.py:143-145 | The table exists iff every item has a colon. It maps each stripped name to its stripped description. |
| Filters.AllPairedIff | lilac2/api.py:144-145 | The recursive "every item has a colon" test agrees with the quantified one. |
| Filters.TableKeys | lilac2/api.py:144-145 | The keys of the table are exactly the names of the items. |
| Filters.TableLastWins | lilac2/api.py:144-145 | For a repeated name, the description of its last item wins. |
| Filters.OptDependsOf | lilac2/api.py:137-147 | An unset array or an empty list is returned as is. With `parse_dict`, the result fails exactly when some item lacks a colon. Without it, the items are returned unchanged. |
| Numbers.ParseIntToString | lilac2/api.py:165 | `int(str(n)) == n`. |
| Numbers.ParseDigits | lilac2/api.py:175-180 | A non-empty run of ASCII digits parses to its value. |
| Numbers.ParseEmpty | lilac2/api.py:180 | `int('')` fails. |
| Numbers.ParsedHasNoDot | lilac2/api.py:162-167 | Text that `int()` accepts holds no `.`, so a dotted release stays a string. |
| Release.ParseRel | lilac2/api.py:164-167 | A release is an integer exactly when `int()` accepts its text, and then it is that integer. Otherwise it is the text itself. |
| Release.ReadVer | lilac2/api.py:154-173 | No pkgver exactly when no line starts with `pkgver=`. |
| Release.ReadRel | lilac2/api.py:154-173 | No pkgrel exactly when no line starts with `pkgrel=`. |
| Release.ReadVersion | lilac2/api.py:154-173 | A missing recipe gives (None, None). Otherwise pkgver is missing exactly when no line starts with `pkgver=`, and pkgrel exactly when no line starts with `pkgrel=`. |
| Release.ReadVerSnoc | lilac2/api.py:160-169 | Reading one more line: a `pkgver=` line replaces what was read, any other line keeps it. |
| Release.ReadRelSnoc | lilac2/api.py:160-167 | Reading one more line: a `pkgrel=` line replaces what was read, any other line keeps it. |
| Release.ReadVerLast | lilac2/api.py:160-169 | The pkgver is the value of the last `pkgver=` line: the rest of the line after its first `=`, right-stripped. |
| Release.ReadRelLast | lilac2/api.py:160-167 | The pkgrel is the value of the last `pkgrel=` line, with quotes stripped and read as an integer when it is one. |
| Release.RelLineReadsBack | lilac2/api.py:161-167 | A written `pkgrel=<n>` line reads back as the integer `n`. |
| Release.VerLineReadsBack | lilac2/api.py:168-169 | A written `pkgver=<v>` line reads back as `v`, right-stripped. |
| Release.NextRel | lilac2/api.py:175-180 | `_next_pkgrel` can only fail with ValueError. |
| Release.NextRelExamples | lilac2/api.py:175-180 | 3 gives 4, 0 gives 1, "3.2" gives 4, and ".5" raises ValueError. |
| Release.NextRelOfNumber | lilac2/api.py:175-180 | A text release that `int()` reads as `n` has successor `n + 1`, the same as the integer. |
| Release.NextRelOfParsed | lilac2/api.py:164-180 | The successor does not depend on whether the reader turned the release into an integer. |
| Release.GroupSuccessor | lilac2/api.py:179-180 | For a captured `[\d.]+` release, the successor fails iff the text starts with `.`. Otherwise it is the value of the leading digits plus one. |
| Release.DigitsSuccessor | lilac2/api.py:180 | A run of digits has its value plus one as successor. |
| Release.MatchRel | lilac2/api.py:214 | The pattern matches exactly on a line starting with `pkgrel=` whose value, after one optional opening quote, starts with a digit or dot. The group is the longest run of digits and dots there. The match ends after it, or after one closing quote when one follows. |
| Release.FirstMatch | lilac2/api.py:214 | `count=1`: the first line where the pattern matches, and no match on any earlier line. |
| Release.UpdatePkgrelLines | lilac2/api.py:202-216 | `update_pkgrel` fails only with ValueError, and only when no release was given. |
| Release.UpdatePkgrelFails | lilac2/api.py:208-214 | It fails exactly when no release was given and the first match captured text beginning with `.`. |
| Release.UpdatePkgrelFrame | lilac2/api.py:205-216 | The line count is kept and only the first matching line changes. Its matched text becomes `str(rel)`, or `_next_pkgrel` of the captured group, and the rest of the line stays. Without a match the recipe is unchanged. |
| Release.UpdatePkgrelKeepsVer | lilac2/api.py:214 | Updating the release never changes the pkgver read back. |
| Release.SetThenRead | lilac2/api.py:202-216 | On a recipe with a single `pkgrel=` line holding only the value, setting release `n` succeeds and reads back as `n`. |
| Release.RewriteVersion | lilac2/api.py:188-197 | The rewrite keeps the line count. Lines that are neither `pkgver=` nor `pkgrel=` stay verbatim. Every `pkgrel=` line becomes `pkgrel=` plus the release text. A `pkgver=` line becomes `pkgver=<newver>` when the version changed and stays otherwise. |
| Release.RewriteVersionSnoc | lilac2/api.py:188-197 | One more input line gives one more rewritten line. |
| Release.RewriteBeforeRelease | lilac2/api.py:188-197 | With the version unchanged, lines before the first `pkgrel=` line are printed verbatim. |
| Release.FirstRelLine | lilac2/api.py:191-195 | The first `pkgrel=` line, where `_next_pkgrel` is first evaluated. |
| Release.UpdateVersionLines | lilac2/api.py:182-197 | `update_pkgver_and_pkgrel` fails only with AssertionError or ValueError. |
| Release.UpdateVersionFailures | lilac2/api.py:185-197 | AssertionError exactly when pkgver or pkgrel is missing, with the recipe unchanged. ValueError exactly when the version is the same and the release has no successor. Then the in-place rewrite leaves only the lines printed before the first `pkgrel=` line. |
| Release.RewriteFrame | lilac2/api.py:188-197 | After a successful update, the line count is kept and every line that is neither `pkgver=` nor `pkgrel=` is unchanged. |
| Release.RewriteKeepsKinds | lilac2/api.py:188-197 | The rewrite keeps which lines are `pkgver=` lines and which are `pkgrel=` lines. |
| Release.RewriteReadsBack | lilac2/api.py:188-197 | The rewritten recipe reads back the written release, and the new version when it changed or the old one when not. |
| Release.UpdateVersionReadsBack | lilac2/api.py:182-197 | After a successful update: for a new version it reads back (newver, 1); for the same version it reads back the old version with the next release. |
| WorkingDir.RewriteVersionLines | lilac2/api.py:188-197 | The line loop: the rewrite with release 1 for a new version, and with the next release for the same one. When `_next_pkgrel` fails it returns ValueError and the lines before the first `pkgrel=` line. |
| WorkingDir.WorkDir.GetPkgverAndPkgrel | lilac2/api.py:154-173 | The loop returns `ReadVersion` of the recipe; a missing file gives (None, None). |
| WorkingDir.WorkDir.UpdatePkgverAndPkgrel | lilac2/api.py:182-197 | A missing recipe fails the assertion and changes nothing. Otherwise the outcome and the new recipe are those of `UpdateVersionLines`. |
| WorkingDir.WorkDir.UpdatePkgrel | lilac2/api.py:202-216 | A missing recipe or a release without successor fails with nothing written. Otherwise only the recipe is replaced, by the substituted text. |
| Reconcile.UpdatePkgrelFile | lilac2/api.py:205-216 | On a possibly missing recipe: success implies the file existed. Failures are FileNotFoundError or ValueError. |
| Reconcile.Phase1 | lilac2/api.py:475-482 | With an empty or different local pkgver the fetched recipe is kept. A result exists exactly when the fetched recipe does. The only failure is ValueError, on a fetched recipe. |
| Reconcile.PlainReleaseMatch | lilac2/api.py:160-214 | On a recipe whose only `pkgrel=` line is `pkgrel=<digits and dots>`, that line is the first match. The whole value is captured, and it is what the reader returns. |
| Reconcile.BumpReadsBack | lilac2/api.py:202-216 | On such a recipe, `update_pkgrel()` succeeds and reads back the next release. |
| Reconcile.SetReadsBack | lilac2/api.py:202-216 | On such a recipe, `update_pkgrel(n)` succeeds and reads back `n`. |
| Reconcile.Phase1Untouched | lilac2/api.py:476-479 | With an empty or different local pkgver, or a local release ordering below the fetched one, the fetched recipe is kept. |
| Reconcile.Phase1Branch | lilac2/api.py:476-482 | Otherwise phase 1 is `update_pkgrel()` on the fetched recipe. |
| Reconcile.Phase1BumpsFetched | lilac2/api.py:476-482 | In that branch, on a fetched recipe whose only `pkgrel=` line is exactly `pkgrel=<digits and dots>` not starting with a dot, the merged recipe reads back the successor of the *fetched* release (`m + 1` for an integer `m`), not of the local one. |
| Reconcile.Phase1KeepsVersion | lilac2/api.py:476-482 | Phase 1 never changes the pkgver. |
| Reconcile.Phase2Untouched | lilac2/api.py:491-497 | With an empty or different local pkgver the refreshed recipe is kept, even when the local release has no successor. It is also kept when the wanted release does not order strictly above the refreshed one. |
| Reconcile.Phase2Branch | lilac2/api.py:491-497 | With the same pkgver, phase 2 sets the wanted release (1 without a local release, else its successor) iff that orders strictly above the refreshed release. |
| Reconcile.Phase2TakesMaximum | lilac2/api.py:491-497 | On a refreshed recipe whose only `pkgrel=` line is exactly `pkgrel=<digits and dots>` not starting with a dot, and with a reflexive comparator: phase 2 leaves the wanted release when it orders above and the refreshed recipe otherwise. The result never orders below the refreshed release. |
| Reconcile.Phase2Fails | lilac2/api.py:492-495 | Phase 2 fails only with ValueError, from a local release without successor. |
| Reconcile.Phase2KeepsVersion | lilac2/api.py:491-497 | Phase 2 never changes the pkgver. |
| Reconcile.Wanted | lilac2/api.py:492-495 | 1 without a local release, `n + 1` for an integer release `n`. It fails only with ValueError, from a local release. |
| Reconcile.Phase2 | lilac2/api.py:489-497 | With an empty or different local pkgver the refreshed recipe is kept. A result exists exactly when the refreshed recipe does. The only failure is ValueError, from a local release without successor. |
| Reconcile.DoVcsUpdate | lilac2/api.py:484-485 | An explicit `do_vcs_update` is used as given. Otherwise it is true exactly when the name ends in `-git`, `-hg`, `-svn` or `-bzr`. |
| WorkingDir.WithRecipe | lilac2/api.py:215-216 | Writing the recipe replaces it and leaves every other file alone. |
| WorkingDir.ReconciledKeepsVersion | lilac2/api.py:475-497 | A successful merge keeps the pkgver of the fetched recipe, or of the refreshed one after a VCS update. No file but the recipe differs from that state. |
| WorkingDir.ReconciledFails | lilac2/api.py:475-497 | The merge fails with ValueError or CalledProcessError. It is CalledProcessError exactly when phase 1 succeeded, a VCS update was asked for, and `vcs_update`'s `makepkg` failed. |
| WorkingDir.Reconciled | lilac2/api.py:475-497 | The merge fails only with ValueError or CalledProcessError. Without a VCS update, it fails only with ValueError and leaves the fetched directory as it was. A CalledProcessError comes from a failed refresh after a successful phase 1, and leaves the directory as the refresh left it. |
| WorkingDir.WorkDir.MergeFetched | lilac2/api.py:475-482 | Phase 1 on the directory: the recipe becomes phase 1's result; on failure nothing changes. |
| WorkingDir.WorkDir.RaiseRefreshed | lilac2/api.py:490-497 | Phase 2 on the refreshed directory: the recipe becomes phase 2's result; on failure nothing changes. |
| PublishGuard.AllowUpdateLines | lilac2/api.py:299-308 | An update is allowed iff some diff line is a change line (`+`/`-`, not `+++`/`---`) whose text is significant. For a non-VCS package that is anything but `pkgrel=`; for a VCS one, anything but `pkgver=`/`pkgrel=`. |
| PublishGuard.AllowUpdate | lilac2/api.py:297-308 | `_allow_update_aur_repo(name, diff)` is true iff some line of `diff.splitlines()` is a significant change for the name's package kind. |
| PublishGuard.AllowUpdateOrderFree | lilac2/api.py:299-308 | The decision depends only on which lines occur, not on their order or repetition. |
| PublishGuard.VcsAllowsLess | lilac2/api.py:298-307 | Whatever a VCS package may publish, a non-VCS one may too. |
| PublishGuard.ReleaseOnlyDiff | lilac2/api.py:300-308 | A diff changing only `pkgrel=` lines is refused. Adding any other changed line that is neither `pkgver=` nor `pkgrel=` makes it allowed. |
| PublishGuard.VersionBumpDiff | lilac2/api.py:304-307 | A bare pkgver change is refused for a VCS package and allowed for any other. |
| Filters.FirstField | lilac2/api.py:283 | `x.split(None, 1)[0]` is a non-empty run of non-space characters. Only whitespace precedes it in the line, and whitespace or the end of the line follows it. It is missing exactly on a blank line. |
| Filters.TrackedChanges | lilac2/api.py:281-283 | The filter fails only with IndexError and never yields more lines than it read. |
| Filters.TrackedChangesFails | lilac2/api.py:281-283 | The filter fails exactly when some status line is blank. |
| Filters.TrackedChangesEmpty | lilac2/api.py:281-285 | Nothing is left exactly when every status line is an untracked (`??`) one. |
| Filters.ShouldCommit | lilac2/api.py:279-285 | Without the status check `git_commit` always commits. With it, it commits iff some status line is not untracked. |
| Filters.Publishable | lilac2/api.py:405-410 | The files `clean_directory` removes are the listed files minus the special ones, never more than were listed. |
| Filters.PublishableIsSubsequence | lilac2/api.py:405-410 | They keep the order of `git ls-files`. |
| WorkingDir.PublishableAppend | lilac2/api.py:406-410 | One more listed file is appended to the result unless it is special. |
| WorkingDir.CleanedRemoves | lilac2/api.py:401-415 | A file survives cleaning iff it was there and is special or not tracked. Survivors keep their content. |
| WorkingDir.Cleaned | lilac2/api.py:401-415 | Cleaning only removes files: a remaining file keeps its content, and special or untracked files remain. |
| WorkingDir.WorkDir.CleanDirectory | lilac2/api.py:401-415 | Returns the publishable tracked files and removes exactly those from the directory. |
| Filters.ExtractedName | lilac2/api.py:436-443 | A member is extracted iff its path has a directory part and its last part is not `.AURINFO`, `.SRCINFO` or `.gitignore`. It is extracted under that last part. |
| Filters.ExtractedInDirectory | lilac2/api.py:436-443 | `dir/file` for a plain non-metadata file is extracted as `file`. |
| WorkingDir.ExtractedNames | lilac2/api.py:435-444 | The returned names hold no `/` and no metadata name, and are no more than the members. |
| WorkingDir.Extract | lilac2/api.py:435-443 | Extraction never removes a file. |
| WorkingDir.ExtractFrame | lilac2/api.py:435-443 | Every returned name is a file afterwards. Files under any other name are untouched. |
| WorkingDir.ExtractLastWins | lilac2/api.py:441-442 | A later member extracted under the same name overwrites an earlier one. |
| WorkingDir.WorkDir.DownloadAurPkgbuild | lilac2/api.py:429-444 | A missing snapshot fails with AurDownloadError. Otherwise the members are extracted in order and their names returned. |
| Filters.CheckMaintainer | lilac2/api.py:460-469 | With maintainers given, the check passes iff the AUR maintainer is the given one or among the given ones. An orphaned package fails. A failure carries the AUR maintainer. |
| Filters.SingleIsList | lilac2/api.py:464-467 | A single maintainer name behaves as a one-element list. |
| WorkingDir.WorkDir.AurPreBuild | lilac2/api.py:450-497 | A maintainer mismatch changes nothing. Otherwise `_g.aur_pre_files` is what cleaning removed. A failed download leaves the cleaned directory. Otherwise the outcome and directory are `Reconciled` over the cleaned-and-extracted directory, with the pkgver and pkgrel read beforehand. This includes the CalledProcessError of a failed `vcs_update`. |

## Left out

- Network access. `_try_aur_url`, the AUR RPC lookup and `download_official_pkgbuild` are left out.
  - The AUR's maintainer is a parameter of `AurPreBuild`. An RPC reply with no results (which would raise on `results[0]`) is not modelled.
  - The downloaded snapshot is a parameter: an optional sequence of (path, lines) members. Tar member types, permissions and compression are not modelled.
- External commands.
  - `git ls-files` and `git status` output are parameters.
  - `git add`/`git commit`/`git rm`, `updpkgsums` and `makepkg --printsrcinfo` are left out.
  - `vcs_update` (`makepkg -od`) is the `refresh` function parameter of `AurPreBuild`. It returns whether `makepkg` succeeded and the directory it leaves. A failure is `run_cmd`'s CalledProcessError, which `aur_pre_build` lets propagate.
  - The bash sourcing in `obtain_array` is left out; only the decoding of its output is modelled.
- `pyalpm.vercmp` is foreign code. It is the uninterpreted `vercmp` parameter, applied to the same `1-<rel>` strings the code builds. `_format_package_version` is left out.
- `SPECIAL_FILES` is the `special` set parameter.
- Python's `int()` is modelled for ASCII digits: surrounding whitespace (the full `str.isspace` set, also used for `\s`), a sign, and digits with single underscores between them. Non-ASCII digits, which `int()` and `\d` also accept, are not modelled.
- File I/O details.
  - Line breaks and universal-newline translation are not modelled: a recipe is a sequence of lines without their terminators.
  - `update_pkgrel`'s `re.sub` over the whole text with `re.MULTILINE` is modelled per line. No part of the pattern can cross a line break.
  - The `fileinput` backup file is not modelled.
  - `add_into_array` on a missing recipe is modelled as a FileNotFoundError with nothing written.
- Logging, the `_G` build globals, `git_commit`'s message, `_update_aur_repo_real`'s copying, `update_aur_repo`, `aur_post_build`, `git_rm_files`, `pypi_pre_build`, `single_main` and `_prepend_self_path` are orchestration or process state. They are not part of this model.
- WorkingDir.WorkDir.AurPreBuild: `name=None` (taking the name from the working directory) is not modelled; the name is a parameter.
- WorkingDir.WorkDir.AddIntoArray: `extra_deps` is modelled as a re-iterable sequence. A one-shot iterator passed to `add_into_array` would be used up by the first matching line, leaving later lines and the appended `which=()` without values; that case is not modelled.
