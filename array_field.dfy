/** The shell-array editor of lilac2/api.py: `_unquote_item`, `_add_into_array` and
    the line selection of `add_into_array`. A recipe is a sequence of lines. */
module ArrayField {
  import opened Wrappers
  import opened Strings
  import opened Ordering

  /** `[ \t'"]`: what the item pattern skips on either side of an item. */
  predicate IsLead(c: char) {
    c == ' ' || c == '\t' || c == '\'' || c == '"'
  }

  /** `[^ '"]`: what an item is made of; a tab may occur inside one. */
  predicate IsItemChar(c: char) {
    c != ' ' && c != '\'' && c != '"'
  }

  /** What `_unquote_item` can return: a non-empty run of item characters that
      starts with a tab only when it is a lone tab. */
  predicate IsItem(v: string) {
    && v != []
    && (forall j :: 0 <= j < |v| ==> IsItemChar(v[j]))
    && (IsLead(v[0]) ==> v == "\t")
  }

  /** The item pattern can capture `v` at `j`: only skippable characters before it,
      and `v` runs until the text ends or a space or quote follows. */
  ghost predicate MatchAt(s: string, j: nat, v: string) {
    && j + |v| <= |s| && s[j..j + |v|] == v
    && (forall i :: 0 <= i < j ==> IsLead(s[i]))
    && (j + |v| == |s| || !IsItemChar(s[j + |v|]))
  }

  /** How many leading characters `[ \t'"]*` consumes. */
  function LeadLen(s: string): (k: nat)
    ensures k <= |s|
    ensures forall j :: 0 <= j < k ==> IsLead(s[j])
    ensures k < |s| ==> !IsLead(s[k])
  {
    if s != [] && IsLead(s[0]) then 1 + LeadLen(s[1..]) else 0
  }

  /** `_unquote_item(s)`: the group captured by
      `re.search(r'''[ \t'"]*([^ '"]+)[ \t'"]*''', s)`. The search succeeds at the
      start of `s` whenever it succeeds at all; the greedy prefix gives the item
      after the leading skippable characters, and when nothing but skippable
      characters is left, backtracking captures the last tab. */
  function UnquoteItem(s: string): (r: Option<string>)
    ensures r.None? <==> forall j :: 0 <= j < |s| ==> !IsItemChar(s[j])
    ensures r.Some? ==> IsItem(r.value) && exists j :: MatchAt(s, j, r.value)
    ensures r.Some? && (exists j :: 0 <= j < |s| && !IsLead(s[j])) ==> !IsLead(r.value[0])
  {
    var k := LeadLen(s);
    if k < |s| then
      var v := TakeWhile(s[k..], IsItemChar);
      assert v[0] == s[k];
      assert s[k..k + |v|] == v;
      assert MatchAt(s, k, v);
      Some(v)
    else if '\t' in s then
      var t := RFind(s, '\t');
      assert MatchAt(s, t, "\t");
      Some("\t")
    else None
  }

  function Quote(item: string): string {
    "'" + item + "'"
  }

  /** `"'{}'".format("' '".join(items))`: each item single-quoted, one space apart;
      no items at all give `''`. */
  function Render(items: seq<string>): string {
    "'" + Join(items, "' '") + "'"
  }

  /** The items found in the space-separated tokens, `None`s dropped. */
  function Unquoted(tokens: seq<string>): (items: seq<string>)
    ensures forall i :: 0 <= i < |items| ==> IsItem(items[i])
  {
    if tokens == [] then []
    else
      (match UnquoteItem(tokens[0]) case Some(v) => [v] case None => []) + Unquoted(tokens[1..])
  }

  /** `{_unquote_item(x) for x in middle.split(' ')}` without the `None`. */
  function ItemsOf(middle: string): seq<string> {
    Unquoted(Split(middle, ' '))
  }

  /** The three pieces `_add_into_array` cuts a line into, with Python's slicing:
      up to and including the first `(`, the middle, and from the last `)`. */
  datatype Parts = Parts(left: string, middle: string, right: string)

  function Partition(line: string): Parts {
    var l := Find(line, '(');
    var r := RFind(line, ')');
    if r != -1 then Parts(line[..l + 1], Slice(line, l + 1, r), line[r..])
    else Parts(line[..l + 1], line[l + 1..], "")
  }

  /** `_add_into_array(line, values)`. */
  function AddIntoArrayLine(line: string, values: seq<string>): (r: string)
    ensures WellBracketed(line) ==> WellBracketed(r)
    ensures WellBracketed(line) ==> Partition(r).left == Partition(line).left && Partition(r).right == Partition(line).right
  {
    var p := Partition(line);
    var middle := Render(SortedDistinct(ItemsOf(p.middle) + values));
    if WellBracketed(line) then PartitionRebuilt(line, middle); p.left + middle + p.right
    else p.left + middle + p.right
  }

  /** A line whose first `(` comes before its last `)`. */
  predicate WellBracketed(line: string) {
    0 <= Find(line, '(') < RFind(line, ')')
  }

  /** On a bracketed line, the text up to and including the first `(` and from the
      last `)` on is kept, and what lies between is the quoted listing of the
      ascending, duplicate-free union of the items already there and the values. */
  lemma AddIntoArrayLineShape(line: string, values: seq<string>)
    requires WellBracketed(line)
    ensures var l, r := Find(line, '('), RFind(line, ')');
      exists items ::
        && AddIntoArrayLine(line, values) == line[..l + 1] + Render(items) + line[r..]
        && StrictlySorted(items)
        && Elems(items) == Elems(ItemsOf(line[l + 1..r])) + Elems(values)
  {
    var l, r := Find(line, '('), RFind(line, ')');
    var p := Partition(line);
    PartitionBracketed(line);
    var middle := ItemsOf(p.middle);
    var items := SortedDistinct(middle + values);
    assert AddIntoArrayLine(line, values) == p.left + Render(items) + p.right;
    ElemsConcat(middle, values);
  }

  /** On a line with no `)`, such as the opening line `depends=(` of an array
      written over several lines, the text up to and including the first `(`
      is kept and the listing of the union follows it, with nothing after. A
      line without `(` either is taken whole as the existing listing. */
  lemma AddIntoArrayLineOpener(line: string, values: seq<string>)
    requires RFind(line, ')') == -1
    ensures var l := Find(line, '(');
      exists items ::
        && AddIntoArrayLine(line, values) == line[..l + 1] + Render(items)
        && StrictlySorted(items)
        && Elems(items) == Elems(ItemsOf(line[l + 1..])) + Elems(values)
  {
    var l := Find(line, '(');
    var p := Partition(line);
    PartitionOpen(line);
    var middle := ItemsOf(p.middle);
    var items := SortedDistinct(middle + values);
    assert AddIntoArrayLine(line, values) == p.left + Render(items) + p.right;
    assert p.left + Render(items) + p.right == line[..l + 1] + Render(items);
    ElemsConcat(middle, values);
  }

  /** A matching line without brackets, such as `depends=foo`, is taken whole as
      its existing listing: the rewritten line is nothing but the quoted
      listing, and it no longer matches the field's pattern. */
  lemma PlainFieldLineSwallowed(line: string, which: string, values: seq<string>)
    requires '(' !in line && ')' !in line
    requires which != [] && which[0] != '\''
    ensures exists items ::
      && AddIntoArrayLine(line, values) == Render(items)
      && Elems(items) == Elems(ItemsOf(line)) + Elems(values)
    ensures !MatchesField(AddIntoArrayLine(line, values), which)
  {
    var r := AddIntoArrayLine(line, values);
    assert Find(line, '(') == -1;
    AddIntoArrayLineOpener(line, values);
    var items :| r == line[..0] + Render(items) && Elems(items) == Elems(ItemsOf(line[0..])) + Elems(values);
    assert line[..0] + Render(items) == Render(items);
    assert line[0..] == line;
    QuotedNoField(r, which);
  }

  /** A line starting with a quote matches no field whose name does not. */
  lemma QuotedNoField(r: string, which: string)
    requires r != [] && r[0] == '\''
    requires which != [] && which[0] != '\''
    ensures !MatchesField(r, which)
  {
    assert (which + "=")[0] == which[0];
  }

  /** On a line with no `)` the middle piece is everything after the first `(`,
      and nothing is left after it. */
  lemma PartitionOpen(line: string)
    requires RFind(line, ')') == -1
    ensures var l := Find(line, '(');
      Partition(line) == Parts(line[..l + 1], line[l + 1..], "")
  {
  }

  /** On a bracketed line the middle piece is what lies strictly between the
      first `(` and the last `)`. */
  lemma PartitionBracketed(line: string)
    requires WellBracketed(line)
    ensures var l, r := Find(line, '('), RFind(line, ')');
      Partition(line) == Parts(line[..l + 1], line[l + 1..r], line[r..])
  {
    var l, r := Find(line, '('), RFind(line, ')');
    assert Slice(line, l + 1, r) == line[l + 1..r];
  }

  /** The longest run of characters satisfying `p` is the whole of `t` when `t`
      satisfies `p` and is followed by an end or a character that does not. */
  lemma {:induction false} TakeWhileExact(t: string, rest: string, p: char -> bool)
    requires forall j :: 0 <= j < |t| ==> p(t[j])
    requires rest == [] || !p(rest[0])
    ensures TakeWhile(t + rest, p) == t
  {
    if t != [] {
      assert (t + rest)[1..] == t[1..] + rest;
      TakeWhileExact(t[1..], rest, p);
    } else {
      assert t + rest == rest;
    }
  }

  /** A quoted item unquotes to itself. */
  lemma UnquoteQuote(v: string)
    requires IsItem(v)
    ensures UnquoteItem(Quote(v)) == Some(v)
  {
    var s := Quote(v);
    if v == "\t" {
      assert s == ['\'', '\t', '\''];
      assert LeadLen(s) == 3;
      assert s[1] == '\t';
    } else {
      assert s[1..] == v + "'";
      assert LeadLen(s) == 1;
      TakeWhileExact(v, "'", IsItemChar);
    }
  }

  function Quoted(items: seq<string>): (q: seq<string>)
    ensures |q| == |items|
  {
    seq(|items|, i requires 0 <= i < |items| => Quote(items[i]))
  }

  lemma {:induction false} RenderIsJoin(items: seq<string>)
    requires items != []
    ensures Render(items) == Join(Quoted(items), " ")
  {
    if |items| > 1 {
      RenderIsJoin(items[1..]);
      assert Quoted(items)[1..] == Quoted(items[1..]);
      assert Render(items) == Quote(items[0]) + " " + Render(items[1..]);
    }
  }

  lemma {:induction false} UnquotedQuoted(items: seq<string>)
    requires forall i :: 0 <= i < |items| ==> IsItem(items[i])
    ensures Unquoted(Quoted(items)) == items
  {
    if items != [] {
      UnquoteQuote(items[0]);
      assert Quoted(items)[1..] == Quoted(items[1..]);
      UnquotedQuoted(items[1..]);
    }
  }

  /** Reading back a rendered listing gives exactly the items that were rendered. */
  lemma ItemsOfRender(items: seq<string>)
    requires forall i :: 0 <= i < |items| ==> IsItem(items[i])
    ensures ItemsOf(Render(items)) == items
  {
    if items == [] {
      assert Render(items) == "''";
      assert Split("''", ' ') == ["''"];
      assert LeadLen("''") == 2;
    } else {
      RenderIsJoin(items);
      forall k | 0 <= k < |items| ensures ' ' !in Quoted(items)[k] {
        assert Quoted(items)[k] == "'" + items[k] + "'";
      }
      SplitJoin(Quoted(items), ' ');
      UnquotedQuoted(items);
    }
  }

  /** Cutting a line that `_add_into_array` produced from a bracketed line gives
      back the same outer pieces and the rendered middle. */
  lemma PartitionRebuilt(line: string, middle: string)
    requires WellBracketed(line)
    ensures var p := Partition(line);
      && Partition(p.left + middle + p.right) == Parts(p.left, middle, p.right)
      && WellBracketed(p.left + middle + p.right)
  {
    var l, r := Find(line, '('), RFind(line, ')');
    PartitionBracketed(line);
    var left, right := line[..l + 1], line[r..];
    var s := left + middle + right;
    var r' := |left| + |middle|;
    OpenParenKept(line, left, middle, right, l);
    CloseParenKept(line, left, middle, right, r);
    assert WellBracketed(s);
    PartitionBracketed(s);
    ThreePieces(left, middle, right);
  }

  lemma OpenParenKept(line: string, left: string, middle: string, right: string, l: nat)
    requires l < |line| && Find(line, '(') == l && left == line[..l + 1]
    ensures Find(left + middle + right, '(') == l
  {
    var s := left + middle + right;
    forall j | 0 <= j < l ensures s[j] != '(' {
      assert s[j] == line[j];
    }
    assert s[l] == line[l];
    FindUnique(s, '(', l);
  }

  lemma CloseParenKept(line: string, left: string, middle: string, right: string, r: nat)
    requires r < |line| && RFind(line, ')') == r && right == line[r..]
    ensures RFind(left + middle + right, ')') == |left| + |middle|
  {
    var s := left + middle + right;
    var r' := |left| + |middle|;
    assert s[r'] == line[r];
    forall j | r' < j < |s| ensures s[j] != ')' {
      assert s[j] == line[r + (j - r')];
    }
    RFindUnique(s, ')', r');
  }

  /** Sorting keeps items items. */
  lemma SortedDistinctItems(xs: seq<string>)
    requires forall i :: 0 <= i < |xs| ==> IsItem(xs[i])
    ensures forall i :: 0 <= i < |SortedDistinct(xs)| ==> IsItem(SortedDistinct(xs)[i])
  {
    var u := SortedDistinct(xs);
    forall i | 0 <= i < |u| ensures IsItem(u[i]) {
      assert u[i] in Elems(u);
      var k :| 0 <= k < |xs| && xs[k] == u[i];
    }
  }

  /** Adding `a` and then `b` to a bracketed line is adding both at once; `b` may be
      any strings, `a` must be items `_unquote_item` reads back unchanged. */
  lemma AddIntoArrayLineTwice(line: string, a: seq<string>, b: seq<string>)
    requires WellBracketed(line)
    requires forall i :: 0 <= i < |a| ==> IsItem(a[i])
    ensures AddIntoArrayLine(AddIntoArrayLine(line, a), b) == AddIntoArrayLine(line, a + b)
  {
    var p := Partition(line);
    var existing := ItemsOf(p.middle);
    var u := SortedDistinct(existing + a);
    SortedDistinctItems(existing + a);
    assert AddIntoArrayLine(line, a) == p.left + Render(u) + p.right;
    AddIntoRendered(line, u, b);
    SortedDistinctRegroup(existing, a, b);
  }

  /** Adding to a line whose listing was rendered from items starts from exactly
      those items. */
  lemma AddIntoRendered(line: string, u: seq<string>, b: seq<string>)
    requires WellBracketed(line)
    requires forall i :: 0 <= i < |u| ==> IsItem(u[i])
    ensures var p := Partition(line);
      AddIntoArrayLine(p.left + Render(u) + p.right, b) == p.left + Render(SortedDistinct(u + b)) + p.right
  {
    PartitionRebuilt(line, Render(u));
    ItemsOfRender(u);
  }

  lemma SortedDistinctRegroup(existing: seq<string>, a: seq<string>, b: seq<string>)
    ensures SortedDistinct(SortedDistinct(existing + a) + b) == SortedDistinct(existing + (a + b))
  {
    var u := SortedDistinct(existing + a);
    ElemsConcat(u, b);
    ElemsConcat(existing, a);
    ElemsConcat(existing, a + b);
    ElemsConcat(a, b);
    SortedDistinctOfSameElems(u + b, existing + (a + b));
  }

  /** Re-adding the same values changes nothing. */
  lemma AddIntoArrayLineIdempotent(line: string, values: seq<string>)
    requires WellBracketed(line)
    requires forall i :: 0 <= i < |values| ==> IsItem(values[i])
    ensures AddIntoArrayLine(AddIntoArrayLine(line, values), values) == AddIntoArrayLine(line, values)
  {
    AddIntoArrayLineTwice(line, values, values);
    AddIntoArrayLineValueOrder(line, values + values, values);
  }

  /** Only which values are added matters, not their order or repetition. */
  lemma AddIntoArrayLineValueOrder(line: string, a: seq<string>, b: seq<string>)
    requires Elems(a) == Elems(b)
    ensures AddIntoArrayLine(line, a) == AddIntoArrayLine(line, b)
  {
    var existing := ItemsOf(Partition(line).middle);
    ElemsConcat(existing, a);
    ElemsConcat(existing, b);
    SortedDistinctOfSameElems(existing + a, existing + b);
  }

  /** `re.compile(r'\s*' + re.escape(which) + r'=').match(line)`: optional leading
      whitespace (the pattern backtracks through it), then `which=`. */
  predicate MatchesField(line: string, which: string)
    decreases |line|
  {
    StartsWith(line, which + "=") || (line != [] && IsSpace(line[0]) && MatchesField(line[1..], which))
  }

  /** The pattern matches exactly when some run of leading whitespace is
      followed by `which=`. */
  lemma {:induction false} MatchesFieldIff(line: string, which: string)
    ensures MatchesField(line, which) <==>
      exists k :: 0 <= k <= |line| && (forall j :: 0 <= j < k ==> IsSpace(line[j])) && StartsWith(line[k..], which + "=")
    decreases |line|
  {
    if line != [] {
      MatchesFieldIff(line[1..], which);
    }
    if MatchesField(line, which) {
      if StartsWith(line, which + "=") {
        assert line[0..] == line;
      } else {
        var k :| 0 <= k <= |line[1..]| && (forall j :: 0 <= j < k ==> IsSpace(line[1..][j]))
          && StartsWith(line[1..][k..], which + "=");
        assert line[1..][k..] == line[k + 1..];
        assert forall j :: 0 <= j < k + 1 ==> IsSpace(line[j]) by {
          forall j | 0 <= j < k + 1 ensures IsSpace(line[j]) {
            if j > 0 { assert line[j] == line[1..][j - 1]; }
          }
        }
      }
    } else {
      forall k | 0 <= k <= |line| && (forall j :: 0 <= j < k ==> IsSpace(line[j]))
        ensures !StartsWith(line[k..], which + "=")
      {
        if k == 0 {
          assert line[0..] == line;
        } else {
          assert line[1..][k - 1..] == line[k..];
          assert forall j :: 0 <= j < k - 1 ==> IsSpace(line[1..][j]) by {
            forall j | 0 <= j < k - 1 ensures IsSpace(line[1..][j]) {
              assert line[1..][j] == line[j + 1];
            }
          }
        }
      }
    }
  }

  predicate HasField(lines: seq<string>, which: string) {
    exists i :: 0 <= i < |lines| && MatchesField(lines[i], which)
  }

  /** One line as `add_into_array` prints it back. */
  function EditLine(line: string, which: string, values: seq<string>): string {
    if MatchesField(line, which) then AddIntoArrayLine(line, values) else line
  }

  /** The line `add_into_array` appends when no line assigns `which`. */
  function NewFieldLine(which: string, values: seq<string>): string {
    AddIntoArrayLine(which + "=()", values)
  }

  /** The recipe after `add_into_array(which, values)`: every line assigning `which`
      rewritten in place, or, when there is none, one new line at the end. */
  function AddIntoArrayLines(lines: seq<string>, which: string, values: seq<string>): (r: seq<string>)
    ensures HasField(lines, which) ==> |r| == |lines|
    ensures !HasField(lines, which) ==> |r| == |lines| + 1 && r[|lines|] == NewFieldLine(which, values)
    ensures forall i :: 0 <= i < |lines| && !MatchesField(lines[i], which) ==> r[i] == lines[i]
    ensures forall i :: 0 <= i < |lines| && MatchesField(lines[i], which) ==> r[i] == AddIntoArrayLine(lines[i], values)
  {
    if HasField(lines, which) then EditAll(lines, which, values)
    else lines + [NewFieldLine(which, values)]
  }

  /** Every line passed through `EditLine`. */
  function EditAll(lines: seq<string>, which: string, values: seq<string>): (r: seq<string>)
    ensures |r| == |lines|
    ensures forall i :: 0 <= i < |lines| && !MatchesField(lines[i], which) ==> r[i] == lines[i]
    ensures forall i :: 0 <= i < |lines| && MatchesField(lines[i], which) ==> r[i] == AddIntoArrayLine(lines[i], values)
  {
    seq(|lines|, i requires 0 <= i < |lines| => EditLine(lines[i], which, values))
  }

  /** Editing one more line appends its edited form. */
  lemma EditAllSnoc(lines: seq<string>, line: string, which: string, values: seq<string>)
    ensures EditAll(lines + [line], which, values) == EditAll(lines, which, values) + [EditLine(line, which, values)]
    ensures HasField(lines + [line], which) == (HasField(lines, which) || MatchesField(line, which))
  {
    var a := lines + [line];
    assert forall i :: 0 <= i < |lines| ==> a[i] == lines[i];
    if MatchesField(line, which) {
      assert a[|lines|] == line;
    }
  }

  /** With no line assigning `which`, editing changes nothing. */
  lemma EditAllNoField(lines: seq<string>, which: string, values: seq<string>)
    requires !HasField(lines, which)
    ensures EditAll(lines, which, values) == lines
  {
  }

  /** The appended line is `which=(...)` holding the sorted distinct values, and
      it is a bracketed assignment of `which` itself. */
  lemma NewFieldLineForm(which: string, values: seq<string>)
    requires '(' !in which
    ensures NewFieldLine(which, values) == which + "=(" + Render(SortedDistinct(values)) + ")"
    ensures WellBracketed(which + "=()")
    ensures MatchesField(NewFieldLine(which, values), which)
  {
    EmptyArrayPartition(which);
    assert [] + values == values;
    var line := NewFieldLine(which, values);
    assert line[..|which| + 1] == which + "=";
  }

  /** `which=()` is bracketed around an empty middle that holds no items. */
  lemma EmptyArrayPartition(which: string)
    requires '(' !in which
    ensures WellBracketed(which + "=()")
    ensures Partition(which + "=()") == Parts(which + "=(", "", ")")
    ensures ItemsOf("") == []
  {
    var s := which + "=()";
    var n := |which|;
    forall j | 0 <= j < n + 1 ensures s[j] != '(' {
      if j < n { assert s[j] == which[j]; }
    }
    FindUnique(s, '(', n + 1);
    RFindUnique(s, ')', n + 2);
    assert s[..n + 2] == which + "=(";
    assert Split("", ' ') == [""];
  }

  /** Whether a line assigns `which` is decided before its first `(`, so text
      changed after that `(` does not change it. */
  lemma {:induction false} MatchesFieldBeforeParen(line: string, line': string, which: string, n: nat)
    requires MatchesField(line, which) && '(' !in which
    requires n < |line| && line[n] == '('
    requires n <= |line'| && line'[..n] == line[..n]
    ensures MatchesField(line', which)
    decreases |line|
  {
    var m := |which| + 1;
    if StartsWith(line, which + "=") {
      forall j | 0 <= j < m ensures line[j] != '(' {
        assert line[j] == (which + "=")[j];
        if j < |which| { assert which[j] == line[j]; }
      }
      assert m <= n;
      assert line'[..m] == line[..n][..m];
    } else {
      assert n > 0;
      assert line'[0] == line[..n][0];
      assert line'[1..][..n - 1] == line[1..][..n - 1];
      MatchesFieldBeforeParen(line[1..], line'[1..], which, n - 1);
    }
  }

  /** An edited line still assigns `which`. */
  lemma EditedLineStillMatches(line: string, which: string, values: seq<string>)
    requires MatchesField(line, which) && '(' !in which && WellBracketed(line)
    ensures MatchesField(AddIntoArrayLine(line, values), which)
  {
    var l := Find(line, '(');
    var edited := AddIntoArrayLine(line, values);
    assert edited[..l] == line[..l];
    MatchesFieldBeforeParen(line, edited, which, l);
  }

  /** `add_into_array` applied twice with the same values leaves the recipe as the
      first application left it, whether the field existed or was appended. */
  lemma AddIntoArrayLinesIdempotent(lines: seq<string>, which: string, values: seq<string>)
    requires '(' !in which
    requires forall i :: 0 <= i < |lines| && MatchesField(lines[i], which) ==> WellBracketed(lines[i])
    requires forall i :: 0 <= i < |values| ==> IsItem(values[i])
    ensures AddIntoArrayLines(AddIntoArrayLines(lines, which, values), which, values)
            == AddIntoArrayLines(lines, which, values)
  {
    if HasField(lines, which) {
      EditedRecipeStable(lines, which, values);
    } else {
      AppendedRecipeStable(lines, which, values);
    }
  }

  lemma AppendedRecipeStable(lines: seq<string>, which: string, values: seq<string>)
    requires '(' !in which && !HasField(lines, which)
    requires forall i :: 0 <= i < |values| ==> IsItem(values[i])
    ensures AddIntoArrayLines(AddIntoArrayLines(lines, which, values), which, values)
            == AddIntoArrayLines(lines, which, values)
  {
    var last := NewFieldLine(which, values);
    NewFieldLineForm(which, values);
    AddIntoArrayLineIdempotent(which + "=()", values);
    assert EditLine(last, which, values) == last;
    EditAllSnoc(lines, last, which, values);
    EditAllNoField(lines, which, values);
  }

  /** One line, edited twice with the same values, is as the first edit left it,
      and an assignment of `which` stays one. */
  lemma EditLineStable(line: string, which: string, values: seq<string>)
    requires '(' !in which
    requires MatchesField(line, which) ==> WellBracketed(line)
    requires forall i :: 0 <= i < |values| ==> IsItem(values[i])
    ensures EditLine(EditLine(line, which, values), which, values) == EditLine(line, which, values)
    ensures MatchesField(line, which) ==> MatchesField(EditLine(line, which, values), which)
  {
    if MatchesField(line, which) {
      EditedLineStillMatches(line, which, values);
      AddIntoArrayLineIdempotent(line, values);
    }
  }

  lemma EditAllStable(lines: seq<string>, which: string, values: seq<string>)
    requires '(' !in which
    requires forall i :: 0 <= i < |lines| && MatchesField(lines[i], which) ==> WellBracketed(lines[i])
    requires forall i :: 0 <= i < |values| ==> IsItem(values[i])
    ensures EditAll(EditAll(lines, which, values), which, values) == EditAll(lines, which, values)
    ensures HasField(lines, which) ==> HasField(EditAll(lines, which, values), which)
  {
    var once := EditAll(lines, which, values);
    var twice := EditAll(once, which, values);
    forall i | 0 <= i < |once|
      ensures twice[i] == once[i]
      ensures MatchesField(lines[i], which) ==> MatchesField(once[i], which)
    {
      EditLineStable(lines[i], which, values);
    }
    assert twice == once;
  }

  lemma EditedRecipeStable(lines: seq<string>, which: string, values: seq<string>)
    requires '(' !in which && HasField(lines, which)
    requires forall i :: 0 <= i < |lines| && MatchesField(lines[i], which) ==> WellBracketed(lines[i])
    requires forall i :: 0 <= i < |values| ==> IsItem(values[i])
    ensures AddIntoArrayLines(AddIntoArrayLines(lines, which, values), which, values)
            == AddIntoArrayLines(lines, which, values)
  {
    EditAllStable(lines, which, values);
  }

  /** With no line assigning `which`, adding nothing appends one empty quoted item:
      `depends=('')`. */
  lemma EmptyUnionNewField(which: string)
    requires '(' !in which
    ensures NewFieldLine(which, []) == which + "=('')"
  {
    EmptyArrayPartition(which);
    RenderNothing();
    var empty: seq<string> := [];
    assert empty + empty == empty;
    assert NewFieldLine(which, []) == which + "=(" + "''" + ")";
    EmptyListingText(which);
  }

  lemma EmptyListingText(which: string)
    ensures which + "=(" + "''" + ")" == which + "=('')"
  {
    var t := which + "=(" + "''" + ")";
    assert |t| == |which| + 5;
    forall j | 0 <= j < |t| ensures t[j] == (which + "=('')")[j] {
      if j >= |which| {
        assert t[j] == "=('')"[j - |which|];
      }
    }
  }

  lemma RenderNothing()
    ensures Render(SortedDistinct([])) == "''"
  {
    assert SortedDistinct([]) == [];
  }
}
