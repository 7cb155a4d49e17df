/** The structured extraction `parse_target` applies to a target token's text
    (make_profiler/parser.py). The verbose-mode regular expression there reduces to a
    left-to-right scan: every group after the `:` is optional, so the first attempt
    of the matcher succeeds and nothing ever backtracks past the name. */
module TargetLine {
  import opened Results
  import opened Text

  /** The fields of one target record that come from its line. */
  datatype Header = Header(name: string, deps: seq<string>, orderDeps: seq<string>, doc: string)

  /** `k` can end the lazily matched name `(.+?)`: a `:` at index 1 or later with no
      newline before it (the regex `.` does not match a newline). */
  predicate IsNameEnd(t: string, k: int) {
    1 <= k < |t| && t[k] == ':' && '\n' !in t[..k]
  }

  function ColonFrom(t: string, i: nat): (r: Option<nat>)
    requires 1 <= i <= |t|
    ensures r.Some? ==> (i <= r.value < |t| && t[r.value] == ':'
                         && forall m :: i <= m < r.value ==> t[m] != ':' && t[m] != '\n')
    ensures r.None? ==> forall m :: i <= m < |t| && t[m] == ':' ==> '\n' in t[i..m]
    decreases |t| - i
  {
    if i == |t| then None
    else if t[i] == ':' then Some(i)
    else if t[i] == '\n' then None
    else ColonFrom(t, i + 1)
  }

  /** Where the name ends, or `None` when the pattern does not match at all
      (`re.match` returns `None` and `.groups()` raises). */
  function NameEnd(t: string): (r: Option<nat>)
    ensures r.Some? ==> IsNameEnd(t, r.value) && ':' !in t[1..r.value]
    ensures r.None? ==> forall k :: !IsNameEnd(t, k)
  {
    if t == [] || t[0] == '\n' then None
    else
      var r := ColonFrom(t, 1);
      if r.Some? then
        assert forall m :: 0 <= m < r.value ==> t[..r.value][m] == t[m];
        assert forall m :: 1 <= m < r.value ==> t[1..r.value][m - 1] == t[m];
        r
      else
        assert forall k :: 1 <= k < |t| && t[k] == ':' ==> '\n' in t[..k] by {
          forall k | 1 <= k < |t| && t[k] == ':' ensures '\n' in t[..k] {
            var j :| 0 <= j < |t[1..k]| && t[1..k][j] == '\n';
            assert t[..k][j + 1] == '\n';
          }
        }
        r
  }

  /** The character classes a greedy run of the pattern stops at: `[^#]`, `[^|#]` and
      `.` (which does not match a newline). */
  datatype Stop = Hash | BarOrHash | Newline

  predicate Stops(stop: Stop, c: char) {
    match stop
    case Hash => c == '#'
    case BarOrHash => c == '|' || c == '#'
    case Newline => c == '\n'
  }

  /** The index of the first character of `stop` at or after `i` (or `|t|`): the end
      of a greedy run of `[^stop]`. */
  function RunEnd(t: string, i: nat, stop: Stop): (j: nat)
    requires i <= |t|
    ensures i <= j <= |t| && (j == |t| || Stops(stop, t[j]))
    decreases |t| - i
  {
    if i == |t| || Stops(stop, t[i]) then i else RunEnd(t, i + 1, stop)
  }

  /** Nothing before the end of a run stops it, so the run ends at the first stop. */
  lemma {:induction false} RunEndFirst(t: string, i: nat, stop: Stop)
    requires i <= |t|
    ensures forall m :: i <= m < RunEnd(t, i, stop) ==> !Stops(stop, t[m])
    decreases |t| - i
  {
    if i < |t| && !Stops(stop, t[i]) {
      RunEndFirst(t, i + 1, stop);
    }
  }

  /** An optional `\s?`. */
  function SkipSpace(t: string, i: nat): (j: nat)
    requires i <= |t|
    ensures i <= j <= |t|
  {
    if i < |t| && IsSpace(t[i]) then i + 1 else i
  }

  /** The captures of the pattern on a text that has a name end `k`: the raw
      required-dependency text, order-only text and documentation text, each possibly
      absent (an empty capture is an absent group). */
  datatype Groups = Groups(deps: string, orderDeps: string, doc: string)

  /** The scan positions after the name end `k`: the required group is `t[p1..q]`, the
      order-only group `t[p3..r]`, and the documentation group starts at `r`. */
  datatype Cuts = Cuts(p1: nat, q: nat, p3: nat, r: nat)

  function CutsAfter(t: string, k: nat): (c: Cuts)
    requires k < |t|
    ensures k + 1 <= c.p1 <= c.q <= c.p3 <= c.r <= |t|
  {
    var p1 := SkipSpace(t, k + 1);
    var q := RunEnd(t, p1, BarOrHash);
    var p2 := if q < |t| && t[q] == '|' then q + 1 else q;
    var p3 := SkipSpace(t, p2);
    var r := RunEnd(t, p3, Hash);
    Cuts(p1, q, p3, r)
  }

  function GroupsAfter(t: string, k: nat): Groups
    requires k < |t|
  {
    var c := CutsAfter(t, k);
    Groups(t[c.p1..c.q], t[c.p3..c.r], DocGroup(t, c.r))
  }

  /** `([#][#].+)?` at index `h`: two `#` and at least one more character, up to the
      first newline. */
  function DocGroup(t: string, h: nat): string
    requires h <= |t|
  {
    if h + 2 < |t| && t[h] == '#' && t[h + 1] == '#' && t[h + 2] != '\n'
    then t[h..RunEnd(t, h + 2, Newline)]
    else []
  }

  /** `docstring.strip().strip('#').strip() if docstring else ''`. */
  function DocText(group: string): string {
    if group == [] then [] else Strip(StripSet(Strip(group), Among({'#'})))
  }

  /** `sorted(deps.strip().split()) if deps else []`. */
  function DepList(group: string): seq<string> {
    if group == [] then [] else Sort(Split(Strip(group)))
  }

  /** `parse_target` on a target token's text, or `None` when the pattern fails. */
  function ParseTargetLine(t: string): Option<Header> {
    match NameEnd(t)
    case None => None
    case Some(k) =>
      var g := GroupsAfter(t, k);
      Some(Header(
        Strip(t[..k]),
        DepList(g.deps),
        DepList(g.orderDeps),
        DocText(g.doc)))
  }

  /** The words of a dependency group: an absent group gives `[]` like an empty one. */
  lemma DepListWords(group: string)
    ensures DepList(group) == Sort(Split(group))
  {
    if group != [] {
      SplitStrip(group);
    }
  }

  lemma SplitAfterSpace(t: string, i: nat, j: nat)
    requires i < j <= |t| && IsSpace(t[i])
    ensures Split(t[i + 1..j]) == Split(t[i..j])
  {
    assert t[i..j] == [t[i]] + t[i + 1..j];
    assert t[i..j][1..] == t[i + 1..j];
  }

  lemma {:induction false} RunEndFrom(t: string, i: nat, j: nat, stop: Stop)
    requires i <= |t| && i <= j <= RunEnd(t, i, stop)
    ensures RunEnd(t, j, stop) == RunEnd(t, i, stop)
    decreases j - i
  {
    if i < j {
      RunEndFrom(t, i + 1, j, stop);
    }
  }

  /** A `\s?` in front of a group changes neither where the group ends nor its words. */
  lemma SkipSpaceHarmless(t: string, i: nat, stop: Stop)
    requires i <= |t| && stop != Newline
    ensures RunEnd(t, SkipSpace(t, i), stop) == RunEnd(t, i, stop)
    ensures Split(t[SkipSpace(t, i)..RunEnd(t, i, stop)]) == Split(t[i..RunEnd(t, i, stop)])
  {
    if SkipSpace(t, i) == i + 1 {
      RunEndFrom(t, i, i + 1, stop);
      SplitAfterSpace(t, i, RunEnd(t, i, stop));
    }
  }

  lemma {:induction false} FirstHashAfterPipe(t: string, i: nat)
    requires i <= |t|
    requires var q := RunEnd(t, i, BarOrHash); q < |t| && t[q] == '|'
    ensures RunEnd(t, RunEnd(t, i, BarOrHash) + 1, Hash) == RunEnd(t, i, Hash)
    decreases |t| - i
  {
    if t[i] != '|' {
      FirstHashAfterPipe(t, i + 1);
    }
  }

  /** What `parse_target` extracts from a matching target line, stated without the
      regular expression: with `k` the first `:` at index 1 or later, `h` the first `#`
      after it and `q` the first `|` or `#` after it, the name is the stripped text
      before `k`; the required dependencies are the sorted words between `k` and `q`;
      the order-only dependencies are the sorted words between a `|` at `q` and `h`
      (none when `q` is not a `|`); the documentation comes from a `##` at `h`. */
  lemma TargetLineFields(t: string, k: nat, q: nat, h: nat)
    requires NameEnd(t) == Some(k)
    requires q == RunEnd(t, k + 1, BarOrHash) && h == RunEnd(t, k + 1, Hash)
    ensures q < h ==> ParseTargetLine(t) == Some(Header(
      Strip(t[..k]), Sort(Split(t[k + 1..q])), Sort(Split(t[q + 1..h])), DocText(DocGroup(t, h))))
    ensures q >= h ==> ParseTargetLine(t) == Some(Header(
      Strip(t[..k]), Sort(Split(t[k + 1..q])), [], DocText(DocGroup(t, h))))
  {
    var g := GroupsAfter(t, k);
    ParseTargetLineAt(t, k);
    GroupsDeps(t, k);
    OrderField(t, k, q, h);
    GroupsOrderText(t, k, q, h);
    if q < h {
      HeaderFields(ParseTargetLine(t), Strip(t[..k]),
        DepList(g.deps), Sort(Split(t[k + 1..q])),
        DepList(g.orderDeps), Sort(Split(t[q + 1..h])),
        DocText(g.doc), DocText(DocGroup(t, h)));
    } else {
      HeaderFields(ParseTargetLine(t), Strip(t[..k]),
        DepList(g.deps), Sort(Split(t[k + 1..q])),
        DepList(g.orderDeps), [],
        DocText(g.doc), DocText(DocGroup(t, h)));
    }
  }

  /** Replacing the fields of a record by equal values gives the same record. */
  lemma HeaderFields(p: Option<Header>, name: string, deps: seq<string>, deps': seq<string>,
                     order: seq<string>, order': seq<string>, doc: string, doc': string)
    requires p == Some(Header(name, deps, order, doc))
    requires deps == deps'
    requires order == order'
    requires doc == doc'
    ensures p == Some(Header(name, deps', order', doc'))
  {
  }

  /** The order-only field of a matching line. */
  lemma OrderField(t: string, k: nat, q: nat, h: nat)
    requires k < |t| && q == RunEnd(t, k + 1, BarOrHash) && h == RunEnd(t, k + 1, Hash)
    ensures q < h ==> h <= |t| && DepList(GroupsAfter(t, k).orderDeps) == Sort(Split(t[q + 1..h]))
    ensures q >= h ==> DepList(GroupsAfter(t, k).orderDeps) == []
  {
    GroupsOrderText(t, k, q, h);
    OrderDeps(GroupsAfter(t, k).orderDeps, t, q, h);
  }

  lemma ParseTargetLineAt(t: string, k: nat)
    requires NameEnd(t) == Some(k)
    ensures var g := GroupsAfter(t, k);
      ParseTargetLine(t) == Some(Header(Strip(t[..k]), DepList(g.deps), DepList(g.orderDeps), DocText(g.doc)))
  {
  }

  lemma GroupsDeps(t: string, k: nat)
    requires k < |t|
    ensures DepList(GroupsAfter(t, k).deps) == Sort(Split(t[k + 1..RunEnd(t, k + 1, BarOrHash)]))
  {
    SkipSpaceHarmless(t, k + 1, BarOrHash);
    DepListWords(GroupsAfter(t, k).deps);
  }

  /** The order-only words: those after the `|` up to the first `#`, or none. */
  lemma OrderDeps(o: string, t: string, q: nat, h: nat)
    requires q < h ==> h <= |t| && SkipSpace(t, q + 1) <= h && o == t[SkipSpace(t, q + 1)..h]
                       && h == RunEnd(t, q + 1, Hash)
    requires q >= h ==> o == []
    ensures DepList(o) == (if q < h then Sort(Split(t[q + 1..h])) else [])
  {
    DepListWords(o);
    if q < h {
      SkipSpaceHarmless(t, q + 1, Hash);
    }
  }

  /** Where the order-only and documentation groups lie. */
  lemma GroupsOrderText(t: string, k: nat, q: nat, h: nat)
    requires k < |t| && q == RunEnd(t, k + 1, BarOrHash) && h == RunEnd(t, k + 1, Hash)
    ensures q < h ==> h <= |t| && SkipSpace(t, q + 1) <= h
                      && GroupsAfter(t, k).orderDeps == t[SkipSpace(t, q + 1)..h]
                      && h == RunEnd(t, q + 1, Hash)
    ensures q >= h ==> GroupsAfter(t, k).orderDeps == []
    ensures GroupsAfter(t, k).doc == DocGroup(t, h)
  {
    CutsSpec(t, k, q, h);
  }

  lemma CutsSpec(t: string, k: nat, q: nat, h: nat)
    requires k < |t| && q == RunEnd(t, k + 1, BarOrHash) && h == RunEnd(t, k + 1, Hash)
    ensures CutsAfter(t, k).q == q && CutsAfter(t, k).r == h
    ensures q < h <==> q < |t| && t[q] == '|'
    ensures q < h ==> q + 1 <= |t| && CutsAfter(t, k).p3 == SkipSpace(t, q + 1) && RunEnd(t, q + 1, Hash) == h
    ensures q >= h ==> CutsAfter(t, k).p3 == CutsAfter(t, k).r
  {
    if q < |t| && t[q] == '|' {
      CutsPipe(t, k, q, h);
    } else {
      CutsNoPipe(t, k, q, h);
    }
  }

  lemma CutsPipe(t: string, k: nat, q: nat, h: nat)
    requires k < |t| && q == RunEnd(t, k + 1, BarOrHash) && h == RunEnd(t, k + 1, Hash)
    requires q < |t| && t[q] == '|'
    ensures CutsAfter(t, k).q == q
    ensures CutsAfter(t, k).p3 == SkipSpace(t, q + 1)
    ensures CutsAfter(t, k).r == RunEnd(t, q + 1, Hash) == h
    ensures q < h
  {
    CutsOrderStart(t, k, q);
    SkipSpaceHarmless(t, q + 1, Hash);
    FirstHashAfterPipe(t, k + 1);
  }

  /** The required group ends at the first `|` or `#` after the name. */
  lemma CutsRequiredEnd(t: string, k: nat)
    requires k < |t|
    ensures CutsAfter(t, k).q == RunEnd(t, k + 1, BarOrHash)
  {
    SkipSpaceHarmless(t, k + 1, BarOrHash);
  }

  lemma CutsOrderStart(t: string, k: nat, q: nat)
    requires k < |t| && q == RunEnd(t, k + 1, BarOrHash)
    requires q < |t| && t[q] == '|'
    ensures CutsAfter(t, k).p3 == SkipSpace(t, q + 1)
    ensures CutsAfter(t, k).r == RunEnd(t, CutsAfter(t, k).p3, Hash)
  {
    CutsRequiredEnd(t, k);
  }

  lemma CutsNoPipe(t: string, k: nat, q: nat, h: nat)
    requires k < |t| && q == RunEnd(t, k + 1, BarOrHash) && h == RunEnd(t, k + 1, Hash)
    requires !(q < |t| && t[q] == '|')
    ensures CutsAfter(t, k).q == q && CutsAfter(t, k).p3 == q && CutsAfter(t, k).r == q
    ensures h == q
  {
    CutsRequiredEnd(t, k);
    HashIsFirstStop(t, k + 1);
    assert SkipSpace(t, q) == q;
    assert RunEnd(t, q, Hash) == q;
  }

  lemma {:induction false} HashIsFirstStop(t: string, i: nat)
    requires i <= |t|
    requires var q := RunEnd(t, i, BarOrHash); !(q < |t| && t[q] == '|')
    ensures RunEnd(t, i, Hash) == RunEnd(t, i, BarOrHash)
    decreases |t| - i
  {
    if i < |t| && t[i] != '|' && t[i] != '#' {
      HashIsFirstStop(t, i + 1);
    }
  }

  /** The only failure: no `:` after the first character before any newline. */
  lemma TargetLineFails(t: string)
    ensures ParseTargetLine(t).None? <==> forall k :: !IsNameEnd(t, k)
  {
  }

  /** A line with every part: dependencies sorted, order-only dependencies after the
      `|`, documentation after `##` with the hashes and spaces stripped. */
  lemma FullLine(t: string)
    requires t == "b: y x | o ## d"
    ensures ParseTargetLine(t) == Some(Header("b", ["x", "y"], ["o"], "d"))
  {
    assert t[..1] == "b";
    assert t[2..7] == " y x ";
    assert t[8..11] == " o ";
    assert Strip("b") == "b";
    ExampleScan();
    TargetLineFields(t, 1, 7, 11);
    ExampleDeps();
    ExampleOrderDeps();
    ExampleDoc();
  }

  lemma ExampleScan()
    ensures var t := "b: y x | o ## d";
      && NameEnd(t) == Some(1)
      && RunEnd(t, 2, BarOrHash) == 7
      && RunEnd(t, 2, Hash) == 11
      && DocGroup(t, 11) == "## d"
  {
    var t := "b: y x | o ## d";
    assert ColonFrom(t, 1) == Some(1);
    assert RunEnd(t, 13, Newline) == 15;
  }

  lemma ExampleDeps()
    ensures Sort(Split(" y x ")) == ["x", "y"]
  {
    ExampleSplit();
    assert Sort(["y", "x"]) == ["x", "y"];
  }

  lemma ExampleSplit()
    ensures Split(" y x ") == ["y", "x"]
  {
    assert LStrip(" y x ", Spaces) == "y x ";
    assert WordLen("y x ") == 1;
    assert "y x "[..1] == "y";
    assert "y x "[1..] == " x ";
    assert LStrip(" x ", Spaces) == "x ";
    assert WordLen("x ") == 1;
    assert "x "[..1] == "x";
    assert "x "[1..] == " ";
    assert LStrip(" ", Spaces) == [];
  }

  lemma ExampleOrderDeps()
    ensures Sort(Split(" o ")) == ["o"]
  {
    assert LStrip(" o ", Spaces) == "o ";
    assert WordLen("o ") == 1;
    assert "o "[..1] == "o";
    assert "o "[1..] == " ";
    assert LStrip(" ", Spaces) == [];
  }

  lemma ExampleDoc()
    ensures DocText("## d") == "d"
  {
    assert Strip("## d") == "## d";
    assert LStrip("## d", Among({'#'})) == " d";
    assert StripSet("## d", Among({'#'})) == " d";
    assert Strip(" d") == "d";
  }
}
