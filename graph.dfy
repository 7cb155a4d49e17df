/** `get_dependencies_influences` (make_profiler/parser.py): the graph derived from a
    finished AST. Only target records whose name is not `.PHONY` take part. */
module Graph {
  import opened Results
  import opened TargetLine
  import opened Parser

  /** The `[deps, order_deps]` pair stored for a target. */
  datatype DepLists = DepLists(required: seq<string>, orderOnly: seq<string>)

  /** The reverse-edge map: `influences[d]` holds the targets that require `d`. */
  type Influences = map<string, set<string>>

  /** A record that takes part in the graph. */
  predicate Counts(x: AstNode) {
    x.TargetNode? && x.header.name != ".PHONY"
  }

  /** A `defaultdict(set)` lookup: a missing key reads as the empty set. */
  function Succ(g: Influences, x: string): set<string> {
    if x in g then g[x] else {}
  }

  /** `dependencies` after the first `n` AST entries. */
  function DependenciesUpTo(ast: seq<AstNode>, n: nat): map<string, DepLists>
    requires n <= |ast|
  {
    if n == 0 then map[]
    else
      var m := DependenciesUpTo(ast, n - 1);
      var x := ast[n - 1];
      if Counts(x) then m[x.header.name := DepLists(x.header.deps, x.header.orderDeps)] else m
  }

  /** `influences[k]` read for its side effect: the key exists afterwards. */
  function Touch(g: Influences, k: string): Influences {
    if k in g then g else g[k := {}]
  }

  /** `influences[k].add(t)`. */
  function AddEdge(g: Influences, k: string, t: string): Influences {
    g[k := Succ(g, k) + {t}]
  }

  /** The loop `for k in deps: influences[k].add(t)` after its first `n` rounds. */
  function AddEdges(g: Influences, ks: seq<string>, t: string, n: nat): Influences
    requires n <= |ks|
  {
    if n == 0 then g else AddEdge(AddEdges(g, ks, t, n - 1), ks[n - 1], t)
  }

  /** The loop `for k in order_deps: influences[k]` after its first `n` rounds. */
  function TouchAll(g: Influences, ks: seq<string>, n: nat): Influences
    requires n <= |ks|
  {
    if n == 0 then g else Touch(TouchAll(g, ks, n - 1), ks[n - 1])
  }

  /** What one counted record does to `influences`. */
  function RecordInfluences(g: Influences, h: Header): Influences {
    TouchAll(AddEdges(Touch(g, h.name), h.deps, h.name, |h.deps|), h.orderDeps, |h.orderDeps|)
  }

  /** `influences` after the first `n` AST entries. */
  function InfluencesUpTo(ast: seq<AstNode>, n: nat): Influences
    requires n <= |ast|
  {
    if n == 0 then map[]
    else
      var g := InfluencesUpTo(ast, n - 1);
      if Counts(ast[n - 1]) then RecordInfluences(g, ast[n - 1].header) else g
  }

  /** `set(xs)`. */
  function Elements(xs: seq<string>): (s: set<string>)
    ensures forall x :: x in s <==> x in xs
  {
    set i | 0 <= i < |xs| :: xs[i]
  }

  /** `order_only` after the first `n` AST entries. */
  function OrderOnlyUpTo(ast: seq<AstNode>, n: nat): set<string>
    requires n <= |ast|
  {
    if n == 0 then {}
    else
      var s := OrderOnlyUpTo(ast, n - 1);
      if Counts(ast[n - 1]) then s + Elements(ast[n - 1].header.orderDeps) else s
  }

  /** The first loop of `get_dependencies_influences`: `dependencies`, `influences` and
      `order_only`, updated in place entry by entry. */
  method BuildDirect(ast: seq<AstNode>)
    returns (dependencies: map<string, DepLists>, influences: Influences, orderOnly: set<string>)
    ensures dependencies == DependenciesUpTo(ast, |ast|)
    ensures influences == InfluencesUpTo(ast, |ast|)
    ensures orderOnly == OrderOnlyUpTo(ast, |ast|)
  {
    dependencies, influences, orderOnly := map[], map[], {};
    var i := 0;
    while i < |ast|
      invariant i <= |ast|
      invariant dependencies == DependenciesUpTo(ast, i)
      invariant influences == InfluencesUpTo(ast, i)
      invariant orderOnly == OrderOnlyUpTo(ast, i)
    {
      var item := ast[i];
      i := i + 1;
      if !item.TargetNode? || item.header.name == ".PHONY" {
        continue;
      }
      var target := item.header.name;
      var deps, orderDeps := item.header.deps, item.header.orderDeps;
      dependencies := dependencies[target := DepLists(deps, orderDeps)];
      influences := Touch(influences, target);
      var j := 0;
      while j < |deps|
        invariant j <= |deps|
        invariant influences == AddEdges(Touch(InfluencesUpTo(ast, i - 1), target), deps, target, j)
      {
        influences := AddEdge(influences, deps[j], target);
        j := j + 1;
      }
      j := 0;
      var touched := influences;
      while j < |orderDeps|
        invariant j <= |orderDeps|
        invariant influences == TouchAll(touched, orderDeps, j)
      {
        influences := Touch(influences, orderDeps[j]);
        j := j + 1;
      }
      orderOnly := orderOnly + Elements(orderDeps);
    }
  }

  /** Entry `e` is a counted definition of target `x`. */
  predicate Defines(e: AstNode, x: string) {
    Counts(e) && e.header.name == x
  }

  /** `x` is the target of `h` or one of its dependencies of either kind. */
  predicate Mentions(h: Header, x: string) {
    x == h.name || x in h.deps || x in h.orderDeps
  }

  /** The keys of `dependencies` are the names of the counted records. */
  lemma {:induction false} DependenciesKeys(ast: seq<AstNode>, n: nat)
    requires n <= |ast|
    ensures forall x :: x in DependenciesUpTo(ast, n) <==> exists i :: 0 <= i < n && Defines(ast[i], x)
  {
    if n > 0 {
      DependenciesKeys(ast, n - 1);
    }
  }

  /** Last write wins: the entry for `x` is the lists of the last counted definition
      of `x`. */
  lemma {:induction false} DependenciesLastWins(ast: seq<AstNode>, n: nat, x: string)
    requires n <= |ast| && x in DependenciesUpTo(ast, n)
    ensures exists i :: && 0 <= i < n && Defines(ast[i], x)
                        && DependenciesUpTo(ast, n)[x] == DepLists(ast[i].header.deps, ast[i].header.orderDeps)
                        && forall j :: i < j < n ==> !Defines(ast[j], x)
  {
    if Defines(ast[n - 1], x) {
      assert Defines(ast[n - 1], x);
    } else {
      DependenciesLastWins(ast, n - 1, x);
      var i :| && 0 <= i < n - 1 && Defines(ast[i], x)
               && DependenciesUpTo(ast, n - 1)[x] == DepLists(ast[i].header.deps, ast[i].header.orderDeps)
               && forall j :: i < j < n - 1 ==> !Defines(ast[j], x);
      assert forall j :: i < j < n ==> !Defines(ast[j], x);
    }
  }

  lemma {:induction false} AddEdgesSpec(g: Influences, ks: seq<string>, t: string, n: nat)
    requires n <= |ks|
    ensures forall x :: x in AddEdges(g, ks, t, n) <==> x in g || x in ks[..n]
    ensures forall x :: Succ(AddEdges(g, ks, t, n), x) == Succ(g, x) + (if x in ks[..n] then {t} else {})
  {
    if n > 0 {
      AddEdgesSpec(g, ks, t, n - 1);
      assert ks[..n] == ks[..n - 1] + [ks[n - 1]];
    }
  }

  lemma {:induction false} TouchAllSpec(g: Influences, ks: seq<string>, n: nat)
    requires n <= |ks|
    ensures forall x :: x in TouchAll(g, ks, n) <==> x in g || x in ks[..n]
    ensures forall x :: Succ(TouchAll(g, ks, n), x) == Succ(g, x)
  {
    if n > 0 {
      TouchAllSpec(g, ks, n - 1);
      assert ks[..n] == ks[..n - 1] + [ks[n - 1]];
    }
  }

  /** One counted record adds a key for every name it mentions and an edge from each
      required dependency to its target. */
  lemma RecordInfluencesSpec(g: Influences, h: Header)
    ensures forall x :: x in RecordInfluences(g, h) <==> x in g || Mentions(h, x)
    ensures forall x :: Succ(RecordInfluences(g, h), x) == Succ(g, x) + (if x in h.deps then {h.name} else {})
  {
    AddEdgesSpec(Touch(g, h.name), h.deps, h.name, |h.deps|);
    TouchAllSpec(AddEdges(Touch(g, h.name), h.deps, h.name, |h.deps|), h.orderDeps, |h.orderDeps|);
    assert h.deps[..|h.deps|] == h.deps;
    assert h.orderDeps[..|h.orderDeps|] == h.orderDeps;
  }

  /** The keys of `influences`: every counted target and every dependency of either kind. */
  lemma {:induction false} InfluencesKeys(ast: seq<AstNode>, n: nat)
    requires n <= |ast|
    ensures forall x :: x in InfluencesUpTo(ast, n) <==>
      exists i :: 0 <= i < n && Counts(ast[i]) && Mentions(ast[i].header, x)
  {
    if n > 0 {
      InfluencesKeys(ast, n - 1);
      if Counts(ast[n - 1]) {
        RecordInfluencesSpec(InfluencesUpTo(ast, n - 1), ast[n - 1].header);
      }
    }
  }

  /** `t` influences `x` exactly when some counted definition of `t` requires `x`;
      order-only dependencies add no edges. */
  lemma {:induction false} InfluencesEdges(ast: seq<AstNode>, n: nat)
    requires n <= |ast|
    ensures forall x, t :: t in Succ(InfluencesUpTo(ast, n), x) <==>
      exists i :: 0 <= i < n && Defines(ast[i], t) && x in ast[i].header.deps
  {
    if n > 0 {
      InfluencesEdges(ast, n - 1);
      if Counts(ast[n - 1]) {
        RecordInfluencesSpec(InfluencesUpTo(ast, n - 1), ast[n - 1].header);
      }
    }
  }

  /** `order_only` is the union of the counted records' order-only dependencies. */
  lemma {:induction false} OrderOnlySpec(ast: seq<AstNode>, n: nat)
    requires n <= |ast|
    ensures forall x :: x in OrderOnlyUpTo(ast, n) <==>
      exists i :: 0 <= i < n && Counts(ast[i]) && x in ast[i].header.orderDeps
  {
    if n > 0 {
      OrderOnlySpec(ast, n - 1);
    }
  }

  /** Every name an edge leads to is itself a key. */
  ghost predicate Closed(g: Influences) {
    forall x, t :: t in Succ(g, x) ==> t in g
  }

  /** `influences` is closed: every influenced name is a counted target, and every
      counted target has a key. So the lookups of the closure never add keys to the
      map it iterates over. */
  lemma InfluencesClosed(ast: seq<AstNode>, n: nat)
    requires n <= |ast|
    ensures Closed(InfluencesUpTo(ast, n))
  {
    InfluencesEdges(ast, n);
    InfluencesKeys(ast, n);
    forall x, t | t in Succ(InfluencesUpTo(ast, n), x) ensures t in InfluencesUpTo(ast, n) {
      var i :| 0 <= i < n && Defines(ast[i], t) && x in ast[i].header.deps;
      assert Counts(ast[i]) && Mentions(ast[i].header, t);
    }
  }

  /** A walk along influence edges. */
  predicate IsPath(g: Influences, p: seq<string>) {
    |p| >= 1 && forall k :: 0 <= k < |p| - 1 ==> p[k + 1] in Succ(g, p[k])
  }

  /** `b` is reached from `a` by a path of at least `m` edges. */
  ghost predicate Reaches(g: Influences, a: string, b: string, m: nat) {
    exists p :: IsPath(g, p) && p[0] == a && p[|p| - 1] == b && |p| > m
  }

  /** A path of exactly `len` edges leaves `r`. */
  ghost predicate HasPath(g: Influences, r: string, len: nat) {
    exists p :: IsPath(g, p) && p[0] == r && |p| == len + 1
  }

  lemma PathCons(g: Influences, a: string, p: seq<string>)
    requires IsPath(g, p) && p[0] in Succ(g, a)
    ensures IsPath(g, [a] + p)
  {
    var q := [a] + p;
    forall k | 0 <= k < |q| - 1 ensures q[k + 1] in Succ(g, q[k]) {
      if k > 0 {
        assert q[k] == p[k - 1] && q[k + 1] == p[k];
      }
    }
  }

  lemma PathTail(g: Influences, p: seq<string>)
    requires IsPath(g, p) && |p| >= 2
    ensures IsPath(g, p[1..]) && p[1] in Succ(g, p[0])
  {
    forall k | 0 <= k < |p[1..]| - 1 ensures p[1..][k + 1] in Succ(g, p[1..][k]) {
      assert p[1..][k] == p[k + 1] && p[1..][k + 1] == p[k + 2];
    }
  }

  lemma PathSnoc(g: Influences, p: seq<string>, b: string)
    requires IsPath(g, p) && b in Succ(g, p[|p| - 1])
    ensures IsPath(g, p + [b])
  {
    var q := p + [b];
    forall k | 0 <= k < |q| - 1 ensures q[k + 1] in Succ(g, q[k]) {
      if k < |p| - 1 {
        assert q[k] == p[k] && q[k + 1] == p[k + 1];
      }
    }
  }

  /** A path of at least `m + 1` edges is an edge followed by a path of at least `m`. */
  lemma ReachesUnfold(g: Influences, r: string, x: string, m: nat)
    ensures Reaches(g, r, x, m + 1) <==> exists t :: t in Succ(g, r) && Reaches(g, t, x, m)
  {
    if Reaches(g, r, x, m + 1) {
      var p :| IsPath(g, p) && p[0] == r && p[|p| - 1] == x && |p| > m + 1;
      PathTail(g, p);
      assert p[1..][|p[1..]| - 1] == x;
      assert Reaches(g, p[1], x, m);
    }
    if exists t :: t in Succ(g, r) && Reaches(g, t, x, m) {
      var t :| t in Succ(g, r) && Reaches(g, t, x, m);
      var p :| IsPath(g, p) && p[0] == t && p[|p| - 1] == x && |p| > m;
      PathCons(g, r, p);
      assert ([r] + p)[0] == r && ([r] + p)[|[r] + p| - 1] == x;
    }
  }

  /** A path of zero or more edges from `t` is `t` itself or a path of one or more. */
  lemma ReachesZero(g: Influences, t: string, x: string)
    ensures Reaches(g, t, x, 0) <==> x == t || Reaches(g, t, x, 1)
  {
    if x == t {
      assert IsPath(g, [t]);
    }
    if Reaches(g, t, x, 0) && x != t {
      var p :| IsPath(g, p) && p[0] == t && p[|p| - 1] == x && |p| > 0;
      assert |p| > 1;
    }
  }

  /** Paths extend by an edge at the end. */
  lemma ReachesSnoc(g: Influences, a: string, x: string, y: string, m: nat)
    requires Reaches(g, a, x, m) && y in Succ(g, x)
    ensures Reaches(g, a, y, m)
  {
    var p :| IsPath(g, p) && p[0] == a && p[|p| - 1] == x && |p| > m;
    PathSnoc(g, p, y);
    assert (p + [y])[0] == a && (p + [y])[|p + [y]| - 1] == y;
  }

  lemma HasPathUnfold(g: Influences, r: string, len: nat)
    ensures HasPath(g, r, len + 1) <==> exists t :: t in Succ(g, r) && HasPath(g, t, len)
  {
    if HasPath(g, r, len + 1) {
      var p :| IsPath(g, p) && p[0] == r && |p| == len + 2;
      PathTail(g, p);
      assert HasPath(g, p[1], len);
    }
    if exists t :: t in Succ(g, r) && HasPath(g, t, len) {
      var t :| t in Succ(g, r) && HasPath(g, t, len);
      var p :| IsPath(g, p) && p[0] == t && |p| == len + 1;
      PathCons(g, r, p);
      assert ([r] + p)[0] == r;
    }
  }

  /** The names two edges away from `o`. */
  ghost predicate SecondLevel(g: Influences, o: string, x: string) {
    exists t :: t in Succ(g, o) && x in Succ(g, t)
  }

  /** The closure of one origin, with a visited set: everything reached from `o` by two
      or more influence edges. Direct influences are not included unless a longer path
      reaches them again. */
  method IndirectFrom(g: Influences, o: string) returns (r: set<string>)
    requires Closed(g)
    ensures forall x :: x in r <==> Reaches(g, o, x, 2)
  {
    var todo: set<string> := {};
    var targets := Succ(g, o);
    while targets != {}
      invariant targets <= Succ(g, o) && todo <= g.Keys
      invariant forall x :: x in todo <==> exists t :: t in Succ(g, o) && t !in targets && x in Succ(g, t)
      decreases targets
    {
      var t :| t in targets;
      targets := targets - {t};
      todo := todo + Succ(g, t);
    }
    SecondLevelReaches(g, o);
    r := {};
    while todo != {}
      invariant r <= g.Keys && todo <= g.Keys
      invariant forall x :: x in r || x in todo ==> Reaches(g, o, x, 2)
      invariant forall x, y :: x in r && y in Succ(g, x) ==> y in r || y in todo
      invariant forall x :: SecondLevel(g, o, x) ==> x in r || x in todo
      decreases g.Keys - r, todo
    {
      var x :| x in todo;
      todo := todo - {x};
      if x !in r {
        forall y | y in Succ(g, x) ensures Reaches(g, o, y, 2) {
          ReachesSnoc(g, o, x, y, 2);
        }
        r := r + {x};
        todo := todo + Succ(g, x);
      }
    }
    forall x | Reaches(g, o, x, 2) ensures x in r {
      ClosedSetHoldsReach(g, o, x, r);
    }
  }

  lemma SecondLevelReaches(g: Influences, o: string)
    ensures forall x :: SecondLevel(g, o, x) ==> Reaches(g, o, x, 2)
  {
    forall x | SecondLevel(g, o, x) ensures Reaches(g, o, x, 2) {
      var t :| t in Succ(g, o) && x in Succ(g, t);
      var p := [o, t, x];
      assert IsPath(g, p);
    }
  }

  /** A set that holds the second level and is closed under edges holds everything
      reached by two or more edges. */
  lemma ClosedSetHoldsReach(g: Influences, o: string, x: string, r: set<string>)
    requires forall x :: SecondLevel(g, o, x) ==> x in r
    requires forall x, y :: x in r && y in Succ(g, x) ==> y in r
    requires Reaches(g, o, x, 2)
    ensures x in r
  {
    var p :| IsPath(g, p) && p[0] == o && p[|p| - 1] == x && |p| > 2;
    assert p[1] in Succ(g, o) && p[2] in Succ(g, p[1]);
    assert SecondLevel(g, o, p[2]);
    var k := 2;
    while k < |p| - 1
      invariant 2 <= k <= |p| - 1 && p[k] in r
    {
      k := k + 1;
    }
  }

  /** `indirect_influences`, with a visited set per origin: a key for every name with
      at least one direct influence, holding what two or more edges reach. Read as a
      `defaultdict`, every name's entry is its closure. */
  method IndirectInfluences(g: Influences) returns (indirect: map<string, set<string>>)
    requires Closed(g)
    ensures forall o :: o in indirect <==> o in g && g[o] != {}
    ensures forall o, x :: x in Succ(indirect, o) <==> Reaches(g, o, x, 2)
  {
    indirect := map[];
    var origins := g.Keys;
    while origins != {}
      invariant origins <= g.Keys
      invariant forall o :: o in indirect <==> o in g && o !in origins && g[o] != {}
      invariant forall o, x :: o in indirect ==> (x in indirect[o] <==> Reaches(g, o, x, 2))
      decreases origins
    {
      var o :| o in origins;
      origins := origins - {o};
      if g[o] != {} {
        var r := IndirectFrom(g, o);
        indirect := indirect[o := r];
      }
    }
    forall o, x | o !in indirect ensures !Reaches(g, o, x, 2) {
      ReachesUnfold(g, o, x, 1);
    }
  }

  /** `get_dependencies_influences` with the closure computed with visited sets. */
  method GetDependenciesInfluences(ast: seq<AstNode>)
    returns (dependencies: map<string, DepLists>, influences: Influences, orderOnly: set<string>,
             indirect: map<string, set<string>>)
    ensures dependencies == DependenciesUpTo(ast, |ast|)
    ensures influences == InfluencesUpTo(ast, |ast|)
    ensures orderOnly == OrderOnlyUpTo(ast, |ast|)
    ensures forall o :: o in indirect <==> o in influences && influences[o] != {}
    ensures forall o, x :: x in Succ(indirect, o) <==> Reaches(influences, o, x, 2)
  {
    dependencies, influences, orderOnly := BuildDirect(ast);
    InfluencesClosed(ast, |ast|);
    indirect := IndirectInfluences(influences);
  }

  /** `recurse_indirect_influences(o, r)` as written, with `fuel` calls of stack left:
      it fails (Python's recursion limit) exactly when a path of `fuel` edges leaves
      `r`, and otherwise collects everything one or more edges away from `r`. */
  method RecurseIndirect(g: Influences, r: string, fuel: nat) returns (res: Option<set<string>>)
    ensures res.None? <==> HasPath(g, r, fuel)
    ensures res.Some? ==> forall x :: x in res.value <==> Reaches(g, r, x, 1)
    decreases fuel
  {
    if fuel == 0 {
      assert IsPath(g, [r]);
      return None;
    }
    HasPathUnfold(g, r, fuel - 1);
    var acc := Succ(g, r);
    var targets := Succ(g, r);
    while targets != {}
      invariant targets <= Succ(g, r)
      invariant forall t :: t in Succ(g, r) && t !in targets ==> !HasPath(g, t, fuel - 1)
      invariant forall x :: x in acc <==>
        x in Succ(g, r) || exists t :: t in Succ(g, r) && t !in targets && Reaches(g, t, x, 1)
      decreases targets
    {
      var t :| t in targets;
      targets := targets - {t};
      var sub := RecurseIndirect(g, t, fuel - 1);
      if sub.None? {
        return None;
      }
      acc := acc + sub.value;
    }
    forall x ensures x in acc <==> Reaches(g, r, x, 1) {
      ReachesUnfold(g, r, x, 0);
      forall t | t in Succ(g, r) ensures Reaches(g, t, x, 0) <==> x == t || Reaches(g, t, x, 1) {
        ReachesZero(g, t, x);
      }
    }
    return Some(acc);
  }

  /** The closure loop of `get_dependencies_influences` as written: it fails when any
      recursive call runs out of stack, and otherwise agrees with `IndirectInfluences`. */
  method IndirectInfluencesRecursive(g: Influences, fuel: nat) returns (res: Option<map<string, set<string>>>)
    ensures res.None? <==> exists o, t :: t in Succ(g, o) && HasPath(g, t, fuel)
    ensures res.Some? ==> forall o :: o in res.value <==> o in g && g[o] != {}
    ensures res.Some? ==> forall o, x :: x in Succ(res.value, o) <==> Reaches(g, o, x, 2)
  {
    var indirect := map[];
    var origins := g.Keys;
    while origins != {}
      invariant origins <= g.Keys
      invariant forall o :: o in indirect <==> o in g && o !in origins && g[o] != {}
      invariant forall o, x :: o in indirect ==> (x in indirect[o] <==> Reaches(g, o, x, 2))
      invariant forall o, t :: o in g && o !in origins && t in Succ(g, o) ==> !HasPath(g, t, fuel)
      decreases origins
    {
      var o :| o in origins;
      origins := origins - {o};
      var acc := {};
      var targets := g[o];
      while targets != {}
        invariant targets <= g[o]
        invariant forall t :: t in g[o] && t !in targets ==> !HasPath(g, t, fuel)
        invariant forall x :: x in acc <==> exists t :: t in g[o] && t !in targets && Reaches(g, t, x, 1)
        decreases targets
      {
        var t :| t in targets;
        targets := targets - {t};
        var sub := RecurseIndirect(g, t, fuel);
        if sub.None? {
          assert t in Succ(g, o);
          return None;
        }
        acc := acc + sub.value;
      }
      if g[o] != {} {
        forall x ensures x in acc <==> Reaches(g, o, x, 2) {
          ReachesUnfold(g, o, x, 1);
        }
        indirect := indirect[o := acc];
      }
    }
    forall o, x | o !in indirect ensures !Reaches(g, o, x, 2) {
      ReachesUnfold(g, o, x, 1);
    }
    return Some(indirect);
  }

  /** A path that returns to where it started. */
  ghost predicate IsCycle(g: Influences, c: seq<string>) {
    IsPath(g, c) && |c| >= 2 && c[0] == c[|c| - 1]
  }

  ghost predicate Acyclic(g: Influences) {
    forall c :: !IsCycle(g, c)
  }

  /** Around a cycle there are paths of every length. */
  lemma {:induction false} CycleHasEveryPath(g: Influences, c: seq<string>, k: nat, len: nat)
    requires IsCycle(g, c) && k < |c| - 1
    ensures HasPath(g, c[k], len)
    decreases len
  {
    if len == 0 {
      assert IsPath(g, [c[k]]);
    } else {
      var next := if k + 1 == |c| - 1 then 0 else k + 1;
      assert c[next] == c[k + 1];
      CycleHasEveryPath(g, c, next, len - 1);
      HasPathUnfold(g, c[k], len - 1);
    }
  }

  /** The source recursion fails on every graph with a cycle, whatever the recursion
      limit: the node the cycle starts from is influenced by its predecessor on the
      cycle, and paths of every length leave it. */
  lemma RecursionFailsOnCycle(g: Influences, c: seq<string>, fuel: nat)
    requires IsCycle(g, c)
    ensures exists o, t :: t in Succ(g, o) && HasPath(g, t, fuel)
  {
    CycleHasEveryPath(g, c, 0, fuel);
    assert c[0] in Succ(g, c[|c| - 2]);
  }

  lemma {:induction false} Pigeonhole(p: seq<string>, s: set<string>)
    requires forall i :: 0 <= i < |p| ==> p[i] in s
    requires |p| > |s|
    ensures exists i, j :: 0 <= i < j < |p| && p[i] == p[j]
  {
    if p[0] in p[1..] {
      var j :| 0 <= j < |p[1..]| && p[1..][j] == p[0];
      assert p[0] == p[j + 1];
    } else {
      var s' := s - {p[0]};
      forall i | 0 <= i < |p[1..]| ensures p[1..][i] in s' {
        assert p[1..][i] == p[i + 1];
      }
      Pigeonhole(p[1..], s');
      var i, j :| 0 <= i < j < |p[1..]| && p[1..][i] == p[1..][j];
      assert p[i + 1] == p[j + 1];
    }
  }

  lemma SubPath(g: Influences, p: seq<string>, i: nat, j: nat)
    requires IsPath(g, p) && i < j <= |p|
    ensures IsPath(g, p[i..j])
  {
    forall k | 0 <= k < |p[i..j]| - 1 ensures p[i..j][k + 1] in Succ(g, p[i..j][k]) {
      assert p[i..j][k] == p[i + k] && p[i..j][k + 1] == p[i + k + 1];
    }
  }

  /** On an acyclic graph with a key for every influenced name, no path is longer than
      the number of keys. */
  lemma AcyclicPathsAreShort(g: Influences, t: string, len: nat)
    requires Closed(g) && Acyclic(g) && t in g && len >= |g.Keys|
    ensures !HasPath(g, t, len)
  {
    if HasPath(g, t, len) {
      var p :| IsPath(g, p) && p[0] == t && |p| == len + 1;
      forall i | 0 <= i < |p| ensures p[i] in g.Keys {
        if i > 0 {
          assert p[i] in Succ(g, p[i - 1]);
        }
      }
      Pigeonhole(p, g.Keys);
      var i, j :| 0 <= i < j < |p| && p[i] == p[j];
      RepeatGivesCycle(g, p, i, j);
      assert false;
    }
  }

  lemma RepeatGivesCycle(g: Influences, p: seq<string>, i: nat, j: nat)
    requires IsPath(g, p) && i < j < |p| && p[i] == p[j]
    ensures IsCycle(g, p[i..j + 1])
  {
    SubPath(g, p, i, j + 1);
  }

  /** The source recursion, given a recursion limit of at least the number of names,
      fails exactly on the graphs that have a cycle. */
  lemma RecursionFailsIffCycle(g: Influences, fuel: nat)
    requires Closed(g) && fuel >= |g.Keys|
    ensures (exists o, t :: t in Succ(g, o) && HasPath(g, t, fuel)) <==> !Acyclic(g)
  {
    if !Acyclic(g) {
      var c :| IsCycle(g, c);
      RecursionFailsOnCycle(g, c, fuel);
    } else {
      forall o, t | t in Succ(g, o) ensures !HasPath(g, t, fuel) {
        AcyclicPathsAreShort(g, t, fuel);
      }
    }
  }

  /** `A: B`, `B: C`, `C:`: the influences run `C` to `B` to `A`, and the indirect
      influences of `C` are `{A}` alone: `B` is a direct influence and is not repeated. */
  lemma ChainExample(ast: seq<AstNode>)
    requires ast == [TargetNode(Header("A", ["B"], [], ""), []),
                     TargetNode(Header("B", ["C"], [], ""), []),
                     TargetNode(Header("C", [], [], ""), [])]
    ensures InfluencesUpTo(ast, 3) == map["A" := {}, "B" := {"A"}, "C" := {"B"}]
    ensures forall x :: Reaches(InfluencesUpTo(ast, 3), "C", x, 2) <==> x == "A"
  {
    FirstRecordExample(ast);
    var m1 := map["A" := {}, "B" := {"A"}];
    var h1 := ast[1].header;
    assert h1 == Header("B", ["C"], [], "") && Counts(ast[1]);
    OneDependency(m1, h1);
    assert Touch(m1, "B") == m1;
    assert "C" != "A" && "C" != "B" by { assert "C"[0] != "A"[0] && "C"[0] != "B"[0]; }
    assert Succ(m1, "C") == {};
    assert InfluencesUpTo(ast, 2) == RecordInfluences(m1, h1);
    assert RecordInfluences(m1, h1) == m1["C" := {} + {"B"}];
    assert {} + {"B"} == {"B"};
    assert InfluencesUpTo(ast, 2) == map["A" := {}, "B" := {"A"}, "C" := {"B"}];
    assert RecordInfluences(InfluencesUpTo(ast, 2), ast[2].header) == Touch(InfluencesUpTo(ast, 2), "C");
    ChainReach(InfluencesUpTo(ast, 3));
  }

  /** The influences of the record `A: B` alone. */
  lemma FirstRecordExample(ast: seq<AstNode>)
    requires |ast| >= 1 && ast[0] == TargetNode(Header("A", ["B"], [], ""), [])
    ensures InfluencesUpTo(ast, 1) == map["A" := {}, "B" := {"A"}]
  {
    var h0 := ast[0].header;
    OneDependency(map[], h0);
    assert Touch(map[], "A") == map["A" := {}];
    assert "B" != "A" by { assert "B"[0] != "A"[0]; }
    assert Succ(map["A" := {}], "B") == {};
    assert InfluencesUpTo(ast, 1) == RecordInfluences(map[], h0);
    assert RecordInfluences(map[], h0) == map["A" := {}]["B" := {} + {"A"}];
    assert {} + {"A"} == {"A"};
  }

  lemma PathStep(g: Influences, p: seq<string>, k: nat)
    requires IsPath(g, p) && k < |p| - 1
    ensures p[k + 1] in Succ(g, p[k])
  {
  }

  lemma ChainReach(g: Influences)
    requires g == map["A" := {}, "B" := {"A"}, "C" := {"B"}]
    ensures forall x :: Reaches(g, "C", x, 2) <==> x == "A"
  {
    assert IsPath(g, ["C", "B", "A"]);
    forall x | Reaches(g, "C", x, 2) ensures x == "A" {
      var p :| IsPath(g, p) && p[0] == "C" && p[|p| - 1] == x && |p| > 2;
      assert p[1] in Succ(g, p[0]);
      assert p[2] in Succ(g, p[1]);
      if |p| > 3 {
        PathStep(g, p, 2);
        assert false;
      }
    }
  }

  /** `A: B`, `B: A`: the indirect influences of `A` are `{A, B}`, and the source
      recursion fails whatever the recursion limit. */
  lemma CycleExample(ast: seq<AstNode>, fuel: nat)
    requires ast == [TargetNode(Header("A", ["B"], [], ""), []),
                     TargetNode(Header("B", ["A"], [], ""), [])]
    ensures InfluencesUpTo(ast, 2) == map["A" := {"B"}, "B" := {"A"}]
    ensures forall x :: Reaches(InfluencesUpTo(ast, 2), "A", x, 2) <==> x == "A" || x == "B"
    ensures exists o, t :: t in Succ(InfluencesUpTo(ast, 2), o) && HasPath(InfluencesUpTo(ast, 2), t, fuel)
  {
    FirstRecordExample(ast);
    var m1 := map["A" := {}, "B" := {"A"}];
    var h1 := ast[1].header;
    assert h1 == Header("B", ["A"], [], "") && Counts(ast[1]);
    OneDependency(m1, h1);
    assert Touch(m1, "B") == m1;
    assert InfluencesUpTo(ast, 2) == RecordInfluences(m1, h1);
    assert RecordInfluences(m1, h1) == m1["A" := {} + {"B"}];
    assert {} + {"B"} == {"B"};
    var g := InfluencesUpTo(ast, 2);
    assert g == map["A" := {"B"}, "B" := {"A"}];
    CycleReach(g);
    assert IsCycle(g, ["A", "B", "A"]);
    RecursionFailsOnCycle(g, ["A", "B", "A"], fuel);
  }

  /** A record with one required dependency and no order-only ones. */
  lemma OneDependency(g: Influences, h: Header)
    requires |h.deps| == 1 && h.orderDeps == []
    ensures RecordInfluences(g, h) == Touch(g, h.name)[h.deps[0] := Succ(Touch(g, h.name), h.deps[0]) + {h.name}]
  {
    var t := Touch(g, h.name);
    assert AddEdges(t, h.deps, h.name, 0) == t;
    assert AddEdges(t, h.deps, h.name, 1) == AddEdge(t, h.deps[0], h.name);
  }

  lemma CycleReach(g: Influences)
    requires g == map["A" := {"B"}, "B" := {"A"}]
    ensures forall x :: Reaches(g, "A", x, 2) <==> x == "A" || x == "B"
  {
    assert IsPath(g, ["A", "B", "A"]);
    assert IsPath(g, ["A", "B", "A", "B"]);
    forall x | Reaches(g, "A", x, 2) ensures x == "A" || x == "B" {
      var p :| IsPath(g, p) && p[0] == "A" && p[|p| - 1] == x && |p| > 2;
      assert x in Succ(g, p[|p| - 2]);
    }
  }

  /** `.PHONY` never becomes a key of `dependencies`, however often it is declared. */
  lemma PhonyNotADependency(ast: seq<AstNode>)
    ensures ".PHONY" !in DependenciesUpTo(ast, |ast|)
  {
    DependenciesKeys(ast, |ast|);
  }
}
