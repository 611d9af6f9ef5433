/** The order in which a depth-first walk over a module graph, which may have cycles, emits the modules. */
module BundleOrder {
  import opened Sequences

  type Node = nat

  /** Dependencies of each module, all of them modules of the graph. */
  datatype Graph = Graph(deps: map<Node, seq<Node>>) {
    ghost predicate Closed() {
      forall m, d :: m in deps && d in deps[m] ==> d in deps
    }
  }

  /** Modules entered so far, and modules emitted so far. */
  datatype Progress = Progress(visited: set<Node>, order: seq<Node>)

  /** `visit`: enter, visit the dependencies in order, emit. */
  ghost function Visit(g: Graph, s: Progress, m: Node): (t: Progress)
    requires g.Closed() && m in g.deps
    ensures s.visited <= t.visited && m in t.visited
    decreases |g.deps.Keys - s.visited|, 0
  {
    if m in s.visited then s
    else
      OneFewerLeft(g.deps.Keys, s.visited, s.visited + {m}, m);
      var s1 := VisitAll(g, Progress(s.visited + {m}, s.order), g.deps[m]);
      Progress(s1.visited, s1.order + [m])
  }

  ghost function VisitAll(g: Graph, s: Progress, ds: seq<Node>): (t: Progress)
    requires g.Closed() && forall d :: d in ds ==> d in g.deps
    ensures s.visited <= t.visited && forall d :: d in ds ==> d in t.visited
    decreases |g.deps.Keys - s.visited|, 1, |ds|
  {
    if ds == [] then s
    else
      var s1 := Visit(g, s, ds[0]);
      FewerLeft(g.deps.Keys, s.visited, s1.visited);
      VisitAll(g, s1, ds[1..])
  }

  /** The order of the bundle of `root`. */
  ghost function Order(g: Graph, root: Node): seq<Node>
    requires g.Closed() && root in g.deps
  {
    Visit(g, Progress({}, []), root).order
  }

  /** Emitting only appends, and only modules of the graph. */
  lemma {:induction false} VisitExtends(g: Graph, s: Progress, m: Node)
    requires g.Closed() && m in g.deps
    ensures s.order <= Visit(g, s, m).order
    ensures forall x :: x in Visit(g, s, m).order ==> x in s.order || x in g.deps
    decreases |g.deps.Keys - s.visited|, 0
  {
    if m !in s.visited {
      OneFewerLeft(g.deps.Keys, s.visited, s.visited + {m}, m);
      VisitAllExtends(g, Progress(s.visited + {m}, s.order), g.deps[m]);
    }
  }

  lemma {:induction false} VisitAllExtends(g: Graph, s: Progress, ds: seq<Node>)
    requires g.Closed() && forall d :: d in ds ==> d in g.deps
    ensures s.order <= VisitAll(g, s, ds).order
    ensures forall x :: x in VisitAll(g, s, ds).order ==> x in s.order || x in g.deps
    decreases |g.deps.Keys - s.visited|, 1, |ds|
  {
    if ds != [] {
      var s1 := Visit(g, s, ds[0]);
      FewerLeft(g.deps.Keys, s.visited, s1.visited);
      VisitExtends(g, s, ds[0]);
      VisitAllExtends(g, s1, ds[1..]);
    }
  }

  // ---------------------------------------------------------------- reachability

  ghost predicate Edge(g: Graph, a: Node, b: Node) {
    a in g.deps && b in g.deps[a]
  }

  ghost predicate Path(g: Graph, p: seq<Node>) {
    |p| >= 1 && forall i :: 0 <= i < |p| - 1 ==> Edge(g, p[i], p[i + 1])
  }

  /** `b` is `a` or a direct or indirect dependency of `a`. */
  ghost predicate Reaches(g: Graph, a: Node, b: Node) {
    exists p :: Path(g, p) && p[0] == a && p[|p| - 1] == b
  }

  lemma ReachesSelf(g: Graph, a: Node)
    ensures Reaches(g, a, a)
  {
    assert Path(g, [a]);
  }

  lemma ReachesStep(g: Graph, a: Node, b: Node, c: Node)
    requires Reaches(g, a, b) && Edge(g, b, c)
    ensures Reaches(g, a, c)
  {
    var p :| Path(g, p) && p[0] == a && p[|p| - 1] == b;
    var q := p + [c];
    forall i | 0 <= i < |q| - 1 ensures Edge(g, q[i], q[i + 1]) {
      if i < |p| - 1 {
        assert Edge(g, p[i], p[i + 1]);
      }
    }
    assert Path(g, q);
  }

  lemma {:induction false} ClosedReach(g: Graph, all: set<Node>, p: seq<Node>)
    requires Path(g, p) && p[0] in all
    requires forall x, d :: x in all && Edge(g, x, d) ==> d in all
    ensures p[|p| - 1] in all
    decreases |p|
  {
    if |p| > 1 {
      assert Edge(g, p[0], p[0 + 1]);
      forall i | 0 <= i < |p| - 2 ensures Edge(g, p[1..][i], p[1..][i + 1]) {
        assert Edge(g, p[i + 1], p[i + 1 + 1]);
      }
      ClosedReach(g, all, p[1..]);
    }
  }

  // ---------------------------------------------------------------- the invariant of the walk

  /** Entered but not yet emitted: the modules on the call stack. */
  ghost function Open(s: Progress): set<Node> {
    s.visited - Elements(s.order)
  }

  /** At position `i` of the order everything the module needs comes before, or needs the module itself. */
  ghost predicate InPlace(g: Graph, order: seq<Node>, i: nat)
    requires i < |order|
  {
    forall d :: Edge(g, order[i], d) ==> d in order[..i] || Reaches(g, d, order[i])
  }

  ghost predicate Inv(g: Graph, root: Node, s: Progress) {
    && Elements(s.order) <= s.visited
    && (forall i, j :: 0 <= i < j < |s.order| ==> s.order[i] != s.order[j])
    && (forall x :: x in s.visited ==> x in g.deps && Reaches(g, root, x))
    && (forall x, d :: x in s.order && Edge(g, x, d) ==> d in s.visited)
    && (forall i :: 0 <= i < |s.order| ==> InPlace(g, s.order, i))
  }

  ghost predicate OpenReach(g: Graph, s: Progress, m: Node) {
    forall x :: x in Open(s) ==> Reaches(g, x, m)
  }

  lemma EmitInv(g: Graph, root: Node, s: Progress, m: Node)
    requires Inv(g, root, s) && m in Open(s) && OpenReach(g, s, m)
    requires forall d :: Edge(g, m, d) ==> d in s.visited
    ensures Inv(g, root, Progress(s.visited, s.order + [m]))
    ensures Open(Progress(s.visited, s.order + [m])) == Open(s) - {m}
  {
    var t := Progress(s.visited, s.order + [m]);
    assert Elements(t.order) == Elements(s.order) + {m};
    forall i | 0 <= i < |t.order| ensures InPlace(g, t.order, i) {
      if i < |s.order| {
        assert InPlace(g, s.order, i) && t.order[..i] == s.order[..i];
      } else {
        assert t.order[..i] == s.order;
        forall d | Edge(g, m, d) ensures d in s.order || Reaches(g, d, m) {
          assert d in Elements(s.order) || d in Open(s);
        }
      }
    }
    forall x, d | x in t.order && Edge(g, x, d) ensures d in t.visited {
      assert x in s.order || x == m;
    }
  }

  lemma {:induction false} VisitInv(g: Graph, root: Node, s: Progress, m: Node)
    requires g.Closed() && m in g.deps && Inv(g, root, s) && Reaches(g, root, m) && OpenReach(g, s, m)
    ensures var t := Visit(g, s, m); Inv(g, root, t) && Open(t) == Open(s)
    decreases |g.deps.Keys - s.visited|, 0
  {
    if m !in s.visited {
      OneFewerLeft(g.deps.Keys, s.visited, s.visited + {m}, m);
      var s0 := Progress(s.visited + {m}, s.order);
      assert Open(s0) == Open(s) + {m};
      EnterInv(g, root, s, m);
      DependenciesDue(g, root, s, m);
      VisitAllInv(g, root, s0, g.deps[m]);
      LeaveInv(g, root, s, VisitAll(g, s0, g.deps[m]), m);
    }
  }

  /** A module that is emitted leaves the call stack as it was before it was entered. */
  lemma LeaveInv(g: Graph, root: Node, s: Progress, t: Progress, m: Node)
    requires Inv(g, root, t) && Open(t) == Open(s) + {m} && m !in s.visited && OpenReach(g, s, m)
    requires forall d :: Edge(g, m, d) ==> d in t.visited
    ensures var u := Progress(t.visited, t.order + [m]); Inv(g, root, u) && Open(u) == Open(s)
  {
    ReachesSelf(g, m);
    EmitInv(g, root, t, m);
  }

  lemma EnterInv(g: Graph, root: Node, s: Progress, m: Node)
    requires Inv(g, root, s) && m in g.deps && Reaches(g, root, m)
    ensures Inv(g, root, Progress(s.visited + {m}, s.order))
  {
  }

  /** Whoever is on the call stack needs the dependencies of the module that is entered. */
  lemma DependenciesDue(g: Graph, root: Node, s: Progress, m: Node)
    requires g.Closed() && m in g.deps && Reaches(g, root, m) && OpenReach(g, s, m)
    ensures forall d :: d in g.deps[m] ==> Due(g, root, Open(s) + {m}, d)
  {
    ReachesSelf(g, m);
    forall d | d in g.deps[m] ensures Due(g, root, Open(s) + {m}, d) {
      assert Edge(g, m, d);
      ReachesStep(g, root, m, d);
      forall x | x in Open(s) + {m} ensures Reaches(g, x, d) {
        ReachesStep(g, x, m, d);
      }
    }
  }

  /** `d` may be visited: it belongs to the bundle, and the modules on the call stack need it. */
  ghost predicate Due(g: Graph, root: Node, open: set<Node>, d: Node) {
    d in g.deps && Reaches(g, root, d) && forall x :: x in open ==> Reaches(g, x, d)
  }

  lemma {:induction false} VisitAllInv(g: Graph, root: Node, s: Progress, ds: seq<Node>)
    requires g.Closed() && (forall d :: d in ds ==> d in g.deps) && (forall d :: d in ds ==> Due(g, root, Open(s), d))
    requires Inv(g, root, s)
    ensures var t := VisitAll(g, s, ds); Inv(g, root, t) && Open(t) == Open(s)
    decreases |g.deps.Keys - s.visited|, 1, |ds|
  {
    if ds != [] {
      assert Due(g, root, Open(s), ds[0]);
      VisitInv(g, root, s, ds[0]);
      var s1 := Visit(g, s, ds[0]);
      FewerLeft(g.deps.Keys, s.visited, s1.visited);
      forall d | d in ds[1..] ensures Due(g, root, Open(s1), d) {
        assert Due(g, root, Open(s), d);
      }
      VisitAllInv(g, root, s1, ds[1..]);
    }
  }

  // ---------------------------------------------------------------- results

  lemma {:induction false} OrderInv(g: Graph, root: Node)
    requires g.Closed() && root in g.deps
    ensures Inv(g, root, Visit(g, Progress({}, []), root)) && Open(Visit(g, Progress({}, []), root)) == {}
  {
    ReachesSelf(g, root);
    VisitInv(g, root, Progress({}, []), root);
  }

  /** Every module reachable from the root is emitted exactly once, and nothing else is. */
  lemma OrderIsReachable(g: Graph, root: Node)
    requires g.Closed() && root in g.deps
    ensures forall x :: x in Order(g, root) <==> Reaches(g, root, x)
    ensures forall i, j :: 0 <= i < j < |Order(g, root)| ==> Order(g, root)[i] != Order(g, root)[j]
  {
    OrderInv(g, root);
    var t := Visit(g, Progress({}, []), root);
    var all := Elements(t.order);
    forall x | x in t.visited ensures x in all {
      assert x !in Open(t);
    }
    assert t.visited == all;
    forall x | Reaches(g, root, x) ensures x in t.order {
      var p :| Path(g, p) && p[0] == root && p[|p| - 1] == x;
      ClosedReach(g, all, p);
    }
  }

  /** A dependency that does not need its dependent back is emitted before it. */
  lemma DependenciesFirst(g: Graph, root: Node, i: nat, d: Node)
    requires g.Closed() && root in g.deps && i < |Order(g, root)|
    requires Edge(g, Order(g, root)[i], d) && !Reaches(g, d, Order(g, root)[i])
    ensures exists j :: 0 <= j < i && Order(g, root)[j] == d
  {
    OrderInv(g, root);
    assert InPlace(g, Order(g, root), i);
    assert d in Order(g, root)[..i];
  }

  // ---------------------------------------------------------------- what one visit enters

  /** `b` can be reached from `a` without going through a module of `avoid`. */
  ghost predicate ReachesAvoiding(g: Graph, avoid: set<Node>, a: Node, b: Node) {
    exists p :: Path(g, p) && p[0] == a && p[|p| - 1] == b && forall i :: 0 <= i < |p| ==> p[i] !in avoid
  }

  lemma AvoidLess(g: Graph, avoid: set<Node>, more: set<Node>, a: Node, b: Node)
    requires avoid <= more && ReachesAvoiding(g, more, a, b)
    ensures ReachesAvoiding(g, avoid, a, b)
  {
  }

  lemma AvoidStep(g: Graph, avoid: set<Node>, a: Node, b: Node, c: Node)
    requires Edge(g, a, b) && a !in avoid && ReachesAvoiding(g, avoid, b, c)
    ensures ReachesAvoiding(g, avoid, a, c)
  {
    var p :| Path(g, p) && p[0] == b && p[|p| - 1] == c && forall i :: 0 <= i < |p| ==> p[i] !in avoid;
    var q := [a] + p;
    forall i | 0 <= i < |q| - 1 ensures Edge(g, q[i], q[i + 1]) {
      if i > 0 {
        assert Edge(g, p[i - 1], p[i - 1 + 1]);
      }
    }
    assert Path(g, q) && q[0] == a && q[|q| - 1] == c;
  }

  /** Some dependency of the list leads to `x` through what was not visited. */
  ghost predicate LeadsTo(g: Graph, visited: set<Node>, ds: seq<Node>, x: Node) {
    exists k :: 0 <= k < |ds| && ReachesAvoiding(g, visited, ds[k], x)
  }

  lemma {:induction false} VisitEnters(g: Graph, s: Progress, m: Node)
    requires g.Closed() && m in g.deps
    ensures forall x :: x in Visit(g, s, m).visited - s.visited ==> ReachesAvoiding(g, s.visited, m, x)
    decreases |g.deps.Keys - s.visited|, 0
  {
    if m !in s.visited {
      var s0 := Progress(s.visited + {m}, s.order);
      OneFewerLeft(g.deps.Keys, s.visited, s.visited + {m}, m);
      VisitAllEnters(g, s0, g.deps[m]);
      forall x | x in Visit(g, s, m).visited - s.visited ensures ReachesAvoiding(g, s.visited, m, x) {
        if x == m {
          assert Path(g, [m]);
        } else {
          EnteredBelow(g, s.visited, m, x);
        }
      }
    }
  }

  lemma EnteredBelow(g: Graph, visited: set<Node>, m: Node, x: Node)
    requires m in g.deps && m !in visited && LeadsTo(g, visited + {m}, g.deps[m], x)
    ensures ReachesAvoiding(g, visited, m, x)
  {
    var k :| 0 <= k < |g.deps[m]| && ReachesAvoiding(g, visited + {m}, g.deps[m][k], x);
    AvoidLess(g, visited, visited + {m}, g.deps[m][k], x);
    AvoidStep(g, visited, m, g.deps[m][k], x);
  }

  lemma {:induction false} VisitAllEnters(g: Graph, s: Progress, ds: seq<Node>)
    requires g.Closed() && forall d :: d in ds ==> d in g.deps
    ensures forall x :: x in VisitAll(g, s, ds).visited - s.visited ==> LeadsTo(g, s.visited, ds, x)
    decreases |g.deps.Keys - s.visited|, 1, |ds|
  {
    if ds != [] {
      var s1 := Visit(g, s, ds[0]);
      FewerLeft(g.deps.Keys, s.visited, s1.visited);
      VisitEnters(g, s, ds[0]);
      VisitAllEnters(g, s1, ds[1..]);
      forall x | x in VisitAll(g, s, ds).visited - s.visited ensures LeadsTo(g, s.visited, ds, x) {
        if x in s1.visited {
          assert ReachesAvoiding(g, s.visited, ds[0], x);
        } else {
          assert LeadsTo(g, s1.visited, ds[1..], x);
          var k :| 0 <= k < |ds[1..]| && ReachesAvoiding(g, s1.visited, ds[1..][k], x);
          AvoidLess(g, s.visited, s1.visited, ds[k + 1], x);
        }
      }
    }
  }

  /** What a visit enters leads to nothing that is left out. */
  lemma {:induction false} VisitCloses(g: Graph, s: Progress, m: Node)
    requires g.Closed() && m in g.deps
    ensures var t := Visit(g, s, m); forall x, d :: x in t.visited - s.visited && Edge(g, x, d) ==> d in t.visited
    decreases |g.deps.Keys - s.visited|, 0
  {
    if m !in s.visited {
      OneFewerLeft(g.deps.Keys, s.visited, s.visited + {m}, m);
      VisitAllCloses(g, Progress(s.visited + {m}, s.order), g.deps[m]);
    }
  }

  lemma {:induction false} VisitAllCloses(g: Graph, s: Progress, ds: seq<Node>)
    requires g.Closed() && forall d :: d in ds ==> d in g.deps
    ensures var t := VisitAll(g, s, ds); forall x, d :: x in t.visited - s.visited && Edge(g, x, d) ==> d in t.visited
    decreases |g.deps.Keys - s.visited|, 1, |ds|
  {
    if ds != [] {
      var s1 := Visit(g, s, ds[0]);
      FewerLeft(g.deps.Keys, s.visited, s1.visited);
      VisitCloses(g, s, ds[0]);
      VisitAllCloses(g, s1, ds[1..]);
    }
  }

  lemma {:induction false} AvoidingPathIsEntered(g: Graph, s: Progress, t: Progress, p: seq<Node>)
    requires Path(g, p) && p[0] in t.visited && forall i :: 0 <= i < |p| ==> p[i] !in s.visited
    requires forall x, d :: x in t.visited - s.visited && Edge(g, x, d) ==> d in t.visited
    ensures p[|p| - 1] in t.visited
    decreases |p|
  {
    if |p| > 1 {
      assert Edge(g, p[0], p[0 + 1]);
      forall i | 0 <= i < |p| - 2 ensures Edge(g, p[1..][i], p[1..][i + 1]) {
        assert Edge(g, p[i + 1], p[i + 1 + 1]);
      }
      AvoidingPathIsEntered(g, s, t, p[1..]);
    }
  }

  /** A visit enters exactly what can be reached through modules that were not visited before. */
  lemma EntersUnvisited(g: Graph, s: Progress, m: Node, x: Node)
    requires g.Closed() && m in g.deps
    ensures x in Visit(g, s, m).visited <==> x in s.visited || ReachesAvoiding(g, s.visited, m, x)
  {
    VisitEnters(g, s, m);
    VisitCloses(g, s, m);
    if ReachesAvoiding(g, s.visited, m, x) {
      var p :| Path(g, p) && p[0] == m && p[|p| - 1] == x && forall i :: 0 <= i < |p| ==> p[i] !in s.visited;
      AvoidingPathIsEntered(g, s, Visit(g, s, m), p);
    }
  }

  // ---------------------------------------------------------------- the order among dependencies

  lemma {:induction false} VisitOpens(g: Graph, s: Progress, m: Node)
    requires g.Closed() && m in g.deps && Elements(s.order) <= s.visited
    ensures var t := Visit(g, s, m); Elements(t.order) <= t.visited && Open(t) == Open(s)
    decreases |g.deps.Keys - s.visited|, 0
  {
    if m !in s.visited {
      var s0 := Progress(s.visited + {m}, s.order);
      OneFewerLeft(g.deps.Keys, s.visited, s.visited + {m}, m);
      VisitAllOpens(g, s0, g.deps[m]);
      EmitOpens(s, m, VisitAll(g, s0, g.deps[m]));
    }
  }

  lemma EmitOpens(s: Progress, m: Node, t: Progress)
    requires Elements(s.order) <= s.visited && m !in s.visited && Elements(t.order) <= t.visited && m in t.visited
    requires Open(t) == Open(Progress(s.visited + {m}, s.order))
    ensures var u := Progress(t.visited, t.order + [m]); Elements(u.order) <= u.visited && Open(u) == Open(s)
  {
    assert Elements(t.order + [m]) == Elements(t.order) + {m};
    assert Open(Progress(s.visited + {m}, s.order)) == Open(s) + {m};
  }

  lemma {:induction false} VisitAllOpens(g: Graph, s: Progress, ds: seq<Node>)
    requires g.Closed() && (forall d :: d in ds ==> d in g.deps) && Elements(s.order) <= s.visited
    ensures var t := VisitAll(g, s, ds); Elements(t.order) <= t.visited && Open(t) == Open(s)
    decreases |g.deps.Keys - s.visited|, 1, |ds|
  {
    if ds != [] {
      VisitOpens(g, s, ds[0]);
      var s1 := Visit(g, s, ds[0]);
      FewerLeft(g.deps.Keys, s.visited, s1.visited);
      VisitAllOpens(g, s1, ds[1..]);
    }
  }

  lemma {:induction false} VisitAllConcat(g: Graph, s: Progress, a: seq<Node>, b: seq<Node>)
    requires g.Closed() && (forall d :: d in a ==> d in g.deps) && (forall d :: d in b ==> d in g.deps)
    ensures VisitAll(g, s, a + b) == VisitAll(g, VisitAll(g, s, a), b)
    decreases |a|
  {
    if a == [] {
      assert a + b == b;
    } else {
      assert (a + b)[0] == a[0] && (a + b)[1..] == a[1..] + b;
      VisitAllConcat(g, Visit(g, s, a[0]), a[1..], b);
    }
  }

  ghost predicate Before(order: seq<Node>, a: Node, b: Node) {
    exists p, q :: 0 <= p < q < |order| && order[p] == a && order[q] == b
  }

  lemma LaterInExtension(before: seq<Node>, after: seq<Node>, a: Node, b: Node)
    requires before <= after && a in before && b !in before && b in after
    ensures Before(after, a, b)
  {
    var p :| 0 <= p < |before| && before[p] == a;
    assert forall k :: 0 <= k < |before| ==> after[k] == before[k] && before[k] != b;
    var q :| 0 <= q < |after| && after[q] == b;
  }

  /** Of a list of dependencies that is visited, one that is not on the call stack is emitted before a later one that
      is not reached by then. */
  lemma ListOrder(g: Graph, s: Progress, ds: seq<Node>, i: nat, j: nat)
    requires g.Closed() && (forall d :: d in ds ==> d in g.deps) && Elements(s.order) <= s.visited
    requires i < j < |ds| && ds[i] !in Open(s) && ds[j] !in s.visited
    requires forall k :: 0 <= k <= i ==> !ReachesAvoiding(g, s.visited, ds[k], ds[j])
    ensures Before(VisitAll(g, s, ds).order, ds[i], ds[j])
  {
    var front, back := ds[..i + 1], ds[i + 1..];
    assert ds == front + back && ds[i] == front[i] && ds[j] == back[j - i - 1];
    VisitAllConcat(g, s, front, back);
    var s1 := VisitAll(g, s, front);
    var t := VisitAll(g, s1, back);
    VisitAllOpens(g, s, front);
    VisitAllOpens(g, s1, back);
    VisitAllEnters(g, s, front);
    VisitAllExtends(g, s1, back);
    assert front[i] in front && back[j - i - 1] in back;
    assert ds[i] in s1.order by { assert ds[i] in s1.visited; }
    forall k | 0 <= k < |front| ensures !ReachesAvoiding(g, s.visited, front[k], ds[j]) {
      assert front[k] == ds[k];
    }
    assert !LeadsTo(g, s.visited, front, ds[j]) && ds[j] !in s1.visited;
    assert ds[j] in t.order by { assert ds[j] in t.visited && ds[j] !in Open(t); }
    assert forall x :: x in s1.order ==> x in Elements(s1.order);
    LaterInExtension(s1.order, t.order, ds[i], ds[j]);
  }

  /** The dependencies of a module that is entered are emitted in the order of its list: one that is not on the call
      stack comes before a later one that was not visited yet and is not needed, through what was not visited, by any
      dependency up to the first one. */
  lemma DependenciesInOrder(g: Graph, s: Progress, m: Node, i: nat, j: nat)
    requires g.Closed() && m in g.deps && m !in s.visited && Elements(s.order) <= s.visited
    requires i < j < |g.deps[m]| && g.deps[m][i] != m && g.deps[m][i] !in Open(s)
    requires g.deps[m][j] != m && g.deps[m][j] !in s.visited
    requires forall k :: 0 <= k <= i ==> !ReachesAvoiding(g, s.visited + {m}, g.deps[m][k], g.deps[m][j])
    ensures Before(Visit(g, s, m).order, g.deps[m][i], g.deps[m][j])
  {
    var s0, ds := Progress(s.visited + {m}, s.order), g.deps[m];
    assert Open(s0) <= Open(s) + {m};
    ListOrder(g, s0, ds, i, j);
    var order := VisitAll(g, s0, ds).order;
    var p, q :| 0 <= p < q < |order| && order[p] == ds[i] && order[q] == ds[j];
    assert (order + [m])[p] == ds[i] && (order + [m])[q] == ds[j];
  }

  /** The dependencies of the root are emitted in the order of its list, except for one that an earlier one needs. */
  lemma RootDependenciesInOrder(g: Graph, root: Node, i: nat, j: nat)
    requires g.Closed() && root in g.deps && i < j < |g.deps[root]| && g.deps[root][i] != root
    requires forall k :: 0 <= k <= i ==> !Reaches(g, g.deps[root][k], g.deps[root][j])
    ensures Before(Order(g, root), g.deps[root][i], g.deps[root][j])
  {
    var s := Progress({}, []);
    var a, b := g.deps[root][i], g.deps[root][j];
    if b == root {
      var order := Order(g, root);
      var s1 := VisitAll(g, Progress({root}, []), g.deps[root]);
      assert s.visited + {root} == {root} && order == s1.order + [root];
      ReachesSelf(g, root);
      assert Edge(g, root, a);
      ReachesStep(g, root, root, a);
      OrderIsReachable(g, root);
      var p :| 0 <= p < |order| && order[p] == a;
      assert order[|order| - 1] == root;
    } else {
      forall k | 0 <= k <= i ensures !ReachesAvoiding(g, s.visited + {root}, g.deps[root][k], b) {
        assert !Reaches(g, g.deps[root][k], b);
      }
      DependenciesInOrder(g, s, root, i, j);
    }
  }
}
