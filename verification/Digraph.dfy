/**
  Graphs in which every node has at most one successor: the shape of the
  `depends_on` column.  A graph is the map from a task id to the id it waits for.
 */
module Digraph {
  import opened Wrappers

  type Id = nat
  type Graph = map<Id, Id>

  /** The node `n` steps after `u`, or `None` when the chain ends earlier. */
  ghost function Walk(g: Graph, u: Id, n: nat): Option<Id>
    decreases n
  {
    if n == 0 then Some(u)
    else if u in g then Walk(g, g[u], n - 1)
    else None
  }

  ghost predicate Reaches(g: Graph, u: Id, v: Id) {
    exists n: nat :: Walk(g, u, n) == Some(v)
  }

  ghost predicate OnCycle(g: Graph, u: Id) {
    u in g && Reaches(g, g[u], u)
  }

  ghost predicate Acyclic(g: Graph) {
    forall u :: !OnCycle(g, u)
  }

  ghost predicate Closed(g: Graph, s: iset<Id>) {
    forall x :: x in s && x in g ==> g[x] in s
  }

  // ---- Reachability ----

  lemma ReachesSelf(g: Graph, u: Id)
    ensures Reaches(g, u, u)
  {
    assert Walk(g, u, 0) == Some(u);
  }

  lemma ReachesUnfold(g: Graph, u: Id, v: Id)
    ensures Reaches(g, u, v) <==> u == v || (u in g && Reaches(g, g[u], v))
  {
    if Reaches(g, u, v) && u != v {
      var n: nat :| Walk(g, u, n) == Some(v);
      assert Walk(g, g[u], n - 1) == Some(v);
    }
    if u in g && Reaches(g, g[u], v) {
      var n: nat :| Walk(g, g[u], n) == Some(v);
      assert Walk(g, u, n + 1) == Some(v);
    }
    if u == v { ReachesSelf(g, u); }
  }

  lemma {:induction false} WalkCompose(g: Graph, u: Id, v: Id, m: nat, n: nat)
    requires Walk(g, u, m) == Some(v)
    ensures Walk(g, u, m + n) == Walk(g, v, n)
    decreases m
  {
    if m > 0 { WalkCompose(g, g[u], v, m - 1, n); }
  }

  lemma ReachesTransitive(g: Graph, u: Id, v: Id, w: Id)
    requires Reaches(g, u, v) && Reaches(g, v, w)
    ensures Reaches(g, u, w)
  {
    var m: nat :| Walk(g, u, m) == Some(v);
    var n: nat :| Walk(g, v, n) == Some(w);
    WalkCompose(g, u, v, m, n);
    assert Walk(g, u, m + n) == Some(w);
  }

  /** A successor-closed set keeps everything it reaches. */
  lemma {:induction false} ClosedKeepsWalk(g: Graph, s: iset<Id>, u: Id, n: nat)
    requires Closed(g, s) && u in s
    ensures Walk(g, u, n).Some? ==> Walk(g, u, n).value in s
    decreases n
  {
    if n > 0 && u in g { ClosedKeepsWalk(g, s, g[u], n - 1); }
  }

  lemma ClosedKeepsReach(g: Graph, s: iset<Id>, u: Id, v: Id)
    requires Closed(g, s) && u in s && Reaches(g, u, v)
    ensures v in s
  {
    var n: nat :| Walk(g, u, n) == Some(v);
    ClosedKeepsWalk(g, s, u, n);
  }

  // ---- Two graphs that agree on a closed part ----

  ghost predicate AgreeOn(g: Graph, h: Graph, s: iset<Id>) {
    forall x :: x in s ==> (x in g <==> x in h) && (x in g ==> g[x] == h[x])
  }

  lemma {:induction false} AgreeingWalks(g: Graph, h: Graph, s: iset<Id>, u: Id, n: nat)
    requires Closed(g, s) && AgreeOn(g, h, s) && u in s
    ensures Walk(g, u, n) == Walk(h, u, n)
    decreases n
  {
    if n > 0 && u in g { AgreeingWalks(g, h, s, g[u], n - 1); }
  }

  lemma AgreeingReach(g: Graph, h: Graph, s: iset<Id>, u: Id, v: Id)
    requires Closed(g, s) && AgreeOn(g, h, s) && u in s
    ensures Reaches(g, u, v) <==> Reaches(h, u, v)
  {
    forall n: nat ensures Walk(g, u, n) == Walk(h, u, n) { AgreeingWalks(g, h, s, u, n); }
  }

  lemma AgreeingCycles(g: Graph, h: Graph, s: iset<Id>, u: Id)
    requires Closed(g, s) && AgreeOn(g, h, s) && u in s
    ensures OnCycle(g, u) <==> OnCycle(h, u)
  {
    if u in g { AgreeingReach(g, h, s, g[u], u); }
  }

  // ---- Changing one edge ----

  ghost predicate AgreeExceptAt(g: Graph, h: Graph, id: Id) {
    forall x :: x != id ==> (x in g <==> x in h) && (x in g ==> g[x] == h[x])
  }

  /** Whether `u` reaches `id` does not depend on the edge that leaves `id`. */
  lemma {:induction false} ReachIgnoresOwnEdge(g: Graph, h: Graph, id: Id, u: Id, n: nat)
    requires AgreeExceptAt(g, h, id)
    requires Walk(g, u, n) == Some(id)
    ensures Reaches(h, u, id)
    decreases n
  {
    if u == id {
      ReachesSelf(h, id);
    } else {
      ReachIgnoresOwnEdge(g, h, id, g[u], n - 1);
      ReachesUnfold(h, u, id);
    }
  }

  lemma ReachIsUnaffected(g: Graph, h: Graph, id: Id, u: Id)
    requires AgreeExceptAt(g, h, id)
    ensures Reaches(g, u, id) <==> Reaches(h, u, id)
  {
    if Reaches(g, u, id) {
      var n: nat :| Walk(g, u, n) == Some(id);
      ReachIgnoresOwnEdge(g, h, id, u, n);
    }
    if Reaches(h, u, id) {
      var n: nat :| Walk(h, u, n) == Some(id);
      ReachIgnoresOwnEdge(h, g, id, u, n);
    }
  }

  /** Everything reached from a cycle lies on it. */
  lemma {:induction false} CycleIsClosed(g: Graph, u: Id, v: Id, n: nat)
    requires OnCycle(g, u) && Walk(g, u, n) == Some(v)
    ensures OnCycle(g, v)
    decreases n
  {
    if n > 0 {
      var w := g[u];
      ReachesUnfold(g, w, u);
      if w != u {
        ReachesUnfold(g, u, w);
        ReachesSelf(g, w);
        ReachesTransitive(g, g[w], u, w);
      }
      CycleIsClosed(g, w, v, n - 1);
    }
  }

  /** A graph minus one node's edge that has a cycle the full graph has too. */
  lemma CycleAwayFrom(g: Graph, h: Graph, id: Id, u: Id)
    requires AgreeExceptAt(g, h, id)
    requires OnCycle(g, u) && !Reaches(g, u, id)
    ensures OnCycle(h, u)
  {
    var s := iset x | !Reaches(g, x, id);
    forall x | x in s && x in g ensures g[x] in s { ReachesUnfold(g, x, id); }
    ReachesSelf(g, id);
    AgreeingCycles(g, h, s, u);
  }

  /**
    Pointing `id` at `target` keeps an acyclic graph acyclic exactly when
    `target` does not already lead to `id`.
   */
  lemma SetEdgeAcyclic(g: Graph, id: Id, target: Id)
    requires Acyclic(g)
    ensures Acyclic(g[id := target]) <==> !Reaches(g, target, id)
  {
    var h := g[id := target];
    ReachIsUnaffected(g, h, id, target);
    if Reaches(g, target, id) {
      assert OnCycle(h, id);
    } else {
      forall u ensures !OnCycle(h, u) {
        if OnCycle(h, u) {
          if Reaches(h, u, id) {
            var n: nat :| Walk(h, u, n) == Some(id);
            CycleIsClosed(h, u, id, n);
          } else {
            CycleAwayFrom(h, g, id, u);
          }
        }
      }
    }
  }

  /** Dropping the edge of one node never creates a cycle. */
  lemma DropEdgeAcyclic(g: Graph, id: Id)
    requires Acyclic(g)
    ensures Acyclic(g - {id})
  {
    var h := g - {id};
    forall u ensures !OnCycle(h, u) {
      if OnCycle(h, u) {
        if Reaches(h, u, id) {
          var n: nat :| Walk(h, u, n) == Some(id);
          CycleIsClosed(h, u, id, n);
        } else {
          CycleAwayFrom(h, g, id, u);
        }
      }
    }
  }

  // ---- A certificate ----

  lemma {:induction false} RankDropsAlongWalk(g: Graph, rank: Id -> nat, u: Id, v: Id, n: nat)
    requires forall x :: x in g ==> rank(g[x]) < rank(x)
    requires Walk(g, u, n) == Some(v)
    ensures rank(v) + n <= rank(u)
    decreases n
  {
    if n > 0 { RankDropsAlongWalk(g, rank, g[u], v, n - 1); }
  }

  /** A graph whose edges all lower some rank has no cycle. */
  lemma RankedIsAcyclic(g: Graph, rank: Id -> nat)
    requires forall x :: x in g ==> rank(g[x]) < rank(x)
    ensures Acyclic(g)
  {
    forall u ensures !OnCycle(g, u) {
      if OnCycle(g, u) {
        var n: nat :| Walk(g, g[u], n) == Some(u);
        RankDropsAlongWalk(g, rank, g[u], u, n);
      }
    }
  }
}
