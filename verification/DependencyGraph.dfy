/**
  The two graph searches of the store, and what they decide: the pointer chase
  that asks whether one task leads to another, and the coloured depth-first
  search that rejects a cyclic project.
 */
module DependencyGraph {
  import opened Wrappers
  import opened Digraph
  import opened Tasks

  // ---- The invariant of the dependency columns ----

  /** Tasks without a project count as one project: those of a deleted project keep their targets. */
  ghost predicate EdgeStaysInProject(rows: Rows, id: Id, target: Id)
    requires id in rows
  {
    && rows[id].mergeOf.None?
    && target in rows
    && rows[target].mergeOf.None?
    && rows[target].project == rows[id].project
  }

  ghost predicate EdgesStayInProject(rows: Rows) {
    forall id :: id in rows && rows[id].dependsOn.Some?
                 ==> EdgeStaysInProject(rows, id, rows[id].dependsOn.value)
  }

  /** A row has a target only under an automatic or an explicit dependency. */
  ghost predicate ModesMatchTargets(rows: Rows) {
    forall id :: id in rows ==>
                   && !rows[id].mode.UnknownMode?
                   && (rows[id].dependsOn.Some? ==> rows[id].mode.Weak? || rows[id].mode.Strong?)
  }

  ghost predicate Sound(rows: Rows) {
    && EdgesStayInProject(rows)
    && ModesMatchTargets(rows)
    && Acyclic(Dependencies(rows))
  }

  // ---- One project's part of the graph ----

  predicate InProject(rows: Rows, project: Id, id: Id) {
    id in rows && rows[id].project == Some(project) && rows[id].mergeOf.None?
  }

  function ProjectDependencies(rows: Rows, project: Id): (g: Graph) {
    map id | id in rows && InProject(rows, project, id) && rows[id].dependsOn.Some? :: rows[id].dependsOn.value
  }

  /**
    When every edge stays in its project and only one project's edges changed,
    checking that project alone is enough for the whole table.
   */
  lemma ProjectCheckSuffices(before: Rows, after: Rows, project: Id)
    requires Acyclic(Dependencies(before))
    requires EdgesStayInProject(after)
    requires forall id :: id in after && !InProject(after, project, id) && after[id].dependsOn.Some?
                          ==> id in before && before[id].dependsOn == after[id].dependsOn
    requires Acyclic(ProjectDependencies(after, project))
    ensures Acyclic(Dependencies(after))
  {
    var g, h, p := Dependencies(before), Dependencies(after), ProjectDependencies(after, project);
    forall u ensures !OnCycle(h, u) {
      if OnCycle(h, u) {
        if InProject(after, project, u) {
          var inside := iset x: Id | InProject(after, project, x);
          AgreeingCycles(h, p, inside, u);
        } else {
          CycleElsewhere(g, h, after, project, u);
        }
      }
    }
  }

  lemma {:induction false} WalkElsewhere(g: Graph, h: Graph, after: Rows, project: Id, u: Id, n: nat)
    requires h == Dependencies(after) && EdgesStayInProject(after)
    requires forall id :: id in h && !InProject(after, project, id) ==> id in g && g[id] == h[id]
    requires !InProject(after, project, u) && Walk(h, u, n).Some?
    ensures Walk(g, u, n) == Walk(h, u, n)
    decreases n
  {
    if n > 0 { WalkElsewhere(g, h, after, project, h[u], n - 1); }
  }

  lemma CycleElsewhere(g: Graph, h: Graph, after: Rows, project: Id, u: Id)
    requires h == Dependencies(after) && EdgesStayInProject(after)
    requires forall id :: id in h && !InProject(after, project, id) ==> id in g && g[id] == h[id]
    requires !InProject(after, project, u) && OnCycle(h, u)
    ensures OnCycle(g, u)
  {
    var n: nat :| Walk(h, h[u], n) == Some(u);
    WalkElsewhere(g, h, after, project, h[u], n);
    assert Walk(g, g[u], n) == Some(u);
  }

  // ---- Does one task lead to another? ----

  /** Follows `depends_on` from `start`, stopping at `wanted`, at a gap or at a repeat. */
  method DependencyReaches(rows: Rows, start: Id, wanted: Id) returns (reaches: bool)
    requires wanted > 0 && 0 !in rows
    ensures reaches <==> Reaches(Dependencies(rows), start, wanted)
  {
    ghost var g := Dependencies(rows);
    var seen: set<Id> := {};
    var current := start;
    while current > 0
      invariant seen <= rows.Keys && wanted !in seen
      invariant Reaches(g, start, wanted) <==> Reaches(g, current, wanted)
      invariant forall x :: x in seen ==> x in g && (g[x] in seen || g[x] == current)
      decreases rows.Keys - seen
    {
      ReachesUnfold(g, current, wanted);
      if current == wanted { return true; }
      if current in seen {
        if Reaches(g, current, wanted) {
          ClosedKeepsReach(g, (iset x: Id | x in seen), current, wanted);
        }
        return false;
      }
      seen := seen + {current};
      if current !in rows || rows[current].dependsOn.None? { return false; }
      current := rows[current].dependsOn.value;
    }
    ReachesUnfold(g, current, wanted);
    return false;
  }

  // ---- Is one project's graph free of cycles? ----

  datatype Colour = Visiting | Done

  type Colouring = map<Id, Colour>

  ghost predicate IsVisiting(c: Colouring, x: Id) { x in c && c[x].Visiting? }

  ghost predicate IsDone(c: Colouring, x: Id) { x in c && c[x].Done? }

  /** The search state that one validation shares between its recursive visits. */
  class CycleSearch {
    const edges: Graph
    var colour: Colouring

    ghost function Nodes(): set<Id> {
      edges.Keys + edges.Values
    }

    /** Finished nodes lead only to finished nodes, and never back to themselves. */
    ghost predicate Valid()
      reads this
    {
      forall x :: IsDone(colour, x) ==> !OnCycle(edges, x) && (x in edges ==> IsDone(colour, edges[x]))
    }

    /** Every node under way leads, in at least one step, to `id`. */
    ghost predicate OnPathTo(id: Id)
      reads this
    {
      forall x :: IsVisiting(colour, x) ==> x in edges && Reaches(edges, edges[x], id)
    }

    constructor (edges: Graph)
      ensures this.edges == edges && colour == map[]
      ensures Valid()
    {
      this.edges := edges;
      colour := map[];
    }

    method Visit(id: Id) returns (ok: bool)
      requires Valid() && OnPathTo(id) && id in Nodes()
      modifies this`colour
      ensures ok ==> Valid() && IsDone(colour, id)
      ensures ok ==> forall x :: IsVisiting(colour, x) <==> IsVisiting(old(colour), x)
      ensures ok ==> forall x :: IsDone(old(colour), x) ==> IsDone(colour, x)
      ensures !ok ==> !Acyclic(edges)
      decreases Nodes() - colour.Keys
    {
      if id in colour {
        assert colour[id].Visiting? ==> OnCycle(edges, id);
        return colour[id].Done?;
      }
      colour := colour[id := Visiting];
      if id in edges {
        var next := edges[id];
        forall x | IsVisiting(colour, x) ensures x in edges && Reaches(edges, edges[x], next) {
          if x == id {
            ReachesSelf(edges, next);
          } else {
            assert IsVisiting(old(colour), x);
            ReachesSelf(edges, next);
            ReachesUnfold(edges, id, next);
            ReachesTransitive(edges, edges[x], id, next);
          }
        }
        var finished := Visit(next);
        if !finished { return false; }
        assert IsVisiting(colour, id);
        if OnCycle(edges, id) {
          ClosedKeepsReach(edges, (iset x: Id | IsDone(colour, x)), next, id);
        }
      }
      ghost var reached := colour;
      colour := colour[id := Done];
      forall x ensures IsVisiting(colour, x) <==> IsVisiting(old(colour), x) {
        assert IsVisiting(reached, x) <==> x == id || IsVisiting(old(colour), x);
      }
      forall x | IsDone(old(colour), x) ensures IsDone(colour, x) {
        assert IsDone(reached, x);
      }
      return true;
    }
  }

  method ValidateProjectDependencies(rows: Rows, project: Id) returns (ok: bool)
    ensures ok <==> Acyclic(ProjectDependencies(rows, project))
  {
    var edges := ProjectDependencies(rows, project);
    var search := new CycleSearch(edges);
    var todo := edges.Keys;
    while todo != {}
      invariant search.edges == edges && search.Valid() && todo <= edges.Keys && fresh(search)
      invariant forall x :: !IsVisiting(search.colour, x)
      invariant forall x :: x in edges && x !in todo ==> IsDone(search.colour, x)
      decreases todo
    {
      var id :| id in todo;
      ok := search.Visit(id);
      if !ok { return; }
      todo := todo - {id};
    }
    assert forall u :: u in edges ==> IsDone(search.colour, u);
    return true;
  }
}
