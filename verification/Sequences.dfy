/** Facts about sequences that several parts of the model share. */
module Sequences {

  ghost predicate Distinct<T>(s: seq<T>) {
    forall i, j :: 0 <= i < j < |s| ==> s[i] != s[j]
  }

  /** Each operation leads from one state to the next. */
  ghost predicate Linked<S(!new), O(!new)>(step: (S, O, S) -> bool, states: seq<S>, ops: seq<O>) {
    |states| == |ops| + 1 && forall i :: 0 <= i < |ops| ==> step(states[i], ops[i], states[i + 1])
  }

  lemma LinkedFurther<S(!new), O(!new)>(step: (S, O, S) -> bool, states: seq<S>, ops: seq<O>, op: O, s: S)
    requires Linked(step, states, ops) && step(states[|ops|], op, s)
    ensures Linked(step, states + [s], ops + [op])
  {
  }

  lemma JoinIsDistinct<T>(a: seq<T>, b: seq<T>)
    requires Distinct(a) && Distinct(b) && forall x :: x in b ==> x !in a
    ensures Distinct(a + b)
  {
    forall i, j | 0 <= i < j < |a + b| ensures (a + b)[i] != (a + b)[j] {
      assert j >= |a| ==> b[j - |a|] in b;
    }
  }

  lemma Associates<T>(a: seq<T>, b: seq<T>, c: seq<T>)
    ensures a + (b + c) == a + b + c
  {
  }

  lemma HasFirst<T>(s: seq<T>)
    requires s != []
    ensures exists x :: x in s
  {
    assert s[0] in s;
  }

  // ---- Sets of keys in ascending order ----

  ghost predicate IsLeast(ids: set<nat>, m: nat) {
    m in ids && forall x :: x in ids ==> m <= x
  }

  lemma {:induction false} LeastExists(ids: set<nat>)
    requires ids != {}
    ensures exists m :: IsLeast(ids, m)
    decreases ids
  {
    var a :| a in ids;
    if ids == {a} {
      assert IsLeast(ids, a);
    } else {
      LeastExists(ids - {a});
      var b :| IsLeast(ids - {a}, b);
      var m := if a < b then a else b;
      forall x | x in ids ensures m <= x { assert x == a || x in ids - {a}; }
      assert IsLeast(ids, m);
    }
  }

  function Least(ids: set<nat>): (m: nat)
    requires ids != {}
    ensures IsLeast(ids, m)
  {
    LeastExists(ids);
    assert exists m :: m in ids && forall x :: x in ids ==> m <= x by { var b :| IsLeast(ids, b); }
    var m :| m in ids && forall x :: x in ids ==> m <= x;
    m
  }

  function AscendingIds(ids: set<nat>): (s: seq<nat>)
    ensures forall id :: id in s <==> id in ids
    ensures forall i, j :: 0 <= i < j < |s| ==> s[i] < s[j]
    decreases ids
  {
    if ids == {} then [] else [Least(ids)] + AscendingIds(ids - {Least(ids)})
  }
}
