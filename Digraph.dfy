/** Directed graphs as finite sets of edges between node identities, and
    backward reachability: which nodes can reach a given one. */
module Digraph {

  type Edge = (string, string)

  /** The nodes of a graph that is built by adding edges only. */
  function Nodes(E: set<Edge>): set<string>
  {
    (set e | e in E :: e.0) + (set e | e in E :: e.1)
  }

  /** The sources of the edges that end in `S`. */
  function Preds(E: set<Edge>, S: set<string>): set<string>
  {
    set e | e in E && e.1 in S :: e.0
  }

  lemma StrictSubsetSmaller(A: set<string>, B: set<string>, x: string)
    requires A <= B && x in B && x !in A
    ensures |A| < |B|
  {
    assert A <= B - {x};
    assert |B - {x}| == |B| - 1;
    SubsetAtMost(A, B - {x});
  }

  lemma SubsetAtMost(A: set<string>, B: set<string>)
    requires A <= B
    ensures |A| <= |B|
  {
    assert B == A + (B - A);
  }

  /** The least superset of `S` that contains the predecessors of each of its members. */
  function ReachFrom(E: set<Edge>, S: set<string>): set<string>
    decreases |Nodes(E) - S|
  {
    var S2 := S + Preds(E, S);
    if S2 == S then S
    else
      var x :| x in S2 && x !in S;
      assert x in Nodes(E);
      StrictSubsetSmaller(Nodes(E) - S2, Nodes(E) - S, x);
      ReachFrom(E, S2)
  }

  /** `o` and every node with a path to `o`. */
  function Reach(E: set<Edge>, o: string): set<string>
  {
    ReachFrom(E, {o})
  }

  ghost predicate IsPath(E: set<Edge>, p: seq<string>)
  {
    |p| >= 1 && forall k :: 0 <= k < |p| - 1 ==> (p[k], p[k + 1]) in E
  }

  /** `p` is a path of `E` from `v` to `o` (of length zero when `v == o`). */
  ghost predicate PathTo(E: set<Edge>, p: seq<string>, v: string, o: string)
  {
    IsPath(E, p) && p[0] == v && p[|p| - 1] == o
  }

  /** `ReachFrom` contains its seed and is closed under predecessors. */
  lemma {:induction false} ReachFromClosed(E: set<Edge>, S: set<string>)
    ensures S <= ReachFrom(E, S)
    ensures Preds(E, ReachFrom(E, S)) <= ReachFrom(E, S)
    decreases |Nodes(E) - S|
  {
    var S2 := S + Preds(E, S);
    if S2 != S {
      var x :| x in S2 && x !in S;
      StrictSubsetSmaller(Nodes(E) - S2, Nodes(E) - S, x);
      ReachFromClosed(E, S2);
    }
  }

  /** `ReachFrom` is contained in every predecessor-closed superset of its seed. */
  lemma {:induction false} ReachFromLeast(E: set<Edge>, S: set<string>, T: set<string>)
    requires S <= T && Preds(E, T) <= T
    ensures ReachFrom(E, S) <= T
    decreases |Nodes(E) - S|
  {
    var S2 := S + Preds(E, S);
    if S2 != S {
      var x :| x in S2 && x !in S;
      StrictSubsetSmaller(Nodes(E) - S2, Nodes(E) - S, x);
      assert Preds(E, S) <= Preds(E, T);
      ReachFromLeast(E, S2, T);
    }
  }

  lemma {:induction false} PathReaches(E: set<Edge>, p: seq<string>, o: string)
    requires IsPath(E, p) && p[|p| - 1] == o
    ensures p[0] in Reach(E, o)
    decreases |p|
  {
    ReachFromClosed(E, {o});
    if |p| > 1 {
      PathReaches(E, p[1..], o);
      assert (p[0], p[1]) in E;
    }
  }

  lemma {:induction false} ReachHasPath(E: set<Edge>, S: set<string>, o: string, v: string)
    requires forall s :: s in S ==> exists p :: PathTo(E, p, s, o)
    requires v in ReachFrom(E, S)
    ensures exists p :: PathTo(E, p, v, o)
    decreases |Nodes(E) - S|
  {
    var S2 := S + Preds(E, S);
    if S2 != S {
      var x :| x in S2 && x !in S;
      StrictSubsetSmaller(Nodes(E) - S2, Nodes(E) - S, x);
      forall s | s in S2 ensures exists p :: PathTo(E, p, s, o) {
        if s !in S {
          var e :| e in E && e.1 in S && e.0 == s;
          var q :| PathTo(E, q, e.1, o);
          assert PathTo(E, [s] + q, s, o);
        }
      }
      ReachHasPath(E, S2, o, v);
    }
  }

  /** A node is in `Reach(E, o)` exactly when some path of `E` leads from it to `o`. */
  lemma ReachIffPath(E: set<Edge>, o: string, v: string)
    ensures v in Reach(E, o) <==> exists p :: PathTo(E, p, v, o)
  {
    if v in Reach(E, o) {
      assert PathTo(E, [o], o, o);
      ReachHasPath(E, {o}, o, v);
    }
    if p :| PathTo(E, p, v, o) {
      PathReaches(E, p, o);
    }
  }
}
