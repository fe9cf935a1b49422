/** `_camino_inverso`: the part of the relation graph upstream of one block.
    A depth-first walk against the edge direction from the origin collects
    every edge it crosses; the collected edges form a new graph in which the
    origin is highlighted. The walk's order is not modelled, only the set of
    edges it yields. */
module ReversePath {
  import opened Wrappers
  import opened Digraph

  datatype PathError =
    /** The origin is not a node of the main graph (the `assert` on `get_node`). */
    | UnknownOrigin
    /** No edge enters the origin, so the collected graph has no node to highlight. */
    | OriginNotInPath

  /** The upstream graph and the node filled in green. */
  datatype ReverseGraph = ReverseGraph(edges: set<Edge>, highlighted: string)

  /** The edges the reversed walk from `o` crosses: those entering a node
      from which `o` can be reached. */
  function ReverseEdges(E: set<Edge>, o: string): set<Edge>
  {
    set e | e in E && e.1 in Reach(E, o)
  }

  /** The reversed walk from `o` crosses an edge exactly when it is an edge of
      `E` that ends at a node with a path to `o`. */
  lemma ReverseEdgesExactly(E: set<Edge>, o: string, e: Edge)
    ensures e in ReverseEdges(E, o) <==> e in E && exists p :: PathTo(E, p, e.1, o)
  {
    ReachIffPath(E, o, e.1);
  }

  /** Nothing upstream is missed: every edge of `E` that enters the origin or
      a node of the result is in the result. */
  lemma ReverseEdgesClosed(E: set<Edge>, o: string, e: Edge)
    requires e in E && (e.1 == o || e.1 in Nodes(ReverseEdges(E, o)))
    ensures e in ReverseEdges(E, o)
  {
    var R := Reach(E, o);
    ReachFromClosed(E, {o});
    if e.1 != o {
      var f :| f in ReverseEdges(E, o) && (f.0 == e.1 || f.1 == e.1);
      assert f.0 in Preds(E, R);
    }
  }

  /** The origin is a node of the result exactly when some edge enters it. */
  lemma OriginInResult(E: set<Edge>, o: string)
    ensures o in Nodes(ReverseEdges(E, o)) <==> exists e :: e in E && e.1 == o
  {
    var R := Reach(E, o);
    ReachFromClosed(E, {o});
    if e :| e in E && e.1 == o {
      assert e in ReverseEdges(E, o);
    }
    if o in Nodes(ReverseEdges(E, o)) {
      var f :| f in ReverseEdges(E, o) && (f.0 == o || f.1 == o);
      if f.1 != o {
        // f leaves o towards a node with a path back to o; that path's last edge enters o.
        ReachIffPath(E, o, f.1);
        var p :| PathTo(E, p, f.1, o);
        LastEdgeEnters(E, [f.0] + p, o);
      }
    }
  }

  /** The walk collects nothing exactly when no edge enters the origin. */
  lemma EmptyIffNoIncoming(E: set<Edge>, o: string)
    ensures ReverseEdges(E, o) == {} <==> forall e :: e in E ==> e.1 != o
  {
    OriginInResult(E, o);
    if e :| e in E && e.1 == o {
      assert o in Nodes(ReverseEdges(E, o));
    }
  }

  /** A path with more than one node that ends at `o` has an edge entering `o`. */
  lemma LastEdgeEnters(E: set<Edge>, p: seq<string>, o: string)
    requires IsPath(E, p) && |p| > 1 && p[|p| - 1] == o
    ensures exists e :: e in E && e.1 == o
  {
    assert (p[|p| - 2], p[|p| - 1]) in E;
  }

  /** `Preds(E, V) <= V` follows from the same for each member of `V`. */
  lemma PredsOfMembers(E: set<Edge>, V: set<string>)
    requires forall v :: v in V ==> Preds(E, {v}) <= V
    ensures Preds(E, V) <= V
  {
    forall u | u in Preds(E, V) ensures u in V {
      var e :| e in E && e.1 in V && e.0 == u;
      assert u in Preds(E, {e.1});
    }
  }

  /** The state of the walk: `visited` holds the nodes reached, `todo` those
      whose incoming edges are still to be crossed, and `gm` the edges crossed. */
  ghost predicate WalkInv(E: set<Edge>, o: string, visited: set<string>, todo: set<string>, gm: set<Edge>)
  {
    && todo <= visited && o in visited
    && visited <= Reach(E, o)
    && (forall v :: v in visited && v !in todo ==> Preds(E, {v}) <= visited)
    && gm == set e | e in E && e.1 in visited && e.1 !in todo
  }

  /** The edges entering `v`. */
  function Incoming(E: set<Edge>, v: string): set<Edge>
  {
    set e | e in E && e.1 == v
  }

  /** Crossing the edges into one pending node keeps the walk's invariant. */
  lemma WalkStepKeeps(E: set<Edge>, o: string, visited: set<string>, todo: set<string>, gm: set<Edge>, v: string)
    requires WalkInv(E, o, visited, todo, gm) && v in todo
    ensures var found := Preds(E, {v}) - visited;
            WalkInv(E, o, visited + found, todo - {v} + found, gm + Incoming(E, v))
  {
    ReachFromClosed(E, {o});
    var found := Preds(E, {v}) - visited;
    assert Preds(E, {v}) <= Preds(E, Reach(E, o));
    var visited', todo' := visited + found, todo - {v} + found;
    assert forall u :: u in visited' && u !in todo' ==> u in visited && (u !in todo || u == v);
  }

  /** A step that finds new nodes brings the walk closer to covering the graph. */
  lemma WalkStepProgress(E: set<Edge>, visited: set<string>, o: string, found: set<string>)
    requires found <= Nodes(E) && found !! visited && found != {}
    ensures |Nodes(E) + {o} - (visited + found)| < |Nodes(E) + {o} - visited|
  {
    var x :| x in found;
    StrictSubsetSmaller(Nodes(E) + {o} - (visited + found), Nodes(E) + {o} - visited, x);
  }

  /** When nothing is pending the walk has crossed exactly the upstream edges. */
  lemma WalkDone(E: set<Edge>, o: string, visited: set<string>, gm: set<Edge>)
    requires WalkInv(E, o, visited, {}, gm)
    ensures gm == ReverseEdges(E, o)
  {
    PredsOfMembers(E, visited);
    ReachFromLeast(E, {o}, visited);
  }

  method CollectReverseEdges(E: set<Edge>, o: string) returns (gm: set<Edge>)
    ensures gm == ReverseEdges(E, o)
  {
    ReachFromClosed(E, {o});
    var visited: set<string> := {o};
    var todo: set<string> := {o};
    gm := {};
    while todo != {}
      invariant WalkInv(E, o, visited, todo, gm)
      decreases |Nodes(E) + {o} - visited|, |todo|
    {
      var v :| v in todo;
      var found := Preds(E, {v}) - visited;
      WalkStepKeeps(E, o, visited, todo, gm, v);
      if found != {} {
        assert found <= Nodes(E);
        WalkStepProgress(E, visited, o, found);
      }
      gm := gm + Incoming(E, v);
      visited := visited + found;
      todo := todo - {v} + found;
    }
    WalkDone(E, o, visited, gm);
  }

  /** The upstream graph of `o`, or the error of a graph without an edge into `o`. */
  method Build(E: set<Edge>, o: string) returns (r: Result<ReverseGraph, PathError>)
    ensures r.Ok? <==> exists e :: e in E && e.1 == o
    ensures r.Ok? ==> r.value == ReverseGraph(ReverseEdges(E, o), o)
    ensures r.Err? ==> r.error == OriginNotInPath
  {
    var gm := CollectReverseEdges(E, o);
    OriginInResult(E, o);
    if o !in Nodes(gm) {
      r := Err(OriginNotInPath);
    } else {
      r := Ok(ReverseGraph(gm, o));
    }
  }
}
