/** The relation graph of `graficar_relaciones`: an edge from each block to
    every block named in one of its interpret clauses, both ends normalised
    to graph identifiers, optionally restricted to the file's own blocks, and
    the set of nodes painted as marked. The graph is a set of pairs: adding
    an edge twice, or an edge whose nodes exist, changes nothing. */
module CallGraph {
  import opened Text
  import opened Names
  import opened Records
  import opened Digraph

  /** The one foreign block kept in local mode (an extended block of the host). */
  const PhoneNumber: string := "PHONE_NUMBER(...)"

  /** The main graph: its edges and the nodes filled in green. */
  datatype Graph = Graph(edges: set<Edge>, marked: set<string>)

  /** The local block identifiers: each record's name through the argument
      substitution alone (no newline, space or quote step). */
  function LocalIds(bs: seq<Block>): (r: seq<string>)
    ensures |r| == |bs|
    ensures forall k :: 0 <= k < |bs| ==> r[k] == LocalId(bs[k].name)
  {
    var names := BlockNames(bs);
    seq(|names|, k requires 0 <= k < |names| => LocalId(names[k]))
  }

  /** Whether an edge to `target` is drawn. */
  predicate Admitted(target: string, locals: seq<string>, localsOnly: bool)
  {
    !localsOnly || target in locals || target == PhoneNumber
  }

  /** The graph identifiers of a list of block names, in order. */
  function Ids(names: seq<string>): (r: seq<string>)
    ensures |r| == |names|
    ensures forall i :: 0 <= i < |names| ==> r[i] == Normalize(names[i])
  {
    seq(|names|, i requires 0 <= i < |names| => Normalize(names[i]))
  }

  /** A record as the graph sees it: its identifier and, per clause, the
      identifiers of the blocks the clause names. */
  datatype Calls = Calls(owner: string, clauses: seq<seq<string>>)

  function CallsOf(b: Block): (r: Calls)
    ensures r.owner == Normalize(b.name) && |r.clauses| == |b.interprets|
    ensures forall c :: 0 <= c < |b.interprets| ==> r.clauses[c] == Ids(b.interprets[c].used)
  {
    Calls(Normalize(b.name), seq(|b.interprets|, c requires 0 <= c < |b.interprets| => Ids(b.interprets[c].used)))
  }

  function Relations(bs: seq<Block>): (r: seq<Calls>)
    ensures |r| == |bs|
  {
    if |bs| == 0 then [] else Relations(bs[..|bs| - 1]) + [CallsOf(Last(bs))]
  }

  lemma {:induction false} RelationsAt(bs: seq<Block>, k: nat)
    requires k < |bs|
    ensures Relations(bs)[k] == CallsOf(bs[k])
  {
    if k < |bs| - 1 {
      RelationsAt(bs[..|bs| - 1], k);
    }
  }

  /** One more record adds the edges of its clauses. */
  lemma RelationsSnoc(bs: seq<Block>, k: nat, locals: seq<string>, localsOnly: bool)
    requires k < |bs|
    ensures GraphEdges(Relations(bs[..k + 1]), locals, localsOnly) ==
            GraphEdges(Relations(bs[..k]), locals, localsOnly) + ClauseEdges(CallsOf(bs[k]).owner, CallsOf(bs[k]).clauses, locals, localsOnly)
  {
    assert bs[..k + 1][..k] == bs[..k];
    var rels := Relations(bs[..k + 1]);
    assert rels[..k] == Relations(bs[..k]);
  }

  /** The edges from `owner` to the identifiers `ids` of one clause's block names. */
  function RefEdges(owner: string, ids: seq<string>, locals: seq<string>, localsOnly: bool): set<Edge>
  {
    if |ids| == 0 then {}
    else
      var t := ids[|ids| - 1];
      RefEdges(owner, ids[..|ids| - 1], locals, localsOnly) + (if Admitted(t, locals, localsOnly) then {(owner, t)} else {})
  }

  /** The edges from `owner` for a list of clauses. */
  function ClauseEdges(owner: string, cls: seq<seq<string>>, locals: seq<string>, localsOnly: bool): set<Edge>
  {
    if |cls| == 0 then {}
    else ClauseEdges(owner, cls[..|cls| - 1], locals, localsOnly) + RefEdges(owner, cls[|cls| - 1], locals, localsOnly)
  }

  /** The edges of a list of records. */
  function GraphEdges(rels: seq<Calls>, locals: seq<string>, localsOnly: bool): set<Edge>
  {
    if |rels| == 0 then {}
    else
      var last := rels[|rels| - 1];
      GraphEdges(rels[..|rels| - 1], locals, localsOnly) + ClauseEdges(last.owner, last.clauses, locals, localsOnly)
  }

  /** The edges of the inventory `bs`, all of them or local ones only. */
  function CallEdges(bs: seq<Block>, localsOnly: bool): set<Edge>
  {
    GraphEdges(Relations(bs), LocalIds(bs), localsOnly)
  }

  /** The identifiers to mark: every comma-separated piece with `(...)` appended. */
  function MarkIds(marcar: string): (r: seq<string>)
    ensures |r| == |Split(marcar, ',')| == multiset(marcar)[','] + 1
    ensures forall k :: 0 <= k < |r| ==> r[k] == Split(marcar, ',')[k] + Placeholder
  {
    SplitCount(marcar, ',');
    var pieces := Split(marcar, ',');
    seq(|pieces|, k requires 0 <= k < |pieces| => pieces[k] + Placeholder)
  }

  /** The nodes of `E` that are to be marked. */
  function Marked(E: set<Edge>, marks: seq<string>): set<string>
  {
    set n | n in Nodes(E) && n in marks
  }

  // ---------------------------------------------------------------------------
  // Which edges the graph holds

  lemma {:induction false} RefEdgesExactly(owner: string, ids: seq<string>, locals: seq<string>, localsOnly: bool, e: Edge)
    ensures e in RefEdges(owner, ids, locals, localsOnly) <==>
            e.0 == owner && Admitted(e.1, locals, localsOnly) && e.1 in ids
  {
    if |ids| > 0 {
      RefEdgesExactly(owner, ids[..|ids| - 1], locals, localsOnly, e);
      assert ids == ids[..|ids| - 1] + [ids[|ids| - 1]];
    }
  }

  lemma {:induction false} ClauseEdgesExactly(owner: string, cls: seq<seq<string>>, locals: seq<string>, localsOnly: bool, e: Edge)
    ensures e in ClauseEdges(owner, cls, locals, localsOnly) <==>
            e.0 == owner && Admitted(e.1, locals, localsOnly) && exists c :: 0 <= c < |cls| && e.1 in cls[c]
  {
    if |cls| > 0 {
      var pre := cls[..|cls| - 1];
      ClauseEdgesExactly(owner, pre, locals, localsOnly, e);
      RefEdgesExactly(owner, cls[|cls| - 1], locals, localsOnly, e);
      if c :| 0 <= c < |cls| && e.1 in cls[c] {
        if c < |pre| {
          assert pre[c] == cls[c];
        }
      }
      if c :| 0 <= c < |pre| && e.1 in pre[c] {
        assert cls[c] == pre[c];
      }
    }
  }

  /** Record `k` has a clause `c` naming the identifier `b`, and `a` is record `k`'s identifier. */
  ghost predicate CallsTo(rels: seq<Calls>, k: int, c: int, a: string, b: string)
  {
    0 <= k < |rels| && 0 <= c < |rels[k].clauses| && a == rels[k].owner && b in rels[k].clauses[c]
  }

  lemma {:induction false} GraphEdgesExactly(rels: seq<Calls>, locals: seq<string>, localsOnly: bool, e: Edge)
    ensures e in GraphEdges(rels, locals, localsOnly) <==>
            Admitted(e.1, locals, localsOnly) && exists k, c :: CallsTo(rels, k, c, e.0, e.1)
  {
    if |rels| > 0 {
      var pre := rels[..|rels| - 1];
      var last := rels[|rels| - 1];
      GraphEdgesExactly(pre, locals, localsOnly, e);
      ClauseEdgesExactly(last.owner, last.clauses, locals, localsOnly, e);
      if k, c :| CallsTo(rels, k, c, e.0, e.1) {
        if k < |pre| {
          assert pre[k] == rels[k];
          assert CallsTo(pre, k, c, e.0, e.1);
        }
      }
      if k, c :| CallsTo(pre, k, c, e.0, e.1) {
        assert rels[k] == pre[k];
        assert CallsTo(rels, k, c, e.0, e.1);
      }
      if c :| 0 <= c < |last.clauses| && e.1 in last.clauses[c] {
        if e.0 == last.owner {
          assert CallsTo(rels, |rels| - 1, c, e.0, e.1);
        }
      }
    }
  }

  /** Clause `c` of record `k` names, as its `r`-th block, a block whose
      identifier is `b`, and `a` is record `k`'s identifier. */
  ghost predicate Relates(bs: seq<Block>, k: int, c: int, r: int, a: string, b: string)
  {
    && 0 <= k < |bs|
    && 0 <= c < |bs[k].interprets|
    && 0 <= r < |bs[k].interprets[c].used|
    && a == Normalize(bs[k].name)
    && b == Normalize(bs[k].interprets[c].used[r])
  }

  /** An edge `(a, b)` is drawn exactly when some clause of record `a` names a
      block whose identifier is `b`, and, in local mode, `b` is the
      identifier of one of the file's own blocks or `PHONE_NUMBER(...)`. */
  lemma CallEdgesExactly(bs: seq<Block>, localsOnly: bool, a: string, b: string)
    ensures (a, b) in CallEdges(bs, localsOnly) <==>
            (!localsOnly || b in LocalIds(bs) || b == PhoneNumber) && exists k, c, r :: Relates(bs, k, c, r, a, b)
  {
    var rels := Relations(bs);
    GraphEdgesExactly(rels, LocalIds(bs), localsOnly, (a, b));
    if k, c :| CallsTo(rels, k, c, a, b) {
      RelationsAt(bs, k);
      var ids := rels[k].clauses[c];
      var r :| 0 <= r < |ids| && ids[r] == b;
      assert Relates(bs, k, c, r, a, b);
    }
    if k, c, r :| Relates(bs, k, c, r, a, b) {
      RelationsAt(bs, k);
      assert rels[k].clauses[c][r] == b;
      assert CallsTo(rels, k, c, a, b);
    }
  }

  /** The local-only graph is the full graph with the edges to foreign blocks removed. */
  lemma LocalEdgesAreFiltered(bs: seq<Block>)
    ensures CallEdges(bs, true) == set e | e in CallEdges(bs, false) && (e.1 in LocalIds(bs) || e.1 == PhoneNumber)
  {
    forall e: Edge
      ensures e in CallEdges(bs, true) <==> e in CallEdges(bs, false) && (e.1 in LocalIds(bs) || e.1 == PhoneNumber)
    {
      CallEdgesExactly(bs, true, e.0, e.1);
      CallEdgesExactly(bs, false, e.0, e.1);
    }
  }

  /** Both ends of every edge are normal forms: normalising them again changes nothing. */
  lemma EdgeEndsAreNormal(bs: seq<Block>, localsOnly: bool, a: string, b: string)
    requires (a, b) in CallEdges(bs, localsOnly)
    ensures Normalize(a) == a && Normalize(b) == b
  {
    CallEdgesExactly(bs, localsOnly, a, b);
    var k, c, r :| Relates(bs, k, c, r, a, b);
    NormalizeIdempotent(bs[k].name);
    NormalizeIdempotent(bs[k].interprets[c].used[r]);
  }

  /** One more block name of a clause adds at most its edge. */
  lemma RefEdgesSnoc(owner: string, ids: seq<string>, r: nat, locals: seq<string>, localsOnly: bool)
    requires r < |ids|
    ensures RefEdges(owner, ids[..r + 1], locals, localsOnly) ==
            RefEdges(owner, ids[..r], locals, localsOnly) + (if Admitted(ids[r], locals, localsOnly) then {(owner, ids[r])} else {})
  {
    assert ids[..r + 1][..r] == ids[..r];
  }

  lemma ClauseEdgesSnoc(owner: string, cls: seq<seq<string>>, c: nat, locals: seq<string>, localsOnly: bool)
    requires c < |cls|
    ensures ClauseEdges(owner, cls[..c + 1], locals, localsOnly) ==
            ClauseEdges(owner, cls[..c], locals, localsOnly) + RefEdges(owner, cls[c], locals, localsOnly)
  {
    assert cls[..c + 1][..c] == cls[..c];
  }

  // ---------------------------------------------------------------------------
  // Marking

  /** Adding an edge marks exactly those of its two ends that are to be marked. */
  lemma MarkedAdd(E: set<Edge>, a: string, b: string, marks: seq<string>)
    ensures Marked(E + {(a, b)}, marks) ==
            Marked(E, marks) + (if b in marks then {b} else {}) + (if a in marks then {a} else {})
  {
    assert Nodes(E + {(a, b)}) == Nodes(E) + {a, b};
  }

  /** A node is marked exactly when it is in the graph and it is one of the
      comma-separated names of `marcar` followed by `(...)`. */
  lemma MarkedExactly(E: set<Edge>, marcar: string, n: string)
    ensures n in Marked(E, MarkIds(marcar)) <==>
            n in Nodes(E) && exists k :: 0 <= k < |Split(marcar, ',')| && n == Split(marcar, ',')[k] + Placeholder
  {
    var m := MarkIds(marcar);
    if n in m {
      var k :| 0 <= k < |m| && m[k] == n;
      assert n == Split(marcar, ',')[k] + Placeholder;
    }
    if exists k :: 0 <= k < |Split(marcar, ',')| && n == Split(marcar, ',')[k] + Placeholder {
      var k :| 0 <= k < |Split(marcar, ',')| && n == Split(marcar, ',')[k] + Placeholder;
      assert m[k] == n;
    }
  }

  /** With nothing to mark (`marcar` empty) the only identifier looked for is
      the bare `(...)`, so a node of that name would still be marked. */
  lemma NoMarksLooksForPlaceholder()
    ensures MarkIds("") == [Placeholder]
  {
    assert Split("", ',') == [""];
    assert MarkIds("")[0] == "" + Placeholder == Placeholder;
  }
}
