/** The inventory object of one `.lua.ter` file. `Scan` is `inventariar`,
    reading the file line by line and updating the object's storage as it
    goes; `GraphRelations` is the graph logic of `graficar_relaciones` on the
    finished inventory. Each is proved equal to its specification in
    Scanner.dfy, CallGraph.dfy and ReversePath.dfy. */
module TerrierFile {
  import opened Wrappers
  import opened Text
  import opened Names
  import opened Records
  import opened Patterns
  import opened Scanner
  import opened Digraph
  import opened CallGraph
  import opened ReversePath

  /** The upstream graph asked for with origin identifier `o`: `o` must be a
      node of the main graph, and some edge must enter it. */
  ghost function Upstream(E: set<Edge>, o: string): (r: Result<ReverseGraph, PathError>)
    ensures r.Ok? ==> r.value.highlighted == o && o in Nodes(r.value.edges) && r.value.edges <= E
    ensures r == Err(OriginNotInPath) ==> o in Nodes(E) && ReverseEdges(E, o) == {}
  {
    OriginInResult(E, o);
    EmptyIffNoIncoming(E, o);
    if o !in Nodes(E) then Err(UnknownOrigin)
    else if exists e :: e in E && e.1 == o then Ok(ReverseGraph(ReverseEdges(E, o), o))
    else Err(OriginNotInPath)
  }

  class TerrierInventory {
    /** `n_archi`, the file's path. */
    const path: string
    /** `inventario` */
    var inventory: seq<Block>
    /** `block_data`, present while `sen` is true */
    var open: Option<Draft>
    /** `texto_int`, the text of the interpret clause being accumulated */
    var buffer: string

    /** The empty storage the object starts with. */
    constructor (path: string)
      ensures this.path == path && inventory == [] && open.None? && buffer == ""
    {
      this.path := path;
      inventory := [];
      open := None;
      buffer := "";
    }

    /** `bloques_locales`: the name of every record, in inventory order. */
    function LocalBlocks(): (r: seq<string>)
      reads this
      ensures |r| == |inventory|
      ensures forall k :: 0 <= k < |inventory| ==> r[k] == inventory[k].name
    {
      BlockNames(inventory)
    }

    /** `inventariar` on the file whose lines are `lines`. On success the
        inventory is the one `Scanner.Scan` describes and nothing is left
        open or buffered; on failure `err` is the error `Scanner.Scan` gives. */
    method Scan(p: Patterns, lines: seq<string>) returns (err: Option<ScanError>)
      requires inventory == [] && open.None? && buffer == ""
      modifies this
      ensures Scanner.Scan(p, path, lines).Err? ==> err == Some(Scanner.Scan(p, path, lines).error)
      ensures Scanner.Scan(p, path, lines).Ok? ==>
                err.None? && inventory == Scanner.Scan(p, path, lines).value && open.None? && buffer == ""
    {
      var i := 0;
      var count := 0;
      while i < |lines|
        invariant i <= |lines| && buffer == ""
        invariant Run(p, path, lines, i, ScanState(count, open, inventory)) == Scanner.Scan(p, path, lines)
        decreases |lines| - i
      {
        err, i, count := ScanLine(p, lines, i, count);
        if err.Some? {
          return;
        }
      }
      if open.None? {
        err := Some(NoBlock);
        return;
      }
      inventory := inventory + [Close(open.value, count)];
      open := None;
      err := None;
    }

    /** One turn of the outer loop, on `lines[i]`, the line after the `count`-th. */
    method ScanLine(p: Patterns, lines: seq<string>, i: nat, count: nat) returns (err: Option<ScanError>, next: nat, count': nat)
      requires i < |lines| && buffer == ""
      modifies this`inventory, this`open, this`buffer
      ensures var r := StepAt(p, path, lines, i, ScanState(count, old(open), old(inventory)));
              (r.Stop? <==> err.Some?) && (r.Stop? ==> err.value == r.error) &&
              (r.Next? ==> next == r.index && count' == r.state.count && open == r.state.open && inventory == r.state.done && buffer == "")
    {
      ghost var st0 := ScanState(count, open, inventory);
      ghost var r := StepAt(p, path, lines, i, st0);
      StepAtSplit(p, path, lines, i, st0);
      var line := lines[i];
      count' := count + 1;
      next := i;
      ghost var h := HeaderStep(p, path, line, ScanState(count', open, inventory));
      err := HeaderLine(p, line, count');
      if err.Some? {
        assert r == Stop(h.error);
        return;
      }
      assert h.value == ScanState(count', open, inventory);
      ghost var q := QueryStep(line, h.value);
      err := QueryLine(line, count');
      if err.Some? {
        assert r == Stop(q.error);
        return;
      }
      assert q.value == ScanState(count', open, inventory);
      ghost var done := inventory;
      InterpretKeepsDone(p, lines, i, q.value);
      err, next, count' := InterpretLine(p, lines, i, count');
      assert inventory == done;
    }

    /** The block-header test of `line`, the `count`-th line: close the open
        record on the line before, and open a record named by the header. */
    method HeaderLine(p: Patterns, line: string, count: nat) returns (err: Option<ScanError>)
      requires count >= 1
      modifies this`inventory, this`open
      ensures var r := HeaderStep(p, path, line, ScanState(count, old(open), old(inventory)));
              (r.Err? <==> err.Some?) && (r.Err? ==> err.value == r.error) &&
              (r.Ok? ==> open == r.value.open && inventory == r.value.done)
    {
      err := None;
      var h := p.header(line);
      if h.Some? {
        if open.Some? {
          inventory := inventory + [Close(open.value, count - 1)];
          open := None;
        }
        var n := FirstName(p, h.value);
        if n.None? {
          err := Some(MalformedHeader(count));
          return;
        }
        open := Some(Draft(n.value, path, count, [], []));
      }
    }

    /** The query test of `line`, the `count`-th line. */
    method QueryLine(line: string, count: nat) returns (err: Option<ScanError>)
      modifies this`open
      ensures var r := QueryStep(line, ScanState(count, old(open), inventory));
              (r.Err? <==> err.Some?) && (r.Err? ==> err.value == r.error) &&
              (r.Ok? ==> open == r.value.open)
    {
      err := None;
      if IsQueryLine(line) {
        if open.None? {
          err := Some(QueryOutsideBlock(count));
          return;
        }
        open := Some(open.value.(queries := open.value.queries + [QueryText(line)]));
      }
    }

    /** The interpret test of `lines[i]`, the `count`-th line: a clause that
        opens here is read to its end and added to the open record. */
    method InterpretLine(p: Patterns, lines: seq<string>, i: nat, count: nat) returns (err: Option<ScanError>, next: nat, count': nat)
      requires i < |lines| && buffer == ""
      modifies this`open, this`buffer
      ensures var r := InterpretStep(p, lines, i, ScanState(count, old(open), inventory));
              (r.Stop? <==> err.Some?) && (r.Stop? ==> err.value == r.error) &&
              (r.Next? ==> next == r.index && count' == r.state.count && open == r.state.open && buffer == "")
    {
      err, next, count' := None, i + 1, count;
      if OpensInterpret(lines[i]) {
        var acc, n := ReadClause(p, lines, i, count);
        if acc.Unterminated? {
          err := Some(UnterminatedInterpret(count));
          return;
        }
        count' := n;
        if open.None? {
          err := Some(InterpretOutsideBlock(count'));
          return;
        }
        open := Some(open.value.(interprets := open.value.interprets + [acc.clause]));
        buffer := "";
        next := Min(i + 1 + acc.read, |lines|);
      }
    }

    /** The inner `while True` loop, for a clause opening on `lines[i]`:
        append lines to `buffer` until it matches the full-clause pattern,
        counting each line read. */
    method ReadClause(p: Patterns, lines: seq<string>, i: nat, count0: nat) returns (acc: Accumulated, count: nat)
      requires i < |lines| && buffer == ""
      modifies this`buffer
      ensures acc == Accumulate(p, lines, i + 1, lines[i], 0)
      ensures acc.Closed? ==> count == count0 + acc.read
    {
      ghost var spec := Accumulate(p, lines, i + 1, lines[i], 0);
      buffer := buffer + lines[i];
      assert buffer == lines[i];
      count := count0;
      var j := i + 1;
      var read := 0;
      while true
        invariant i + 1 <= j <= |lines| && read == j - (i + 1)
        invariant count == count0 + read
        invariant Accumulate(p, lines, j, buffer, read) == spec
        decreases |lines| - j
      {
        buffer := buffer + ReadAt(lines, j);
        count := count + 1;
        read := read + 1;
        var m := p.clause(buffer);
        if m.Some? {
          acc := Closed(ClauseOf(m.value, p.names(buffer)), read);
          return;
        }
        if j == |lines| {
          acc := Unterminated;
          return;
        }
        j := j + 1;
      }
    }

    /** The graph logic of `graficar_relaciones` on the inventory: the edges
        and marked nodes of the main graph and, when an origin block is
        given, its upstream graph or the reason there is none. */
    method GraphRelations(localsOnly: bool, marcar: string, origin: string) returns (g: Graph, rev: Option<Result<ReverseGraph, PathError>>)
      ensures g.edges == CallEdges(inventory, localsOnly)
      ensures g.marked == Marked(g.edges, MarkIds(marcar))
      ensures origin == "" ==> rev.None?
      ensures origin != "" ==> rev == Some(Upstream(g.edges, origin + Placeholder))
    {
      var marks := MarkIds(marcar);
      var locals := LocalIds(inventory);
      g := DrawGraph(inventory, locals, localsOnly, marks);
      if origin == "" {
        rev := None;
      } else {
        var up := ReverseFrom(g.edges, origin + Placeholder);
        rev := Some(up);
      }
    }
  }

  /** The outer loop of `graficar_relaciones`: the main graph, record by
      record, with `locals` the identifiers of the file's own blocks. */
  method DrawGraph(bs: seq<Block>, locals: seq<string>, localsOnly: bool, marks: seq<string>) returns (g: Graph)
    ensures g.edges == GraphEdges(Relations(bs), locals, localsOnly)
    ensures g.marked == Marked(g.edges, marks)
  {
    var edges: set<Edge> := {};
    var marked: set<string> := {};
    var k := 0;
    while k < |bs|
      invariant k <= |bs|
      invariant edges == GraphEdges(Relations(bs[..k]), locals, localsOnly)
      invariant marked == Marked(edges, marks)
    {
      edges, marked := DrawBlock(bs[k], locals, localsOnly, marks, edges, marked);
      RelationsSnoc(bs, k, locals, localsOnly);
      k := k + 1;
    }
    assert bs[..k] == bs;
    g := Graph(edges, marked);
  }

  /** The upstream graph for the origin identifier `o`, checked first against the main graph. */
  method ReverseFrom(edges: set<Edge>, o: string) returns (r: Result<ReverseGraph, PathError>)
    ensures r == Upstream(edges, o)
  {
    if o !in Nodes(edges) {
      r := Err(UnknownOrigin);
    } else {
      r := Build(edges, o);
    }
  }

  /** The middle loop of `graficar_relaciones`: the edges of one record, clause by clause. */
  method DrawBlock(b: Block, locals: seq<string>, localsOnly: bool, marks: seq<string>,
                   edges0: set<Edge>, marked0: set<string>) returns (edges: set<Edge>, marked: set<string>)
    requires marked0 == Marked(edges0, marks)
    ensures edges == edges0 + ClauseEdges(CallsOf(b).owner, CallsOf(b).clauses, locals, localsOnly)
    ensures marked == Marked(edges, marks)
  {
    ghost var rel := CallsOf(b);
    edges, marked := edges0, marked0;
    var c := 0;
    while c < |b.interprets|
      invariant c <= |b.interprets|
      invariant edges == edges0 + ClauseEdges(rel.owner, rel.clauses[..c], locals, localsOnly)
      invariant marked == Marked(edges, marks)
    {
      var owner := Normalize(b.name);
      edges, marked := DrawClause(owner, b.interprets[c].used, locals, localsOnly, marks, edges, marked);
      ClauseEdgesSnoc(rel.owner, rel.clauses, c, locals, localsOnly);
      c := c + 1;
    }
    assert rel.clauses[..c] == rel.clauses;
  }

  /** The innermost loop of `graficar_relaciones`: the edges from `owner` for
      the block names `refs` of one clause, each normalised, admitted or
      not, and its ends marked as it is added. */
  method DrawClause(owner: string, refs: seq<string>, locals: seq<string>, localsOnly: bool, marks: seq<string>,
                    edges0: set<Edge>, marked0: set<string>) returns (edges: set<Edge>, marked: set<string>)
    requires marked0 == Marked(edges0, marks)
    ensures edges == edges0 + RefEdges(owner, Ids(refs), locals, localsOnly)
    ensures marked == Marked(edges, marks)
  {
    ghost var ids := Ids(refs);
    edges, marked := edges0, marked0;
    var r := 0;
    while r < |refs|
      invariant r <= |refs|
      invariant edges == edges0 + RefEdges(owner, ids[..r], locals, localsOnly)
      invariant marked == Marked(edges, marks)
    {
      var target := Normalize(refs[r]);
      RefEdgesSnoc(owner, ids, r, locals, localsOnly);
      if !localsOnly || target in locals || target == PhoneNumber {
        edges, marked := AddEdge(edges, marked, owner, target, marks);
      }
      r := r + 1;
    }
    assert ids[..r] == ids;
  }

  /** Adding one edge and painting those of its ends that are to be marked. */
  method AddEdge(edges0: set<Edge>, marked0: set<string>, owner: string, target: string, marks: seq<string>)
    returns (edges: set<Edge>, marked: set<string>)
    requires marked0 == Marked(edges0, marks)
    ensures edges == edges0 + {(owner, target)}
    ensures marked == Marked(edges, marks)
  {
    MarkedAdd(edges0, owner, target, marks);
    edges := edges0 + {(owner, target)};
    marked := marked0;
    if target in marks {
      marked := marked + {target};
    }
    if owner in marks {
      marked := marked + {owner};
    }
  }
}
