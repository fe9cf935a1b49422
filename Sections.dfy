/** Which lines of the file the outer loop of `inventariar` examines, and what
    each record collects from them.

    The outer loop examines `lines[0]` and then, after each examined line,
    either the next line or, when the line opened an interpret clause, the
    first line the clause did not consume. `Headers`, `QueriesIn` and
    `ClausesIn` walk exactly those lines. `ScanRecordsExactly` states that a
    successful scan has one record per examined header line, starting there,
    and that each record holds the queries and clauses of the examined lines
    inside its range, in file order. */
module Sections {
  import opened Wrappers
  import opened Text
  import opened Records
  import opened Patterns
  import opened Scanner

  /** The query an examined `lines[i]` adds to the open record, if any. */
  function QueryAt(lines: seq<string>, i: nat): seq<string>
    requires i < |lines|
  {
    if IsQueryLine(lines[i]) then [QueryText(lines[i])] else []
  }

  /** The clause an examined `lines[i]` opens and adds to the open record, if any. */
  function ClauseAt(p: Patterns, lines: seq<string>, i: nat): seq<Interpret>
    requires i < |lines|
  {
    if !OpensInterpret(lines[i]) then []
    else match Accumulate(p, lines, i + 1, lines[i], 0)
      case Unterminated => []
      case Closed(c, _) => [c]
  }

  /** The line numbers of the header lines examined from `lines[i]` on, in order. */
  function Headers(p: Patterns, lines: seq<string>, i: nat): (r: seq<nat>)
    requires i <= |lines|
    ensures forall k :: 0 <= k < |r| ==> i < r[k] <= |lines| && p.header(lines[r[k] - 1]).Some?
    decreases |lines| - i
  {
    if i == |lines| then []
    else (if p.header(lines[i]).Some? then [i + 1] else []) + Headers(p, lines, NextIndex(p, lines, i))
  }

  /** The queries of the lines examined from `lines[i]` on whose numbers lie in `lo..hi`. */
  function QueriesIn(p: Patterns, lines: seq<string>, i: nat, lo: nat, hi: nat): (r: seq<string>)
    requires i <= |lines|
    ensures hi <= i ==> r == []
    decreases |lines| - i
  {
    if i == |lines| then []
    else (if lo <= i + 1 <= hi then QueryAt(lines, i) else []) + QueriesIn(p, lines, NextIndex(p, lines, i), lo, hi)
  }

  /** The clauses opened on the lines examined from `lines[i]` on whose numbers lie in `lo..hi`. */
  function ClausesIn(p: Patterns, lines: seq<string>, i: nat, lo: nat, hi: nat): (r: seq<Interpret>)
    requires i <= |lines|
    ensures hi <= i ==> r == []
    decreases |lines| - i
  {
    if i == |lines| then []
    else (if lo <= i + 1 <= hi then ClauseAt(p, lines, i) else []) + ClausesIn(p, lines, NextIndex(p, lines, i), lo, hi)
  }

  /** The indices of the lines the outer loop examines from `lines[i]` on, in order. */
  function Examined(p: Patterns, lines: seq<string>, i: nat): (r: seq<nat>)
    requires i <= |lines|
    ensures forall k :: 0 <= k < |r| ==> i <= r[k] < |lines|
    decreases |lines| - i
  {
    if i == |lines| then [] else [i] + Examined(p, lines, NextIndex(p, lines, i))
  }

  /** The last line is examined and opens a clause: the clause loop then reads
      the `''` past the end of the file, and counts it. */
  ghost predicate ReadsPastEnd(p: Patterns, lines: seq<string>, i: nat)
    requires i <= |lines|
  {
    |lines| > 0 && |lines| - 1 in Examined(p, lines, i) && OpensInterpret(lines[|lines| - 1])
  }

  /** The first line of each record. */
  function StartsOf(bs: seq<Block>): (r: seq<nat>)
    ensures |r| == |bs|
    ensures forall k :: 0 <= k < |bs| ==> r[k] == bs[k].lines.start
  {
    if |bs| == 0 then [] else [bs[0].lines.start] + StartsOf(bs[1..])
  }

  /** What one turn of the outer loop on `lines[i]` does to the records. */
  ghost predicate Advances(p: Patterns, lines: seq<string>, i: nat, st: ScanState, st': ScanState)
    requires i < |lines|
  {
    && (NextIndex(p, lines, i) < |lines| ==> st'.count == NextIndex(p, lines, i))
    && st'.count >= i + 1
    && if p.header(lines[i]).Some? then
         && st'.done == st.done + (if st.open.Some? then [Close(st.open.value, i)] else [])
         && st'.open.Some? && st'.open.value.start == i + 1
         && st'.open.value.queries == QueryAt(lines, i)
         && st'.open.value.interprets == ClauseAt(p, lines, i)
       else
         && st'.done == st.done
         && match st.open
            case None => st'.open.None? && QueryAt(lines, i) == [] && ClauseAt(p, lines, i) == []
            case Some(d) =>
              && st'.open.Some? && st'.open.value.start == d.start
              && st'.open.value.name == d.name && st'.open.value.path == d.path
              && st'.open.value.queries == d.queries + QueryAt(lines, i)
              && st'.open.value.interprets == d.interprets + ClauseAt(p, lines, i)
  }

  lemma InterpretStepAdvances(p: Patterns, lines: seq<string>, i: nat, st2: ScanState)
    requires i < |lines| && st2.count == i + 1
    ensures var r := InterpretStep(p, lines, i, st2);
            r.Next? ==>
              && r.index == NextIndex(p, lines, i)
              && (r.index < |lines| ==> r.state.count == r.index)
              && r.state.count >= i + 1
              && r.state.done == st2.done
              && (st2.open.None? ==> r.state.open.None? && ClauseAt(p, lines, i) == [])
              && (st2.open.Some? ==> r.state.open == Some(st2.open.value.(interprets := st2.open.value.interprets + ClauseAt(p, lines, i))))
  {
    if !OpensInterpret(lines[i]) && st2.open.Some? {
      assert st2.open.value.interprets + [] == st2.open.value.interprets;
    }
  }

  /** One turn of the outer loop examines `lines[i]` and moves on to `NextIndex`. */
  lemma StepAdvances(p: Patterns, path: string, lines: seq<string>, i: nat, st: ScanState)
    requires i < |lines| && st.count == i
    ensures var r := StepAt(p, path, lines, i, st);
            r.Next? ==> r.index == NextIndex(p, lines, i) && Advances(p, lines, i, st, r.state)
  {
    StepAtInterprets(p, path, lines, i, st);
    var r1 := HeaderStep(p, path, lines[i], st.(count := st.count + 1));
    if r1.Ok? && QueryStep(lines[i], r1.value).Ok? {
      var st2 := QueryStep(lines[i], r1.value).value;
      HeaderQueryAdvances(p, path, lines, i, st);
      InterpretStepAdvances(p, lines, i, st2);
    }
  }

  /** What the header and query tests of a turn on `lines[i]` leave for the interpret test. */
  lemma HeaderQueryAdvances(p: Patterns, path: string, lines: seq<string>, i: nat, st: ScanState)
    requires i < |lines| && st.count == i
    ensures var r1 := HeaderStep(p, path, lines[i], st.(count := st.count + 1));
            r1.Ok? && QueryStep(lines[i], r1.value).Ok? ==>
              var st2 := QueryStep(lines[i], r1.value).value;
              && st2.count == i + 1
              && (p.header(lines[i]).Some? ==>
                    && st2.done == st.done + (if st.open.Some? then [Close(st.open.value, i)] else [])
                    && st2.open.Some? && st2.open.value.start == i + 1
                    && st2.open.value.queries == QueryAt(lines, i)
                    && st2.open.value.interprets == [])
              && (p.header(lines[i]).None? ==>
                    && st2.done == st.done
                    && (st.open.None? ==> st2.open.None? && QueryAt(lines, i) == [])
                    && (st.open.Some? ==> st2.open == Some(st.open.value.(queries := st.open.value.queries + QueryAt(lines, i)))))
  {
    if p.header(lines[i]).None? && st.open.Some? && !IsQueryLine(lines[i]) {
      assert st.open.value.queries + [] == st.open.value.queries;
    }
  }

  /** Record `b` is draft `d` completed by the lines examined from `lines[i]` on. */
  ghost predicate Extends(p: Patterns, lines: seq<string>, i: nat, d: Draft, b: Block)
    requires i <= |lines|
  {
    && b.name == d.name && b.path == d.path && b.lines.start == d.start
    && b.queries == d.queries + QueriesIn(p, lines, i, d.start, b.lines.end)
    && b.interprets == d.interprets + ClausesIn(p, lines, i, d.start, b.lines.end)
  }

  /** Records `bs[m..]` hold exactly what the lines examined from `lines[i]` on put in their ranges. */
  ghost predicate Collected(p: Patterns, lines: seq<string>, i: nat, bs: seq<Block>, m: nat)
    requires i <= |lines|
  {
    forall k :: m <= k < |bs| ==>
      && bs[k].queries == QueriesIn(p, lines, i, bs[k].lines.start, bs[k].lines.end)
      && bs[k].interprets == ClausesIn(p, lines, i, bs[k].lines.start, bs[k].lines.end)
  }

  /** What the rest of the scan, from `lines[i]` in state `st`, makes of the records `bs`:
      the closed ones are kept, the open one is completed, and every later one
      starts at an examined header line and collects its own lines. */
  ghost predicate Completes(p: Patterns, lines: seq<string>, i: nat, st: ScanState, bs: seq<Block>)
    requires i <= |lines|
  {
    var m := |st.done|;
    var m' := if st.open.Some? then m + 1 else m;
    && m' <= |bs| && bs[..m] == st.done
    && (st.open.Some? ==> Extends(p, lines, i, st.open.value, bs[m]) && bs[m].lines.end >= st.count)
    && StartsOf(bs[m'..]) == Headers(p, lines, i)
    && Collected(p, lines, i, bs, m')
  }

  /** Records starting after line `i + 1` collect nothing from `lines[i]`. */
  lemma CollectedShift(p: Patterns, lines: seq<string>, i: nat, bs: seq<Block>, m: nat)
    requires i < |lines| && Collected(p, lines, NextIndex(p, lines, i), bs, m)
    requires forall k :: m <= k < |bs| ==> bs[k].lines.start > i + 1
    ensures Collected(p, lines, i, bs, m)
  {
  }

  lemma StartsAbove(p: Patterns, lines: seq<string>, j: nat, bs: seq<Block>, m: nat)
    requires j <= |lines| && m <= |bs| && StartsOf(bs[m..]) == Headers(p, lines, j)
    ensures forall k :: m <= k < |bs| ==> bs[k].lines.start > j
  {
    forall k | m <= k < |bs|
      ensures bs[k].lines.start > j
    {
      assert StartsOf(bs[m..])[k - m] == bs[k].lines.start;
    }
  }

  lemma {:induction false} RunCompletes(p: Patterns, path: string, lines: seq<string>, i: nat, st: ScanState)
    requires i <= |lines| && (i < |lines| ==> st.count == i)
    requires st.open.Some? ==> st.open.value.start <= i
    ensures var r := Run(p, path, lines, i, st); r.Ok? ==> Completes(p, lines, i, st, r.value)
    decreases |lines| - i
  {
    var r := Run(p, path, lines, i, st);
    if i == |lines| {
      if st.open.Some? {
        var bs := r.value;
        assert bs == st.done + [Close(st.open.value, st.count)];
        assert bs[..|st.done|] == st.done;
        assert bs[|st.done| + 1..] == [];
      }
    } else {
      StepAdvances(p, path, lines, i, st);
      match StepAt(p, path, lines, i, st)
      case Stop(e) =>
      case Next(j, st') =>
        RunCompletes(p, path, lines, j, st');
        if r.Ok? {
          StepCompletes(p, lines, i, st, st', r.value);
        }
    }
  }

  /** The records completed from the line after `lines[i]` are completed from `lines[i]`. */
  lemma StepCompletes(p: Patterns, lines: seq<string>, i: nat, st: ScanState, st': ScanState, bs: seq<Block>)
    requires i < |lines| && st.count == i
    requires st.open.Some? ==> st.open.value.start <= i
    requires Advances(p, lines, i, st, st') && Completes(p, lines, NextIndex(p, lines, i), st', bs)
    ensures Completes(p, lines, i, st, bs)
  {
    var j := NextIndex(p, lines, i);
    var mj := if st'.open.Some? then |st'.done| + 1 else |st'.done|;
    StartsAbove(p, lines, j, bs, mj);
    CollectedShift(p, lines, i, bs, mj);
    if p.header(lines[i]).Some? {
      HeaderCompletes(p, lines, i, st, st', bs);
    } else {
      PlainCompletes(p, lines, i, st, st', bs);
    }
  }

  /** A line that is not a header leaves the closed records and adds to the open one. */
  lemma PlainCompletes(p: Patterns, lines: seq<string>, i: nat, st: ScanState, st': ScanState, bs: seq<Block>)
    requires i < |lines| && st.count == i && p.header(lines[i]).None?
    requires st.open.Some? ==> st.open.value.start <= i
    requires st'.done == st.done && st'.count >= i + 1
    requires st.open.None? ==> st'.open.None?
    requires st.open.Some? ==>
               && st'.open.Some? && st'.open.value.start == st.open.value.start
               && st'.open.value.name == st.open.value.name && st'.open.value.path == st.open.value.path
               && st'.open.value.queries == st.open.value.queries + QueryAt(lines, i)
               && st'.open.value.interprets == st.open.value.interprets + ClauseAt(p, lines, i)
    requires Completes(p, lines, NextIndex(p, lines, i), st', bs)
    requires Collected(p, lines, i, bs, if st.open.Some? then |st.done| + 1 else |st.done|)
    ensures Completes(p, lines, i, st, bs)
  {
    assert Headers(p, lines, i) == Headers(p, lines, NextIndex(p, lines, i));
    if st.open.Some? {
      var b := bs[|st.done|];
      OpenCompletes(p, lines, i, st.open.value, st'.open.value, b);
    }
  }

  /** A header line closes the open record at the previous line and opens one here. */
  lemma HeaderCompletes(p: Patterns, lines: seq<string>, i: nat, st: ScanState, st': ScanState, bs: seq<Block>)
    requires i < |lines| && st.count == i && p.header(lines[i]).Some?
    requires st'.done == st.done + (if st.open.Some? then [Close(st.open.value, i)] else [])
    requires st'.open.Some? && st'.open.value.start == i + 1 && st'.count >= i + 1
    requires st'.open.value.queries == QueryAt(lines, i)
    requires st'.open.value.interprets == ClauseAt(p, lines, i)
    requires Completes(p, lines, NextIndex(p, lines, i), st', bs)
    requires Collected(p, lines, i, bs, |st'.done| + 1)
    ensures Completes(p, lines, i, st, bs)
  {
    var j := NextIndex(p, lines, i);
    var m := |st.done|;
    var n := |st'.done|;
    var b := bs[n];
    if st.open.Some? {
      PrefixSnoc(bs, st.done, Close(st.open.value, i));
      ClosePart(p, lines, i, st.open.value, bs[m]);
    }
    NewPart(p, lines, i, st'.open.value, b);
    CollectedCons(p, lines, i, bs, n);
    StartsOfFrom(bs, n);
    assert Headers(p, lines, i) == [i + 1] + Headers(p, lines, j);
  }

  /** The record opened on `lines[i]` holds what the lines examined from there put in its range. */
  lemma NewPart(p: Patterns, lines: seq<string>, i: nat, d: Draft, b: Block)
    requires i < |lines| && d.start == i + 1 && b.lines.end >= i + 1
    requires d.queries == QueryAt(lines, i) && d.interprets == ClauseAt(p, lines, i)
    requires Extends(p, lines, NextIndex(p, lines, i), d, b)
    ensures b.lines.start == i + 1
    ensures b.queries == QueriesIn(p, lines, i, b.lines.start, b.lines.end)
    ensures b.interprets == ClausesIn(p, lines, i, b.lines.start, b.lines.end)
  {
    InStep(p, lines, i, i + 1, b.lines.end);
  }

  lemma PrefixSnoc<T>(s: seq<T>, pre: seq<T>, x: T)
    requires |s| > |pre| && s[..|pre| + 1] == pre + [x]
    ensures s[..|pre|] == pre && s[|pre|] == x
  {
    assert s[..|pre|] == s[..|pre| + 1][..|pre|];
  }

  /** The record closed at line `i` gets nothing more from the lines examined from `lines[i]` on. */
  lemma ClosePart(p: Patterns, lines: seq<string>, i: nat, d: Draft, b: Block)
    requires i <= |lines| && b == Close(d, i)
    ensures Extends(p, lines, i, d, b) && b.lines.end >= i
  {
    assert QueriesIn(p, lines, i, d.start, i) == [];
    assert ClausesIn(p, lines, i, d.start, i) == [];
    ConcatEmpty(d.queries);
    ConcatEmpty(d.interprets);
  }

  lemma CollectedCons(p: Patterns, lines: seq<string>, i: nat, bs: seq<Block>, n: nat)
    requires i <= |lines| && n < |bs| && Collected(p, lines, i, bs, n + 1)
    requires bs[n].queries == QueriesIn(p, lines, i, bs[n].lines.start, bs[n].lines.end)
    requires bs[n].interprets == ClausesIn(p, lines, i, bs[n].lines.start, bs[n].lines.end)
    ensures Collected(p, lines, i, bs, n)
  {
  }

  lemma StartsOfFrom(bs: seq<Block>, n: nat)
    requires n < |bs|
    ensures StartsOf(bs[n..]) == [bs[n].lines.start] + StartsOf(bs[n + 1..])
  {
    assert bs[n..][1..] == bs[n + 1..];
  }

  /** A line that is not a header adds its query and its clause to the open record. */
  lemma OpenCompletes(p: Patterns, lines: seq<string>, i: nat, d: Draft, d': Draft, b: Block)
    requires i < |lines| && d.start <= i + 1 <= b.lines.end
    requires d'.start == d.start && d'.name == d.name && d'.path == d.path
    requires d'.queries == d.queries + QueryAt(lines, i)
    requires d'.interprets == d.interprets + ClauseAt(p, lines, i)
    requires Extends(p, lines, NextIndex(p, lines, i), d', b)
    ensures Extends(p, lines, i, d, b)
  {
    var j := NextIndex(p, lines, i);
    var e := b.lines.end;
    InStep(p, lines, i, d.start, e);
    Assoc(d.queries, QueryAt(lines, i), QueriesIn(p, lines, j, d.start, e));
    Assoc(d.interprets, ClauseAt(p, lines, i), ClausesIn(p, lines, j, d.start, e));
  }

  /** An examined line inside the range contributes its query and its clause first. */
  lemma InStep(p: Patterns, lines: seq<string>, i: nat, lo: nat, hi: nat)
    requires i < |lines| && lo <= i + 1 <= hi
    ensures QueriesIn(p, lines, i, lo, hi) == QueryAt(lines, i) + QueriesIn(p, lines, NextIndex(p, lines, i), lo, hi)
    ensures ClausesIn(p, lines, i, lo, hi) == ClauseAt(p, lines, i) + ClausesIn(p, lines, NextIndex(p, lines, i), lo, hi)
  {
  }

  /** The count after the interpret test: the lines the clause loop read are added. */
  lemma InterpretCount(p: Patterns, lines: seq<string>, i: nat, st2: ScanState)
    requires i < |lines|
    ensures var r := InterpretStep(p, lines, i, st2);
            r.Next? ==>
              if OpensInterpret(lines[i])
              then Accumulate(p, lines, i + 1, lines[i], 0).Closed?
                   && r.state.count == st2.count + Accumulate(p, lines, i + 1, lines[i], 0).read
              else r.state.count == st2.count
  {
  }

  /** The count after a successful turn on `lines[i]`. */
  lemma StepCount(p: Patterns, path: string, lines: seq<string>, i: nat, st: ScanState)
    requires i < |lines| && st.count == i
    ensures var r := StepAt(p, path, lines, i, st);
            r.Next? ==>
              if OpensInterpret(lines[i])
              then Accumulate(p, lines, i + 1, lines[i], 0).Closed?
                   && r.state.count == i + 1 + Accumulate(p, lines, i + 1, lines[i], 0).read
              else r.state.count == i + 1
  {
    StepAtSplit(p, path, lines, i, st);
    var h := HeaderStep(p, path, lines[i], st.(count := st.count + 1));
    if h.Ok? && QueryStep(lines[i], h.value).Ok? {
      InterpretCount(p, lines, i, QueryStep(lines[i], h.value).value);
    }
  }

  /** The clause loop reads past the end of the file only when it starts there, and then reads once. */
  lemma ClauseReadBound(p: Patterns, lines: seq<string>, j0: nat, opener: string)
    requires j0 <= |lines|
    ensures var a := Accumulate(p, lines, j0, opener, 0);
            a.Closed? ==> 1 <= a.read && (j0 + a.read <= |lines| || (j0 == |lines| && a.read == 1))
  {
    AccumulateFirstMatch(p, lines, j0, opener);
  }

  /** When no line is left to examine after `lines[i]`, the count has gone
      past the end of the file exactly when `lines[i]` is the last line and
      opens a clause. */
  lemma CountAtEnd(p: Patterns, path: string, lines: seq<string>, i: nat, st: ScanState)
    requires i < |lines| && st.count == i
    ensures var r := StepAt(p, path, lines, i, st);
            r.Next? && NextIndex(p, lines, i) == |lines| ==>
              (r.state.count == |lines| + 1 <==> i == |lines| - 1 && OpensInterpret(lines[i]))
  {
    StepCount(p, path, lines, i, st);
    ClauseReadBound(p, lines, i + 1, lines[i]);
  }

  /** The examined lines from `lines[i]` on are `lines[i]` and those from its successor on. */
  lemma ReadsPastEndStep(p: Patterns, lines: seq<string>, i: nat)
    requires i < |lines|
    ensures var j := NextIndex(p, lines, i);
            ReadsPastEnd(p, lines, i) <==>
              if j == |lines| then i == |lines| - 1 && OpensInterpret(lines[i]) else ReadsPastEnd(p, lines, j)
  {
    var j := NextIndex(p, lines, i);
    var e := Examined(p, lines, j);
    assert Examined(p, lines, i) == [i] + e;
    assert (|lines| - 1 in [i] + e) <==> |lines| - 1 == i || |lines| - 1 in e;
    if j == |lines| {
      assert e == [];
    }
  }

  lemma {:induction false} RunLastEnd(p: Patterns, path: string, lines: seq<string>, i: nat, st: ScanState)
    requires i <= |lines| && (i < |lines| ==> st.count == i)
    ensures var r := Run(p, path, lines, i, st);
            r.Ok? ==>
              && |r.value| > 0
              && (Last(r.value).lines.end == |lines| + 1 <==> st.count == |lines| + 1 || ReadsPastEnd(p, lines, i))
    decreases |lines| - i
  {
    if i == |lines| {
      FinishCloses(st);
    } else {
      var r := StepAt(p, path, lines, i, st);
      if r.Next? {
        StepAdvances(p, path, lines, i, st);
        CountAtEnd(p, path, lines, i, st);
        ReadsPastEndStep(p, lines, i);
        RunLastEnd(p, path, lines, r.index, r.state);
        assert Run(p, path, lines, i, st) == Run(p, path, lines, r.index, r.state);
      }
    }
  }

  /** The last record ends at the number of lines `cont_lin` counted: the
      length of the file, plus one exactly when the last line is examined and
      opens a clause. */
  lemma ScanLastEnd(p: Patterns, path: string, lines: seq<string>)
    ensures var r := Scan(p, path, lines);
            r.Ok? ==> |r.value| > 0 && Last(r.value).lines.end == |lines| + (if ReadsPastEnd(p, lines, 0) then 1 else 0)
  {
    RunLastEnd(p, path, lines, 0, Initial);
    ScanWellFormed(p, path, lines);
  }

  /** A successful scan has one record per examined header line, in order, each
      starting at that line; and each record holds the queries and the clauses
      of exactly the examined lines inside its range, in file order. */
  lemma ScanRecordsExactly(p: Patterns, path: string, lines: seq<string>)
    ensures var r := Scan(p, path, lines);
            r.Ok? ==>
              && StartsOf(r.value) == Headers(p, lines, 0)
              && forall k :: 0 <= k < |r.value| ==>
                   && r.value[k].queries == QueriesIn(p, lines, 0, r.value[k].lines.start, r.value[k].lines.end)
                   && r.value[k].interprets == ClausesIn(p, lines, 0, r.value[k].lines.start, r.value[k].lines.end)
  {
    RunCompletes(p, path, lines, 0, Initial);
    var r := Scan(p, path, lines);
    if r.Ok? {
      assert r.value[0..] == r.value;
    }
  }
}
