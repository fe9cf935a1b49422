/** The line scanner of `inventariar`, as a specification.

    `StepAt` is one turn of the outer `while linea` loop: count the line, test it
    for a block header, then for a query marker, then for the start of an
    interpret clause, which `Accumulate` completes by reading further lines.
    `Run` repeats the step to the end of the input and `Finish` closes the
    last block. The class `TerrierInventory` in TerrierFile.dfy runs the same
    scan with loops and is proved equal to `Scan`. */
module Scanner {
  import opened Wrappers
  import opened Text
  import opened Records
  import opened Patterns

  /** The ways the source's scan fails. `MalformedHeader`: the header matched
      but holds no name token (`nom_blk` is `None`). `QueryOutsideBlock`,
      `InterpretOutsideBlock` and `NoBlock` are a `KeyError` on the empty
      `block_data` before any header: a query line, a completed interpret
      clause, and the final close. `UnterminatedInterpret`: a clause opened on
      the given line never matches, and the source's inner loop keeps reading
      `''` forever. */
  datatype ScanError =
    | MalformedHeader(line: nat)
    | QueryOutsideBlock(line: nat)
    | InterpretOutsideBlock(line: nat)
    | UnterminatedInterpret(line: nat)
    | NoBlock

  /** `cont_lin`, `block_data` (`None` while `sen` is false) and `inventario`. */
  datatype ScanState = ScanState(count: nat, open: Option<Draft>, done: seq<Block>)

  /** The outcome of the inner `while True` loop: the clause and the number of
      lines read after the opening line, or end of input without a match. */
  datatype Accumulated = Closed(clause: Interpret, read: nat) | Unterminated

  datatype Step = Next(index: nat, state: ScanState) | Stop(error: ScanError)

  const Initial: ScanState := ScanState(0, None, [])

  /** `archivo.readline()`: past the end of the file it returns `''`. */
  function ReadAt(lines: seq<string>, j: nat): string
  {
    if j < |lines| then lines[j] else ""
  }

  /** The interpret record: `blocks_usados` lists the name tokens of the whole
      accumulated buffer, without repetitions. */
  function ClauseOf(m: ClauseMatch, names: seq<string>): Interpret
  {
    Interpret(m.whole, m.expr, Dedup(names))
  }

  /** The inner loop: read a line, append it to `texto_int`, count it, and stop
      as soon as the whole buffer matches the full-clause pattern. One read
      always happens before the first test. At the end of the input the read
      gives `''`, which cannot change the buffer any more: the model stops
      there with `Unterminated` where the source spins. */
  function Accumulate(p: Patterns, lines: seq<string>, j: nat, buffer: string, read: nat): Accumulated
    requires j <= |lines|
    decreases |lines| - j
  {
    var b := buffer + ReadAt(lines, j);
    match p.clause(b)
    case Some(m) => Closed(ClauseOf(m, p.names(b)), read + 1)
    case None => if j == |lines| then Unterminated else Accumulate(p, lines, j + 1, b, read + 1)
  }

  /** The line the outer loop examines after `lines[i]`. */
  function NextIndex(p: Patterns, lines: seq<string>, i: nat): (r: nat)
    requires i < |lines|
    ensures i < r <= |lines|
    ensures !OpensInterpret(lines[i]) ==> r == i + 1
  {
    if !OpensInterpret(lines[i]) then i + 1
    else match Accumulate(p, lines, i + 1, lines[i], 0)
      case Unterminated => |lines|
      case Closed(_, n) => Min(i + 1 + n, |lines|)
  }

  /** The header test of one line, whose number `st.count` already is. */
  function HeaderStep(p: Patterns, path: string, line: string, st: ScanState): Result<ScanState, ScanError>
    requires st.count >= 1
  {
    match p.header(line)
    case None => Ok(st)
    case Some(h) =>
      var done := if st.open.Some? then st.done + [Close(st.open.value, st.count - 1)] else st.done;
      match FirstName(p, h)
      case None => Err(MalformedHeader(st.count))
      case Some(n) => Ok(ScanState(st.count, Some(Draft(n, path, st.count, [], [])), done))
  }

  /** The query test of one line. */
  function QueryStep(line: string, st: ScanState): Result<ScanState, ScanError>
  {
    if !IsQueryLine(line) then Ok(st)
    else match st.open
      case None => Err(QueryOutsideBlock(st.count))
      case Some(d) => Ok(st.(open := Some(d.(queries := d.queries + [QueryText(line)]))))
  }

  /** The interpret test of `lines[i]`, in the state `st` left by the header
      and query tests: an opening line is completed by `Accumulate`, and the
      clause is added to the open record. */
  function InterpretStep(p: Patterns, lines: seq<string>, i: nat, st: ScanState): (r: Step)
    requires i < |lines|
    ensures r.Next? ==> i < r.index <= |lines|
  {
    if !OpensInterpret(lines[i]) then Next(i + 1, st)
    else
      match Accumulate(p, lines, i + 1, lines[i], 0)
      case Unterminated => Stop(UnterminatedInterpret(st.count))
      case Closed(c, n) =>
        var count := st.count + n;
        match st.open
        case None => Stop(InterpretOutsideBlock(count))
        case Some(d) =>
          Next(NextIndex(p, lines, i), st.(count := count, open := Some(d.(interprets := d.interprets + [c]))))
  }

  /** One turn of the outer loop on `lines[i]`. */
  function StepAt(p: Patterns, path: string, lines: seq<string>, i: nat, st: ScanState): (r: Step)
    requires i < |lines|
    ensures r.Next? ==> i < r.index <= |lines|
  {
    match HeaderStep(p, path, lines[i], st.(count := st.count + 1))
    case Err(e) => Stop(e)
    case Ok(st1) =>
      match QueryStep(lines[i], st1)
      case Err(e) => Stop(e)
      case Ok(st2) => InterpretStep(p, lines, i, st2)
  }

  /** After the last line: the open block ends at the last line counted. */
  function Finish(st: ScanState): Result<seq<Block>, ScanError>
  {
    match st.open
    case None => Err(NoBlock)
    case Some(d) => Ok(st.done + [Close(d, st.count)])
  }

  /** Finishing succeeds exactly when a record is open; it keeps the closed
      records and closes the open one at the last line counted. */
  lemma FinishCloses(st: ScanState)
    ensures Finish(st).Ok? <==> st.open.Some?
    ensures var r := Finish(st);
            r.Ok? ==> |r.value| == |st.done| + 1 && r.value[..|st.done|] == st.done
                      && Last(r.value).name == st.open.value.name
                      && Last(r.value).lines == LineRange(st.open.value.start, st.count)
  {
    if st.open.Some? {
      assert Finish(st).value[..|st.done|] == st.done;
    }
  }

  function Run(p: Patterns, path: string, lines: seq<string>, i: nat, st: ScanState): Result<seq<Block>, ScanError>
    requires i <= |lines|
    decreases |lines| - i
  {
    if i == |lines| then Finish(st)
    else match StepAt(p, path, lines, i, st)
      case Stop(e) => Err(e)
      case Next(j, st') => Run(p, path, lines, j, st')
  }

  /** The inventory of a file whose lines (each as `readline` returns it) are `lines`. */
  function Scan(p: Patterns, path: string, lines: seq<string>): Result<seq<Block>, ScanError>
  {
    Run(p, path, lines, 0, Initial)
  }

  // ---------------------------------------------------------------------------
  // Clause accumulation

  /** The buffer after the opening line and `n` further reads. */
  function Window(opener: string, lines: seq<string>, j0: nat, n: nat): string
    requires j0 <= |lines|
  {
    opener + Concat(lines[j0..Min(j0 + n, |lines|)])
  }

  /** What accumulation from `lines[j0]` on yields: the first buffer (with at
      least one line read) that matches, as the clause, with every earlier
      buffer failing; or, at end of input, no buffer matching at all. */
  ghost predicate FirstMatch(p: Patterns, lines: seq<string>, j0: nat, opener: string, r: Accumulated)
    requires j0 <= |lines|
  {
    match r
    case Closed(c, n) =>
      && 1 <= n
      && (j0 + n <= |lines| || (j0 == |lines| && n == 1))
      && p.clause(Window(opener, lines, j0, n)).Some?
      && c == ClauseOf(p.clause(Window(opener, lines, j0, n)).value, p.names(Window(opener, lines, j0, n)))
      && forall k :: 1 <= k < n ==> p.clause(Window(opener, lines, j0, k)).None?
    case Unterminated =>
      forall k :: 1 <= k <= |lines| - j0 + 1 ==> p.clause(Window(opener, lines, j0, k)).None?
  }

  lemma WindowStep(opener: string, lines: seq<string>, j0: nat, n: nat)
    requires j0 <= |lines|
    ensures Window(opener, lines, j0, n + 1) == Window(opener, lines, j0, n) + ReadAt(lines, j0 + n)
  {
    if j0 + n < |lines| {
      assert lines[j0..j0 + n + 1] == lines[j0..j0 + n] + [lines[j0 + n]];
      ConcatSnoc(lines[j0..j0 + n], lines[j0 + n]);
    }
  }

  lemma {:induction false} AccumulateFrom(p: Patterns, lines: seq<string>, j0: nat, opener: string, j: nat, buffer: string)
    requires j0 <= j <= |lines|
    requires buffer == Window(opener, lines, j0, j - j0)
    requires forall k :: 1 <= k <= j - j0 ==> p.clause(Window(opener, lines, j0, k)).None?
    ensures FirstMatch(p, lines, j0, opener, Accumulate(p, lines, j, buffer, j - j0))
    decreases |lines| - j
  {
    WindowStep(opener, lines, j0, j - j0);
    var b := buffer + ReadAt(lines, j);
    if p.clause(b).None? && j < |lines| {
      AccumulateFrom(p, lines, j0, opener, j + 1, b);
    }
  }

  /** A closed clause has read at least one line and at most the lines left plus the `''` at EOF. */
  lemma {:induction false} AccumulateReads(p: Patterns, lines: seq<string>, j: nat, buffer: string, read: nat)
    requires j <= |lines|
    ensures var r := Accumulate(p, lines, j, buffer, read);
            r.Closed? ==> read < r.read <= read + |lines| - j + 1
    decreases |lines| - j
  {
    var b := buffer + ReadAt(lines, j);
    if p.clause(b).None? && j < |lines| {
      AccumulateReads(p, lines, j + 1, b, read + 1);
    }
  }

  /** Accumulation stops at the first buffer that matches the full-clause pattern. */
  lemma AccumulateFirstMatch(p: Patterns, lines: seq<string>, j0: nat, opener: string)
    requires j0 <= |lines|
    ensures FirstMatch(p, lines, j0, opener, Accumulate(p, lines, j0, opener, 0))
  {
    assert Window(opener, lines, j0, 0) == opener;
    AccumulateFrom(p, lines, j0, opener, j0, opener);
  }

  // ---------------------------------------------------------------------------
  // Structure of the inventory

  /** Each record starts no later than it ends, and not before line 1. */
  ghost predicate RangesOrdered(bs: seq<Block>)
  {
    forall k :: 0 <= k < |bs| ==> 1 <= bs[k].lines.start <= bs[k].lines.end
  }

  /** Each record starts on the line after the previous record's last line. */
  ghost predicate Contiguous(bs: seq<Block>)
  {
    forall i, j :: 0 <= i < j < |bs| && j == i + 1 ==> bs[j].lines.start == bs[i].lines.end + 1
  }

  /** `line` matches the header pattern and `name` is the first name token of the match. */
  ghost predicate HeaderNamed(p: Patterns, line: string, name: string)
  {
    p.header(line).Some? && FirstName(p, p.header(line).value) == Some(name)
  }

  /** Each record starts at a header line that names it, and belongs to `path`. */
  ghost predicate StartsAtHeaders(p: Patterns, path: string, lines: seq<string>, bs: seq<Block>)
  {
    forall k :: 0 <= k < |bs| ==> BeginsAtHeader(p, path, lines, bs[k].lines.start, bs[k].name, bs[k].path)
  }

  ghost predicate BeginsAtHeader(p: Patterns, path: string, lines: seq<string>, start: nat, name: string, file: string)
  {
    1 <= start <= |lines| && HeaderNamed(p, lines[start - 1], name) && file == path
  }

  /** No line before `lines[n]` is a header. */
  ghost predicate NoHeaderBefore(p: Patterns, lines: seq<string>, n: int)
  {
    forall k :: 0 <= k < n && k < |lines| ==> p.header(lines[k]).None?
  }

  ghost predicate ClosedRecords(p: Patterns, path: string, lines: seq<string>, bs: seq<Block>)
  {
    RangesOrdered(bs) && Contiguous(bs) && StartsAtHeaders(p, path, lines, bs)
  }

  /** What a successful scan delivers. */
  ghost predicate WellFormed(p: Patterns, path: string, lines: seq<string>, bs: seq<Block>)
  {
    && |bs| > 0
    && ClosedRecords(p, path, lines, bs)
    && NoHeaderBefore(p, lines, bs[0].lines.start - 1)
    && |lines| <= Last(bs).lines.end <= |lines| + 1
    && (Last(bs).lines.end == |lines| + 1 ==> |lines| > 0 && OpensInterpret(lines[|lines| - 1]))
  }

  /** The record being built extends the closed ones. */
  ghost predicate OpenFits(p: Patterns, path: string, lines: seq<string>, count: nat, d: Draft, done: seq<Block>)
  {
    && d.start <= count
    && BeginsAtHeader(p, path, lines, d.start, d.name, d.path)
    && (done != [] ==> d.start == Last(done).lines.end + 1)
    && NoHeaderBefore(p, lines, (if done != [] then done[0].lines.start else d.start) - 1)
  }

  /** The invariant of the scan state, `count` lines having been counted. */
  ghost predicate Inv(p: Patterns, path: string, lines: seq<string>, st: ScanState)
  {
    && st.count <= |lines| + 1
    && ClosedRecords(p, path, lines, st.done)
    && (match st.open
        case None => st.done == [] && (st.count >= |lines| || NoHeaderBefore(p, lines, st.count))
        case Some(d) => OpenFits(p, path, lines, st.count, d, st.done))
  }

  /** The invariant between two turns of the outer loop, at `lines[i]`: every
      line read has been counted, plus the one read past the end when a clause
      opened on the last line closes there. */
  ghost predicate Good(p: Patterns, path: string, lines: seq<string>, i: nat, st: ScanState)
  {
    && i <= |lines| && Inv(p, path, lines, st)
    && (st.count == i || (i == |lines| && st.count == i + 1 && i > 0 && OpensInterpret(lines[i - 1]) && st.open.Some?))
  }

  /** Closing the open record at line `end` keeps the closed records well formed. */
  lemma CloseKeeps(p: Patterns, path: string, lines: seq<string>, count: nat, d: Draft, done: seq<Block>, end: nat)
    requires ClosedRecords(p, path, lines, done) && OpenFits(p, path, lines, count, d, done) && d.start <= end
    ensures var bs := done + [Close(d, end)];
            ClosedRecords(p, path, lines, bs) && Last(bs).lines.end == end
            && bs[0].lines.start == (if done != [] then done[0].lines.start else d.start)
            && NoHeaderBefore(p, lines, bs[0].lines.start - 1)
  {
    var bs := done + [Close(d, end)];
    assert forall k :: 0 <= k < |done| ==> bs[k] == done[k];
  }

  lemma HeaderStepKeeps(p: Patterns, path: string, lines: seq<string>, st: ScanState)
    requires Inv(p, path, lines, st) && st.count < |lines|
    ensures var r := HeaderStep(p, path, lines[st.count], st.(count := st.count + 1));
            r.Ok? ==> Inv(p, path, lines, r.value) && r.value.count == st.count + 1
  {
    var c := st.count + 1;
    var line := lines[st.count];
    match p.header(line)
    case None =>
      if st.open.None? && st.count < |lines| {
        assert NoHeaderBefore(p, lines, c);
      }
    case Some(h) =>
      match FirstName(p, h)
      case None =>
      case Some(n) =>
        var d := Draft(n, path, c, [], []);
        assert BeginsAtHeader(p, path, lines, c, n, path);
        match st.open
        case None =>
          assert OpenFits(p, path, lines, c, d, []);
        case Some(o) =>
          CloseKeeps(p, path, lines, st.count, o, st.done, c - 1);
          var done := st.done + [Close(o, c - 1)];
          assert OpenFits(p, path, lines, c, d, done);
  }

  lemma QueryStepKeeps(p: Patterns, path: string, lines: seq<string>, line: string, st: ScanState)
    requires Inv(p, path, lines, st)
    ensures var r := QueryStep(line, st);
            r.Ok? ==> Inv(p, path, lines, r.value) && r.value.count == st.count && r.value.open.Some? == st.open.Some?
  {
    if IsQueryLine(line) && st.open.Some? {
      var d := st.open.value;
      assert OpenFits(p, path, lines, st.count, d.(queries := d.queries + [QueryText(line)]), st.done);
    }
  }

  /** The interpret test keeps the invariant. */
  lemma InterpretStepKeeps(p: Patterns, path: string, lines: seq<string>, i: nat, st2: ScanState)
    requires i < |lines| && Inv(p, path, lines, st2) && st2.count == i + 1
    ensures var r := InterpretStep(p, lines, i, st2); r.Next? ==> Good(p, path, lines, r.index, r.state)
  {
    if OpensInterpret(lines[i]) {
      AccumulateFirstMatch(p, lines, i + 1, lines[i]);
      match Accumulate(p, lines, i + 1, lines[i], 0)
      case Unterminated =>
      case Closed(c, n) =>
        if st2.open.Some? {
          var d := st2.open.value;
          assert OpenFits(p, path, lines, st2.count + n, d.(interprets := d.interprets + [c]), st2.done);
        }
    }
  }

  /** One turn of the outer loop keeps the invariant. */
  lemma StepKeepsGood(p: Patterns, path: string, lines: seq<string>, i: nat, st: ScanState)
    requires i < |lines| && Good(p, path, lines, i, st)
    ensures var r := StepAt(p, path, lines, i, st); r.Next? ==> Good(p, path, lines, r.index, r.state)
  {
    assert st.count == i;
    var r1 := HeaderStep(p, path, lines[i], st.(count := st.count + 1));
    if r1.Ok? && QueryStep(lines[i], r1.value).Ok? {
      var st2 := QueryStep(lines[i], r1.value).value;
      HeaderStepKeeps(p, path, lines, st);
      QueryStepKeeps(p, path, lines, lines[i], r1.value);
      InterpretStepKeeps(p, path, lines, i, st2);
      StepAtInterprets(p, path, lines, i, st);
    } else {
      StepAtInterprets(p, path, lines, i, st);
    }
  }

  /** The interpret test leaves the closed records alone. */
  lemma InterpretKeepsDone(p: Patterns, lines: seq<string>, i: nat, st: ScanState)
    requires i < |lines|
    ensures var r := InterpretStep(p, lines, i, st); r.Next? ==> r.state.done == st.done
  {
  }

  /** A turn stops with the error of the first test that fails, and ends with
      the interpret test when the header and query tests pass. */
  lemma StepAtSplit(p: Patterns, path: string, lines: seq<string>, i: nat, st: ScanState)
    requires i < |lines|
    ensures var h := HeaderStep(p, path, lines[i], st.(count := st.count + 1));
            && (h.Err? ==> StepAt(p, path, lines, i, st) == Stop(h.error))
            && (h.Ok? ==> h.value.count == st.count + 1)
            && (h.Ok? ==>
                  var q := QueryStep(lines[i], h.value);
                  && (q.Err? ==> StepAt(p, path, lines, i, st) == Stop(q.error))
                  && (q.Ok? ==> q.value.count == st.count + 1 && q.value.done == h.value.done)
                  && (q.Ok? ==> StepAt(p, path, lines, i, st) == InterpretStep(p, lines, i, q.value)))
  {
  }

  /** A turn ends with the interpret test when the header and query tests pass, and stops otherwise. */
  lemma StepAtInterprets(p: Patterns, path: string, lines: seq<string>, i: nat, st: ScanState)
    requires i < |lines|
    ensures var r1 := HeaderStep(p, path, lines[i], st.(count := st.count + 1));
            if r1.Ok? && QueryStep(lines[i], r1.value).Ok?
            then StepAt(p, path, lines, i, st) == InterpretStep(p, lines, i, QueryStep(lines[i], r1.value).value)
            else StepAt(p, path, lines, i, st).Stop?
  {
  }

  lemma FinishWellFormed(p: Patterns, path: string, lines: seq<string>, st: ScanState)
    requires Good(p, path, lines, |lines|, st)
    ensures Finish(st).Ok? ==> WellFormed(p, path, lines, Finish(st).value)
  {
    if st.open.Some? {
      CloseKeeps(p, path, lines, st.count, st.open.value, st.done, st.count);
    }
  }

  lemma {:induction false} RunWellFormed(p: Patterns, path: string, lines: seq<string>, i: nat, st: ScanState)
    requires Good(p, path, lines, i, st)
    ensures Run(p, path, lines, i, st).Ok? ==> WellFormed(p, path, lines, Run(p, path, lines, i, st).value)
    decreases |lines| - i
  {
    if i == |lines| {
      FinishWellFormed(p, path, lines, st);
    } else {
      StepKeepsGood(p, path, lines, i, st);
      match StepAt(p, path, lines, i, st)
      case Stop(e) =>
      case Next(j, st') => RunWellFormed(p, path, lines, j, st');
    }
  }

  /** Records start in strictly increasing line order. */
  lemma {:induction false} StartsIncrease(bs: seq<Block>, i: nat, j: nat)
    requires RangesOrdered(bs) && Contiguous(bs) && i < j < |bs|
    ensures bs[i].lines.start < bs[j].lines.start
    decreases j - i
  {
    if i + 1 < j {
      StartsIncrease(bs, i, j - 1);
    }
    assert bs[j].lines.start == bs[j - 1].lines.end + 1;
  }

  /** The clause loop reads before it tests, so the line after an opening line
      is always consumed by the clause, even when the opening line alone
      completes it: that line is never examined for a header, a query or
      another clause. */
  lemma InterpretConsumesNextLine(p: Patterns, lines: seq<string>, i: nat, st: ScanState)
    requires i < |lines| && OpensInterpret(lines[i])
    ensures var r := InterpretStep(p, lines, i, st);
            r.Next? ==> r.index == |lines| || r.index >= i + 2
  {
    AccumulateFirstMatch(p, lines, i + 1, lines[i]);
  }

  /** A successful scan yields at least one record; the records are contiguous
      non-empty line ranges, each starting at the header line that names it;
      the lines before the first header belong to no record; and the last
      record ends at the last line counted: the end of the file, or one past it
      when a clause opening on the last line is closed by the `''` read at EOF. */
  lemma ScanWellFormed(p: Patterns, path: string, lines: seq<string>)
    ensures Scan(p, path, lines).Ok? ==> WellFormed(p, path, lines, Scan(p, path, lines).value)
  {
    RunWellFormed(p, path, lines, 0, Initial);
  }
}
