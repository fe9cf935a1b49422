# Terrier file inventory and block relation graph

This is a model of `InventarioTerrierFile`, the class of `foldetTemp/analizar_lua.py` that
reads a `.lua.ter` file of Terrier blocks. Its scan works line by line:

- A header line opens a new block record. The record is named by the header's first name token.
- A `--&` line adds an example query to the open record.
- A line that opens an `interpret { … } as { … };` clause starts an accumulation. Further lines are
  appended to a buffer until the buffer matches the full-clause pattern. The clause's raw text, its
  expression and the block names it uses (without repetitions, in first-occurrence order) are then
  added to the open record.
- Each record ends on the line before the next header, or at the last line counted.

From the finished inventory the class builds a relation graph:

- An edge goes from each block to every block named in one of its clauses.
- Both ends are normalised: newlines dropped, whitespace runs collapsed, `"` turned into `'`, and
  the argument span replaced by `(...)`.
- Optionally only edges to the file's own blocks (or `PHONE_NUMBER(...)`) are kept.
- The nodes named in a comma-separated list are marked.

Given an origin block, the class also builds the upstream graph: the edges a reversed depth-first
walk from the origin crosses, with the origin highlighted.

## Modules

- `Wrappers`: `Option`, `Result` and `Min`.
- `Text`: the string functions the source uses. These are stripping, `startswith`, `in`, `split`,
  the first and last index of a character, and order-preserving de-duplication
  (`OrderedDict.fromkeys`).
- `Records`: the records of the inventory (`Block`, `Interpret`, `LineRange`) and the open record
  (`Draft`).
- `Patterns`: the three regular expressions, which stay abstract. A `Patterns` value supplies the
  header search, the name-token `findall` and the full-clause search as total functions. The tests
  for query lines and clause openers are written out.
- `Scanner`: the scan as a specification. `StepAt` is one turn of the outer loop. `Accumulate` is
  the inner clause loop, and `NextIndex` the line the outer loop resumes at after a clause. `Run`
  and `Scan` give the whole file. Around them are lemmas about what a
  successful scan delivers.
- `Sections`: which lines the outer loop examines (`Examined`), the header lines among them
  (`Headers`), and the queries and clauses of the examined lines inside a line range (`QueriesIn`,
  `ClausesIn`). `ScanRecordsExactly` proves that a successful scan's records are exactly these, and
  `ScanLastEnd` fixes where the last one ends.
- `Names`: the normalisation of block names into graph identifiers, and the argument-only
  substitution used for the list of local blocks.
- `Digraph`: edge sets, predecessors and backward reachability. Reachability is a least fixed point,
  proved equal to the existence of a path.
- `CallGraph`: the edge set and the marked nodes of the relation graph, as functions of the
  inventory, with their characterisation lemmas.
- `ReversePath`: the upstream edge set, a worklist walk proved to compute it, and the origin check of
  the upstream graph.
- `TerrierFile`: the class `TerrierInventory`, whose fields are the object's storage (`inventario`,
  `block_data`, `texto_int`). `Scan` runs the nested loops of `inventariar`, one turn of the outer
  loop per call of `ScanLine`, and is proved equal to `Scanner.Scan`. `GraphRelations` runs the
  three nested loops of `graficar_relaciones` and is proved equal to `CallGraph.CallEdges` and
  `CallGraph.Marked`, followed by the origin check.

The scan reads the file as `lines`, the successive results of `readline`. Each line keeps its `\n`,
except a last line that has none, and no element is empty. Past the end, `readline` gives `''`
(`Scanner.ReadAt`).

Where the source does not return normally, the model returns an explicit error:

- `ScanError` covers the scan's failures:
  - a header without a name token (`nom_blk` is `None`);
  - a query line, a completed clause or the final close while `block_data` is still empty, which is
    a `KeyError`;
  - a clause that never completes.
- For a clause that never completes, the source's inner `while True` loop keeps appending the `''`
  that `readline` returns at end of file, so it never terminates. The model stops there with
  `UnterminatedInterpret`.
- `PathError` covers the two failures of the upstream graph: an origin that is not a node of the main
  graph (the `assert` on `get_node`), and an origin that no edge enters. In the second case the
  collected graph is empty, and looking up the origin in it fails.

The inner clause loop reads one more line before it tests the buffer for the first time. A clause
that closes on its opening line therefore still consumes the following line, which is never examined
for a header, a query or a new clause (`Scanner.InterpretConsumesNextLine`). When the opening line is
the last line, the `''` read at end of file is counted too. The last record ends at the number of
lines counted: one line past the end of the file exactly when the last line is examined and opens a
clause, and at the last line otherwise (`Sections.ScanLastEnd`).

The graph's normalisation ends with `re.sub("\(.*\)", "(...)", …)`, where `.` does not match a
newline. `Names.ReplaceArgs` applies that substitution line by line. The graph identifiers reach this
step after the newlines are dropped, so `Names.Normalize` applies it to the text as one line, and
`Names.NormalizeIsChain` proves that this is the same as the four-step chain. The local block list
uses the substitution alone, on names that may still hold newlines (`Names.LocalId`).

## Model

| member | source | states |
|---|---|---|
| TerrierFile.TerrierInventory.constructor | foldetTemp/analizar_lua.py:106-113 | The object starts with an empty inventory, no open block and an empty clause buffer. |
| TerrierFile.TerrierInventory.Scan | foldetTemp/analizar_lua.py:132-245 | On a fresh object, the nested scan loops leave exactly the inventory `Scanner.Scan` specifies, with nothing left open or buffered. When the specification fails, the method reports the same error. |
| TerrierFile.TerrierInventory.HeaderLine | foldetTemp/analizar_lua.py:144-183 | A header line closes the open record on the previous line and opens a record at this line, named by the header's first name token. A header without a name token fails with `MalformedHeader`. Other lines change nothing. |
| TerrierFile.TerrierInventory.QueryLine | foldetTemp/analizar_lua.py:187-190 | A line containing `--&` appends its stripped text without the first four characters to the open record's queries. Outside a record it fails with `QueryOutsideBlock`. |
| TerrierFile.TerrierInventory.InterpretLine | foldetTemp/analizar_lua.py:194-234 | A line that opens a clause has its clause read to the end and appended to the open record's interprets. The buffer is then emptied, and the scan resumes after the lines the clause consumed. A clause that never completes fails with `UnterminatedInterpret`, and one completed outside a record fails with `InterpretOutsideBlock`. Any other line moves the scan to the next line. |
| TerrierFile.TerrierInventory.ReadClause | foldetTemp/analizar_lua.py:194-208 | The inner loop yields the clause of the first buffer, after at least one further read, that matches the full-clause pattern. The line count grows by the number of lines read. At end of input with no match it yields `Unterminated`. |
| TerrierFile.TerrierInventory.ScanLine | foldetTemp/analizar_lua.py:141-237 | One turn of the outer loop on the object. It stops with exactly the error `Scanner.StepAt` gives. Otherwise it leaves the next line index, the line count, the open record and the inventory that `StepAt` gives, with the buffer empty. |
| Scanner.AccumulateFirstMatch | foldetTemp/analizar_lua.py:197-223 | The accumulated clause comes from the first window (the opening line plus n ≥ 1 further reads) that matches. Every shorter window fails to match. The used-block list holds the name tokens of that whole window. With no match, no window up to the phantom end-of-file read matches. |
| Scanner.Accumulate | foldetTemp/analizar_lua.py:199-208 | Definition of the inner loop: append the next `readline` result to the buffer and count it, until the buffer matches the full-clause pattern. When even the `''` read past the end does not match, it is `Unterminated`. Its properties are stated by `Scanner.AccumulateFirstMatch` and `Scanner.AccumulateReads`. |
| Scanner.AccumulateReads | foldetTemp/analizar_lua.py:199-208 | A completed clause has read at least one line after its opener, and at most the lines left plus the `''` read at end of file. |
| Scanner.InterpretConsumesNextLine | foldetTemp/analizar_lua.py:197-208 | After a clause opening at line i, the scan resumes at i+2 or later, or at the end. The line after an opener is never examined for a header, a query or a clause. |
| Scanner.InterpretStep | foldetTemp/analizar_lua.py:194-237 | Every successful turn advances the scan by at least one line and stays within the file. |
| Scanner.StepAt | foldetTemp/analizar_lua.py:141-237 | One turn of the outer loop (header test, query test, clause test) advances through the file. |
| Scanner.HeaderStep | foldetTemp/analizar_lua.py:144-183 | Definition of the header test: on a header line, close the open record at the previous line and open one at this line, named by the first name token. A header without a name token is `MalformedHeader`. Other lines change nothing. Its properties are stated by `TerrierFile.TerrierInventory.HeaderLine`, `Scanner.ScanWellFormed` and `Sections.StepAdvances`. |
| Scanner.QueryStep | foldetTemp/analizar_lua.py:188-190 | Definition of the query test: a query line appends its `QueryText` to the open record, and outside a record it is `QueryOutsideBlock`. Its properties are stated by `TerrierFile.TerrierInventory.QueryLine` and `Sections.ScanRecordsExactly`. |
| Scanner.Finish | foldetTemp/analizar_lua.py:242-244 | Definition of the final close. Its property is `Scanner.FinishCloses`. |
| Scanner.FinishCloses | foldetTemp/analizar_lua.py:242-244 | Finishing succeeds exactly when a record is open. It keeps the closed records in order, and appends the open record, under the same name, ending at the last line counted. |
| Scanner.Run | foldetTemp/analizar_lua.py:139-244 | Definition of the outer loop from `lines[i]`: turns of `StepAt` until the end of the file or the first error, then `Finish`. Its properties are stated by `Sections.RunCompletes` and `Scanner.ScanWellFormed`. |
| Scanner.Scan | foldetTemp/analizar_lua.py:132-245 | Definition of the whole scan: `Run` from the first line, with nothing counted, open or stored. Its properties are stated by `Scanner.ScanWellFormed` and `Sections.ScanRecordsExactly`, and `TerrierFile.TerrierInventory.Scan` is proved to compute it. |
| Scanner.ScanWellFormed | foldetTemp/analizar_lua.py:132-245 | A successful scan yields at least one record. The records' line ranges are non-empty, start at line 1 or later, and are contiguous. Each record starts at a header line whose first name token is its name, and its file is the scanned path. No line before the first record is a header. The last record ends at the last line of the file, or one past it, which happens only when the last line opens a clause; `Sections.ScanLastEnd` proves the converse. Which lines each record starts at and collects from is stated by `Sections.ScanRecordsExactly`. |
| Scanner.StartsIncrease | foldetTemp/analizar_lua.py:146-178 | The records of a well-formed inventory start at strictly increasing lines. |
| Scanner.NextIndex | foldetTemp/analizar_lua.py:194-237 | The index examined after `lines[i]` lies after it and within the file. It is `i + 1` unless `lines[i]` opens a clause. |
| Sections.Headers | foldetTemp/analizar_lua.py:144-178 | The numbers of the header lines the outer loop examines from `lines[i]` on, in order. Each is a line number above i, within the file, of a line on which the header pattern matches. |
| Sections.QueriesIn | foldetTemp/analizar_lua.py:188-190 | The queries of the examined lines whose numbers lie in a range, in file order. A range that ends before `lines[i]` yields none. |
| Sections.ClausesIn | foldetTemp/analizar_lua.py:194-226 | The clauses opened on the examined lines whose numbers lie in a range, in file order. A range that ends before `lines[i]` yields none. |
| Sections.StepAdvances | foldetTemp/analizar_lua.py:141-237 | A successful turn on `lines[i]`, which is line i+1, moves to `NextIndex`. On a header line it closes the open record at line i and opens one at line i+1, holding that line's query and clause. On any other line it adds that line's query and clause to the open record, or, with no record open, the line has neither. |
| Sections.RunCompletes | foldetTemp/analizar_lua.py:139-244 | A successful run from `lines[i]` keeps the records already closed and completes the open record with the queries and clauses of the examined lines up to its end. Every later record starts at an examined header line and holds the queries and clauses of the examined lines in its range. |
| Sections.ScanRecordsExactly | foldetTemp/analizar_lua.py:132-245 | A successful scan has one record per examined header line, in file order, starting at that line. Each record's queries and clauses are exactly those of the examined lines inside its line range, in file order. |
| Sections.Examined | foldetTemp/analizar_lua.py:139-237 | The indices of the lines the outer loop examines from `lines[i]` on, in order, each at least i and inside the file. |
| Sections.StepCount | foldetTemp/analizar_lua.py:139-208 | A successful turn on line i+1 counts that line, plus, when it opens a clause, every line the clause loop read, so the clause must have closed. |
| Sections.ClauseReadBound | foldetTemp/analizar_lua.py:199-208 | A closed clause read at least one line. It read past the end of the file only when it started there, and then exactly once: the `''` read. |
| Sections.CountAtEnd | foldetTemp/analizar_lua.py:139-208 | When a successful turn on `lines[i]` leaves no line to examine, the count has passed the end of the file exactly when `lines[i]` is the last line and opens a clause. |
| Sections.RunLastEnd | foldetTemp/analizar_lua.py:139-244 | A successful run from `lines[i]` ends its last record one past the end of the file exactly when the count already is there or the last line is examined from `lines[i]` on and opens a clause. |
| Sections.ScanLastEnd | foldetTemp/analizar_lua.py:199-244 | The last record of a successful scan ends at the number of lines counted: the length of the file, plus one exactly when the last line is examined and opens a clause, whose loop then counts the `''` read at end of file. |
| Patterns.FirstName | foldetTemp/analizar_lua.py:171-174 | The header's name exists exactly when `findall` finds a name token, and it is one of those tokens. |
| Patterns.QueryText | foldetTemp/analizar_lua.py:189 | The stored query is what follows the first four characters of the stripped line, or empty when the stripped line has at most four characters. |
| Patterns.IsQueryLine | foldetTemp/analizar_lua.py:188 | Definition of the query-line test, `'--&' in plin`. Its property is `Patterns.QueryMarkerAt`. |
| Patterns.QueryMarkerAt | foldetTemp/analizar_lua.py:188 | A line is a query line exactly when `--&` occurs in it at some position. |
| Patterns.OpensInterpret | foldetTemp/analizar_lua.py:194 | Definition of the clause-opener test, with its three conjuncts. Its property is `Patterns.OpensInterpretIff`. |
| Patterns.OpensInterpretIff | foldetTemp/analizar_lua.py:194 | A clause opens exactly on the lines that do not start with `--` and start with `interpret` after their leading whitespace. The `'interpret' in plin` conjunct implies nothing more. |
| Text.ContainsAt | foldetTemp/analizar_lua.py:188 | `sub in s` holds exactly when `sub` occurs in `s` at some position. |
| Text.LStrip | foldetTemp/analizar_lua.py:194 | The result is the suffix of the input after its leading whitespace. It is empty or starts with a non-space. |
| Text.RStrip | foldetTemp/analizar_lua.py:189 | The result is the prefix of the input before its trailing whitespace. It is empty or ends with a non-space. |
| Text.Dedup | foldetTemp/analizar_lua.py:223 | The used-block list has no repetitions, holds exactly the names found, and is no longer than the list found. |
| Text.DedupKeepsFirstOrder | foldetTemp/analizar_lua.py:223 | The de-duplicated list keeps the names in the order of their first occurrence. |
| Records.BlockNames | foldetTemp/analizar_lua.py:269-271 | The local block list has one name per record, in inventory order. A name is in the list exactly when some record has it. |
| TerrierFile.TerrierInventory.LocalBlocks | foldetTemp/analizar_lua.py:269-271 | `bloques_locales` returns the name of each record of the object's inventory, in order. |
| Text.Split | foldetTemp/analizar_lua.py:294 | `split(',')` gives at least one piece, and no piece contains a comma. |
| Text.JoinSplit | foldetTemp/analizar_lua.py:294 | Joining the pieces with commas gives back the original string. |
| Text.SplitCount | foldetTemp/analizar_lua.py:294 | The number of pieces is the number of commas plus one. |
| CallGraph.MarkIds | foldetTemp/analizar_lua.py:294-295 | The names to mark are, piece by piece, the comma-separated pieces of `marcar` with `(...)` appended. |
| CallGraph.NoMarksLooksForPlaceholder | foldetTemp/analizar_lua.py:293-295 | With `marcar` empty, the only name looked for is the bare `(...)`. |
| Names.DropNewlines | foldetTemp/analizar_lua.py:320 | The result has no newline and keeps every other character. Its length is the input's length minus its newlines. A name without newlines is unchanged. |
| Names.DropNewlinesConcat | foldetTemp/analizar_lua.py:320 | Removing newlines works character by character: it distributes over concatenation. |
| Names.CollapseSpaces | foldetTemp/analizar_lua.py:321 | After `re.sub('\s+', ' ', …)` every whitespace character is a single space and no two are adjacent. A leading non-space is kept. What else it keeps is stated by `Names.CollapseSpacesKeepsText` and `Names.CollapseSpacesRun`. |
| Names.CollapseSpacesKeepsText | foldetTemp/analizar_lua.py:321 | The collapse changes whitespace only: with whitespace removed, output and input are equal, so every other character stays, in order. |
| Names.CollapseSpacesRun | foldetTemp/analizar_lua.py:321 | A whitespace run of any length between non-space text, or at either end, becomes exactly one space, and the text on each side collapses on its own. |
| Names.CollapseSpacesFixpoint | foldetTemp/analizar_lua.py:321 | A string whose spaces are already collapsed is unchanged by collapsing. |
| Names.SwapQuotes | foldetTemp/analizar_lua.py:322 | The result has the same length and no `"`. Each `"` becomes `'` and every other character is kept in place. |
| Names.ReplaceArgsShape | foldetTemp/analizar_lua.py:323 | On one line, the substitution keeps the prefix before the first `(` unchanged. A name ending in `)` comes out as its prefix followed by `(...)`. |
| Names.ReplaceArgsInLine | foldetTemp/analizar_lua.py:323 | Definition of the substitution on one line: the span from the first `(` to the last `)` becomes `(...)`. Its properties are stated by `Names.ReplaceArgsShape` and `Names.ReplaceArgsInLineIdempotent`. |
| Names.ReplaceArgs | foldetTemp/analizar_lua.py:301 | Definition of the substitution on a text, line by line, because `.` does not match a newline. Its properties are stated by `Names.ReplaceArgsIdempotent` and `Names.ReplaceArgsKeepsLines`. |
| Names.ReplaceArgsKeepsLines | foldetTemp/analizar_lua.py:301 | The substitution keeps the line structure: as many newlines come out as went in. |
| Names.ReplaceArgsInLineIdempotent | foldetTemp/analizar_lua.py:323 | Replacing the argument span of a line twice equals replacing it once. |
| Names.ReplaceArgsIdempotent | foldetTemp/analizar_lua.py:301 | The line-by-line substitution used for local blocks is idempotent. |
| Names.NormalizeIsChain | foldetTemp/analizar_lua.py:320-323 | The graph identifier equals the source's four-step chain, including the line-wise semantics of the final substitution. |
| Names.NormalizeIdempotent | foldetTemp/analizar_lua.py:320-332 | Normalising a graph identifier again changes nothing. |
| Names.Normalize | foldetTemp/analizar_lua.py:320-323 | Definition of the graph identifier of a name. Its properties are stated by `Names.NormalizeIsChain`, `Names.NormalizeIdempotent` and `Names.NormalizeEndsWithPlaceholder`. |
| Names.NormalizeEndsWithPlaceholder | foldetTemp/analizar_lua.py:320-323 | A name that ends with its closing `)` and holds a `(` gets an identifier that ends in `(...)`, with no other `(` in it. |
| Names.LocalId | foldetTemp/analizar_lua.py:301 | Definition of a name's form in the local block list: the argument substitution alone, with no newline, whitespace or quote step. |
| CallGraph.LocalIds | foldetTemp/analizar_lua.py:301 | The local identifiers are, record by record, each name through the argument substitution alone. |
| CallGraph.Ids | foldetTemp/analizar_lua.py:327-332 | The identifiers of a clause's used blocks are, one by one, their normal forms. |
| CallGraph.CallsOf | foldetTemp/analizar_lua.py:317-332 | A record's view in the graph is its normalised name plus, per clause, the normalised used blocks. |
| CallGraph.RelationsAt | foldetTemp/analizar_lua.py:317-318 | The k-th entry of the relation list is the view of the k-th record. |
| CallGraph.CallEdgesExactly | foldetTemp/analizar_lua.py:317-359 | `(a, b)` is an edge exactly when some record with identifier `a` has a clause naming a block with identifier `b`. In local mode, `b` must also be a local identifier or `PHONE_NUMBER(...)`. |
| CallGraph.CallEdges | foldetTemp/analizar_lua.py:317-351 | Definition of the main graph's edge set from the inventory. It is characterised by `CallGraph.CallEdgesExactly`. |
| CallGraph.LocalEdgesAreFiltered | foldetTemp/analizar_lua.py:336-351 | The local-only graph is the full graph with the edges to non-local blocks (other than `PHONE_NUMBER(...)`) removed. |
| CallGraph.EdgeEndsAreNormal | foldetTemp/analizar_lua.py:320-339 | Both ends of every edge are normal forms. |
| CallGraph.MarkedExactly | foldetTemp/analizar_lua.py:340-359 | A node is painted green exactly when it is in the graph and equals one of the pieces of `marcar` followed by `(...)`. |
| CallGraph.Marked | foldetTemp/analizar_lua.py:340-359 | Definition of the painted nodes: the graph's nodes that are among the names to mark. It is characterised by `CallGraph.MarkedExactly`. |
| CallGraph.MarkedAdd | foldetTemp/analizar_lua.py:339-347 | Adding an edge paints exactly those of its two ends that are to be marked. |
| TerrierFile.TerrierInventory.GraphRelations | foldetTemp/analizar_lua.py:274-384 | The main graph's edges are `CallEdges` of the object's inventory, and its painted nodes are the marked nodes. With no origin there is no upstream graph. Otherwise the upstream graph is the one `Upstream` gives for the origin with `(...)` appended. |
| TerrierFile.DrawGraph | foldetTemp/analizar_lua.py:317-359 | The loop over records builds exactly the specified edge set and marked set. |
| TerrierFile.DrawBlock | foldetTemp/analizar_lua.py:318-359 | The loop over one record's clauses adds exactly the record's edges and keeps the marked set in step. |
| TerrierFile.DrawClause | foldetTemp/analizar_lua.py:327-359 | The loop over one clause's used blocks adds an edge for every admitted target and nothing else. |
| TerrierFile.AddEdge | foldetTemp/analizar_lua.py:339-359 | One `add_edge` and the painting of its ends keep the marked set equal to the marked nodes of the graph. |
| TerrierFile.ReverseFrom | foldetTemp/analizar_lua.py:378-384 | An origin that is not a node fails with `UnknownOrigin`. Otherwise the result is the upstream graph or its failure. |
| Digraph.ReachFromClosed | foldetTemp/analizar_lua.py:407 | The reached set contains its seed and every predecessor of its members. |
| Digraph.ReachFromLeast | foldetTemp/analizar_lua.py:407 | The reached set is contained in every predecessor-closed superset of the seed. |
| Digraph.ReachIffPath | foldetTemp/analizar_lua.py:407 | A node is reached backwards from the origin exactly when some path leads from it to the origin. |
| ReversePath.ReverseEdgesExactly | foldetTemp/analizar_lua.py:407-413 | An edge is collected exactly when it is an edge of the graph whose head has a path to the origin. |
| ReversePath.ReverseEdges | foldetTemp/analizar_lua.py:407-413 | Definition of the upstream edge set: the edges entering a node from which the origin is reached. It is characterised by `ReversePath.ReverseEdgesExactly`. |
| ReversePath.ReverseEdgesClosed | foldetTemp/analizar_lua.py:407-413 | Every graph edge entering the origin, or entering a node of the collected graph, is collected. |
| ReversePath.OriginInResult | foldetTemp/analizar_lua.py:418-439 | The origin is a node of the collected graph exactly when some edge enters it. |
| ReversePath.EmptyIffNoIncoming | foldetTemp/analizar_lua.py:407-418 | The walk collects nothing exactly when no edge enters the origin. |
| ReversePath.CollectReverseEdges | foldetTemp/analizar_lua.py:404-415 | The worklist walk against the edge direction returns exactly the upstream edge set. |
| ReversePath.Build | foldetTemp/analizar_lua.py:401-441 | The upstream graph exists exactly when some edge enters the origin. It is then the collected edges with the origin highlighted. Otherwise the failure is `OriginNotInPath`. |
| TerrierFile.Upstream | foldetTemp/analizar_lua.py:381-441 | A successful upstream graph highlights the origin, has the origin as a node, and holds only edges of the main graph. It fails with `OriginNotInPath` only for an origin that is a node of the main graph and from which the walk collects nothing. |

## Left out

- The command line (`__main__`, lines 444-483) and the constructor's option handling are not modelled. The three arguments of `graficar_relaciones` are parameters of `GraphRelations`.
- The file is not opened. Its lines are the parameter `lines`, as successive `readline` results. An element `""` would end the source's loop early; it cannot come from a real file and is not modelled.
- Logging is not modelled.
- The JSON output (`mostrar`, `to_file`, lines 248-260) and `implrimir_blocks` are printing only and are not modelled.
- Drawing the graphs is not modelled: the Graphviz attributes, `write`, `layout`, `draw`, and the `.gv`, `.png` and `.svg` file names, including the `_locales` and `_todos` suffix. The model keeps each graph's edges, its marked nodes and its highlighted origin.
- The regular expressions are abstract (`Patterns`), so nothing here depends on the regex engine. The unused patterns for `tests`, test case ends and `delta_request_info` (lines 95-103) are not modelled.
- `TerrierFile.TerrierInventory.Scan`: requires the fresh state the constructor leaves, which is the only state it is called in. After a successful scan the source leaves `sen` true with an empty `block_data`; the model has no open record then.
- `TerrierFile.TerrierInventory.Scan`: a clause that never completes is `UnterminatedInterpret` in the model. In the source it is a loop that does not terminate.
- `ReversePath.CollectReverseEdges`: the order in which `nx.edge_dfs` reports the edges is not modelled, only the set of edges. The upstream graph is built from that set, so the order affects only the layout.
- Multi-edges are not modelled: the graph is a set of edges, and adding an edge a second time changes nothing.
- The node attributes other than the green fill are not modelled.
- `pruJsonCsv.py` and the rest of the repository are not part of this model.
- The clause pattern `interpret\s*{([\s\S]*)?}\s*as\s*{[\s\S]*};` (line 93) is not modelled as a regular expression. Its group 1 is greedy (`([\s\S]*)?`): it runs to the last `}` that is still followed by `as {` and a later `};`. The pattern is abstract here, so the model takes whatever match it yields.
