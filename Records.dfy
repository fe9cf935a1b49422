/** The inventory's records: one per block of a `.lua.ter` file. */
module Records {

  /** `block_lin_nro`: first and last line of a block, 1-based and inclusive. */
  datatype LineRange = LineRange(start: nat, end: nat)

  /** One entry of a block's `interprets` list: the whole clause (`raw_string`),
      the expression before `as` (`terrier_expr`) and the block names found in
      the accumulated text (`blocks_usados`). */
  datatype Interpret = Interpret(raw: string, expr: string, used: seq<string>)

  /** One entry of the inventory (`block_name`, `block_at_file`, `block_lin_nro`,
      `interprets`, `queries`). */
  datatype Block = Block(name: string, path: string, lines: LineRange, interprets: seq<Interpret>, queries: seq<string>)

  /** `block_data` while its block is still open: everything but the last line. */
  datatype Draft = Draft(name: string, path: string, start: nat, interprets: seq<Interpret>, queries: seq<string>)

  /** Setting `block_lin_nro['end']` finalises the open record. */
  function Close(d: Draft, end: nat): Block
  {
    Block(d.name, d.path, LineRange(d.start, end), d.interprets, d.queries)
  }

  function Last(bs: seq<Block>): Block
    requires |bs| > 0
  {
    bs[|bs| - 1]
  }

  /** `bloques_locales`: the raw names of the inventory's blocks, in order. */
  function BlockNames(bs: seq<Block>): (r: seq<string>)
    ensures |r| == |bs|
    ensures forall k :: 0 <= k < |bs| ==> r[k] == bs[k].name
    ensures forall n :: n in r <==> exists k :: 0 <= k < |bs| && bs[k].name == n
  {
    if |bs| == 0 then [] else BlockNames(bs[..|bs| - 1]) + [bs[|bs| - 1].name]
  }
}
