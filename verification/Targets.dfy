/** Line ranges and targets (`jitgen-core`). */
module Targets {
  import opened Wrappers

  /** One-based, inclusive. */
  datatype LineRange = LineRange(start: nat, end: nat)

  /** `LineRange::new`. */
  function NewRange(start: nat, end: nat): Option<LineRange> {
    if start == 0 || end < start then None else Some(LineRange(start, end))
  }

  datatype SymbolKind = Function | Method | Class | Module | Hunk

  datatype Target = Target(id: string, adapter: string, path: string, symbol: Option<string>, kind: SymbolKind,
                           span: LineRange, risk: real)
}
