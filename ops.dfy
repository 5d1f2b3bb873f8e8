/** The instruction set of the tape machine and the small value types the compiler shares
    between its passes. */
module Ops {

  /** An unsigned 8-bit value, the source's `u8`. */
  type Byte = b: int | 0 <= b < 256

  datatype Option<T> = None | Some(value: T)

  /** One instruction. Counts and jump targets are the source's `usize`; they are unbounded
      here, and every place that narrows them (`as u8`, `as u32`, `as i32`) says so. */
  datatype Op =
    | IncrPointer(count: nat)   // '>'
    | DecrPointer(count: nat)   // '<'
    | IncrData(count: nat)      // '+'
    | DecrData(count: nat)      // '-'
    | Output                    // '.'
    | Input                     // ','
    | LoopStart(target: nat)    // '['
    | LoopEnd(target: nat)      // ']'
  {
    /** The four kinds the run-length folder merges. */
    predicate Foldable() {
      IncrPointer? || DecrPointer? || IncrData? || DecrData?
    }

    predicate IsLoop() {
      LoopStart? || LoopEnd?
    }
  }

  /** The discriminant of an `Op`, which is what the folder compares. */
  datatype Kind =
    | KIncrPointer | KDecrPointer | KIncrData | KDecrData
    | KOutput | KInput | KLoopStart | KLoopEnd

  function KindOf(op: Op): Kind {
    match op
    case IncrPointer(_) => KIncrPointer
    case DecrPointer(_) => KDecrPointer
    case IncrData(_) => KIncrData
    case DecrData(_) => KDecrData
    case Output => KOutput
    case Input => KInput
    case LoopStart(_) => KLoopStart
    case LoopEnd(_) => KLoopEnd
  }

  /** The op of the same foldable kind as `op` carrying count `n`. */
  function WithCount(op: Op, n: nat): (r: Op)
    requires op.Foldable()
    ensures r.Foldable() && KindOf(r) == KindOf(op) && r.count == n
  {
    match op
    case IncrPointer(_) => IncrPointer(n)
    case DecrPointer(_) => DecrPointer(n)
    case IncrData(_) => IncrData(n)
    case DecrData(_) => DecrData(n)
  }

  /** The form the lexer produces: counts are 1 and loop targets are 0. */
  predicate IsUnit(op: Op) {
    (op.Foldable() ==> op.count == 1) && (op.IsLoop() ==> op.target == 0)
  }

  lemma AppendAssoc<T>(x: seq<T>, y: seq<T>, z: seq<T>)
    ensures x + (y + z) == (x + y) + z
  {
  }
}
