/** The reference interpreter (`interpret`): a loop over the program counter `pc`, with a
    data pointer `dp` into a zeroed tape of 30000 bytes. Standard input is the sequence
    `input` it reads from the front, standard output the sequence of characters it
    writes. The source loops until `pc` runs off the program; `fuel` bounds the number of
    turns so that the model is total on programs that do not stop. */
module Interpreter {
  import opened Ops

  /** `MEM_SIZE`, the length of the tape. */
  const MemSize: nat := 30000

  /** The source panics this model keeps: `dp -= i` below zero (as a debug build checks
      it), `data[dp]` past the end of the tape, and `unwrap` at the end of input. */
  datatype Fault = PointerUnderflow | TapeOutOfBounds | EndOfInput

  datatype State = State(pc: nat, dp: nat, tape: seq<Byte>, input: seq<Byte>, output: seq<char>)

  datatype Outcome =
    | Halted(st: State)               // `pc` ran off the end of the program
    | Faulted(fault: Fault, st: State) // the state before the turn that panicked
    | OutOfFuel(st: State)

  datatype Stepped = Continue(next: State) | Stop(fault: Fault)

  function Init(input: seq<Byte>): (st: State)
    ensures |st.tape| == MemSize
  {
    State(0, 0, seq(MemSize, _ => 0), input, [])
  }

  /** `data[dp] += n as u8`, wrapping as the emitted 8-bit add does. */
  function AddByte(b: Byte, n: nat): (r: Byte)
    ensures (r - b - n) % 256 == 0
  {
    (b + n % 256) % 256
  }

  /** `data[dp] -= n as u8`, wrapping. */
  function SubByte(b: Byte, n: nat): (r: Byte)
    ensures (r - b + n) % 256 == 0
  {
    (b - n % 256) % 256
  }

  /** Where a loop instruction at `pc` sends the program counter: to just past its target
      when it jumps (`[` on a zero cell, `]` on a nonzero one), to `pc + 1` otherwise. */
  function LoopNext(op: Op, pc: nat, cell: Byte): nat
    requires op.IsLoop()
  {
    if (op.LoopStart? && cell == 0) || (op.LoopEnd? && cell != 0) then op.target + 1 else pc + 1
  }

  /** One turn of the loop in `interpret`, for `pc` inside the program. */
  function Step(prog: seq<Op>, st: State): (r: Stepped)
    requires st.pc < |prog| && |st.tape| == MemSize
    ensures r.Continue? ==> |r.next.tape| == MemSize
  {
    var onTape := st.dp < MemSize;
    match prog[st.pc]
    case IncrPointer(i) => Continue(st.(pc := st.pc + 1, dp := st.dp + i))
    case DecrPointer(i) =>
      if i > st.dp then Stop(PointerUnderflow) else Continue(st.(pc := st.pc + 1, dp := st.dp - i))
    case IncrData(i) =>
      if !onTape then Stop(TapeOutOfBounds)
      else Continue(st.(pc := st.pc + 1, tape := st.tape[st.dp := AddByte(st.tape[st.dp], i)]))
    case DecrData(i) =>
      if !onTape then Stop(TapeOutOfBounds)
      else Continue(st.(pc := st.pc + 1, tape := st.tape[st.dp := SubByte(st.tape[st.dp], i)]))
    case Output =>
      if !onTape then Stop(TapeOutOfBounds)
      else Continue(st.(pc := st.pc + 1, output := st.output + [st.tape[st.dp] as char]))
    case Input =>
      if st.input == [] then Stop(EndOfInput)
      else if !onTape then Stop(TapeOutOfBounds)
      else Continue(st.(pc := st.pc + 1, tape := st.tape[st.dp := st.input[0]], input := st.input[1..]))
    case LoopStart(_) =>
      if !onTape then Stop(TapeOutOfBounds)
      else Continue(st.(pc := LoopNext(prog[st.pc], st.pc, st.tape[st.dp])))
    case LoopEnd(_) =>
      if !onTape then Stop(TapeOutOfBounds)
      else Continue(st.(pc := LoopNext(prog[st.pc], st.pc, st.tape[st.dp])))
  }

  /** At most `fuel` turns of the loop from `st`. */
  function Run(prog: seq<Op>, st: State, fuel: nat): (o: Outcome)
    requires |st.tape| == MemSize
    ensures |o.st.tape| == MemSize
    decreases fuel
  {
    if st.pc >= |prog| then Halted(st)
    else if fuel == 0 then OutOfFuel(st)
    else
      match Step(prog, st)
      case Stop(f) => Faulted(f, st)
      case Continue(next) => Run(prog, next, fuel - 1)
  }

  /** A turn that does not stop leaves one unit of fuel less for the rest of the run. */
  lemma {:induction false} RunContinues(prog: seq<Op>, st: State, fuel: nat)
    requires st.pc < |prog| && |st.tape| == MemSize && fuel > 0 && Step(prog, st).Continue?
    ensures Run(prog, st, fuel) == Run(prog, Step(prog, st).next, fuel - 1)
  {
  }

  /** `interpret`, with the tape as an array updated in place. */
  method Interpret(prog: seq<Op>, input: seq<Byte>, fuel: nat) returns (outcome: Outcome)
    ensures outcome == Run(prog, Init(input), fuel)
  {
    var data := new Byte[MemSize](_ => 0);
    var pc: nat, dp: nat := 0, 0;
    var rest, output := input, [];
    var steps := 0;
    assert data[..] == Init(input).tape;
    while pc < |prog|
      invariant data.Length == MemSize && steps <= fuel
      invariant Run(prog, State(pc, dp, data[..], rest, output), fuel - steps) == Run(prog, Init(input), fuel)
      decreases fuel - steps
    {
      var st := State(pc, dp, data[..], rest, output);
      if steps == fuel {
        return OutOfFuel(st);
      }
      match prog[pc] {
        case IncrPointer(i) =>
          dp := dp + i;
        case DecrPointer(i) =>
          if i > dp {
            return Faulted(PointerUnderflow, st);
          }
          dp := dp - i;
        case IncrData(i) =>
          if dp >= data.Length {
            return Faulted(TapeOutOfBounds, st);
          }
          data[dp] := AddByte(data[dp], i);
        case DecrData(i) =>
          if dp >= data.Length {
            return Faulted(TapeOutOfBounds, st);
          }
          data[dp] := SubByte(data[dp], i);
        case Output =>
          if dp >= data.Length {
            return Faulted(TapeOutOfBounds, st);
          }
          output := output + [data[dp] as char];
        case Input =>
          // The byte is read (and `unwrap` may panic) before the cell is indexed.
          if rest == [] {
            return Faulted(EndOfInput, st);
          }
          if dp >= data.Length {
            return Faulted(TapeOutOfBounds, st);
          }
          data[dp] := rest[0];
          rest := rest[1..];
        case LoopStart(end) =>
          if dp >= data.Length {
            return Faulted(TapeOutOfBounds, st);
          }
          if data[dp] == 0 {
            pc := end;
          }
        case LoopEnd(start) =>
          if dp >= data.Length {
            return Faulted(TapeOutOfBounds, st);
          }
          if data[dp] != 0 {
            pc := start;
          }
      }
      pc := pc + 1;
      assert Step(prog, st) == Continue(State(pc, dp, data[..], rest, output));
      RunContinues(prog, st, fuel - steps);
      steps := steps + 1;
    }
    outcome := Halted(State(pc, dp, data[..], rest, output));
  }

  // ---------------------------------------------------------------------------------
  // Properties of one turn

  /** The ops that read or write the current cell. */
  predicate CellOp(op: Op) {
    op.IncrData? || op.DecrData? || op.Output? || op.Input? || op.IsLoop()
  }

  /** The panics this model keeps, each exactly where it arises: `dp -= i` below zero, a
      cell access past the tape, or a read at the end of input, which `,` attempts before
      it indexes the cell; nothing else stops the interpreter. */
  lemma {:induction false} StepFaults(prog: seq<Op>, st: State)
    requires st.pc < |prog| && |st.tape| == MemSize
    ensures Step(prog, st) == Stop(PointerUnderflow) <==> prog[st.pc].DecrPointer? && prog[st.pc].count > st.dp
    ensures Step(prog, st) == Stop(TapeOutOfBounds) <==>
      CellOp(prog[st.pc]) && st.dp >= MemSize && !(prog[st.pc].Input? && st.input == [])
    ensures Step(prog, st) == Stop(EndOfInput) <==> prog[st.pc].Input? && st.input == []
  {
  }

  /** A turn changes at most the current cell, reads at most one byte (only `,` does),
      writes at most one character (only `.` does), and moves `pc` to the next op unless
      it is a loop op that jumps. */
  lemma {:induction false} StepFrame(prog: seq<Op>, st: State)
    requires st.pc < |prog| && |st.tape| == MemSize && Step(prog, st).Continue?
    ensures var next := Step(prog, st).next;
      && (forall k :: 0 <= k < MemSize && k != st.dp ==> next.tape[k] == st.tape[k])
      && (prog[st.pc].Input? ==> next.input == st.input[1..] && next.tape[st.dp] == st.input[0])
      && (!prog[st.pc].Input? ==> next.input == st.input)
      && (prog[st.pc].Output? ==> next.output == st.output + [st.tape[st.dp] as char])
      && (!prog[st.pc].Output? ==> next.output == st.output)
      && (!prog[st.pc].IsLoop() ==> next.pc == st.pc + 1)
      && (prog[st.pc].IsLoop() ==> next.pc == LoopNext(prog[st.pc], st.pc, st.tape[st.dp]))
  {
  }

  // ---------------------------------------------------------------------------------
  // Properties of runs

  /** Running for `a + b` turns is running for `a` turns and, if fuel ran out, `b` more. */
  lemma {:induction false} RunSplit(prog: seq<Op>, st: State, a: nat, b: nat)
    requires |st.tape| == MemSize
    ensures Run(prog, st, a + b) ==
      match Run(prog, st, a)
      case OutOfFuel(mid) => Run(prog, mid, b)
      case other => other
    decreases a
  {
    if st.pc < |prog| && a > 0 {
      match Step(prog, st)
      case Stop(_) =>
      case Continue(next) =>
        RunSplit(prog, next, a - 1, b);
        assert a + b - 1 == (a - 1) + b;
    }
  }

  /** A run that halts or panics within `a` turns does the same given more fuel. */
  lemma {:induction false} MoreFuel(prog: seq<Op>, st: State, a: nat, b: nat)
    requires |st.tape| == MemSize && a <= b && !Run(prog, st, a).OutOfFuel?
    ensures Run(prog, st, b) == Run(prog, st, a)
  {
    RunSplit(prog, st, a, b - a);
  }

  /** Output is only ever appended to, and input only ever consumed from the front. */
  lemma {:induction false} RunIO(prog: seq<Op>, st: State, fuel: nat)
    requires |st.tape| == MemSize
    ensures var end := Run(prog, st, fuel).st;
      && st.output <= end.output
      && |end.input| <= |st.input| && end.input == st.input[|st.input| - |end.input|..]
    decreases fuel
  {
    if st.pc < |prog| && fuel > 0 {
      match Step(prog, st)
      case Stop(_) =>
      case Continue(next) =>
        StepFrame(prog, st);
        RunIO(prog, next, fuel - 1);
    }
  }
}
