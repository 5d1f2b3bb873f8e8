/** Small programs taken through the lexer, the folder, the resolver, the interpreter and
    the emitter: what each stage yields on them, worked out from the definitions. */
module Scenarios {
  import opened Ops
  import opened Lexer
  import opened Folder
  import opened Resolver
  import opened Interpreter
  import opened Emitter

  /** `+++.` lexes to three unit adds and a print ... */
  lemma {:induction false} LexAddThree()
    ensures Lex("+++.") == [IncrData(1), IncrData(1), IncrData(1), Output]
  {
    assert Lex(".") == [Output] + Lex([]);
    assert Lex("+.") == [IncrData(1)] + Lex(".");
    assert Lex("++.") == [IncrData(1)] + Lex("+.");
    assert Lex("+++.") == [IncrData(1)] + Lex("++.");
  }

  /** ... which fold to one add of 3 ... */
  lemma {:induction false} FoldAddThree()
    ensures Fold([IncrData(1), IncrData(1), IncrData(1), Output]) == [IncrData(3), Output]
  {
    var s := [IncrData(1), IncrData(1), IncrData(1), Output];
    assert RunEnd(s, 1, KIncrData) == 3 by {
      assert RunEnd(s, 3, KIncrData) == 3;
      assert RunEnd(s, 2, KIncrData) == RunEnd(s, 3, KIncrData);
    }
    assert FoldFrom(s, 3) == [Output] + FoldFrom(s, 4);
    assert Fold(s) == [IncrData(3)] + FoldFrom(s, 3);
  }

  /** ... and print the character with code 3. */
  lemma {:induction false} RunAddThree()
    ensures var o := Run([IncrData(3), Output], Init([]), 10);
      o.Halted? && o.st.output == [3 as char] && o.st.tape[0] == 3
  {
    var prog := [IncrData(3), Output];
    var st0 := Init([]);
    var st1 := st0.(pc := 1, tape := st0.tape[0 := 3]);
    var st2 := st1.(pc := 2, output := [3 as char]);
    assert Step(prog, st0) == Continue(st1);
    assert Step(prog, st1) == Continue(st2);
    assert Run(prog, st0, 10) == Run(prog, st1, 9) == Run(prog, st2, 8) == Halted(st2);
  }

  /** `+[-]` lexes to four unit ops ... */
  lemma {:induction false} LexClearCell()
    ensures Lex("+[-]") == [IncrData(1), LoopStart(0), DecrData(1), LoopEnd(0)]
  {
    assert Lex("]") == [LoopEnd(0)] + Lex([]);
    assert Lex("-]") == [DecrData(1)] + Lex("]");
    assert Lex("[-]") == [LoopStart(0)] + Lex("-]");
    assert Lex("+[-]") == [IncrData(1)] + Lex("[-]");
  }

  /** ... that folding leaves alone ... */
  lemma {:induction false} FoldClearCell()
    ensures var s := [IncrData(1), LoopStart(0), DecrData(1), LoopEnd(0)];
      Fold(s) == s
  {
    var s := [IncrData(1), LoopStart(0), DecrData(1), LoopEnd(0)];
    assert RunEnd(s, 1, KIncrData) == 1;
    assert RunEnd(s, 3, KDecrData) == 3;
    assert FoldFrom(s, 3) == [LoopEnd(0)] + FoldFrom(s, 4);
    assert FoldFrom(s, 2) == [DecrData(1)] + FoldFrom(s, 3);
    assert FoldFrom(s, 1) == [LoopStart(0)] + FoldFrom(s, 2);
    assert FoldFrom(s, 0) == [IncrData(1)] + FoldFrom(s, 1);
  }

  /** ... whose brackets pair up as 1 and 3 ... */
  lemma {:induction false} ResolveClearCell()
    ensures var s := [IncrData(1), LoopStart(0), DecrData(1), LoopEnd(0)];
      NoUnmatchedClose(s) && Resolution(s, [IncrData(1), LoopStart(3), DecrData(1), LoopEnd(1)])
  {
    var s := [IncrData(1), LoopStart(0), DecrData(1), LoopEnd(0)];
    assert Depth(s, 0) == 0 && Depth(s, 1) == 0 && Depth(s, 2) == 1;
    assert Depth(s, 3) == 1 && Depth(s, 4) == 0;
    assert NoUnmatchedClose(s);
    var r := [IncrData(1), LoopStart(3), DecrData(1), LoopEnd(1)];
    assert Matches(s, 1, 3);
    assert ResolvedAt(s, r, 0) && ResolvedAt(s, r, 1) && ResolvedAt(s, r, 2) && ResolvedAt(s, r, 3);
  }

  /** ... and which, run, sets the first cell to 1, enters the loop, clears the cell,
      leaves the loop and halts having printed nothing. */
  lemma {:induction false} RunClearCell()
    ensures var o := Run([IncrData(1), LoopStart(3), DecrData(1), LoopEnd(1)], Init([]), 10);
      o.Halted? && o.st.output == [] && o.st.tape[0] == 0
  {
    var r := [IncrData(1), LoopStart(3), DecrData(1), LoopEnd(1)];
    var st0 := Init([]);
    var st1 := st0.(pc := 1, tape := st0.tape[0 := 1]);
    var st2 := st1.(pc := 2);
    assert Step(r, st0) == Continue(st1);
    RunContinues(r, st0, 10);
    assert Step(r, st1) == Continue(st2);
    RunContinues(r, st1, 9);
    LeaveClearCell(st0.tape, st2);
  }

  /** The second half of the run of `+[-]`: from inside the loop with the cell at 1. */
  lemma {:induction false} LeaveClearCell(zeros: seq<Byte>, st2: State)
    requires |zeros| == MemSize && zeros[0] == 0
    requires st2 == State(2, 0, zeros[0 := 1], [], [])
    ensures var o := Run([IncrData(1), LoopStart(3), DecrData(1), LoopEnd(1)], st2, 8);
      o.Halted? && o.st.output == [] && o.st.tape[0] == 0
  {
    var r := [IncrData(1), LoopStart(3), DecrData(1), LoopEnd(1)];
    var st3 := st2.(pc := 3, tape := zeros);
    var st4 := st3.(pc := 4);
    assert st2.tape[0 := SubByte(1, 1)] == zeros;
    assert Step(r, st2) == Continue(st3);
    RunContinues(r, st2, 8);
    assert Step(r, st3) == Continue(st4);
    RunContinues(r, st3, 7);
  }

  /** `,.` echoes one byte of input. */
  lemma {:induction false} Echo()
    ensures Lex(",.") == [Input, Output]
    ensures var o := Run([Input, Output], Init([65]), 10);
      o.Halted? && o.st.output == ['A'] && o.st.input == []
  {
    assert Lex(",.") == [Input] + Lex(".");
    assert Lex(".") == [Output] + Lex([]);
    var prog := [Input, Output];
    var st0 := Init([65]);
    var st1 := st0.(pc := 1, tape := st0.tape[0 := 65], input := []);
    var st2 := st1.(pc := 2, output := ['A']);
    assert Step(prog, st0) == Continue(st1);
    assert Step(prog, st1) == Continue(st2);
    assert Run(prog, st0, 10) == Run(prog, st1, 9) == Run(prog, st2, 8) == Halted(st2);
  }

  /** Reading past the end of input, or moving left of the first cell, panics; a `,` off
      the tape with no input left panics for the input, which is read first. */
  lemma {:induction false} Panics()
    ensures Run([Input], Init([]), 10) == Faulted(EndOfInput, Init([]))
    ensures Run([DecrPointer(1)], Init([]), 10) == Faulted(PointerUnderflow, Init([]))
    ensures var o := Run([IncrPointer(MemSize), Input], Init([]), 10);
      o.Faulted? && o.fault == EndOfInput && o.st.dp == MemSize
  {
    assert Step([Input], Init([])) == Stop(EndOfInput);
    assert Step([DecrPointer(1)], Init([])) == Stop(PointerUnderflow);
    var prog := [IncrPointer(MemSize), Input];
    var st1 := Init([]).(pc := 1, dp := MemSize);
    assert Step(prog, Init([])) == Continue(st1);
    RunContinues(prog, Init([]), 10);
    assert Step(prog, st1) == Stop(EndOfInput);
  }

  /** A `]` before any `[` is an unpaired bracket; a `[` that is never closed is not an
      error and keeps its target. */
  lemma {:induction false} Unpaired()
    ensures !NoUnmatchedClose([LoopEnd(0), LoopStart(0)])
    ensures NoUnmatchedClose([LoopStart(0)]) && Resolution([LoopStart(0)], [LoopStart(0)])
  {
    assert Depth([LoopEnd(0), LoopStart(0)], 1) == -1;
    var s := [LoopStart(0)];
    assert Depth(s, 0) == 0 && Depth(s, 1) == 1;
    assert Unclosed(s, 0);
    assert ResolvedAt(s, s, 0);
  }

  /** The empty program halts at once. */
  lemma {:induction false} EmptyProgram()
    ensures Run([], Init([]), 0) == Halted(Init([]))
  {
  }

  /** -16 in two's complement, least significant byte first. */
  lemma {:induction false} MinusSixteen()
    ensures I32Bytes(-16) == [0xF0, 0xFF, 0xFF, 0xFF]
  {
    assert -16 % TwoTo32 == 0xFFFF_FFF0;
    assert LittleEndian(0xFF, 1) == [0xFF];
    assert LittleEndian(0xFFFF, 2) == [0xFF] + LittleEndian(0xFF, 1);
    assert LittleEndian(0xFF_FFFF, 3) == [0xFF] + LittleEndian(0xFFFF, 2);
    assert LittleEndian(0xFFFF_FFF0, 4) == [0xF0] + LittleEndian(0xFF_FFFF, 3);
  }

  /** Compiled, the `[` of `+[-]` jumps 16 bytes forward on a zero cell, past the `]`, and
      the `]` jumps 16 bytes back on a nonzero one, to just after the `[`. */
  lemma {:induction false} ClearCellDisplacements()
    ensures var r := [IncrData(1), LoopStart(3), DecrData(1), LoopEnd(1)];
      && Patchable(r)
      && Patched(r, 1) == [0x41, 0x80, 0x7D, 0x00, 0x00, 0x0F, 0x84, 16, 0, 0, 0]
      && Patched(r, 3) == [0x41, 0x80, 0x7D, 0x00, 0x00, 0x0F, 0x85, 0xF0, 0xFF, 0xFF, 0xFF]
  {
    var r := [IncrData(1), LoopStart(3), DecrData(1), LoopEnd(1)];
    assert Offset(r, 2) == 16 && Offset(r, 4) == 32;
    assert Displacement(r, 1) == 16;
    assert Displacement(r, 3) == -16;
    assert I32Bytes(16) == [16, 0, 0, 0];
    MinusSixteen();
  }
}
