/** Where things sit in the code `emit_x86` returns, and what the bytes there say: the
    tape address in the prologue, each op's buffer at its offset, and, for a loop op, a
    `cmp`/`jz`/`jnz` whose displacement lands exactly where the interpreter's program
    counter goes. */
module Layout {
  import opened Ops
  import opened Emitter
  import Interpreter

  // ---------------------------------------------------------------------------------
  // Flattening

  lemma {:induction false} FlattenAppend(a: seq<seq<Byte>>, b: seq<seq<Byte>>)
    ensures Flatten(a + b) == Flatten(a) + Flatten(b)
    decreases |b|
  {
    if b == [] {
      assert a + b == a;
    } else {
      var last := |b| - 1;
      assert (a + b)[..|a + b| - 1] == a + b[..last];
      assert (a + b)[|a + b| - 1] == b[last];
      FlattenAppend(a, b[..last]);
    }
  }

  /** Every buffer has the length its kind of op is given, and patching changes only the
      last four bytes of a loop buffer. */
  lemma {:induction false} PatchedShape(prog: seq<Op>, i: nat)
    requires Patchable(prog) && i < |prog|
    ensures |Patched(prog, i)| == |Template(prog[i])| == EncodedLength(KindOf(prog[i]))
    ensures prog[i].IsLoop() ==> Patched(prog, i)[..7] == Template(prog[i])[..7]
    ensures !prog[i].IsLoop() ==> Patched(prog, i) == Template(prog[i])
  {
  }

  /** The buffers of the first `k` ops take `Offset(prog, k)` bytes. */
  lemma {:induction false} FlattenLength(prog: seq<Op>, k: nat)
    requires Patchable(prog) && k <= |prog|
    ensures |Flatten(Buffers(prog)[..k])| == Offset(prog, k)
  {
    if k > 0 {
      var b := Buffers(prog);
      assert Flatten(b[..k]) == Flatten(b[..k - 1]) + b[k - 1] by {
        assert b[..k][..k - 1] == b[..k - 1];
      }
      assert |b[k - 1]| == EncodedLength(KindOf(prog[k - 1])) by {
        PatchedShape(prog, k - 1);
      }
      FlattenLength(prog, k - 1);
    }
  }

  /** The image is the 10-byte prologue, the code of every op and the one-byte `ret`. */
  lemma {:induction false} ImageLength(prog: seq<Op>, addr: nat)
    requires Emittable(prog, addr)
    ensures |Image(prog, addr)| == 11 + Offset(prog, |prog|)
  {
    assert Buffers(prog)[..|prog|] == Buffers(prog);
    FlattenLength(prog, |prog|);
  }

  /** The empty program compiles to `mov r13, addr; ret`. */
  lemma {:induction false} EmptyImage(addr: nat)
    requires addr < TwoTo64
    ensures Emittable([], addr)
    ensures Image([], addr) == [0x49, 0xBD] + LittleEndian(addr, 8) + [0xC3]
  {
    assert Buffers([]) == [];
  }

  /** The prologue loads the tape address into r13, and the code ends with `ret`. */
  lemma {:induction false} PrologueAndRet(prog: seq<Op>, addr: nat)
    requires Emittable(prog, addr)
    ensures |Image(prog, addr)| >= 11
    ensures Image(prog, addr)[..2] == [0x49, 0xBD]
    ensures FromLittleEndian(Image(prog, addr)[2..10]) == addr
    ensures Image(prog, addr)[|Image(prog, addr)| - 1] == 0xC3
  {
    var image := Image(prog, addr);
    ImageLength(prog, addr);
    assert image[2..10] == LittleEndian(addr, 8);
    assert Pow256(8) == TwoTo64;
    LittleEndianRoundTrip(addr, 8);
  }

  lemma {:induction false} FlattenSnoc(a: seq<seq<Byte>>, x: seq<Byte>)
    ensures Flatten(a + [x]) == Flatten(a) + x
  {
    assert (a + [x])[..|a|] == a;
  }

  /** Buffer `k` sits between the buffers before it and those after it. */
  lemma {:induction false} FlattenSplit(b: seq<seq<Byte>>, k: nat)
    requires k < |b|
    ensures Flatten(b) == Flatten(b[..k]) + b[k] + Flatten(b[k + 1..])
  {
    var front := b[..k + 1];
    assert b == front + b[k + 1..];
    FlattenAppend(front, b[k + 1..]);
    assert front == b[..k] + [b[k]];
    FlattenSnoc(b[..k], b[k]);
  }

  /** A slice of the middle of a concatenation. */
  lemma {:induction false} Slice(x: seq<Byte>, y: seq<Byte>, z: seq<Byte>)
    ensures (x + y + z)[|x|..|x| + |y|] == y
  {
  }

  /** Where buffer `k` lands between a prologue and a trailer. */
  lemma {:induction false} Placement(pro: seq<Byte>, b: seq<seq<Byte>>, k: nat, tail: seq<Byte>)
    requires k < |b|
    ensures |pro| + |Flatten(b[..k])| + |b[k]| <= |pro + Flatten(b) + tail|
    ensures (pro + Flatten(b) + tail)[|pro| + |Flatten(b[..k])|..|pro| + |Flatten(b[..k])| + |b[k]|] == b[k]
  {
    FlattenSplit(b, k);
    var x, z := pro + Flatten(b[..k]), Flatten(b[k + 1..]) + tail;
    assert pro + Flatten(b) + tail == x + b[k] + z;
    Slice(x, b[k], z);
  }

  /** The code of op `k` occupies the bytes from `Start(prog, k)` up to
      `Start(prog, k + 1)` of the image. */
  lemma {:induction false} BufferPlacement(prog: seq<Op>, addr: nat, k: nat)
    requires Emittable(prog, addr) && k < |prog|
    ensures Start(prog, k + 1) <= |Image(prog, addr)|
    ensures Image(prog, addr)[Start(prog, k)..Start(prog, k + 1)] == Buffers(prog)[k]
  {
    var b, pro := Buffers(prog), Prologue(addr);
    var at := Start(prog, k);
    assert |pro| + |Flatten(b[..k])| == at by {
      FlattenLength(prog, k);
    }
    assert Start(prog, k + 1) == at + |b[k]| by {
      PatchedShape(prog, k);
    }
    Placement(pro, b, k, [0xC3]);
  }

  // ---------------------------------------------------------------------------------
  // What the bytes say

  /** A pointer move carries its count as a 32-bit immediate (`as u32`). */
  lemma {:induction false} PointerImmediate(prog: seq<Op>, k: nat)
    requires Patchable(prog) && k < |prog| && (prog[k].IncrPointer? || prog[k].DecrPointer?)
    ensures |Patched(prog, k)| == 7
    ensures Patched(prog, k)[..3] == (if prog[k].IncrPointer? then [0x49, 0x81, 0xC5] else [0x49, 0x81, 0xED])
    ensures FromLittleEndian(Patched(prog, k)[3..]) == prog[k].count % TwoTo32
  {
    var buf := Patched(prog, k);
    assert buf[3..] == LittleEndian(prog[k].count % TwoTo32, 4);
    assert Pow256(4) == TwoTo32;
    LittleEndianRoundTrip(prog[k].count % TwoTo32, 4);
  }

  /** A cell update is an 8-bit `add`/`sub` on the cell at r13 whose immediate (the count
      taken `as u8`) changes any cell value `b` exactly as the interpreter's turn does. */
  lemma {:induction false} DataImmediate(prog: seq<Op>, k: nat, b: Byte)
    requires Patchable(prog) && k < |prog| && (prog[k].IncrData? || prog[k].DecrData?)
    ensures |Patched(prog, k)| == 5
    ensures Patched(prog, k)[..4] == (if prog[k].IncrData? then [0x41, 0x80, 0x45, 0x00] else [0x41, 0x80, 0x6D, 0x00])
    ensures prog[k].IncrData? ==> Interpreter.AddByte(b, Patched(prog, k)[4]) == Interpreter.AddByte(b, prog[k].count)
    ensures prog[k].DecrData? ==> Interpreter.SubByte(b, Patched(prog, k)[4]) == Interpreter.SubByte(b, prog[k].count)
  {
  }

  /** Where the processor goes after the 11-byte code `buf` of a loop op placed at `at`:
      `jz` (0x84) jumps on a zero cell, `jnz` (0x85) on a nonzero one, by the signed
      displacement counted from the end of the code; otherwise it falls through. */
  function Destination(buf: seq<Byte>, at: nat, cell: Byte): int
    requires |buf| == 11
  {
    var jumps := (buf[6] == 0x84 && cell == 0) || (buf[6] == 0x85 && cell != 0);
    if jumps then at + 11 + DecodeI32(buf[7..]) else at + 11
  }

  /** The code of a loop op compares the current cell with zero and then branches to the
      start of the code of the op the interpreter runs next: the compiled program and the
      reference interpreter agree on every loop jump. */
  lemma {:induction false} LoopJumpAgrees(prog: seq<Op>, k: nat, cell: Byte)
    requires Patchable(prog) && k < |prog| && prog[k].IsLoop()
    ensures |Patched(prog, k)| == 11
    ensures Patched(prog, k)[..6] == [0x41, 0x80, 0x7D, 0x00, 0x00, 0x0F]
    ensures Patched(prog, k)[6] == if prog[k].LoopStart? then 0x84 else 0x85
    ensures DecodeI32(Patched(prog, k)[7..]) == Offset(prog, prog[k].target + 1) - Offset(prog, k + 1)
    ensures Destination(Patched(prog, k), Start(prog, k), cell)
            == Start(prog, Interpreter.LoopNext(prog[k], k, cell))
  {
    var buf := Patched(prog, k);
    var d := Displacement(prog, k);
    assert buf[7..] == I32Bytes(d);
    I32RoundTrip(d);
  }

  /** The same, read off the image: the 11 bytes at `Start(prog, k)`. */
  lemma {:induction false} LoopJumpInImage(prog: seq<Op>, addr: nat, k: nat, cell: Byte)
    requires Emittable(prog, addr) && k < |prog| && prog[k].IsLoop()
    ensures Start(prog, k) + 11 <= |Image(prog, addr)|
    ensures Destination(Image(prog, addr)[Start(prog, k)..Start(prog, k) + 11], Start(prog, k), cell)
            == Start(prog, Interpreter.LoopNext(prog[k], k, cell))
  {
    BufferPlacement(prog, addr, k);
    LoopJumpAgrees(prog, k, cell);
    var at := Start(prog, k);
    assert Start(prog, k + 1) == at + 11;
    var code := Image(prog, addr)[at..at + 11];
    assert code == Patched(prog, k);
    SameDestination(code, Patched(prog, k), at, cell);
  }

  lemma {:induction false} SameDestination(x: seq<Byte>, y: seq<Byte>, at: nat, cell: Byte)
    requires x == y && |x| == 11
    ensures Destination(x, at, cell) == Destination(y, at, cell)
  {
  }

  /** The code of op `|prog|` onwards is the `ret`: when the interpreter halts by running
      off the program, the compiled code returns. */
  lemma {:induction false} HaltIsRet(prog: seq<Op>, addr: nat)
    requires Emittable(prog, addr)
    ensures Start(prog, |prog|) == |Image(prog, addr)| - 1
    ensures Image(prog, addr)[Start(prog, |prog|)] == 0xC3
  {
    ImageLength(prog, addr);
  }
}
