/** The direct x86-64 emitter (`emit_x86`). Each op gets its own byte buffer from a fixed
    template; the inclusive prefix sum of the buffer lengths gives where each buffer ends;
    then the 32-bit displacement at the end of every loop buffer is overwritten with the
    distance from the end of that buffer to the end of its target's buffer. The result is
    a prologue that loads the tape address into r13, the buffers in program order, and a
    `ret`. Only the bytes and their offsets are modelled, not what a processor does with
    them. */
module Emitter {
  import opened Ops

  const TwoTo31: int := 0x8000_0000
  const TwoTo32: int := 0x1_0000_0000
  const TwoTo64: int := 0x1_0000_0000_0000_0000

  // ---------------------------------------------------------------------------------
  // Little-endian integers (`to_le_bytes`)

  /** The `n` low bytes of `x`, least significant first. */
  function LittleEndian(x: nat, n: nat): (r: seq<Byte>)
    ensures |r| == n
  {
    if n == 0 then [] else [x % 256] + LittleEndian(x / 256, n - 1)
  }

  /** The number whose little-endian bytes are `b`. */
  function FromLittleEndian(b: seq<Byte>): nat {
    if b == [] then 0 else b[0] + 256 * FromLittleEndian(b[1..])
  }

  function Pow256(n: nat): (r: nat)
    ensures r > 0
  {
    if n == 0 then 1 else 256 * Pow256(n - 1)
  }

  lemma {:induction false} LittleEndianRoundTrip(x: nat, n: nat)
    requires x < Pow256(n)
    ensures FromLittleEndian(LittleEndian(x, n)) == x
  {
    if n > 0 {
      var r := LittleEndian(x, n);
      assert r[1..] == LittleEndian(x / 256, n - 1);
      LittleEndianRoundTrip(x / 256, n - 1);
    }
  }

  /** `(d as i32).to_le_bytes()`: two's complement in four bytes. */
  function I32Bytes(d: int): (r: seq<Byte>)
    requires -TwoTo31 <= d < TwoTo31
    ensures |r| == 4
  {
    LittleEndian(d % TwoTo32, 4)
  }

  /** Reads four little-endian bytes as a signed 32-bit number. */
  function DecodeI32(b: seq<Byte>): int
    requires |b| == 4
  {
    var v := FromLittleEndian(b);
    if v >= TwoTo31 then v - TwoTo32 else v
  }

  /** The displacement bytes read back give the displacement. */
  lemma {:induction false} I32RoundTrip(d: int)
    requires -TwoTo31 <= d < TwoTo31
    ensures DecodeI32(I32Bytes(d)) == d
  {
    assert Pow256(4) == TwoTo32;
    LittleEndianRoundTrip(d % TwoTo32, 4);
  }

  // ---------------------------------------------------------------------------------
  // Per-op templates

  /** The length of the code of each kind of op. */
  function EncodedLength(k: Kind): nat {
    match k
    case KIncrPointer => 7
    case KDecrPointer => 7
    case KIncrData => 5
    case KDecrData => 5
    case KOutput => 26
    case KInput => 26
    case KLoopStart => 11
    case KLoopEnd => 11
  }

  /** The buffer of one op as first emitted, before any displacement is patched:
      `add r13, imm32` / `sub r13, imm32` for pointer moves (the count taken `as u32`),
      `add byte [r13+0], imm8` / `sub byte [r13+0], imm8` for the cell (the count `as u8`),
      a `write`/`read` system call of one byte at r13 for output/input, and
      `cmp byte [r13+0], 0` followed by `jz`/`jnz rel32` with a zero placeholder for loops. */
  function Template(op: Op): (b: seq<Byte>)
    ensures |b| == EncodedLength(KindOf(op))
  {
    match op
    case IncrPointer(i) => [0x49, 0x81, 0xC5] + LittleEndian(i % TwoTo32, 4)
    case DecrPointer(i) => [0x49, 0x81, 0xED] + LittleEndian(i % TwoTo32, 4)
    case IncrData(i) => [0x41, 0x80, 0x45, 0x00] + [i % 256]
    case DecrData(i) => [0x41, 0x80, 0x6D, 0x00] + [i % 256]
    case Output =>
      [0x48, 0xC7, 0xC0, 0x01, 0x00, 0x00, 0x00]     // mov rax, 1
      + [0x48, 0xC7, 0xC7, 0x01, 0x00, 0x00, 0x00]   // mov rdi, 1
      + [0x4C, 0x89, 0xEE]                           // mov rsi, r13
      + [0x48, 0xC7, 0xC2, 0x01, 0x00, 0x00, 0x00]   // mov rdx, 1
      + [0x0F, 0x05]                                 // syscall
    case Input =>
      [0x48, 0xC7, 0xC0, 0x00, 0x00, 0x00, 0x00]     // mov rax, 0
      + [0x48, 0xC7, 0xC7, 0x00, 0x00, 0x00, 0x00]   // mov rdi, 0
      + [0x4C, 0x89, 0xEE]                           // mov rsi, r13
      + [0x48, 0xC7, 0xC2, 0x01, 0x00, 0x00, 0x00]   // mov rdx, 1
      + [0x0F, 0x05]                                 // syscall
    case LoopStart(_) => [0x41, 0x80, 0x7D, 0x00, 0x00] + [0x0F, 0x84] + [0x00, 0x00, 0x00, 0x00]
    case LoopEnd(_) => [0x41, 0x80, 0x7D, 0x00, 0x00] + [0x0F, 0x85] + [0x00, 0x00, 0x00, 0x00]
  }

  /** The number of code bytes of the first `k` ops: where the buffer of op `k` begins,
      counted from the end of the prologue. */
  function Offset(prog: seq<Op>, k: nat): nat
    requires k <= |prog|
  {
    if k == 0 then 0 else Offset(prog, k - 1) + EncodedLength(KindOf(prog[k - 1]))
  }

  /** What patching needs of a program: every loop target indexes the program (else
      `lengths[*end]` panics), and the total code length fits the `as i32` casts, so that
      every displacement is the true distance. */
  ghost predicate Patchable(prog: seq<Op>) {
    && (forall i :: 0 <= i < |prog| && prog[i].IsLoop() ==> prog[i].target < |prog|)
    && Offset(prog, |prog|) < TwoTo31
  }

  /** What the emitter needs: a patchable program and an address that fits a `u64`. */
  ghost predicate Emittable(prog: seq<Op>, addr: nat) {
    Patchable(prog) && addr < TwoTo64
  }

  lemma {:induction false} OffsetMonotone(prog: seq<Op>, j: nat, k: nat)
    requires j <= k <= |prog|
    ensures Offset(prog, j) <= Offset(prog, k)
    decreases k - j
  {
    if j < k {
      OffsetMonotone(prog, j, k - 1);
    }
  }

  /** The displacement patched into loop op `i`: the `lengths` entry of its target minus
      its own, each entry being the end of that op's buffer. */
  function Displacement(prog: seq<Op>, i: nat): (d: int)
    requires i < |prog| && prog[i].IsLoop() && prog[i].target < |prog|
    requires Offset(prog, |prog|) < TwoTo31
    ensures -TwoTo31 < d < TwoTo31
  {
    OffsetMonotone(prog, i + 1, |prog|);
    OffsetMonotone(prog, prog[i].target + 1, |prog|);
    Offset(prog, prog[i].target + 1) - Offset(prog, i + 1)
  }

  /** The buffer of op `i` after patching: a loop buffer with its last four bytes replaced
      by the displacement, any other buffer as emitted. */
  function Patched(prog: seq<Op>, i: nat): seq<Byte>
    requires i < |prog| && Offset(prog, |prog|) < TwoTo31
    requires prog[i].IsLoop() ==> prog[i].target < |prog|
  {
    var t := Template(prog[i]);
    if prog[i].IsLoop() then t[..|t| - 4] + I32Bytes(Displacement(prog, i)) else t
  }

  /** `mov r13, imm64` with the tape address. */
  function Prologue(addr: nat): seq<Byte>
    requires addr < TwoTo64
  {
    [0x49, 0xBD] + LittleEndian(addr, 8)
  }

  /** The patched buffers of all ops, in program order. */
  function Buffers(prog: seq<Op>): (b: seq<seq<Byte>>)
    requires Offset(prog, |prog|) < TwoTo31
    requires forall i :: 0 <= i < |prog| && prog[i].IsLoop() ==> prog[i].target < |prog|
    ensures |b| == |prog| && forall k :: 0 <= k < |prog| ==> b[k] == Patched(prog, k)
  {
    seq(|prog|, k requires 0 <= k < |prog| => Patched(prog, k))
  }

  /** The buffers laid end to end (`flatten`). */
  function Flatten(bufs: seq<seq<Byte>>): seq<Byte> {
    if bufs == [] then [] else Flatten(bufs[..|bufs| - 1]) + bufs[|bufs| - 1]
  }

  /** The code `emit_x86` returns: prologue, buffers, `ret`. */
  function Image(prog: seq<Op>, addr: nat): seq<Byte>
    requires Emittable(prog, addr)
  {
    Prologue(addr) + Flatten(Buffers(prog)) + [0xC3]
  }

  /** Where the code of op `k` begins in the image; for `k == |prog|`, where the `ret` is. */
  function Start(prog: seq<Op>, k: nat): nat
    requires k <= |prog|
  {
    10 + Offset(prog, k)
  }

  // ---------------------------------------------------------------------------------
  // The emitter

  /** The patching loop leaves any other op's buffer alone. */
  lemma {:induction false} PatchKeep(prog: seq<Op>, i: nat)
    requires i < |prog| && !prog[i].IsLoop() && Offset(prog, |prog|) < TwoTo31
    ensures Patched(prog, i) == Template(prog[i])
  {
  }

  /** One turn of the patching loop on a loop op. */
  lemma {:induction false} PatchLoop(prog: seq<Op>, i: nat, buf: seq<Byte>, dist: int)
    requires i < |prog| && prog[i].IsLoop() && prog[i].target < |prog|
    requires Offset(prog, |prog|) < TwoTo31
    requires buf == Template(prog[i])
    requires dist == Offset(prog, prog[i].target + 1) - Offset(prog, i + 1)
    ensures |buf| >= 4 && -TwoTo31 <= dist < TwoTo31
    ensures buf[..|buf| - 4] + I32Bytes(dist) == Patched(prog, i)
  {
    assert dist == Displacement(prog, i);
  }

  /** The `temp` array: the template buffer of every op. */
  method Templates(prog: seq<Op>) returns (temp: array<seq<Byte>>)
    ensures fresh(temp) && temp.Length == |prog|
    ensures forall k :: 0 <= k < |prog| ==> temp[k] == Template(prog[k])
  {
    temp := new seq<Byte>[|prog|](_ => []);
    for instr := 0 to |prog|
      invariant forall k :: 0 <= k < instr ==> temp[k] == Template(prog[k])
    {
      temp[instr] := Template(prog[instr]);
    }
  }

  /** The `lengths` array: the running total of the buffer lengths, so that entry `k` is
      where the buffer of op `k` ends. */
  method EndOffsets(prog: seq<Op>, temp: array<seq<Byte>>) returns (lengths: array<nat>)
    requires temp.Length == |prog|
    requires forall k :: 0 <= k < |prog| ==> |temp[k]| == EncodedLength(KindOf(prog[k]))
    ensures fresh(lengths) && lengths.Length == |prog|
    ensures forall k :: 0 <= k < |prog| ==> lengths[k] == Offset(prog, k + 1)
  {
    lengths := new nat[|prog|](_ => 0);
    var acc := 0;
    for i := 0 to |prog|
      invariant acc == Offset(prog, i)
      invariant forall k :: 0 <= k < i ==> lengths[k] == Offset(prog, k + 1)
    {
      acc := acc + |temp[i]|;
      lengths[i] := acc;
    }
  }

  /** One turn of the patching loop: the buffer of a loop op gets its displacement, the
      one of any other op is left alone. */
  method PatchOne(prog: seq<Op>, temp: array<seq<Byte>>, lengths: array<nat>, i: nat)
    requires Patchable(prog) && temp.Length == lengths.Length == |prog| && i < |prog|
    requires forall k :: 0 <= k < |prog| ==> lengths[k] == Offset(prog, k + 1)
    requires temp[i] == Template(prog[i])
    modifies temp
    ensures temp[i] == Patched(prog, i)
    ensures forall k :: 0 <= k < |prog| && k != i ==> temp[k] == old(temp[k])
  {
    if prog[i].IsLoop() {
      var jumpRelDist: int;
      match prog[i] {
        case LoopStart(end) =>
          jumpRelDist := lengths[end] as int - lengths[i] as int;
        case LoopEnd(start) =>
          jumpRelDist := lengths[start] as int - lengths[i] as int;
      }
      PatchLoop(prog, i, temp[i], jumpRelDist);
      temp[i] := temp[i][..|temp[i]| - 4] + I32Bytes(jumpRelDist);
    } else {
      PatchKeep(prog, i);
    }
  }

  /** The patching loop. */
  method PatchAll(prog: seq<Op>, temp: array<seq<Byte>>, lengths: array<nat>)
    requires Patchable(prog) && temp.Length == lengths.Length == |prog|
    requires forall k :: 0 <= k < |prog| ==> lengths[k] == Offset(prog, k + 1)
    requires forall k :: 0 <= k < |prog| ==> temp[k] == Template(prog[k])
    modifies temp
    ensures forall k :: 0 <= k < |prog| ==> temp[k] == Patched(prog, k)
  {
    for i := 0 to |prog|
      invariant forall k :: 0 <= k < i ==> temp[k] == Patched(prog, k)
      invariant forall k :: i <= k < |prog| ==> temp[k] == Template(prog[k])
    {
      PatchOne(prog, temp, lengths, i);
    }
  }

  /** `emit_x86`. `temp` holds one buffer per op; `lengths` the inclusive prefix sum of
      their lengths, taken before any displacement is patched. */
  method EmitX86(prog: seq<Op>, addr: nat) returns (code: seq<Byte>)
    requires Emittable(prog, addr)
    ensures code == Image(prog, addr)
  {
    var temp := Templates(prog);

    var lengths := EndOffsets(prog, temp);

    PatchAll(prog, temp, lengths);
    assert temp[..] == Buffers(prog);
    code := Prologue(addr) + Flatten(temp[..]) + [0xC3];
  }
}
