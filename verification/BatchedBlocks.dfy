/** Batches of 6, 2 and 1 blocks (adv_simd.h, `AdvancedProcessBlocks128_6x2_SSE`) against one block at a
    time (cryptlib.cpp, `BlockTransformation::AdvancedProcessBlocks`). Input, xor and output blocks lie
    in one memory, so that they may overlap. */
module BatchedBlocks {
  import opened Bytes
  import opened CcmSpec

  datatype Flags = Flags(inBlockIsCounter: bool, dontIncrementInOutPointers: bool, xorInput: bool,
                         reverseDirection: bool, allowParallel: bool)

  /** How a pointer moves after each block: an increment of 1, -1 or 0 blocks. */
  datatype Move = Up | Down | Stay
  {
    function By(k: nat): int {
      match this
      case Up => k
      case Down => 0 - k
      case Stay => 0
    }

    function Reversed(): Move {
      match this
      case Up => Down
      case Down => Up
      case Stay => Stay
    }
  }

  /** Where the pointers start and how they move. */
  datatype Job = Job(cipher: Cipher, counter: bool, hasXor: bool, xorFirst: bool, n: nat,
                     inStart: int, inMove: Move, xorStart: int, xorMove: Move, outStart: int, outMove: Move)
  {
    function InAt(k: nat): int { inStart + inMove.By(k) }
    function XorAt(k: nat): int { xorStart + xorMove.By(k) }
    function OutAt(k: nat): int { outStart + outMove.By(k) }
  }

  /** The set-up common to both versions, for `n` whole blocks. */
  function Setup(cipher: Cipher, flags: Flags, n: nat, inBlocks: int, hasXor: bool, xorBlocks: int, outBlocks: int): Job {
    var inMove := if flags.inBlockIsCounter || flags.dontIncrementInOutPointers then Stay else Up;
    var xorMove := if hasXor then Up else Stay;
    var outMove := if flags.dontIncrementInOutPointers then Stay else Up;
    if flags.reverseDirection
    then Job(cipher, flags.inBlockIsCounter, hasXor, hasXor && flags.xorInput, n,
             inBlocks + n - 1, inMove.Reversed(), xorBlocks + n - 1, xorMove.Reversed(),
             outBlocks + n - 1, outMove.Reversed())
    else Job(cipher, flags.inBlockIsCounter, hasXor, hasXor && flags.xorInput, n,
             inBlocks, inMove, xorBlocks, xorMove, outBlocks, outMove)
  }

  /** Every block lies in a memory of `size` blocks, and a counter block is not moved on from. */
  ghost predicate Fits(j: Job, size: nat) {
    && (j.counter ==> j.inMove == Stay)
    && (forall k: nat :: k < j.n ==>
          0 <= j.InAt(k) < size && 0 <= j.OutAt(k) < size && (j.hasXor ==> 0 <= j.XorAt(k) < size))
  }

  /** A counter block is neither an output nor an xor block. */
  ghost predicate CounterApart(j: Job) {
    j.counter ==>
      forall k: nat :: k < j.n ==> j.OutAt(k) != j.inStart && (j.hasXor ==> j.XorAt(k) != j.inStart)
  }

  /** From step `done` on, no place is written by one of `m` steps and read by a later one of them. */
  ghost predicate NoHazardIn(j: Job, done: nat, m: nat) {
    forall s: nat, t: nat :: done <= s < t < done + m ==>
      j.OutAt(s) != j.InAt(t) && (j.hasXor ==> j.OutAt(s) != j.XorAt(t))
  }

  /** Every block is xored with itself before it is encrypted, so that what it holds does not matter. */
  predicate SelfXor(j: Job) {
    !j.counter && j.hasXor && j.xorFirst && j.inStart == j.xorStart && j.inMove == j.xorMove
  }

  /** Reading all of `m` blocks before writing any makes no difference. */
  ghost predicate Harmless(j: Job, done: nat, m: nat) {
    m <= 1 || NoHazardIn(j, done, m) || SelfXor(j)
  }

  // ----- counters -----

  /** `inBlocks[15]++`. */
  function Increment(b: Block): Block {
    b[15 := (b[15] as int + 1) % 256]
  }

  function Increments(b: Block, k: nat): Block {
    if k == 0 then b else Increment(Increments(b, k - 1))
  }

  /** Bytes 12 to 15 as a little-endian number. */
  function Lane(b: Block): nat {
    b[12] as int + 0x100 * b[13] as int + 0x1_0000 * b[14] as int + 0x100_0000 * b[15] as int
  }

  /** `_mm_add_epi32` with 1<<24 in the highest lane: a 32-bit little-endian addition on bytes 12 to 15. */
  function LaneAdd(b: Block): Block {
    var lane := (Lane(b) + 0x100_0000) % 0x1_0000_0000;
    b[..12] + [lane % 0x100, lane / 0x100 % 0x100, lane / 0x1_0000 % 0x100, lane / 0x100_0000]
  }

  /** The addition carries out of the top byte, never into it: it is `inBlocks[15]++`. */
  lemma LaneAddIncrements(b: Block)
    ensures LaneAdd(b) == Increment(b)
  {
    var top: byte := (b[15] as int + 1) % 256;
    var lane := (Lane(b) + 0x100_0000) % 0x1_0000_0000;
    assert lane == b[12] as int + 0x100 * b[13] as int + 0x1_0000 * b[14] as int + 0x100_0000 * top as int;
    LaneBytes(b[12], b[13], b[14], top);
    assert LaneAdd(b) == b[..12] + [b[12], b[13], b[14], top];
    assert Increment(b) == b[..12] + [b[12], b[13], b[14], top];
  }

  lemma LaneBytes(b0: byte, b1: byte, b2: byte, b3: byte)
    ensures var lane := b0 as int + 0x100 * b1 as int + 0x1_0000 * b2 as int + 0x100_0000 * b3 as int;
            lane % 0x100 == b0 && lane / 0x100 % 0x100 == b1 && lane / 0x1_0000 % 0x100 == b2 && lane / 0x100_0000 == b3
  {
    var lane := b0 as int + 0x100 * b1 as int + 0x1_0000 * b2 as int + 0x100_0000 * b3 as int;
    assert lane / 0x100 == b1 as int + 0x100 * b2 as int + 0x1_0000 * b3 as int;
    assert lane / 0x1_0000 == b2 as int + 0x100 * b3 as int;
  }

  // ----- one block at a time -----

  /** What a block becomes, given the block read for it. */
  function Processed(j: Job, block: Block, mem: seq<Block>, k: nat): Block
    requires Fits(j, |mem|) && k < j.n
  {
    assert j.hasXor ==> 0 <= j.XorAt(k) < |mem|;
    if j.hasXor && j.xorFirst then j.cipher(XorSeq(block, mem[j.XorAt(k)]))
    else if j.hasXor then XorSeq(j.cipher(block), mem[j.XorAt(k)])
    else j.cipher(block)
  }

  /** One block: read it, write the result, and count. */
  function Step(j: Job, mem: seq<Block>, k: nat): (r: seq<Block>)
    requires Fits(j, |mem|) && k < j.n
    ensures |r| == |mem|
  {
    assert 0 <= j.InAt(k) < |mem| && 0 <= j.OutAt(k) < |mem|;
    var written := mem[j.OutAt(k) := Processed(j, mem[j.InAt(k)], mem, k)];
    if j.counter then written[j.InAt(k) := Increment(written[j.InAt(k)])] else written
  }

  /** The memory after the first `k` blocks. */
  function OneAtATime(j: Job, mem: seq<Block>, k: nat): (r: seq<Block>)
    requires Fits(j, |mem|) && k <= j.n
    ensures |r| == |mem|
  {
    if k == 0 then mem
    else
      Step(j, OneAtATime(j, mem, k - 1), k - 1)
  }

  // ----- all reads before all writes -----

  /** The block that position `i` of a batch starting at step `done` is made from: counters are taken ahead. */
  function Taken(j: Job, mem: seq<Block>, done: nat, i: nat): Block
    requires Fits(j, |mem|) && done + i < j.n
  {
    assert 0 <= j.InAt(done + i) < |mem|;
    if j.counter then Increments(mem[j.InAt(done + i)], i) else mem[j.InAt(done + i)]
  }

  /** The memory after storing the first `m` blocks of such a batch, each made from the memory before it. */
  function Stored(j: Job, mem: seq<Block>, done: nat, m: nat): (r: seq<Block>)
    requires Fits(j, |mem|) && done + m <= j.n
    ensures |r| == |mem|
  {
    if m == 0 then mem
    else
      var k := done + m - 1;
      assert 0 <= j.OutAt(k) < |mem|;
      Stored(j, mem, done, m - 1)[j.OutAt(k) := Processed(j, Taken(j, mem, done, m - 1), mem, k)]
  }

  /** The counter block moved on by `m`, for a counter job. */
  function Counted(j: Job, mem: seq<Block>, m: nat): (r: seq<Block>)
    requires Fits(j, |mem|) && j.n > 0
    ensures |r| == |mem|
  {
    assert 0 <= j.InAt(0) < |mem|;
    if j.counter then mem[j.inStart := Increments(mem[j.inStart], m)] else mem
  }

  lemma {:induction false} StoredElsewhere(j: Job, mem: seq<Block>, done: nat, m: nat, p: nat)
    requires Fits(j, |mem|) && done + m <= j.n && p < |mem|
    requires forall k: nat :: done <= k < done + m ==> j.OutAt(k) != p
    ensures Stored(j, mem, done, m)[p] == mem[p]
  {
    if m > 0 {
      StoredElsewhere(j, mem, done, m - 1, p);
      assert j.OutAt(done + m - 1) != p;
    }
  }

  /** A batch that reads everything first leaves what its blocks leave one at a time. */
  lemma {:induction false} BatchIsSteps(j: Job, mem: seq<Block>, done: nat, m: nat)
    requires Fits(j, |mem|) && done + m <= j.n && j.n > 0 && CounterApart(j)
    requires Harmless(j, done, m)
    ensures OneAtATime(j, mem, done + m) == Counted(j, Stored(j, OneAtATime(j, mem, done), done, m), m)
  {
    hide Step, Fits, CounterApart, Job.InAt, Job.OutAt, Job.XorAt;
    var before := OneAtATime(j, mem, done);
    if m == 0 {
      CountedZero(j, before);
    } else {
      BatchIsSteps(j, mem, done, m - 1);
      BatchStep(j, before, done, m);
    }
  }

  lemma CountedZero(j: Job, mem: seq<Block>)
    requires Fits(j, |mem|) && j.n > 0
    ensures Counted(j, mem, 0) == mem
  {
    assert 0 <= j.InAt(0) < |mem|;
  }

  lemma BatchStep(j: Job, before: seq<Block>, done: nat, m: nat)
    requires Fits(j, |before|) && 0 < m && done + m <= j.n && CounterApart(j)
    requires Harmless(j, done, m)
    ensures Step(j, Counted(j, Stored(j, before, done, m - 1), m - 1), done + m - 1)
         == Counted(j, Stored(j, before, done, m), m)
  {
    var k := done + m - 1;
    var stored := Stored(j, before, done, m - 1);
    var mid := Counted(j, stored, m - 1);
    BatchReads(j, before, done, m);
    hide Processed, Taken, Stored, Fits, Harmless, Increment;
    assert j.counter ==> j.OutAt(k) != j.inStart && j.InAt(k) == j.inStart by {
      CounterStays(j, |mid|, k);
    }
    var value := Processed(j, Taken(j, before, done, m - 1), before, k);
    StoredNext(j, before, done, m);
    hide Job.InAt, Job.OutAt, Job.XorAt;
    if j.counter {
      assert Increments(stored[j.inStart], m) == Increment(Increments(stored[j.inStart], m - 1));
      assert mid == stored[j.inStart := Increments(stored[j.inStart], m - 1)];
    }
  }

  lemma CounterStays(j: Job, size: nat, k: nat)
    requires Fits(j, size) && k < j.n
    ensures j.counter ==> j.InAt(k) == j.inStart
  {
  }

  lemma StoredNext(j: Job, before: seq<Block>, done: nat, m: nat)
    requires Fits(j, |before|) && 0 < m && done + m <= j.n
    ensures var k := done + m - 1;
            0 <= j.InAt(k) < |before| && 0 <= j.OutAt(k) < |before| &&
            Stored(j, before, done, m)
            == Stored(j, before, done, m - 1)[j.OutAt(k) := Processed(j, Taken(j, before, done, m - 1), before, k)]
  {
  }

  /** Where nothing later is overwritten, the last step of a batch reads what the batch took ahead. */
  lemma BatchReads(j: Job, before: seq<Block>, done: nat, m: nat)
    requires Fits(j, |before|) && 0 < m && done + m <= j.n && CounterApart(j)
    requires Harmless(j, done, m)
    ensures var mid := Counted(j, Stored(j, before, done, m - 1), m - 1);
            var k := done + m - 1;
            0 <= j.InAt(k) < |mid| &&
            Processed(j, mid[j.InAt(k)], mid, k) == Processed(j, Taken(j, before, done, m - 1), before, k)
  {
    hide Fits, CounterApart, Increments, Stored, Job.InAt, Job.OutAt, Job.XorAt;
    var k := done + m - 1;
    var stored := Stored(j, before, done, m - 1);
    var mid := Counted(j, stored, m - 1);
    Apart(j, |before|, k);
    CounterStays(j, |before|, k);
    if SelfXor(j) {
      SameAddress(j, k);
      XorSelf(mid[j.InAt(k)]);
      XorSelf(before[j.InAt(k)]);
    } else {
      StoredElsewhere(j, before, done, m - 1, j.InAt(k));
      if j.hasXor {
        StoredElsewhere(j, before, done, m - 1, j.XorAt(k));
      }
      assert mid[j.InAt(k)] == Taken(j, before, done, m - 1);
      assert j.hasXor ==> mid[j.XorAt(k)] == before[j.XorAt(k)];
    }
  }

  lemma Apart(j: Job, size: nat, k: nat)
    requires Fits(j, size) && k < j.n && CounterApart(j)
    ensures 0 <= j.InAt(k) < size && 0 <= j.OutAt(k) < size && (j.hasXor ==> 0 <= j.XorAt(k) < size)
    ensures j.counter ==> j.OutAt(k) != j.inStart && (j.hasXor ==> j.XorAt(k) != j.inStart)
  {
    hide Job.InAt, Job.OutAt, Job.XorAt;
  }

  lemma SameAddress(j: Job, k: nat)
    requires SelfXor(j)
    ensures j.InAt(k) == j.XorAt(k)
  {
  }

  lemma XorSelf(b: Block)
    ensures XorSeq(b, b) == Zeros(BLOCK)
  {
    XorSeqZero(b);
    XorSeqCancel(Zeros(BLOCK), b);
  }

  lemma XorSeqZero(b: Block)
    ensures XorSeq(b, Zeros(BLOCK)) == b && XorSeq(Zeros(BLOCK), b) == b
  {
    forall i | 0 <= i < BLOCK
      ensures Xor(b[i], 0) == b[i] && Xor(0, b[i]) == b[i]
    {
      XorZero(b[i]);
    }
  }

  // ----- the batches in place -----

  /** `m` blocks read from the input, or the counter and its next values; the counter is stored `m` further. */
  method LoadBlocks(mem: array<Block>, j: Job, ghost done: nat, m: nat, inBlocks: int) returns (blocks: seq<Block>, next: int)
    requires Fits(j, mem.Length) && 0 < m && done + m <= j.n && inBlocks == j.InAt(done)
    modifies mem
    ensures |blocks| == m && forall i :: 0 <= i < m ==> blocks[i] == Taken(j, old(mem[..]), done, i)
    ensures next == inBlocks + j.inMove.By(m)
    ensures mem[..] == Counted(j, old(mem[..]), m)
  {
    assert 0 <= j.InAt(done) < mem.Length;
    if j.counter {
      blocks := LoadCounters(mem, j, done, m, inBlocks);
      next := inBlocks;
    } else {
      blocks, next := [], inBlocks;
      for i := 0 to m
        invariant |blocks| == i && next == j.InAt(done + i)
        invariant forall h :: 0 <= h < i ==> blocks[h] == Taken(j, mem[..], done, h)
        invariant mem[..] == old(mem[..])
      {
        assert 0 <= j.InAt(done + i) < mem.Length;
        blocks := blocks + [mem[next]];
        next := next + j.inMove.By(1);
      }
    }
  }

  method LoadCounters(mem: array<Block>, j: Job, ghost done: nat, m: nat, inBlocks: int) returns (blocks: seq<Block>)
    requires Fits(j, mem.Length) && j.counter && 0 < m && done + m <= j.n && inBlocks == j.InAt(done)
    modifies mem
    ensures |blocks| == m && forall i :: 0 <= i < m ==> blocks[i] == Taken(j, old(mem[..]), done, i)
    ensures mem[..] == Counted(j, old(mem[..]), m)
  {
    hide Increment, LaneAdd;
    assert 0 <= j.InAt(done) < mem.Length && inBlocks == j.inStart;
    ghost var first := mem[inBlocks];
    blocks := [mem[inBlocks]];
    for i := 1 to m
      invariant |blocks| == i && forall h :: 0 <= h < i ==> blocks[h] == Increments(first, h)
      invariant mem[..] == old(mem[..])
    {
      LaneAddIncrements(blocks[i - 1]);
      blocks := blocks + [LaneAdd(blocks[i - 1])];
    }
    LaneAddIncrements(blocks[m - 1]);
    var last := LaneAdd(blocks[m - 1]);
    assert last == Increments(first, m);
    mem[inBlocks] := last;
    assert mem[..] == old(mem[..])[inBlocks := last];
  }

  method XorBlocks(mem: array<Block>, j: Job, ghost done: nat, blocks: seq<Block>, xorBlocks: int)
    returns (r: seq<Block>, next: int)
    requires Fits(j, mem.Length) && j.hasXor && done + |blocks| <= j.n && xorBlocks == j.XorAt(done)
    ensures |r| == |blocks|
    ensures forall i :: 0 <= i < |r| ==>
      0 <= j.XorAt(done + i) < mem.Length && r[i] == XorSeq(blocks[i], mem[j.XorAt(done + i)])
    ensures next == xorBlocks + j.xorMove.By(|blocks|)
  {
    r, next := [], xorBlocks;
    for i := 0 to |blocks|
      invariant |r| == i && next == j.XorAt(done + i)
      invariant forall h :: 0 <= h < i ==>
        0 <= j.XorAt(done + h) < mem.Length && r[h] == XorSeq(blocks[h], mem[j.XorAt(done + h)])
    {
      assert 0 <= j.XorAt(done + i) < mem.Length;
      r := r + [XorSeq(blocks[i], mem[next])];
      next := next + j.xorMove.By(1);
    }
  }

  /** `blocks` written to the outputs from step `done` on, in order. */
  function Put(j: Job, mem: seq<Block>, done: nat, blocks: seq<Block>): (r: seq<Block>)
    requires Fits(j, |mem|) && done + |blocks| <= j.n
    ensures |r| == |mem|
  {
    if blocks == [] then mem
    else
      var m := |blocks| - 1;
      assert 0 <= j.OutAt(done + m) < |mem|;
      Put(j, mem, done, blocks[..m])[j.OutAt(done + m) := blocks[m]]
  }

  method StoreBlocks(mem: array<Block>, j: Job, ghost done: nat, blocks: seq<Block>, outBlocks: int) returns (next: int)
    requires Fits(j, mem.Length) && done + |blocks| <= j.n && outBlocks == j.OutAt(done)
    modifies mem
    ensures mem[..] == Put(j, old(mem[..]), done, blocks)
    ensures next == outBlocks + j.outMove.By(|blocks|)
  {
    next := outBlocks;
    for i := 0 to |blocks|
      invariant next == j.OutAt(done + i)
      invariant mem[..] == Put(j, old(mem[..]), done, blocks[..i])
    {
      assert 0 <= j.OutAt(done + i) < mem.Length;
      mem[next] := blocks[i];
      assert blocks[..i + 1][..i] == blocks[..i];
      next := next + j.outMove.By(1);
    }
    assert blocks[..|blocks|] == blocks;
  }

  /** The blocks of a batch, their xor blocks read from `seen`. */
  function Blocks(j: Job, mem: seq<Block>, seen: seq<Block>, done: nat, m: nat): (r: seq<Block>)
    requires Fits(j, |mem|) && |seen| == |mem| && done + m <= j.n
    ensures |r| == m && forall i :: 0 <= i < m ==> r[i] == Processed(j, Taken(j, mem, done, i), seen, done + i)
  {
    seq(m, i requires 0 <= i < m => Processed(j, Taken(j, mem, done, i), seen, done + i))
  }

  /** The memory after a batch: the counter is stored first, then the xor blocks are read, then the outputs are
      written. The loop for single blocks reads an xor block for the input before it counts. */
  function AfterBatch(j: Job, mem: seq<Block>, done: nat, m: nat): (r: seq<Block>)
    requires Fits(j, |mem|) && 0 < m && done + m <= j.n
    ensures |r| == |mem|
  {
    var counted := Counted(j, mem, m);
    Put(j, counted, done, Blocks(j, mem, if m == 1 && j.xorFirst then mem else counted, done, m))
  }

  /** How many blocks the loops take together when `left` are left. */
  function BatchSize(left: nat, parallel: bool): (m: nat)
    requires left > 0
    ensures 0 < m <= left
  {
    if parallel && left >= 6 then 6 else if parallel && left >= 2 then 2 else 1
  }

  /** The memory after all batches from step `done` on. */
  function Batched(j: Job, mem: seq<Block>, done: nat, parallel: bool): (r: seq<Block>)
    requires Fits(j, |mem|) && done <= j.n
    ensures |r| == |mem|
    decreases j.n - done
  {
    if done == j.n then mem
    else
      var m := BatchSize(j.n - done, parallel);
      Batched(j, AfterBatch(j, mem, done, m), done + m, parallel)
  }

  lemma BatchedNext(j: Job, mem: seq<Block>, done: nat, parallel: bool, m: nat)
    requires Fits(j, |mem|) && done < j.n && m == BatchSize(j.n - done, parallel)
    ensures Batched(j, mem, done, parallel) == Batched(j, AfterBatch(j, mem, done, m), done + m, parallel)
  {
  }

  /** One pass of a batch loop: `m` blocks are read, encrypted together and written. */
  method ProcessBatch(mem: array<Block>, j: Job, ghost done: nat, m: nat, inBlocks: int, xorBlocks: int, outBlocks: int)
    returns (inNext: int, xorNext: int, outNext: int)
    requires Fits(j, mem.Length) && 1 < m && done + m <= j.n
    requires inBlocks == j.InAt(done) && xorBlocks == j.XorAt(done) && outBlocks == j.OutAt(done)
    requires !j.hasXor ==> j.xorMove == Stay
    modifies mem
    ensures inNext == j.InAt(done + m) && xorNext == j.XorAt(done + m) && outNext == j.OutAt(done + m)
    ensures mem[..] == AfterBatch(j, old(mem[..]), done, m)
  {
    hide Counted, Taken, Put, Blocks;
    ghost var before := mem[..];
    var taken: seq<Block>;
    taken, inNext := LoadBlocks(mem, j, done, m, inBlocks);
    ghost var seen := mem[..];
    xorNext := xorBlocks;
    var blocks := taken;
    if j.hasXor && j.xorFirst {
      blocks, xorNext := XorBlocks(mem, j, done, blocks, xorBlocks);
    }
    blocks := seq(m, i requires 0 <= i < m && |blocks| == m => j.cipher(blocks[i]));
    if j.hasXor && !j.xorFirst {
      blocks, xorNext := XorBlocks(mem, j, done, blocks, xorBlocks);
    }
    assert blocks == Blocks(j, before, seen, done, m);
    outNext := StoreBlocks(mem, j, done, blocks, outBlocks);
  }

  /** The remaining blocks, one at a time; the counter is counted up before its block is encrypted. */
  method ProcessOne(mem: array<Block>, j: Job, ghost done: nat, inBlocks: int, xorBlocks: int, outBlocks: int)
    requires Fits(j, mem.Length) && done < j.n
    requires inBlocks == j.InAt(done) && xorBlocks == j.XorAt(done) && outBlocks == j.OutAt(done)
    modifies mem
    ensures mem[..] == AfterBatch(j, old(mem[..]), done, 1)
  {
    ghost var before := mem[..];
    assert 0 <= j.InAt(done) < mem.Length && 0 <= j.OutAt(done) < mem.Length && (j.hasXor ==> 0 <= j.XorAt(done) < mem.Length);
    var block := mem[inBlocks];
    if j.hasXor && j.xorFirst {
      block := XorSeq(block, mem[xorBlocks]);
    }
    if j.counter {
      mem[inBlocks] := Increment(mem[inBlocks]);
    }
    ghost var counted := mem[..];
    CountedOnce(j, before);
    CounterStays(j, |before|, done);
    assert counted == Counted(j, before, 1);
    block := j.cipher(block);
    if j.hasXor && !j.xorFirst {
      block := XorSeq(block, mem[xorBlocks]);
    }
    PutOne(j, before, done, block);
    hide *;
    mem[outBlocks] := block;
  }

  lemma CountedOnce(j: Job, mem: seq<Block>)
    requires Fits(j, |mem|) && j.n > 0
    ensures 0 <= j.InAt(0) < |mem| && j.InAt(0) == j.inStart
    ensures Counted(j, mem, 1) == if j.counter then mem[j.inStart := Increment(mem[j.inStart])] else mem
  {
    assert 0 <= j.InAt(0) < |mem|;
    assert Increments(mem[j.inStart], 1) == Increment(Increments(mem[j.inStart], 0));
  }

  lemma PutOne(j: Job, mem: seq<Block>, done: nat, block: Block)
    requires Fits(j, |mem|) && done < j.n && 0 <= j.InAt(done) < |mem| && 0 <= j.OutAt(done) < |mem|
    requires block == Processed(j, mem[j.InAt(done)], if j.xorFirst then mem else Counted(j, mem, 1), done)
    ensures AfterBatch(j, mem, done, 1) == Counted(j, mem, 1)[j.OutAt(done) := block]
  {
    var blocks := Blocks(j, mem, if j.xorFirst then mem else Counted(j, mem, 1), done, 1);
    assert Taken(j, mem, done, 0) == mem[j.InAt(done)];
    hide Counted, Taken, Processed;
    assert blocks[..0] == [] && blocks[0] == block;
    assert Put(j, Counted(j, mem, 1), done, blocks[..0]) == Counted(j, mem, 1);
    assert Put(j, Counted(j, mem, 1), done, blocks) == Counted(j, mem, 1)[j.OutAt(done) := block];
  }

  /** The loops over batches: the memory afterwards is that of all batches, and the bytes of an incomplete block
      are left. Backwards, the first of them are: the memory is then divided into blocks from `bytes % BLOCK` bytes
      further on, for all three pointers. */
  method AdvancedProcessBlocks(mem: array<Block>, cipher: Cipher, flags: Flags, inStart: int, hasXor: bool, xorStart: int,
                               outStart: int, bytes: nat) returns (length: nat)
    requires Fits(Setup(cipher, flags, bytes / BLOCK, inStart, hasXor, xorStart, outStart), mem.Length)
    modifies mem
    ensures length == bytes % BLOCK
    ensures var j := Setup(cipher, flags, bytes / BLOCK, inStart, hasXor, xorStart, outStart);
            mem[..] == Batched(j, old(mem[..]), 0, flags.allowParallel)
    ensures var j := Setup(cipher, flags, bytes / BLOCK, inStart, hasXor, xorStart, outStart);
            CounterApart(j) && BatchesSafe(j, 0, flags.allowParallel) ==> mem[..] == OneAtATime(j, old(mem[..]), j.n)
  {
    hide OneAtATime, Batched, AfterBatch, BatchesSafe, Fits, CounterApart, Job.InAt, Job.XorAt, Job.OutAt;
    var j := Setup(cipher, flags, bytes / BLOCK, inStart, hasXor, xorStart, outStart);
    ghost var start, parallel := mem[..], flags.allowParallel;
    ghost var done, left, tail := 0, bytes / BLOCK, bytes % BLOCK;
    FirstPointers(j, start);
    if CounterApart(j) && BatchesSafe(j, 0, parallel) {
      BatchedIsSteps(j, start, 0, parallel);
    }
    hide Setup;
    var inBlocks, xorBlocks, outBlocks := j.inStart, j.xorStart, j.outStart;
    length := bytes;
    if flags.allowParallel {
      while length >= 6 * BLOCK
        invariant done + left == j.n && length == BLOCK * left + tail
        invariant inBlocks == j.InAt(done) && xorBlocks == j.XorAt(done) && outBlocks == j.OutAt(done)
        invariant Batched(j, mem[..], done, parallel) == Batched(j, start, 0, parallel)
      {
        BatchedNext(j, mem[..], done, parallel, 6);
        inBlocks, xorBlocks, outBlocks := ProcessBatch(mem, j, done, 6, inBlocks, xorBlocks, outBlocks);
        length, done, left := length - 6 * BLOCK, done + 6, left - 6;
      }
      while length >= 2 * BLOCK
        invariant done + left == j.n && length == BLOCK * left + tail && left < 6
        invariant inBlocks == j.InAt(done) && xorBlocks == j.XorAt(done) && outBlocks == j.OutAt(done)
        invariant Batched(j, mem[..], done, parallel) == Batched(j, start, 0, parallel)
      {
        BatchedNext(j, mem[..], done, parallel, 2);
        inBlocks, xorBlocks, outBlocks := ProcessBatch(mem, j, done, 2, inBlocks, xorBlocks, outBlocks);
        length, done, left := length - 2 * BLOCK, done + 2, left - 2;
      }
    }
    while length >= BLOCK
      invariant done + left == j.n && length == BLOCK * left + tail && (parallel ==> left < 2)
      invariant inBlocks == j.InAt(done) && xorBlocks == j.XorAt(done) && outBlocks == j.OutAt(done)
      invariant Batched(j, mem[..], done, parallel) == Batched(j, start, 0, parallel)
    {
      BatchedNext(j, mem[..], done, parallel, 1);
      ProcessOne(mem, j, done, inBlocks, xorBlocks, outBlocks);
      NextPointers(j, done);
      inBlocks, xorBlocks, outBlocks := inBlocks + j.inMove.By(1), xorBlocks + j.xorMove.By(1), outBlocks + j.outMove.By(1);
      length, done, left := length - BLOCK, done + 1, left - 1;
    }
    BatchedEnd(j, mem[..], parallel);
  }

  lemma FirstPointers(j: Job, mem: seq<Block>)
    ensures j.InAt(0) == j.inStart && j.XorAt(0) == j.xorStart && j.OutAt(0) == j.outStart
    ensures Fits(j, |mem|) ==> OneAtATime(j, mem, 0) == mem
  {
  }

  lemma NextPointers(j: Job, k: nat)
    ensures j.InAt(k + 1) == j.InAt(k) + j.inMove.By(1)
    ensures j.XorAt(k + 1) == j.XorAt(k) + j.xorMove.By(1)
    ensures j.OutAt(k + 1) == j.OutAt(k) + j.outMove.By(1)
  {
  }

  lemma BatchedEnd(j: Job, mem: seq<Block>, parallel: bool)
    requires Fits(j, |mem|)
    ensures Batched(j, mem, j.n, parallel) == mem
  {
  }

  // ----- batches against one block at a time -----

  /** No batch from step `done` on has a block that reads what an earlier one of the same batch writes. */
  ghost predicate BatchesSafe(j: Job, done: nat, parallel: bool)
    requires done <= j.n
    decreases j.n - done
  {
    done == j.n ||
    (var m := BatchSize(j.n - done, parallel);
     Harmless(j, done, m) && BatchesSafe(j, done + m, parallel))
  }

  /** Then the batches leave what one block at a time leaves. */
  lemma {:induction false} BatchedIsSteps(j: Job, mem: seq<Block>, done: nat, parallel: bool)
    requires Fits(j, |mem|) && done <= j.n && CounterApart(j) && BatchesSafe(j, done, parallel)
    ensures Batched(j, OneAtATime(j, mem, done), done, parallel) == OneAtATime(j, mem, j.n)
    decreases j.n - done
  {
    hide Fits, CounterApart, Harmless, AfterBatch, Counted, Stored, OneAtATime, Batched;
    if done == j.n {
      BatchedEnd(j, OneAtATime(j, mem, done), parallel);
    } else {
      var m := BatchSize(j.n - done, parallel);
      BatchedNext(j, OneAtATime(j, mem, done), done, parallel, m);
      BatchIsSteps(j, mem, done, m);
      BatchIsStored(j, OneAtATime(j, mem, done), done, m);
      BatchedIsSteps(j, mem, done + m, parallel);
    }
  }

  /** With the counter block apart, its early store is not seen. */
  lemma BatchIsStored(j: Job, mem: seq<Block>, done: nat, m: nat)
    requires Fits(j, |mem|) && 0 < m && done + m <= j.n && CounterApart(j)
    ensures AfterBatch(j, mem, done, m) == Counted(j, Stored(j, mem, done, m), m)
  {
    var counted := Counted(j, mem, m);
    var seen := if m == 1 && j.xorFirst then mem else counted;
    var blocks := Blocks(j, mem, seen, done, m);
    forall i | 0 <= i < m
      ensures blocks[i] == Processed(j, Taken(j, mem, done, i), mem, done + i)
    {
      CountedElsewhere(j, mem, m, done + i);
      hide Fits, CounterApart, Taken, Counted, Job.InAt, Job.OutAt, Job.XorAt;
    }
    PutIsStored(j, mem, done, m, blocks, m);
  }

  lemma CountedElsewhere(j: Job, mem: seq<Block>, m: nat, k: nat)
    requires Fits(j, |mem|) && CounterApart(j) && k < j.n
    ensures j.hasXor ==> 0 <= j.XorAt(k) < |mem| && Counted(j, mem, m)[j.XorAt(k)] == mem[j.XorAt(k)]
  {
  }

  lemma {:induction false} PutIsStored(j: Job, mem: seq<Block>, done: nat, m: nat, blocks: seq<Block>, total: nat)
    requires Fits(j, |mem|) && done + m <= j.n && j.n > 0 && CounterApart(j) && |blocks| == m
    requires forall i :: 0 <= i < m ==> blocks[i] == Processed(j, Taken(j, mem, done, i), mem, done + i)
    ensures Put(j, Counted(j, mem, total), done, blocks) == Counted(j, Stored(j, mem, done, m), total)
  {
    if m > 0 {
      PutIsStored(j, mem, done, m - 1, blocks[..m - 1], total);
      StoredNext(j, mem, done, m);
      CounterStays(j, |mem|, 0);
      assert j.counter ==> 0 <= j.inStart < |mem| && j.OutAt(done + m - 1) != j.inStart;
      hide Fits, CounterApart, Processed, Taken, Stored, Increments, Job.InAt, Job.OutAt, Job.XorAt;
    }
  }
}
