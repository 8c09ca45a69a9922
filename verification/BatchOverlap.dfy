/** Which overlaps of input, xor and output blocks keep batches equal to one block at a time. */
module BatchOverlap {
  import opened Bytes
  import opened CcmSpec
  import opened BatchedBlocks

  // ----- hazards and distances -----

  /** The pointers move on together; a counter block stays. */
  predicate Moving(j: Job) {
    j.outMove != Stay && (j.counter || j.inMove == j.outMove) && (j.hasXor ==> j.xorMove == j.outMove)
  }

  /** A block `d` steps later reads what a block writes. */
  predicate Hits(j: Job, d: nat) {
    (!j.counter && j.OutAt(0) == j.InAt(d)) || (j.hasXor && j.OutAt(0) == j.XorAt(d))
  }

  lemma Shift(j: Job, s: nat, t: nat)
    requires Moving(j)
    ensures s <= t && !j.counter ==> (j.OutAt(s) == j.InAt(t) <==> j.OutAt(0) == j.InAt(t - s))
    ensures s <= t && j.hasXor ==> (j.OutAt(s) == j.XorAt(t) <==> j.OutAt(0) == j.XorAt(t - s))
    ensures j.OutAt(s) == j.OutAt(t) <==> s == t
  {
  }

  lemma NoHazardInExactly(j: Job, size: nat, done: nat, m: nat)
    requires Moving(j) && Fits(j, size) && CounterApart(j) && done + m <= j.n
    ensures NoHazardIn(j, done, m) <==> forall d: nat :: 0 < d < m ==> !Hits(j, d)
  {
    hide Job.InAt, Job.XorAt, Job.OutAt;
    forall s: nat, t: nat | done <= s < t < done + m
      ensures (j.OutAt(s) == j.InAt(t) || (j.hasXor && j.OutAt(s) == j.XorAt(t))) ==> Hits(j, t - s)
    {
      Shift(j, s, t);
      CounterStays(j, size, t);
    }
    forall d: nat | 0 < d < m && Hits(j, d)
      ensures j.OutAt(done) == j.InAt(done + d) || (j.hasXor && j.OutAt(done) == j.XorAt(done + d))
    {
      Shift(j, done, done + d);
    }
  }

  /** The first batch of a parallel job, and the largest. */
  function LargestBatch(n: nat): nat {
    if n >= 6 then 6 else if n >= 2 then 2 else 1
  }

  ghost predicate NoHits(j: Job) {
    forall d: nat :: 0 < d < LargestBatch(j.n) ==> !Hits(j, d)
  }

  lemma SafeExactly(j: Job, size: nat)
    requires Moving(j) && Fits(j, size) && CounterApart(j)
    ensures BatchesSafe(j, 0, true) <==> NoHits(j) || SelfXor(j)
  {
    hide Hits, Fits, CounterApart, SelfXor;
    if j.n > 0 {
      NoHazardInExactly(j, size, 0, LargestBatch(j.n));
    }
    if NoHits(j) || SelfXor(j) {
      SafeFrom(j, size, 0);
    }
  }

  lemma {:induction false} SafeFrom(j: Job, size: nat, done: nat)
    requires Moving(j) && Fits(j, size) && CounterApart(j) && done <= j.n && (NoHits(j) || SelfXor(j))
    ensures BatchesSafe(j, done, true)
    decreases j.n - done
  {
    hide Hits, Fits, CounterApart, SelfXor, NoHazardIn;
    if done < j.n {
      var m := BatchSize(j.n - done, true);
      NoHazardInExactly(j, size, done, m);
      SafeFrom(j, size, done + m);
    }
  }

  // ----- a cipher and a memory that show every hazard -----

  const ZERO: Block := Zeros(BLOCK)
  const ONE: Block := Zeros(BLOCK)[15 := 1]
  const TWO: Block := Zeros(BLOCK)[15 := 2]

  /** A permutation that takes three blocks in turn and leaves the others. */
  function Cycle(b: Block): Block {
    if b == ZERO then ONE else if b == ONE then TWO else if b == TWO then ZERO else b
  }

  lemma CycleIsInjective(a: Block, b: Block)
    requires Cycle(a) == Cycle(b)
    ensures a == b
  {
    assert ZERO[15] == 0 && ONE[15] == 1 && TWO[15] == 2;
  }

  /** Results that differ, whichever of the two blocks read is the first block's result instead of zero. */
  lemma ResultsDiffer(j: Job, b: Block, x: Block)
    requires j.cipher == Cycle
    requires b in {ZERO, ONE} && x in {ZERO, ONE} && (b != ZERO || (j.hasXor && x != ZERO))
    requires !(j.hasXor && j.xorFirst && b == x)
    ensures Combined(j, b, x) != Combined(j, ZERO, ZERO) == ONE
  {
    assert ZERO[15] == 0 && ONE[15] == 1 && TWO[15] == 2;
    hide XorSeq;
    XorSeqZero(ZERO);
    XorSeqZero(ONE);
    XorSeqZero(TWO);
    XorSelf(ONE);
    XorSeqCancel(TWO, ONE);
  }

  /** What a block becomes, by what is read for it. */
  function Combined(j: Job, b: Block, x: Block): Block {
    if j.hasXor && j.xorFirst then j.cipher(XorSeq(b, x))
    else if j.hasXor then XorSeq(j.cipher(b), x)
    else j.cipher(b)
  }

  lemma CountersDiffer(j: Job, b: Block)
    requires j.cipher == Cycle && j.hasXor
    ensures Combined(j, b, ONE) != Combined(j, b, ZERO)
  {
    assert ZERO[15] == 0 && ONE[15] == 1;
    hide XorSeq, Cycle;
    if j.xorFirst {
      if Combined(j, b, ONE) == Combined(j, b, ZERO) {
        CycleIsInjective(XorSeq(b, ONE), XorSeq(b, ZERO));
      }
      DifferentXor(b);
    } else {
      DifferentXor(Cycle(b));
    }
  }

  lemma DifferentXor(b: Block)
    ensures XorSeq(b, ONE) != XorSeq(b, ZERO)
  {
    hide XorSeq;
    XorSeqCommutes(b, ONE);
    XorSeqCommutes(b, ZERO);
    XorSeqCancel(ONE, b);
    XorSeqCancel(ZERO, b);
    assert ZERO[15] == 0 && ONE[15] == 1;
  }

  // ----- outputs are written once -----

  lemma {:induction false} StoredOutput(j: Job, mem: seq<Block>, m: nat, k: nat)
    requires Moving(j) && Fits(j, |mem|) && k < m <= j.n
    ensures 0 <= j.OutAt(k) < |mem|
    ensures Stored(j, mem, 0, m)[j.OutAt(k)] == Processed(j, Taken(j, mem, 0, k), mem, k)
  {
    hide Fits, Taken, Processed, Job.InAt, Job.XorAt, Job.OutAt;
    StoredNext(j, mem, 0, m);
    hide Stored;
    if k + 1 < m {
      StoredOutput(j, mem, m - 1, k);
      Shift(j, k, m - 1);
    }
  }

  lemma {:induction false} OutputStays(j: Job, mem: seq<Block>, k: nat, t: nat)
    requires Moving(j) && Fits(j, |mem|) && CounterApart(j) && k < t <= j.n
    ensures 0 <= j.OutAt(k) < |mem|
    ensures OneAtATime(j, mem, t)[j.OutAt(k)] == OneAtATime(j, mem, k + 1)[j.OutAt(k)]
  {
    hide Fits, CounterApart, Processed, OneAtATime, Job.InAt, Job.XorAt, Job.OutAt;
    Apart(j, |mem|, k);
    if k + 1 < t {
      OutputStays(j, mem, k, t - 1);
      NextStep(j, mem, t - 1);
      Shift(j, k, t - 1);
      Apart(j, |mem|, t - 1);
      CounterStays(j, |mem|, t - 1);
    }
  }

  lemma {:induction false} BatchedKeeps(j: Job, mem: seq<Block>, done: nat, k: nat)
    requires Moving(j) && Fits(j, |mem|) && CounterApart(j) && k < done <= j.n
    ensures 0 <= j.OutAt(k) < |mem|
    ensures Batched(j, mem, done, true)[j.OutAt(k)] == mem[j.OutAt(k)]
    decreases j.n - done
  {
    hide Fits, CounterApart, AfterBatch, Stored, Batched, Job.InAt, Job.XorAt, Job.OutAt;
    Apart(j, |mem|, k);
    if done == j.n {
      BatchedEnd(j, mem, true);
    } else {
      var m := BatchSize(j.n - done, true);
      BatchedNext(j, mem, done, true, m);
      BatchedKeeps(j, AfterBatch(j, mem, done, m), done + m, k);
      BatchIsStored(j, mem, done, m);
      forall t: nat | done <= t < done + m
        ensures j.OutAt(t) != j.OutAt(k)
      {
        Shift(j, k, t);
      }
      StoredElsewhere(j, mem, done, m, j.OutAt(k));
    }
  }

  lemma NextStep(j: Job, mem: seq<Block>, k: nat)
    requires Fits(j, |mem|) && k < j.n
    ensures OneAtATime(j, mem, k + 1) == Step(j, OneAtATime(j, mem, k), k)
  {
  }

  // ----- a hazard in the first batch shows -----

  ghost predicate AllZero(mem: seq<Block>) {
    forall i :: 0 <= i < |mem| ==> mem[i] == ZERO
  }

  /** The earliest hazard of a job: its step reads the first output, and nothing else that was written. */
  ghost predicate FirstHit(j: Job, d: nat) {
    && 0 < d < LargestBatch(j.n) && Hits(j, d)
    && forall e: nat :: 0 < e < d ==> !Hits(j, e)
  }

  /** What the batch makes of that step's block. */
  lemma BatchSide(j: Job, mem: seq<Block>, d: nat)
    requires Moving(j) && Fits(j, |mem|) && CounterApart(j) && AllZero(mem) && d < LargestBatch(j.n) && d < j.n
    ensures 0 <= j.OutAt(d) < |mem| && 0 <= j.InAt(d) < |mem|
    ensures Batched(j, mem, 0, true)[j.OutAt(d)] == Combined(j, if j.counter then Increments(ZERO, d) else ZERO, ZERO)
  {
    hide Fits, CounterApart, AfterBatch, Stored, Batched, Increments, Job.InAt, Job.XorAt, Job.OutAt;
    var m := LargestBatch(j.n);
    BatchedNext(j, mem, 0, true, m);
    BatchedKeeps(j, AfterBatch(j, mem, 0, m), m, d);
    BatchIsStored(j, mem, 0, m);
    Apart(j, |mem|, d);
    StoredOutput(j, mem, m, d);
  }

  /** What one block at a time makes of it. */
  lemma StepSide(j: Job, mem: seq<Block>, d: nat)
    requires Moving(j) && Fits(j, |mem|) && CounterApart(j) && AllZero(mem) && d < j.n && FirstHit(j, d) && j.cipher == Cycle
    ensures 0 <= j.OutAt(d) < |mem|
    ensures OneAtATime(j, mem, j.n)[j.OutAt(d)] == Combined(j, SeenIn(j, d), SeenXor(j, d))
  {
    hide Fits, CounterApart, Stored, OneAtATime, Hits, Increments, Cycle, Job.InAt, Job.XorAt, Job.OutAt;
    NoHazardInExactly(j, |mem|, 0, d);
    BatchIsSteps(j, mem, 0, d);
    FirstPointers(j, mem);
    Apart(j, |mem|, 0);
    Apart(j, |mem|, d);
    CounterStays(j, |mem|, d);
    OutputStays(j, mem, d, j.n);
    NextStep(j, mem, d);
    StoredReads(j, mem, d);
  }

  /** The blocks read at the earliest hazard, one at a time. */
  function SeenIn(j: Job, d: nat): Block {
    if j.counter then Increments(ZERO, d) else if j.InAt(d) == j.OutAt(0) then ONE else ZERO
  }

  function SeenXor(j: Job, d: nat): Block {
    if j.XorAt(d) == j.OutAt(0) then ONE else ZERO
  }

  lemma StoredReads(j: Job, mem: seq<Block>, d: nat)
    requires Moving(j) && Fits(j, |mem|) && CounterApart(j) && AllZero(mem) && d < j.n && FirstHit(j, d) && j.cipher == Cycle
    ensures var mid := Counted(j, Stored(j, mem, 0, d), d);
            && 0 <= j.InAt(d) < |mem| && mid[j.InAt(d)] == SeenIn(j, d)
            && (j.hasXor ==> 0 <= j.XorAt(d) < |mem| && mid[j.XorAt(d)] == SeenXor(j, d))
  {
    hide Fits, CounterApart, Stored, Increments, Cycle, Job.InAt, Job.XorAt, Job.OutAt;
    Apart(j, |mem|, 0);
    Apart(j, |mem|, d);
    CounterStays(j, |mem|, d);
    FirstResult(j, mem, d);
    forall s: nat | 0 < s < d
      ensures j.OutAt(s) != j.InAt(d)
      ensures j.hasXor ==> j.OutAt(s) != j.XorAt(d)
    {
      Shift(j, s, d);
      Apart(j, |mem|, s);
      assert !Hits(j, d - s);
    }
    if j.counter || j.InAt(d) != j.OutAt(0) {
      StoredElsewhere(j, mem, 0, d, j.InAt(d));
    }
    if j.hasXor && j.XorAt(d) != j.OutAt(0) {
      StoredElsewhere(j, mem, 0, d, j.XorAt(d));
    }
  }

  lemma FirstResult(j: Job, mem: seq<Block>, d: nat)
    requires Moving(j) && Fits(j, |mem|) && AllZero(mem) && 0 < d <= j.n && j.cipher == Cycle
    ensures 0 <= j.OutAt(0) < |mem| && Stored(j, mem, 0, d)[j.OutAt(0)] == ONE
  {
    StoredOutput(j, mem, d, 0);
    assert 0 <= j.InAt(0) < |mem| && (j.hasXor ==> 0 <= j.XorAt(0) < |mem|);
    hide Fits, Stored, XorSeq, Job.InAt, Job.XorAt, Job.OutAt;
    XorSeqZero(ZERO);
    XorSeqZero(ONE);
  }

  lemma SameStart(j: Job, d: nat)
    requires Moving(j) && !j.counter && j.hasXor && j.InAt(d) == j.XorAt(d)
    ensures j.inStart == j.xorStart && j.inMove == j.xorMove
  {
  }

  lemma HazardShows(j: Job, mem: seq<Block>, d: nat)
    requires Moving(j) && Fits(j, |mem|) && CounterApart(j) && AllZero(mem) && j.cipher == Cycle
    requires FirstHit(j, d) && !SelfXor(j)
    ensures Batched(j, mem, 0, true) != OneAtATime(j, mem, j.n)
  {
    hide Fits, CounterApart, Stored, OneAtATime, Batched, Increments, Cycle, Combined, Job.InAt, Job.XorAt, Job.OutAt;
    BatchSide(j, mem, d);
    StepSide(j, mem, d);
    if j.counter {
      CountersDiffer(j, Increments(ZERO, d));
    } else {
      assert ZERO[15] == 0 && ONE[15] == 1;
      if j.hasXor && j.InAt(d) == j.XorAt(d) {
        SameStart(j, d);
      }
      ResultsDiffer(j, SeenIn(j, d), SeenXor(j, d));
    }
  }

  lemma {:induction false} LeastHit(j: Job, d: nat) returns (e: nat)
    requires 0 < d < LargestBatch(j.n) && Hits(j, d)
    ensures FirstHit(j, e)
    decreases d
  {
    hide Hits;
    if f: nat :| 0 < f < d && Hits(j, f) {
      e := LeastHit(j, f);
    } else {
      e := d;
    }
  }

  // ----- the exact condition -----

  function With(j: Job, cipher: Cipher): Job {
    j.(cipher := cipher)
  }

  ghost predicate Agrees(j: Job, mem: seq<Block>) {
    Fits(j, |mem|) && Batched(j, mem, 0, true) == OneAtATime(j, mem, j.n)
  }

  ghost predicate Injective(cipher: Cipher) {
    forall a: Block, b: Block :: cipher(a) == cipher(b) ==> a == b
  }

  ghost predicate AgreesAlways(j: Job, size: nat) {
    forall cipher: Cipher, mem: seq<Block> :: |mem| == size ==> Agrees(With(j, cipher), mem)
  }

  ghost predicate AgreesForPermutations(j: Job, size: nat) {
    forall cipher: Cipher, mem: seq<Block> :: Injective(cipher) && |mem| == size ==> Agrees(With(j, cipher), mem)
  }

  /** Batches equal one block at a time for every cipher and every memory, or even only for every permutation, if
      and only if no batch has a hazard or every block is xored with itself. */
  lemma BatchedExactly(j: Job, size: nat)
    requires Moving(j) && Fits(j, size) && CounterApart(j)
    ensures AgreesAlways(j, size) <==> BatchesSafe(j, 0, true)
    ensures AgreesForPermutations(j, size) <==> BatchesSafe(j, 0, true)
  {
    hide Agrees, BatchesSafe;
    SafeExactly(j, size);
    if BatchesSafe(j, 0, true) {
      forall cipher: Cipher, mem: seq<Block> | |mem| == size
        ensures Agrees(With(j, cipher), mem)
      {
        SafeAgrees(j, cipher, mem);
      }
    } else {
      var mem := seq(size, _ => ZERO);
      UnsafeDiffers(j, mem);
      assert Injective(Cycle) by {
        forall a: Block, b: Block | Cycle(a) == Cycle(b) ensures a == b { CycleIsInjective(a, b); }
      }
    }
  }

  lemma SameJob(j: Job, cipher: Cipher, size: nat)
    requires Fits(j, size)
    ensures var k := With(j, cipher);
            && Fits(k, size) && k.n == j.n && Moving(k) == Moving(j) && CounterApart(k) == CounterApart(j)
            && SelfXor(k) == SelfXor(j) && forall d: nat :: Hits(k, d) == Hits(j, d)
  {
    var k := With(j, cipher);
    assert forall i: nat :: k.InAt(i) == j.InAt(i);
    assert forall i: nat :: k.OutAt(i) == j.OutAt(i);
    assert forall i: nat :: k.XorAt(i) == j.XorAt(i);
    assert forall i: nat :: i < j.n ==> 0 <= k.InAt(i) < size;
    hide Job.InAt, Job.OutAt, Job.XorAt;
  }

  lemma SafeAgrees(j: Job, cipher: Cipher, mem: seq<Block>)
    requires Moving(j) && Fits(j, |mem|) && CounterApart(j) && (NoHits(j) || SelfXor(j))
    ensures Agrees(With(j, cipher), mem)
  {
    var k := With(j, cipher);
    SameJob(j, cipher, |mem|);
    hide With, Moving, Fits, CounterApart, SelfXor, Hits, Batched, BatchesSafe;
    SafeExactly(k, |mem|);
    BatchedIsSteps(k, mem, 0, true);
    FirstPointers(k, mem);
  }

  lemma UnsafeDiffers(j: Job, mem: seq<Block>)
    requires Moving(j) && Fits(j, |mem|) && CounterApart(j) && AllZero(mem) && !NoHits(j) && !SelfXor(j)
    ensures !Agrees(With(j, Cycle), mem)
  {
    var k := With(j, Cycle);
    SameJob(j, Cycle, |mem|);
    var d: nat :| 0 < d < LargestBatch(j.n) && Hits(j, d);
    assert k.cipher == Cycle;
    hide With, Moving, Fits, CounterApart, SelfXor, Hits, Batched, BatchesSafe, Cycle, OneAtATime;
    var e := LeastHit(k, d);
    HazardShows(k, mem, e);
  }

  // ----- the same in pointers -----

  /** How far the output is ahead of a pointer that is read, in the direction of travel. */
  function Lead(reverse: bool, outBlocks: int, readBlocks: int): int {
    if reverse then readBlocks - outBlocks else outBlocks - readBlocks
  }

  /** The output is not ahead by less than a batch. */
  predicate Clear(reverse: bool, outBlocks: int, readBlocks: int, n: nat) {
    !(0 < Lead(reverse, outBlocks, readBlocks) < LargestBatch(n))
  }

  /** In blocks: 5 or fewer from six blocks on, one from two blocks on. */
  lemma ClearInBlocks(reverse: bool, outBlocks: int, readBlocks: int, n: nat)
    ensures Clear(reverse, outBlocks, readBlocks, n) <==>
              var ahead := if reverse then readBlocks - outBlocks else outBlocks - readBlocks;
              !(n >= 6 && 1 <= ahead <= 5) && !(2 <= n < 6 && ahead == 1)
  {
  }

  lemma NoHitsExactly(cipher: Cipher, flags: Flags, n: nat, inBlocks: int, hasXor: bool, xorBlocks: int, outBlocks: int)
    requires !flags.dontIncrementInOutPointers
    ensures var j := Setup(cipher, flags, n, inBlocks, hasXor, xorBlocks, outBlocks);
            && Moving(j)
            && (NoHits(j) <==> (flags.inBlockIsCounter || Clear(flags.reverseDirection, outBlocks, inBlocks, n)) &&
                               (hasXor ==> Clear(flags.reverseDirection, outBlocks, xorBlocks, n)))
  {
    var j := Setup(cipher, flags, n, inBlocks, hasXor, xorBlocks, outBlocks);
    var lead, xorLead := Lead(flags.reverseDirection, outBlocks, inBlocks), Lead(flags.reverseDirection, outBlocks, xorBlocks);
    forall d: nat
      ensures Hits(j, d) <==> (!flags.inBlockIsCounter && d == lead) || (hasXor && d == xorLead)
    {
    }
    if 0 < lead < LargestBatch(n) { assert Hits(j, lead) || flags.inBlockIsCounter; }
    if 0 < xorLead < LargestBatch(n) { assert Hits(j, xorLead) || !hasXor; }
  }

  /** For pointers that move, batches equal one block at a time for every cipher and memory if and only if the output
      is not ahead of the input or the xor blocks by less than a batch, or the blocks are xored with themselves. */
  lemma OverlapExactly(flags: Flags, n: nat, inBlocks: int, hasXor: bool, xorBlocks: int, outBlocks: int, size: nat)
    requires !flags.dontIncrementInOutPointers
    requires var j := Setup(Cycle, flags, n, inBlocks, hasXor, xorBlocks, outBlocks); Fits(j, size) && CounterApart(j)
    ensures AgreesAlways(Setup(Cycle, flags, n, inBlocks, hasXor, xorBlocks, outBlocks), size) <==>
              || ((flags.inBlockIsCounter || Clear(flags.reverseDirection, outBlocks, inBlocks, n)) &&
                  (hasXor ==> Clear(flags.reverseDirection, outBlocks, xorBlocks, n)))
              || (!flags.inBlockIsCounter && hasXor && flags.xorInput && inBlocks == xorBlocks)
  {
    var j := Setup(Cycle, flags, n, inBlocks, hasXor, xorBlocks, outBlocks);
    hide AgreesAlways, AgreesForPermutations, NoHits, BatchesSafe, Fits, CounterApart, Clear, Cycle;
    NoHitsExactly(Cycle, flags, n, inBlocks, hasXor, xorBlocks, outBlocks);
    SafeExactly(j, size);
    BatchedExactly(j, size);
  }

  /** Two blocks, the output one block ahead of the input: a batch encrypts zeros twice, one block at a time
      encrypts the first result. */
  lemma OverlapFails()
    ensures var j := Setup(Cycle, Flags(false, false, false, false, true), 2, 0, false, 0, 1);
            Fits(j, 3) && !Agrees(j, [ZERO, ZERO, ZERO])
  {
    var j := Setup(Cycle, Flags(false, false, false, false, true), 2, 0, false, 0, 1);
    assert Hits(j, 1) && FirstHit(j, 1);
    HazardShows(j, [ZERO, ZERO, ZERO], 1);
  }

  // ----- every output from the memory before the call -----

  /** For blocks that move, no block of the whole job reads what an earlier one writes exactly when the output does
      not start inside what is still to be read. */
  lemma HazardFreeExactly(cipher: Cipher, flags: Flags, n: nat, inBlocks: int, hasXor: bool, xorBlocks: int, outBlocks: int)
    requires !flags.inBlockIsCounter && !flags.dontIncrementInOutPointers
    ensures NoHazardIn(Setup(cipher, flags, n, inBlocks, hasXor, xorBlocks, outBlocks), 0, n) <==>
              Behind(flags.reverseDirection, outBlocks, inBlocks, n) &&
              (hasXor ==> Behind(flags.reverseDirection, outBlocks, xorBlocks, n))
  {
    var j := Setup(cipher, flags, n, inBlocks, hasXor, xorBlocks, outBlocks);
    if !Behind(flags.reverseDirection, outBlocks, inBlocks, n) {
      var d: nat := Lead(flags.reverseDirection, outBlocks, inBlocks);
      assert j.OutAt(0) == j.InAt(d);
    }
    if hasXor && !Behind(flags.reverseDirection, outBlocks, xorBlocks, n) {
      var d: nat := Lead(flags.reverseDirection, outBlocks, xorBlocks);
      assert j.OutAt(0) == j.XorAt(d);
    }
  }

  /** The `n` output blocks are not strictly ahead, in the direction of travel, of the `n` blocks read. */
  predicate Behind(reverse: bool, outBlocks: int, readBlocks: int, n: nat) {
    !(0 < Lead(reverse, outBlocks, readBlocks) < n)
  }

  /** Then every output block is made from the original memory. */
  lemma OutputsFromOriginal(j: Job, mem: seq<Block>, k: nat)
    requires Moving(j) && Fits(j, |mem|) && !j.counter && NoHazardIn(j, 0, j.n) && k < j.n
    ensures 0 <= j.InAt(k) < |mem| && 0 <= j.OutAt(k) < |mem|
    ensures OneAtATime(j, mem, j.n)[j.OutAt(k)] == Processed(j, mem[j.InAt(k)], mem, k)
  {
    hide OneAtATime, Stored, Processed, Fits, Moving, NoHazardIn, Job.InAt, Job.XorAt, Job.OutAt;
    Apart(j, |mem|, k);
    FirstPointers(j, mem);
    BatchIsSteps(j, mem, 0, j.n);
    StoredOutput(j, mem, j.n, k);
  }

  /** CBC decryption in place: going backwards, with the preceding block as the xor block, every block becomes
      the decryption of what it was, xored with what its predecessor was; nothing else changes. */
  lemma CbcDecryptionInPlace(mem: seq<Block>, decrypt: Cipher, start: int, n: nat, k: nat)
    requires 1 <= start && start + n <= |mem| && k < |mem|
    ensures var j := Setup(decrypt, Flags(false, false, false, true, true), n, start, true, start - 1, start);
            && Fits(j, |mem|)
            && Batched(j, mem, 0, true)[k]
               == if start <= k < start + n then XorSeq(decrypt(mem[k]), mem[k - 1]) else mem[k]
  {
    var flags := Flags(false, false, false, true, true);
    var j := Setup(decrypt, flags, n, start, true, start - 1, start);
    CbcJob(decrypt, start, n, |mem|);
    NoHitsExactly(decrypt, flags, n, start, true, start - 1, start);
    hide Setup, Fits, CounterApart, Batched, OneAtATime, NoHits, SelfXor, BatchesSafe, Moving, NoHazardIn;
    SafeExactly(j, |mem|);
    BatchedIsSteps(j, mem, 0, true);
    FirstPointers(j, mem);
    if start <= k < start + n {
      CbcBlock(j, mem, start, k);
    } else {
      CbcElsewhere(j, mem, start, k);
    }
  }

  /** The job of that decryption, going backwards from the last block. */
  ghost predicate IsCbcJob(j: Job, start: int, size: nat) {
    && !j.counter && j.hasXor && !j.xorFirst && Moving(j)
    && Fits(j, size) && CounterApart(j) && NoHazardIn(j, 0, j.n)
    && (forall k: nat :: k < j.n ==> j.InAt(k) == start + j.n - 1 - k)
    && (forall k: nat :: k < j.n ==> j.OutAt(k) == start + j.n - 1 - k)
    && (forall k: nat :: k < j.n ==> j.XorAt(k) == start + j.n - 2 - k)
  }

  lemma CbcJob(decrypt: Cipher, start: int, n: nat, size: nat)
    requires 1 <= start && start + n <= size
    ensures var j := Setup(decrypt, Flags(false, false, false, true, true), n, start, true, start - 1, start);
            IsCbcJob(j, start, size) && j.n == n && j.cipher == decrypt
  {
    HazardFreeExactly(decrypt, Flags(false, false, false, true, true), n, start, true, start - 1, start);
  }

  lemma CbcBlock(j: Job, mem: seq<Block>, start: int, k: nat)
    requires IsCbcJob(j, start, |mem|) && 1 <= start <= k < start + j.n <= |mem|
    ensures OneAtATime(j, mem, j.n)[k] == XorSeq(j.cipher(mem[k]), mem[k - 1])
  {
    hide OneAtATime, Fits, NoHazardIn, CounterApart, Moving, Job.InAt, Job.XorAt, Job.OutAt;
    OutputsFromOriginal(j, mem, start + j.n - 1 - k);
  }

  lemma CbcElsewhere(j: Job, mem: seq<Block>, start: int, k: nat)
    requires IsCbcJob(j, start, |mem|) && 1 <= start && start + j.n <= |mem| && k < |mem| && !(start <= k < start + j.n)
    ensures OneAtATime(j, mem, j.n)[k] == mem[k]
  {
    FirstPointers(j, mem);
    hide OneAtATime, Stored, Fits, NoHazardIn, CounterApart, Moving, Job.InAt, Job.XorAt, Job.OutAt;
    if j.n > 0 {
      BatchIsSteps(j, mem, 0, j.n);
      StoredElsewhere(j, mem, 0, j.n, k);
    }
  }

  // ----- counter mode -----

  /** `k` added to the last byte of a counter block. */
  function Advanced(b: Block, k: nat): Block {
    b[15 := (b[15] as int + k) % 256]
  }

  lemma {:induction false} IncrementsAdvance(b: Block, k: nat)
    ensures Increments(b, k) == Advanced(b, k)
  {
    if k == 0 {
      assert (b[15] as int) % 256 == b[15] as int;
    } else {
      IncrementsAdvance(b, k - 1);
      NextCount(b[15] as int + (k - 1));
    }
  }

  lemma NextCount(n: nat)
    ensures (n % 256 + 1) % 256 == (n + 1) % 256
  {
  }

  /** Places for counter mode: the counter block apart, the output not ahead inside the input. */
  ghost predicate CounterPlaces(counter: int, input: int, output: int, n: nat, size: nat) {
    && 0 <= counter < size && 0 <= input && input + n <= size && 0 <= output && output + n <= size
    && !(input <= counter < input + n) && !(output <= counter < output + n)
    && (output <= input || input + n <= output)
  }

  /** Counter mode in batches: block k of the output is the encryption of the counter block with k added to its last
      byte, xored with what block k of the input was; n is added to the counter and nothing else changes. */
  lemma CounterMode(mem: seq<Block>, encrypt: Cipher, counter: int, input: int, output: int, n: nat, p: nat)
    requires CounterPlaces(counter, input, output, n, |mem|) && p < |mem|
    ensures var j := Setup(encrypt, Flags(true, false, false, false, true), n, counter, true, input, output);
            && Fits(j, |mem|)
            && Batched(j, mem, 0, true)[p]
               == if output <= p < output + n
                  then XorSeq(encrypt(Advanced(mem[counter], p - output)), mem[input + p - output])
                  else if p == counter then Advanced(mem[counter], n) else mem[p]
  {
    hide *;
    var j := Setup(encrypt, Flags(true, false, false, false, true), n, counter, true, input, output);
    CounterJob(encrypt, counter, input, output, n, |mem|);
    CounterPlace(counter, input, output, n, |mem|);
    CounterBatched(j, mem, counter, input, output);
    CounterAt(j, mem, counter, input, output, p);
  }

  lemma CounterAt(j: Job, mem: seq<Block>, counter: int, input: int, output: int, p: nat)
    requires IsCounterJob(j, counter, input, output, |mem|) && Fits(j, |mem|) && p < |mem|
    requires 0 <= counter < |mem| && 0 <= input && input + j.n <= |mem| && !(output <= counter < output + j.n)
    ensures CounterResult(j, mem)[p]
         == if output <= p < output + j.n
            then XorSeq(j.cipher(Advanced(mem[counter], p - output)), mem[input + p - output])
            else if p == counter then Advanced(mem[counter], j.n) else mem[p]
  {
    hide *;
    if output <= p < output + j.n {
      var k := p - output;
      CounterOutput(j, mem, counter, input, output, k);
      assert output + k == p && input + k == input + p - output;
    } else if p == counter {
      CounterAfter(j, mem, counter, input, output);
    } else {
      CounterElsewhere(j, mem, counter, input, output, p);
    }
  }

  ghost predicate IsCounterJob(j: Job, counter: int, input: int, output: int, size: nat) {
    && j.counter && j.hasXor && !j.xorFirst && Moving(j) && j.inStart == counter
    && Fits(j, size) && CounterApart(j) && NoHazardIn(j, 0, j.n)
    && (forall k: nat :: k < j.n ==> j.InAt(k) == counter)
    && (forall k: nat :: k < j.n ==> j.OutAt(k) == output + k)
    && (forall k: nat :: k < j.n ==> j.XorAt(k) == input + k)
  }

  lemma CounterJob(encrypt: Cipher, counter: int, input: int, output: int, n: nat, size: nat)
    requires CounterPlaces(counter, input, output, n, size)
    ensures var j := Setup(encrypt, Flags(true, false, false, false, true), n, counter, true, input, output);
            IsCounterJob(j, counter, input, output, size) && NoHits(j) && j.n == n && j.cipher == encrypt
  {
    NoHitsExactly(encrypt, Flags(true, false, false, false, true), n, counter, true, input, output);
    hide NoHits;
  }

  lemma CounterPlace(counter: int, input: int, output: int, n: nat, size: nat)
    requires CounterPlaces(counter, input, output, n, size)
    ensures 0 <= counter < size && 0 <= input && input + n <= size && !(output <= counter < output + n)
  {
  }

  /** What the batches leave, for a job of any length. */
  function CounterResult(j: Job, mem: seq<Block>): (r: seq<Block>)
    requires Fits(j, |mem|)
    ensures |r| == |mem|
  {
    if j.n == 0 then mem else Counted(j, Stored(j, mem, 0, j.n), j.n)
  }

  lemma CounterBatched(j: Job, mem: seq<Block>, counter: int, input: int, output: int)
    requires IsCounterJob(j, counter, input, output, |mem|) && NoHits(j)
    ensures Fits(j, |mem|) && Batched(j, mem, 0, true) == CounterResult(j, mem)
  {
    hide Fits, CounterApart, Batched, OneAtATime, NoHits, SelfXor, BatchesSafe, Moving, NoHazardIn, Stored, Counted;
    hide Job.InAt, Job.XorAt, Job.OutAt;
    SafeExactly(j, |mem|);
    BatchedIsSteps(j, mem, 0, true);
    FirstPointers(j, mem);
    if j.n > 0 {
      BatchIsSteps(j, mem, 0, j.n);
    }
  }

  lemma CounterOutput(j: Job, mem: seq<Block>, counter: int, input: int, output: int, k: nat)
    requires IsCounterJob(j, counter, input, output, |mem|) && k < j.n && Fits(j, |mem|)
    ensures 0 <= counter < |mem| && 0 <= input + k < |mem| && 0 <= output + k < |mem|
    ensures CounterResult(j, mem)[output + k] == XorSeq(j.cipher(Advanced(mem[counter], k)), mem[input + k])
  {
    hide Stored, Fits, CounterApart, NoHazardIn, Moving, XorSeq, Increments, Advanced, Job.InAt, Job.XorAt, Job.OutAt;
    Apart(j, |mem|, k);
    StoredOutput(j, mem, j.n, k);
    IncrementsAdvance(mem[counter], k);
  }

  lemma CounterAfter(j: Job, mem: seq<Block>, counter: int, input: int, output: int)
    requires IsCounterJob(j, counter, input, output, |mem|) && Fits(j, |mem|) && 0 <= counter < |mem|
    ensures CounterResult(j, mem)[counter] == Advanced(mem[counter], j.n)
  {
    hide Stored, Fits, CounterApart, NoHazardIn, Moving, Job.InAt, Job.XorAt, Job.OutAt;
    IncrementsAdvance(mem[counter], j.n);
    if j.n > 0 {
      forall k: nat | k < j.n
        ensures j.OutAt(k) != counter
      {
        Apart(j, |mem|, k);
      }
      StoredElsewhere(j, mem, 0, j.n, counter);
    }
  }

  lemma CounterElsewhere(j: Job, mem: seq<Block>, counter: int, input: int, output: int, p: nat)
    requires IsCounterJob(j, counter, input, output, |mem|) && Fits(j, |mem|)
    requires p < |mem| && p != counter && !(output <= p < output + j.n)
    ensures CounterResult(j, mem)[p] == mem[p]
  {
    hide Stored, Fits, CounterApart, NoHazardIn, Moving, Increments, Job.InAt, Job.XorAt, Job.OutAt;
    if j.n > 0 {
      StoredElsewhere(j, mem, 0, j.n, p);
    }
  }

  // ----- a missing xor pointer -----

  /** Whether the batched loops take xor blocks from an address; the null pointer is 0. */
  predicate TakesXor(address: nat) {
    address != 0
  }

  /** Whether the loop of the base class does, which looks at the pointer after moving it to the last block. */
  predicate BaseTakesXor(address: nat, reverse: bool, length: nat)
    requires length >= BLOCK
  {
    (if reverse then address + length - BLOCK else address) != 0
  }

  /** The set-up of the base class, with blocks counted from address 0: the increments are decided before the
      pointers are moved, and whether to xor after that. */
  function BaseSetup(cipher: Cipher, flags: Flags, n: nat, inBlocks: nat, xorBlocks: nat, outBlocks: nat): Job
    requires n > 0
  {
    var takes := BaseTakesXor(BLOCK * xorBlocks, flags.reverseDirection, BLOCK * n);
    Setup(cipher, flags, n, inBlocks, TakesXor(BLOCK * xorBlocks), xorBlocks, outBlocks)
    .(hasXor := takes, xorFirst := takes && flags.xorInput)
  }

  /** The two set-ups differ exactly for a missing xor pointer, backwards, with more than one block; every block is
      then xored with the block at address length - 16. */
  lemma MissingXorExactly(cipher: Cipher, flags: Flags, n: nat, inBlocks: nat, xorBlocks: nat, outBlocks: nat)
    requires n > 0
    ensures var missing := flags.reverseDirection && xorBlocks == 0 && n > 1;
            var job := Setup(cipher, flags, n, inBlocks, TakesXor(BLOCK * xorBlocks), xorBlocks, outBlocks);
            var base := BaseSetup(cipher, flags, n, inBlocks, xorBlocks, outBlocks);
            && (base == job <==> !missing)
            && (missing ==> !job.hasXor && base.hasXor && forall k: nat :: k < n ==> base.XorAt(k) == n - 1)
  {
  }

  /** The two tests on a pointer of any alignment, for any length. */
  lemma XorTestsExactly(address: nat, reverse: bool, length: nat)
    requires length >= BLOCK
    ensures TakesXor(address) == BaseTakesXor(address, reverse, length) <==> !(reverse && address == 0 && length > BLOCK)
  {
  }

  /** No xor pointer, two blocks backwards: the batched loops xor nothing, the base class with the block at address 16. */
  lemma MissingXorFails(cipher: Cipher)
    ensures var flags := Flags(false, false, false, true, true);
            && !Setup(cipher, flags, 2, 4, TakesXor(0), 0, 8).hasXor
            && BaseSetup(cipher, flags, 2, 4, 0, 8).hasXor
            && BaseSetup(cipher, flags, 2, 4, 0, 8).XorAt(0) == 1 == BaseSetup(cipher, flags, 2, 4, 0, 8).XorAt(1)
  {
  }
}
