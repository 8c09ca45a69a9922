/** Batches against one block at a time where the input and output pointers stay where they are. */
module BatchStaying {
  import opened Bytes
  import opened CcmSpec
  import opened BatchedBlocks
  import opened BatchOverlap

  /** Input and output are one block each, read and written by every step; xor blocks move on. */
  predicate Staying(j: Job) {
    j.inMove == Stay && j.outMove == Stay && (j.hasXor ==> j.xorMove != Stay)
  }

  /** What a step makes of the output block: `v` is what it holds, `mem` what all other blocks hold at the start. */
  function NextValue(j: Job, mem: seq<Block>, v: Block, k: nat): Block
    requires Fits(j, |mem|) && k < j.n
  {
    assert 0 <= j.InAt(k) < |mem| && (j.hasXor ==> 0 <= j.XorAt(k) < |mem|);
    Combined(j,
             if j.counter then Increments(mem[j.InAt(k)], k) else if j.InAt(k) == j.outStart then v else mem[j.InAt(k)],
             if !j.hasXor || j.XorAt(k) == j.outStart then v else mem[j.XorAt(k)])
  }

  /** The output block after `k` blocks, one at a time. */
  function StepValue(j: Job, mem: seq<Block>, k: nat): Block
    requires Fits(j, |mem|) && k <= j.n && 0 <= j.outStart < |mem|
  {
    if k == 0 then mem[j.outStart] else NextValue(j, mem, StepValue(j, mem, k - 1), k - 1)
  }

  /** The output block after all batches from step `done` on: of a batch, only the last block is left. */
  function BatchValue(j: Job, mem: seq<Block>, v: Block, done: nat): Block
    requires Fits(j, |mem|) && done <= j.n
    decreases j.n - done
  {
    if done == j.n then v
    else
      var m := BatchSize(j.n - done, true);
      BatchValue(j, mem, NextValue(j, mem, v, done + m - 1), done + m)
  }

  /** The memory with `v` in the output block and the counter moved on by `k`. */
  function Holding(j: Job, mem: seq<Block>, v: Block, k: nat): (r: seq<Block>)
    requires Fits(j, |mem|) && j.n > 0 && 0 <= j.outStart < |mem|
    ensures |r| == |mem|
  {
    Counted(j, mem[j.outStart := v], k)
  }

  lemma Places(j: Job, size: nat, k: nat)
    requires Staying(j) && Fits(j, size) && CounterApart(j) && k < j.n
    ensures j.InAt(k) == j.inStart && j.OutAt(k) == j.outStart
    ensures 0 <= j.inStart < size && 0 <= j.outStart < size && (j.hasXor ==> 0 <= j.XorAt(k) < size)
    ensures j.counter ==> j.outStart != j.inStart && (j.hasXor ==> j.XorAt(k) != j.inStart)
  {
    Apart(j, size, k);
  }

  lemma {:induction false} IncrementsAdd(b: Block, k: nat, m: nat)
    ensures Increments(Increments(b, k), m) == Increments(b, k + m)
  {
    if m > 0 { IncrementsAdd(b, k, m - 1); }
  }

  /** What step `k` reads, with the counter moved on by `k - i` and `i` counters taken ahead. */
  lemma HoldingReads(j: Job, mem: seq<Block>, v: Block, done: nat, i: nat)
    requires Staying(j) && Fits(j, |mem|) && CounterApart(j) && done + i < j.n && 0 <= j.outStart < |mem|
    ensures var cur := Holding(j, mem, v, done);
            Processed(j, Taken(j, cur, done, i), cur, done + i) == NextValue(j, mem, v, done + i)
  {
    var k := done + i;
    Places(j, |mem|, k);
    hide Fits, CounterApart, XorSeq, Job.InAt, Job.OutAt, Job.XorAt, Increments;
    var cur := Holding(j, mem, v, done);
    if j.counter {
      IncrementsAdd(mem[j.inStart], done, i);
    }
  }

  lemma {:induction false} StoredStays(j: Job, cur: seq<Block>, done: nat, m: nat)
    requires Staying(j) && Fits(j, |cur|) && CounterApart(j) && 0 < m && done + m <= j.n && 0 <= j.outStart < |cur|
    ensures Stored(j, cur, done, m) == cur[j.outStart := Processed(j, Taken(j, cur, done, m - 1), cur, done + m - 1)]
  {
    hide Fits, CounterApart, Processed, Taken, Job.InAt, Job.OutAt, Job.XorAt;
    StoredNext(j, cur, done, m);
    Places(j, |cur|, done + m - 1);
    if m == 1 {
      assert Stored(j, cur, done, 0) == cur;
    } else {
      hide Stored;
      StoredStays(j, cur, done, m - 1);
    }
  }

  lemma HoldingStored(j: Job, mem: seq<Block>, v: Block, w: Block, done: nat, m: nat)
    requires Staying(j) && Fits(j, |mem|) && CounterApart(j) && j.n > 0 && 0 <= j.outStart < |mem|
    ensures Counted(j, Holding(j, mem, v, done)[j.outStart := w], m) == Holding(j, mem, w, done + m)
  {
    Places(j, |mem|, 0);
    hide Fits, CounterApart, Increments, Job.InAt, Job.OutAt, Job.XorAt;
    if j.counter {
      IncrementsAdd(mem[j.inStart], done, m);
    }
  }

  /** A batch leaves what its last block makes of what the output block held before it. */
  lemma AfterStaying(j: Job, mem: seq<Block>, v: Block, done: nat, m: nat)
    requires Staying(j) && Fits(j, |mem|) && CounterApart(j) && 0 < m && done + m <= j.n && 0 <= j.outStart < |mem|
    ensures AfterBatch(j, Holding(j, mem, v, done), done, m)
         == Holding(j, mem, NextValue(j, mem, v, done + m - 1), done + m)
  {
    hide *;
    var cur := Holding(j, mem, v, done);
    BatchIsStored(j, cur, done, m);
    StoredStays(j, cur, done, m);
    HoldingReads(j, mem, v, done, m - 1);
    HoldingStored(j, mem, v, NextValue(j, mem, v, done + m - 1), done, m);
  }

  lemma {:induction false} StepsStay(j: Job, mem: seq<Block>, k: nat)
    requires Staying(j) && Fits(j, |mem|) && CounterApart(j) && j.n > 0 && k <= j.n && 0 <= j.outStart < |mem|
    ensures OneAtATime(j, mem, k) == Holding(j, mem, StepValue(j, mem, k), k)
  {
    hide Fits, CounterApart, Job.InAt, Job.OutAt, Job.XorAt;
    if k == 0 {
      CountedZero(j, mem);
    } else {
      hide OneAtATime, NextValue, Holding;
      StepsStay(j, mem, k - 1);
      NextStep(j, mem, k - 1);
      StepIsBatch(j, OneAtATime(j, mem, k - 1), k - 1);
      AfterStaying(j, mem, StepValue(j, mem, k - 1), k - 1, 1);
    }
  }

  /** One step is a batch of one. */
  lemma StepIsBatch(j: Job, cur: seq<Block>, k: nat)
    requires Fits(j, |cur|) && CounterApart(j) && k < j.n
    ensures Step(j, cur, k) == AfterBatch(j, cur, k, 1)
  {
    hide *;
    BatchIsStored(j, cur, k, 1);
    BatchStep(j, cur, k, 1) by { OneIsHarmless(j, k); }
    NothingStored(j, cur, k);
    CountedZero(j, cur);
  }

  lemma OneIsHarmless(j: Job, done: nat)
    ensures Harmless(j, done, 1)
  {
  }

  lemma NothingStored(j: Job, cur: seq<Block>, done: nat)
    requires Fits(j, |cur|) && done <= j.n
    ensures Stored(j, cur, done, 0) == cur
  {
  }

  lemma {:induction false} BatchesStay(j: Job, mem: seq<Block>, v: Block, done: nat)
    requires Staying(j) && Fits(j, |mem|) && CounterApart(j) && j.n > 0 && done <= j.n && 0 <= j.outStart < |mem|
    ensures Batched(j, Holding(j, mem, v, done), done, true) == Holding(j, mem, BatchValue(j, mem, v, done), j.n)
    decreases j.n - done
  {
    hide Fits, CounterApart, Batched, NextValue, Holding, AfterBatch, Job.InAt, Job.OutAt, Job.XorAt;
    if done == j.n {
      BatchedEnd(j, Holding(j, mem, v, done), true);
    } else {
      var m := BatchSize(j.n - done, true);
      BatchedNext(j, Holding(j, mem, v, done), done, true, m);
      AfterStaying(j, mem, v, done, m);
      BatchesStay(j, mem, NextValue(j, mem, v, done + m - 1), done + m);
    }
  }

  /** The two versions agree exactly when they leave the same output block. */
  lemma ValuesDecide(j: Job, mem: seq<Block>)
    requires Staying(j) && Fits(j, |mem|) && CounterApart(j) && j.n > 0
    ensures 0 <= j.outStart < |mem|
    ensures Agrees(j, mem) <==> BatchValue(j, mem, mem[j.outStart], 0) == StepValue(j, mem, j.n)
  {
    Places(j, |mem|, 0);
    hide Fits, CounterApart, Batched, OneAtATime, BatchValue, StepValue, Job.InAt, Job.OutAt, Job.XorAt;
    var v := mem[j.outStart];
    assert Holding(j, mem, v, 0) == mem by { CountedZero(j, mem); }
    BatchesStay(j, mem, v, 0);
    StepsStay(j, mem, j.n);
    HoldingShows(j, mem, BatchValue(j, mem, v, 0), j.n);
    HoldingShows(j, mem, StepValue(j, mem, j.n), j.n);
  }

  lemma HoldingShows(j: Job, mem: seq<Block>, v: Block, k: nat)
    requires Staying(j) && Fits(j, |mem|) && CounterApart(j) && j.n > 0 && 0 <= j.outStart < |mem|
    ensures Holding(j, mem, v, k)[j.outStart] == v
  {
    Places(j, |mem|, 0);
  }

  // ----- an output block that is not the input block -----

  /** The size of the last batch. */
  function LastBatch(n: nat): nat {
    if n % 6 == 0 then 6 else if n % 2 == 0 then 2 else 1
  }

  /** Where a step does not read the output block, what that holds does not matter. */
  lemma Forgets(j: Job, mem: seq<Block>, v: Block, w: Block, k: nat)
    requires Fits(j, |mem|) && k < j.n && (j.counter || j.InAt(k) != j.outStart) && (j.hasXor ==> j.XorAt(k) != j.outStart)
    ensures NextValue(j, mem, v, k) == NextValue(j, mem, w, k)
  {
  }

  lemma LastBatchNext(left: nat)
    requires left > 0
    ensures var m := BatchSize(left, true);
            if m == left then LastBatch(left) == m else LastBatch(left - m) == LastBatch(left)
    ensures LastBatch(left) <= left
  {
  }

  /** Before the last batch the values are right, and the last batch takes what it reads from there. */
  lemma {:induction false} BeforeLast(j: Job, mem: seq<Block>, done: nat)
    requires Staying(j) && Fits(j, |mem|) && CounterApart(j) && done < j.n && LastBatch(j.n - done) == LastBatch(j.n)
    requires j.inStart != j.outStart && 0 <= j.outStart < |mem|
    requires j.hasXor ==> forall k: nat :: k + 1 < j.n ==> j.XorAt(k) != j.outStart
    ensures LastBatch(j.n) <= j.n
    ensures BatchValue(j, mem, StepValue(j, mem, done), done)
         == NextValue(j, mem, StepValue(j, mem, j.n - LastBatch(j.n)), j.n - 1)
    decreases j.n - done
  {
    hide Fits, CounterApart, NextValue, LastBatch, Job.InAt, Job.OutAt, Job.XorAt;
    var m := BatchSize(j.n - done, true);
    LastBatchNext(j.n);
    LastBatchNext(j.n - done);
    if m < j.n - done {
      var k := done + m - 1;
      Places(j, |mem|, k);
      Forgets(j, mem, StepValue(j, mem, done), StepValue(j, mem, k), k);
      BeforeLast(j, mem, done + m);
    }
  }

  /** Only the xor block of the last step can show: it is the output block, and its batch has read it too early. */
  predicate LastXorIsOutput(j: Job) {
    j.n > 0 && j.hasXor && j.XorAt(j.n - 1) == j.outStart && LastBatch(j.n) >= 2
  }

  lemma OneXorOnly(j: Job)
    requires Staying(j) && j.hasXor && j.n > 0 && j.XorAt(j.n - 1) == j.outStart
    ensures forall k: nat :: k + 1 < j.n ==> j.XorAt(k) != j.outStart
  {
  }

  lemma StayingAgrees(j: Job, mem: seq<Block>)
    requires Staying(j) && Fits(j, |mem|) && CounterApart(j) && j.n > 0 && j.inStart != j.outStart && !LastXorIsOutput(j)
    ensures Agrees(j, mem)
  {
    hide Fits, CounterApart, Agrees, NextValue, Job.InAt, Job.OutAt, Job.XorAt;
    ValuesDecide(j, mem);
    Places(j, |mem|, j.n - 1);
    if j.hasXor && j.XorAt(j.n - 1) == j.outStart {
      OneXorOnly(j);
      BeforeLast(j, mem, 0);
    } else {
      var last := j.n - 1;
      forall v: Block, w: Block
        ensures NextValue(j, mem, v, last) == NextValue(j, mem, w, last)
      {
        Forgets(j, mem, v, w, last);
      }
      LastForgets(j, mem, mem[j.outStart], 0);
    }
  }

  /** Step `k` leaves the same whatever the output block held. */
  ghost predicate Blind(j: Job, mem: seq<Block>, k: nat)
    requires Fits(j, |mem|) && k < j.n
  {
    forall v: Block, w: Block :: NextValue(j, mem, v, k) == NextValue(j, mem, w, k)
  }

  lemma {:induction false} LastForgets(j: Job, mem: seq<Block>, v: Block, done: nat)
    requires Fits(j, |mem|) && done < j.n && 0 <= j.outStart < |mem| && Blind(j, mem, j.n - 1)
    ensures BatchValue(j, mem, v, done) == StepValue(j, mem, j.n)
    decreases j.n - done
  {
    hide Fits, NextValue, Job.InAt, Job.OutAt, Job.XorAt;
    var m := BatchSize(j.n - done, true);
    if done + m < j.n {
      LastForgets(j, mem, NextValue(j, mem, v, done + m - 1), done + m);
    }
  }

  // ----- a memory that shows the last xor block -----

  /** Different xor blocks give different results. */
  lemma CombinedInjective(j: Job, b: Block, x: Block, y: Block)
    requires j.cipher == Cycle && j.hasXor && x != y
    ensures Combined(j, b, x) != Combined(j, b, y)
  {
    hide XorSeq, Cycle;
    if j.xorFirst {
      if Cycle(XorSeq(b, x)) == Cycle(XorSeq(b, y)) {
        CycleIsInjective(XorSeq(b, x), XorSeq(b, y));
      }
      XorInjective(b, x, y);
    } else {
      XorInjective(Cycle(b), x, y);
    }
  }

  lemma XorInjective(b: Block, x: Block, y: Block)
    requires x != y
    ensures XorSeq(b, x) != XorSeq(b, y)
  {
    hide XorSeq;
    XorSeqCommutes(b, x);
    XorSeqCommutes(b, y);
    XorSeqCancel(x, b);
    XorSeqCancel(y, b);
  }

  /** If the last two steps leave different values, the last batch shows. */
  lemma DifferentStarts(j: Job, mem: seq<Block>)
    requires Staying(j) && Fits(j, |mem|) && CounterApart(j) && j.inStart != j.outStart && LastXorIsOutput(j)
    requires 0 <= j.outStart < |mem| && j.cipher == Cycle && LastBatch(j.n) <= j.n
    requires StepValue(j, mem, j.n - 1) != StepValue(j, mem, j.n - LastBatch(j.n))
    ensures !Agrees(j, mem)
  {
    hide Fits, CounterApart, Agrees, Cycle, Combined, StepValue, BatchValue, Job.InAt, Job.OutAt, Job.XorAt;
    ValuesDecide(j, mem);
    Places(j, |mem|, j.n - 1);
    OneXorOnly(j);
    StepValueZero(j, mem);
    BeforeLast(j, mem, 0);
    StepValueNext(j, mem, j.n);
    CombinedInjective(j, if j.counter then Increments(mem[j.inStart], j.n - 1) else mem[j.inStart],
                      StepValue(j, mem, j.n - 1), StepValue(j, mem, j.n - LastBatch(j.n)));
  }

  lemma StepValueZero(j: Job, mem: seq<Block>)
    requires Fits(j, |mem|) && 0 <= j.outStart < |mem|
    ensures StepValue(j, mem, 0) == mem[j.outStart]
  {
  }

  lemma StepValueNext(j: Job, mem: seq<Block>, k: nat)
    requires Fits(j, |mem|) && 0 < k <= j.n && 0 <= j.outStart < |mem|
    ensures StepValue(j, mem, k) == NextValue(j, mem, StepValue(j, mem, k - 1), k - 1)
  {
  }

  /** A step before the last reads only blocks that no step writes. */
  lemma EarlierValue(j: Job, mem: seq<Block>, k: nat)
    requires Staying(j) && Fits(j, |mem|) && CounterApart(j) && j.inStart != j.outStart && LastXorIsOutput(j)
    requires 0 < k < j.n && 0 <= j.outStart < |mem|
    ensures 0 <= j.inStart < |mem| && 0 <= j.XorAt(k - 1) < |mem|
    ensures StepValue(j, mem, k)
         == Combined(j, if j.counter then Increments(mem[j.inStart], k - 1) else mem[j.inStart], mem[j.XorAt(k - 1)])
  {
    hide Fits, CounterApart, Combined, StepValue, Job.InAt, Job.OutAt, Job.XorAt;
    StepValueNext(j, mem, k);
    Places(j, |mem|, k - 1);
    OneXorOnly(j);
  }

  /** Such a memory: zeros with one or no block changed. */
  lemma ShowingMemory(j: Job, size: nat) returns (mem: seq<Block>)
    requires Staying(j) && Fits(j, size) && CounterApart(j) && j.inStart != j.outStart && LastXorIsOutput(j)
    requires j.cipher == Cycle
    ensures |mem| == size && !Agrees(j, mem)
  {
    hide Fits, CounterApart, Agrees, Cycle, Combined, StepValue, Increments, LastBatch, Job.InAt, Job.OutAt, Job.XorAt;
    var n := j.n;
    LastBatchNext(n);
    LastBatchSizes(n);
    Places(j, size, n - 1);
    Places(j, size, n - 2);
    OneXorOnly(j);
    var start := n - LastBatch(n);
    var zeros: seq<Block> := seq(size, _ => ZERO);
    assert ZERO[15] == 0 && ONE[15] == 1;
    EarlierValue(j, zeros, n - 1);
    if start == 0 {
      var value := StepValue(j, zeros, n - 1);
      mem := zeros[j.outStart := if value == ZERO then ONE else ZERO];
      EarlierValue(j, mem, n - 1);
      StepValueZero(j, mem);
    } else {
      Places(j, size, start - 1);
      OtherXor(j, start - 1, n - 2);
      EarlierValue(j, zeros, start);
      mem := zeros[j.XorAt(n - 2) := ONE];
      EarlierValue(j, mem, n - 1);
      EarlierValue(j, mem, start);
      if j.counter {
        CountersDiffer(j, Increments(ZERO, n - 2));
        if StepValue(j, mem, n - 1) == StepValue(j, mem, start) {
          mem := zeros;
        }
      } else {
        CountersDiffer(j, mem[j.inStart]);
      }
    }
    DifferentStarts(j, mem);
  }

  lemma LastBatchSizes(n: nat)
    requires n > 0 && LastBatch(n) >= 2
    ensures n >= 2
  {
  }

  lemma OtherXor(j: Job, s: nat, t: nat)
    requires Staying(j) && j.hasXor && s != t
    ensures j.XorAt(s) != j.XorAt(t)
  {
  }

  lemma SameStaying(j: Job, cipher: Cipher)
    ensures var k := With(j, cipher);
            k.n == j.n && Staying(k) == Staying(j) && LastXorIsOutput(k) == LastXorIsOutput(j)
  {
    var k := With(j, cipher);
    assert j.n > 0 ==> k.XorAt(j.n - 1) == j.XorAt(j.n - 1);
  }

  /** With an output block that is not the input block, batches equal one block at a time for every cipher and every
      memory, or even only for every permutation, if and only if the last xor block is not the output block or the
      last batch is a single block. */
  lemma StayingExactly(j: Job, size: nat)
    requires Staying(j) && Fits(j, size) && CounterApart(j) && j.inStart != j.outStart
    ensures AgreesAlways(j, size) <==> !LastXorIsOutput(j)
    ensures AgreesForPermutations(j, size) <==> !LastXorIsOutput(j)
  {
    hide Agrees, LastXorIsOutput, Fits, CounterApart, Cycle;
    forall cipher: Cipher, mem: seq<Block> | |mem| == size && !LastXorIsOutput(j)
      ensures Agrees(With(j, cipher), mem)
    {
      SameJob(j, cipher, size);
      SameStaying(j, cipher);
      if j.n == 0 {
        SingleAgrees(With(j, cipher), mem);
      } else {
        StayingAgrees(With(j, cipher), mem);
      }
    }
    if LastXorIsOutput(j) {
      SameJob(j, Cycle, size);
      SameStaying(j, Cycle);
      var mem := ShowingMemory(With(j, Cycle), size);
      assert !Agrees(With(j, Cycle), mem);
      assert Injective(Cycle) by {
        forall a: Block, b: Block | Cycle(a) == Cycle(b) ensures a == b { CycleIsInjective(a, b); }
      }
    }
  }

  // ----- one block encrypted over and over -----

  /** The next 128-bit number. */
  function Successor(b: Block): Block {
    BigEndian(if Number(b) + 1 == Pow256(BLOCK) then 0 else Number(b) + 1, BLOCK)
  }

  lemma SuccessorNumber(b: Block)
    ensures Number(Successor(b)) == if Number(b) + 1 == Pow256(BLOCK) then 0 else Number(b) + 1
  {
    hide Pow256, Number, BigEndian;
    NumberBound(b);
    NumberOfBigEndian(if Number(b) + 1 == Pow256(BLOCK) then 0 else Number(b) + 1, BLOCK);
  }

  lemma SuccessorIsInjective(a: Block, b: Block)
    requires Successor(a) == Successor(b)
    ensures a == b
  {
    hide Pow256, Number, BigEndian;
    SuccessorNumber(a);
    SuccessorNumber(b);
    BigEndianOfNumber(a);
    BigEndianOfNumber(b);
  }

  /** How many batches there are. */
  function Batches(left: nat): (c: nat)
    ensures c <= left && (left >= 2 ==> c < left)
  {
    if left == 0 then 0 else 1 + Batches(left - BatchSize(left, true))
  }

  /** The input is the output block, and no xor block is. */
  ghost predicate Repeated(j: Job) {
    && Staying(j) && !j.counter && j.inStart == j.outStart
    && (j.hasXor ==> forall k: nat :: k < j.n ==> j.XorAt(k) != j.outStart)
  }

  lemma RepeatedNext(j: Job, mem: seq<Block>, v: Block, k: nat)
    requires Repeated(j) && Fits(j, |mem|) && AllZero(mem) && k < j.n && j.cipher == Successor
    ensures NextValue(j, mem, v, k) == Successor(v)
  {
    assert 0 <= j.InAt(k) < |mem| && (j.hasXor ==> 0 <= j.XorAt(k) < |mem|);
    hide Fits, XorSeq, Successor;
    XorSeqZero(v);
    XorSeqZero(Successor(v));
  }

  lemma {:induction false} StepsCount(j: Job, mem: seq<Block>, k: nat)
    requires Repeated(j) && Fits(j, |mem|) && AllZero(mem) && k <= j.n < Pow256(BLOCK) && j.cipher == Successor
    requires 0 <= j.outStart < |mem|
    ensures Number(StepValue(j, mem, k)) == k
  {
    hide Fits, Repeated, NextValue, Number, Successor, Pow256;
    if k == 0 {
      ZeroNumber();
    } else {
      StepsCount(j, mem, k - 1);
      RepeatedNext(j, mem, StepValue(j, mem, k - 1), k - 1);
      SuccessorNumber(StepValue(j, mem, k - 1));
    }
  }

  lemma {:induction false} BatchesCount(j: Job, mem: seq<Block>, v: Block, done: nat)
    requires Repeated(j) && Fits(j, |mem|) && AllZero(mem) && done <= j.n < Pow256(BLOCK) && j.cipher == Successor
    requires Number(v) <= done
    ensures Number(BatchValue(j, mem, v, done)) == Number(v) + Batches(j.n - done)
    decreases j.n - done
  {
    hide Fits, Repeated, NextValue, Number, Successor, Pow256, AllZero;
    if done < j.n {
      var m := BatchSize(j.n - done, true);
      RepeatedNext(j, mem, v, done + m - 1);
      SuccessorNumber(v);
      BatchesCount(j, mem, Successor(v), done + m);
    }
  }

  lemma ZeroNumber()
    ensures Number(ZERO) == 0
  {
    hide Number;
    BigEndianZero(BLOCK);
    NumberOfBigEndian(0, BLOCK);
  }

  lemma SameRepeated(j: Job, cipher: Cipher)
    requires Repeated(j)
    ensures Repeated(With(j, cipher)) && With(j, cipher).n == j.n
  {
    var k := With(j, cipher);
    assert forall i: nat :: k.XorAt(i) == j.XorAt(i);
    hide Job.XorAt;
  }

  lemma RepeatedDiffers(j: Job, mem: seq<Block>)
    requires Repeated(j) && Fits(j, |mem|) && AllZero(mem) && 2 <= j.n < Pow256(BLOCK) && j.cipher == Successor
    ensures !Agrees(j, mem)
  {
    ValuesDecide(j, mem);
    hide Fits, Repeated, Agrees, BatchValue, StepValue, Number, Successor, Pow256;
    ZeroNumber();
    StepsCount(j, mem, j.n);
    BatchesCount(j, mem, mem[j.outStart], 0);
  }

  lemma SingleAgrees(j: Job, mem: seq<Block>)
    requires Fits(j, |mem|) && CounterApart(j) && j.n < 2
    ensures Agrees(j, mem)
  {
    hide Fits, CounterApart, Batched, OneAtATime, Job.InAt, Job.OutAt, Job.XorAt;
    FirstPointers(j, mem);
    assert BatchesSafe(j, 0, true);
    BatchedIsSteps(j, mem, 0, true);
  }

  /** A block encrypted in place over and over, with xor blocks elsewhere or none: batches, which encrypt it once
      each, agree if and only if there are fewer than two blocks. */
  lemma RepeatedExactly(j: Job, size: nat)
    requires Repeated(j) && Fits(j, size) && j.n < Pow256(BLOCK)
    ensures AgreesAlways(j, size) <==> j.n < 2
    ensures AgreesForPermutations(j, size) <==> j.n < 2
  {
    hide Agrees, Fits, Repeated, Pow256, Successor;
    assert CounterApart(j) by { RepeatedParts(j); }
    forall cipher: Cipher, mem: seq<Block> | |mem| == size && j.n < 2
      ensures Agrees(With(j, cipher), mem)
    {
      SameJob(j, cipher, size);
      hide CounterApart;
      SameRepeated(j, cipher);
      SingleAgrees(With(j, cipher), mem);
    }
    if j.n >= 2 {
      SameJob(j, Successor, size);
      SameRepeated(j, Successor);
      var zeros: seq<Block> := seq(size, _ => ZERO);
      RepeatedDiffers(With(j, Successor), zeros);
      assert Injective(Successor) by {
        forall a: Block, b: Block | Successor(a) == Successor(b) ensures a == b { SuccessorIsInjective(a, b); }
      }
    }
  }

  lemma RepeatedParts(j: Job)
    requires Repeated(j)
    ensures !j.counter
  {
  }

  // ----- CBC-MAC -----

  /** The call by which CBC-MAC and CCM chain whole blocks: one register as input and output, the data as xor blocks,
      nothing taken together. */
  function MacJob(cipher: Cipher, n: nat, register: int, input: int): Job {
    Setup(cipher, Flags(false, true, true, false, false), n, register, true, input, register)
  }

  ghost predicate MacPlaces(n: nat, register: int, input: int, size: nat) {
    0 <= register < size && 0 <= input && input + n <= size && !(input <= register < input + n)
  }

  /** What matters of such a job. */
  ghost predicate IsMacJob(j: Job, register: int, input: int, size: nat) {
    && MacPlaces(j.n, register, input, size) && Fits(j, size) && CounterApart(j) && Staying(j)
    && j.outStart == j.inStart == register && !j.counter && j.hasXor && j.xorFirst
    && forall k: nat :: k < j.n ==> j.XorAt(k) == input + k
  }

  lemma MacJobIs(cipher: Cipher, n: nat, register: int, input: int, size: nat)
    requires MacPlaces(n, register, input, size)
    ensures var j := MacJob(cipher, n, register, input); IsMacJob(j, register, input, size) && j.n == n && j.cipher == cipher
  {
  }

  lemma {:induction false} SinglesAreSafe(j: Job, done: nat)
    requires done <= j.n
    ensures BatchesSafe(j, done, false)
    decreases j.n - done
  {
    if done < j.n { SinglesAreSafe(j, done + 1); }
  }

  lemma MacNext(j: Job, mem: seq<Block>, register: int, input: int, v: Block, k: nat)
    requires IsMacJob(j, register, input, |mem|) && k < j.n
    ensures NextValue(j, mem, v, k) == j.cipher(XorSeq(v, mem[input + k]))
  {
    Places(j, |mem|, k);
    hide Fits, CounterApart, XorSeq, Job.XorAt, Job.InAt;
  }

  lemma ChainsNext(e: Cipher, x: Block, joined: seq<byte>, b: Block)
    requires |joined| % BLOCK == 0
    ensures CbcMac(e, x, joined + b) == e(XorSeq(CbcMac(e, x, joined), b))
  {
    hide *;
    CbcMacAppend(e, x, joined, b);
    OneBlock(e, CbcMac(e, x, joined), b);
  }

  lemma {:induction false} MacValue(j: Job, mem: seq<Block>, register: int, input: int, blocks: seq<Block>, k: nat)
    requires IsMacJob(j, register, input, |mem|) && blocks == mem[input..input + j.n] && k <= j.n
    ensures StepValue(j, mem, k) == CbcMac(j.cipher, mem[register], Joined(blocks[..k]))
  {
    hide Fits, CounterApart, Staying, NextValue, CbcMac, XorSeq, Joined, Job.XorAt, Job.InAt;
    if k == 0 {
      NothingChained(j.cipher, mem[register], blocks);
    } else {
      MacValue(j, mem, register, input, blocks, k - 1);
      MacNext(j, mem, register, input, StepValue(j, mem, k - 1), k - 1);
      JoinedNext(blocks, k - 1);
      WholeBlocks(blocks, k - 1);
      ChainsNext(j.cipher, mem[register], Joined(blocks[..k - 1]), blocks[k - 1]);
    }
  }

  lemma NothingChained(e: Cipher, x: Block, blocks: seq<Block>)
    ensures CbcMac(e, x, Joined(blocks[..0])) == x
  {
  }

  lemma {:induction false} WholeBlocks(blocks: seq<Block>, k: nat)
    requires k <= |blocks|
    ensures |Joined(blocks[..k])| == BLOCK * k
  {
    if k > 0 {
      WholeBlocks(blocks, k - 1);
      JoinedNext(blocks, k - 1);
    }
  }

  /** It leaves the CBC-MAC of the data in the register, and nothing else is changed. */
  lemma CbcMacInPlace(cipher: Cipher, mem: seq<Block>, n: nat, register: int, input: int)
    requires MacPlaces(n, register, input, |mem|)
    ensures var j := MacJob(cipher, n, register, input);
            && Fits(j, |mem|)
            && Batched(j, mem, 0, false) == mem[register := CbcMac(cipher, mem[register], Joined(mem[input..input + n]))]
  {
    var j, blocks := MacJob(cipher, n, register, input), mem[input..input + n];
    MacJobIs(cipher, n, register, input, |mem|);
    hide *;
    MacBatched(j, mem, register, input, blocks);
    assert blocks[..n] == blocks;
  }

  lemma MacBatched(j: Job, mem: seq<Block>, register: int, input: int, blocks: seq<Block>)
    requires IsMacJob(j, register, input, |mem|) && MacPlaces(j.n, register, input, |mem|)
    requires blocks == mem[input..input + j.n]
    ensures Fits(j, |mem|) && 0 <= register < |mem|
    ensures Batched(j, mem, 0, false) == mem[register := CbcMac(j.cipher, mem[register], Joined(blocks[..j.n]))]
  {
    MacValue(j, mem, register, input, blocks, j.n);
    hide Fits, CounterApart, Staying, CbcMac, Joined, Batched, BatchesSafe, OneAtATime, StepValue, Job.XorAt, Job.InAt;
    SinglesAreSafe(j, 0);
    BatchedIsSteps(j, mem, 0, false);
    FirstPointers(j, mem);
    StepValueZero(j, mem);
    if j.n > 0 {
      StepsStay(j, mem, j.n);
    }
  }

  // ----- the same in pointers -----

  /** For pointers that stay, with input and output apart: batches equal one block at a time for every cipher and
      memory if and only if the output block is not the last xor block, or the last batch is a single block. */
  lemma StayingPointersExactly(flags: Flags, n: nat, inBlocks: int, hasXor: bool, xorBlocks: int, outBlocks: int, size: nat)
    requires flags.dontIncrementInOutPointers && inBlocks != outBlocks
    requires var j := Setup(Cycle, flags, n, inBlocks, hasXor, xorBlocks, outBlocks); Fits(j, size) && CounterApart(j)
    ensures AgreesAlways(Setup(Cycle, flags, n, inBlocks, hasXor, xorBlocks, outBlocks), size) <==>
              !(n > 0 && hasXor && Lead(flags.reverseDirection, outBlocks, xorBlocks) == n - 1 && LastBatch(n) >= 2)
  {
    var j := Setup(Cycle, flags, n, inBlocks, hasXor, xorBlocks, outBlocks);
    assert LastXorIsOutput(j) <==>
             n > 0 && hasXor && Lead(flags.reverseDirection, outBlocks, xorBlocks) == n - 1 && LastBatch(n) >= 2;
    assert Staying(j) && j.inStart != j.outStart;
    hide *;
    StayingExactly(j, size);
  }

  /** For one block encrypted in place, and no xor block that is this block: they do if and only if there are fewer
      than two blocks. */
  lemma RepeatedPointersExactly(flags: Flags, n: nat, hasXor: bool, xorBlocks: int, block: int, size: nat)
    requires flags.dontIncrementInOutPointers && !flags.inBlockIsCounter && n < Pow256(BLOCK)
    requires hasXor ==> !(0 <= Lead(flags.reverseDirection, block, xorBlocks) < n)
    requires Fits(Setup(Cycle, flags, n, block, hasXor, xorBlocks, block), size)
    ensures AgreesAlways(Setup(Cycle, flags, n, block, hasXor, xorBlocks, block), size) <==> n < 2
  {
    var j := Setup(Cycle, flags, n, block, hasXor, xorBlocks, block);
    assert j.n == n && Repeated(j);
    hide *;
    RepeatedExactly(j, size);
  }

  /** Two blocks in place, without xor blocks: a batch encrypts once, one block at a time twice. */
  lemma RepeatedFails()
    ensures var j := Setup(Cycle, Flags(false, true, false, false, true), 2, 0, false, 0, 0);
            Fits(j, 1) && BatchValue(j, [ZERO], ZERO, 0) == ONE && StepValue(j, [ZERO], 2) == TWO && !Agrees(j, [ZERO])
  {
    var j := Setup(Cycle, Flags(false, true, false, false, true), 2, 0, false, 0, 0);
    assert ZERO[15] == 0 && ONE[15] == 1 && TWO[15] == 2;
    assert Staying(j) && Fits(j, 1) && CounterApart(j);
    assert BatchValue(j, [ZERO], ZERO, 0) == BatchValue(j, [ZERO], NextValue(j, [ZERO], ZERO, 1), 2);
    assert StepValue(j, [ZERO], 1) == ONE;
    ValuesDecide(j, [ZERO]);
  }
}
