/** Batches against one block at a time where a block encrypted in place is also one of its own xor blocks. */
module BatchOwnXor {
  import opened Bytes
  import opened CcmSpec
  import opened BatchedBlocks
  import opened BatchOverlap
  import opened BatchStaying

  /** Input and output are one block, which is also the xor block of step `own`. */
  ghost predicate Own(j: Job, size: nat, own: nat) {
    && Staying(j) && Fits(j, size) && !j.counter && j.inStart == j.outStart && j.hasXor
    && own < j.n && j.XorAt(own) == j.outStart
  }

  lemma OwnPlaces(j: Job, size: nat, own: nat, k: nat)
    requires Own(j, size, own) && k < j.n
    ensures CounterApart(j) && 0 <= j.outStart < size && j.InAt(k) == j.outStart && 0 <= j.XorAt(k) < size
    ensures j.XorAt(k) == j.outStart <==> k == own
  {
  }

  /** The step that xors the block with itself, and the others. */
  lemma OwnNext(j: Job, mem: seq<Block>, own: nat, v: Block, k: nat)
    requires Own(j, |mem|, own) && k < j.n
    ensures 0 <= j.XorAt(k) < |mem|
    ensures NextValue(j, mem, v, k) == Combined(j, v, if k == own then v else mem[j.XorAt(k)])
  {
    OwnPlaces(j, |mem|, own, k);
    hide Combined, CounterApart, Job.XorAt, Job.InAt;
  }

  // ----- where the xor with itself comes before the cipher -----

  lemma OwnIsBlind(j: Job, mem: seq<Block>, own: nat)
    requires Own(j, |mem|, own) && j.xorFirst
    ensures Blind(j, mem, own)
  {
    hide XorSeq, NextValue, Own, Job.XorAt;
    OwnParts(j, |mem|, own);
    forall v: Block, w: Block
      ensures NextValue(j, mem, v, own) == NextValue(j, mem, w, own)
    {
      OwnNext(j, mem, own, v, own);
      OwnNext(j, mem, own, w, own);
      XorSelf(v);
      XorSelf(w);
    }
  }

  lemma OwnParts(j: Job, size: nat, own: nat)
    requires Own(j, size, own)
    ensures Staying(j) && Fits(j, size) && !j.counter && j.hasXor && own < j.n
  {
  }

  /** With an odd number of blocks a batch ends before the last one. */
  lemma {:induction false} LastButOneForgets(j: Job, mem: seq<Block>, v: Block, done: nat)
    requires Fits(j, |mem|) && done + 3 <= j.n && (j.n - done) % 2 == 1 && 0 <= j.outStart < |mem|
    requires Blind(j, mem, j.n - 2)
    ensures BatchValue(j, mem, v, done) == StepValue(j, mem, j.n)
    decreases j.n - done
  {
    hide Fits, NextValue, Job.InAt, Job.OutAt, Job.XorAt;
    var m := BatchSize(j.n - done, true);
    var w := NextValue(j, mem, v, done + m - 1);
    assert BatchValue(j, mem, v, done) == BatchValue(j, mem, w, done + m);
    if done + m + 1 == j.n {
      assert w == NextValue(j, mem, StepValue(j, mem, j.n - 2), j.n - 2);
      OneLeft(j, mem, w);
      StepValueNext(j, mem, j.n);
      StepValueNext(j, mem, j.n - 1);
    } else {
      LastButOneForgets(j, mem, w, done + m);
    }
  }

  lemma OneLeft(j: Job, mem: seq<Block>, v: Block)
    requires Fits(j, |mem|) && j.n > 0
    ensures BatchValue(j, mem, v, j.n - 1) == NextValue(j, mem, v, j.n - 1)
  {
    hide Fits, NextValue;
    assert BatchSize(1, true) == 1;
    assert BatchValue(j, mem, NextValue(j, mem, v, j.n - 1), j.n) == NextValue(j, mem, v, j.n - 1);
  }

  /** The step is the last one, or the last but one where the last one is alone. */
  predicate Late(n: nat, own: nat) {
    own + 1 == n || (own + 2 == n && n % 2 == 1)
  }

  lemma LateAgrees(j: Job, mem: seq<Block>, own: nat)
    requires Own(j, |mem|, own) && (j.n < 2 || (j.xorFirst && Late(j.n, own)))
    ensures Agrees(j, mem)
  {
    hide NextValue, Agrees, BatchValue, StepValue, Blind, Job.XorAt, Job.InAt, Job.OutAt;
    OwnPlaces(j, |mem|, own, own);
    if j.n < 2 {
      SingleAgrees(j, mem);
    } else {
      OwnIsBlind(j, mem, own);
      ValuesDecide(j, mem);
      hide Own, Fits, CounterApart;
      if own + 1 == j.n {
        LastForgets(j, mem, mem[j.outStart], 0);
      } else {
        LastButOneForgets(j, mem, mem[j.outStart], 0);
      }
    }
  }

  // ----- a step in the middle shows with no cipher at all -----

  function Same(b: Block): Block {
    b
  }

  /** Step `k` is the last of its batch, for batches from step `done` on. */
  predicate Ends(n: nat, done: nat, k: nat)
    requires done <= n
    decreases n - done
  {
    done < n &&
    (var m := BatchSize(n - done, true);
     k == done + m - 1 || Ends(n, done + m, k))
  }

  lemma {:induction false} EndsAfter(n: nat, done: nat, k: nat)
    requires done <= n && Ends(n, done, k)
    ensures done <= k < n
    ensures k + 1 < n ==> (k + 1 - done) % 2 == 0
    decreases n - done
  {
    var m := BatchSize(n - done, true);
    if k != done + m - 1 { EndsAfter(n, done + m, k); }
  }

  /** Where two blocks or more are left after a batch, the next step ends none. */
  lemma {:induction false} EndsApart(n: nat, done: nat, k: nat)
    requires done <= n && Ends(n, done, k) && k + 3 <= n
    ensures !Ends(n, done, k + 1)
    decreases n - done
  {
    var m := BatchSize(n - done, true);
    if k == done + m - 1 {
      if Ends(n, done + m, k + 1) {
        var next := BatchSize(n - done - m, true);
        if k + 1 != done + m + next - 1 { EndsAfter(n, done + m + next, k + 1); }
      }
    } else {
      EndsAfter(n, done + m, k);
      EndsApart(n, done + m, k);
    }
  }

  lemma SameNext(j: Job, mem: seq<Block>, own: nat, v: Block, k: nat)
    requires Own(j, |mem|, own) && k < j.n && j.cipher == Same
    ensures 0 <= j.XorAt(k) < |mem|
    ensures NextValue(j, mem, v, k) == if k == own then ZERO else XorSeq(v, mem[j.XorAt(k)])
  {
    hide XorSeq, NextValue, Own, Job.XorAt;
    OwnParts(j, |mem|, own);
    OwnNext(j, mem, own, v, k);
    XorSelf(v);
  }

  /** Batches that add only zeros keep the block. */
  lemma {:induction false} BatchesKeep(j: Job, mem: seq<Block>, own: nat, v: Block, done: nat)
    requires Own(j, |mem|, own) && j.cipher == Same && done <= j.n
    requires forall k: nat :: k < j.n ==> 0 <= j.XorAt(k) < |mem|
    requires forall k: nat :: k < j.n && Ends(j.n, done, k) ==> if k == own then v == ZERO else mem[j.XorAt(k)] == ZERO
    ensures BatchValue(j, mem, v, done) == v
    decreases j.n - done
  {
    hide XorSeq, NextValue, Own, Job.XorAt;
    OwnParts(j, |mem|, own);
    if done < j.n {
      var m := BatchSize(j.n - done, true);
      assert Ends(j.n, done, done + m - 1);
      SameNext(j, mem, own, v, done + m - 1);
      XorSeqZero(v);
      BatchesKeep(j, mem, own, v, done + m);
    }
  }

  /** One at a time, only what comes after the step counts. */
  lemma {:induction false} StepsAfter(j: Job, mem: seq<Block>, own: nat, y: Block, k: nat)
    requires Own(j, |mem|, own) && j.cipher == Same && own < k <= j.n && 0 <= j.outStart < |mem|
    requires forall i: nat :: i < j.n ==> 0 <= j.XorAt(i) < |mem|
    requires forall i: nat :: own < i < j.n ==> mem[j.XorAt(i)] == if i == own + 1 then y else ZERO
    ensures StepValue(j, mem, k) == if k == own + 1 then ZERO else y
  {
    hide XorSeq, NextValue, Own, Job.XorAt;
    OwnParts(j, |mem|, own);
    StepValueNext(j, mem, k);
    SameNext(j, mem, own, StepValue(j, mem, k - 1), k - 1);
    if k > own + 1 {
      StepsAfter(j, mem, own, y, k - 1);
      XorSeqZero(y);
    }
  }

  lemma MiddleShows(j: Job, size: nat, own: nat) returns (mem: seq<Block>)
    requires Own(j, size, own) && j.cipher == Same && j.n >= 2 && !Late(j.n, own)
    ensures |mem| == size && !Agrees(j, mem)
  {
    hide NextValue, Agrees, BatchValue, StepValue, Job.XorAt, Job.InAt, Job.OutAt;
    forall k: nat | k < j.n
      ensures 0 <= j.XorAt(k) < size && (j.XorAt(k) == j.outStart <==> k == own)
    {
      OwnPlaces(j, size, own, k);
    }
    OwnPlaces(j, size, own, 0);
    assert ZERO[15] == 0 && ONE[15] == 1;
    var zeros: seq<Block> := seq(size, _ => ZERO);
    if !Ends(j.n, 0, own) {
      mem := zeros[j.outStart := ONE];
      BatchesKeep(j, mem, own, ONE, 0);
      StepsAfter(j, mem, own, ZERO, j.n);
    } else {
      EndsAfter(j.n, 0, own);
      EndsApart(j.n, 0, own);
      forall i: nat | own + 1 < i < j.n
        ensures j.XorAt(i) != j.XorAt(own + 1)
      {
        OtherXor(j, i, own + 1);
      }
      forall i: nat | i < j.n && i != own + 1
        ensures j.XorAt(i) != j.XorAt(own + 1)
      {
        OtherXor(j, i, own + 1);
      }
      mem := zeros[j.XorAt(own + 1) := ONE];
      BatchesKeep(j, mem, own, ZERO, 0);
      StepsAfter(j, mem, own, ONE, j.n);
    }
    ValuesDecide(j, mem);
  }

  // ----- where the xor comes after the cipher, a late step shows too -----

  /** Zero encrypted `k` times. */
  function Turns(k: nat): (b: Block)
    ensures b in {ZERO, ONE, TWO}
  {
    if k == 0 then ZERO else Cycle(Turns(k - 1))
  }

  /** The blocks up to the last batch of two or more. */
  function Paired(n: nat): nat {
    n - n % 2
  }

  /** How many batches there are before that batch. */
  function BatchesBefore(left: nat): nat {
    if left == 0 || BatchSize(left, true) >= Paired(left) then 0 else 1 + BatchesBefore(left - BatchSize(left, true))
  }

  lemma LateNext(j: Job, mem: seq<Block>, own: nat, v: Block, k: nat)
    requires Own(j, |mem|, own) && k < j.n && j.cipher == Cycle && !j.xorFirst
    ensures 0 <= j.XorAt(k) < |mem|
    ensures NextValue(j, mem, v, k) == XorSeq(Cycle(v), if k == own then v else mem[j.XorAt(k)])
  {
    hide XorSeq, NextValue, Own, Cycle, Job.XorAt;
    OwnParts(j, |mem|, own);
    OwnNext(j, mem, own, v, k);
  }

  /** Zero xor blocks but the one two before the end of the last pair. */
  ghost predicate OneMarked(j: Job, mem: seq<Block>, own: nat, x: Block) {
    && Own(j, |mem|, own) && j.cipher == Cycle && !j.xorFirst && j.n >= 2 && own + 2 >= j.n && Late(j.n, own)
    && 0 <= j.outStart < |mem| && mem[j.outStart] == ZERO
    && (forall i: nat :: i < j.n ==> 0 <= j.XorAt(i) < |mem|)
    && forall i: nat :: i < j.n && i != own ==> mem[j.XorAt(i)] == if i + 2 == Paired(j.n) then x else ZERO
  }

  /** Any other step only encrypts. */
  lemma MarkedNext(j: Job, mem: seq<Block>, own: nat, x: Block, v: Block, k: nat)
    requires OneMarked(j, mem, own, x) && Fits(j, |mem|) && k < j.n && k != own && k + 2 != Paired(j.n)
    ensures NextValue(j, mem, v, k) == Cycle(v)
  {
    hide XorSeq, NextValue, Own, Cycle, Fits, Paired, Late, Job.XorAt;
    LateNext(j, mem, own, v, k);
    XorSeqZero(Cycle(v));
  }

  lemma EarlyEnough(j: Job, mem: seq<Block>, own: nat, x: Block, k: nat)
    requires OneMarked(j, mem, own, x) && k + 3 <= Paired(j.n)
    ensures k < j.n && k != own && k + 2 != Paired(j.n)
  {
    hide Own, Job.XorAt;
  }

  lemma MarkedStart(j: Job, mem: seq<Block>, own: nat, x: Block)
    requires OneMarked(j, mem, own, x) && Fits(j, |mem|) && 0 <= j.outStart < |mem|
    ensures StepValue(j, mem, 0) == Turns(0) == mem[j.outStart]
  {
    hide Own, Fits, Late, Paired, Job.XorAt;
  }

  /** One at a time up to the marked block. */
  lemma {:induction false} StepsTurn(j: Job, mem: seq<Block>, own: nat, x: Block, k: nat)
    requires OneMarked(j, mem, own, x) && Fits(j, |mem|) && k + 2 <= Paired(j.n) && 0 <= j.outStart < |mem| && k <= j.n
    ensures StepValue(j, mem, k) == Turns(k)
  {
    hide *;
    if k == 0 {
      MarkedStart(j, mem, own, x);
    } else {
      EarlyEnough(j, mem, own, x, k - 1);
      StepsTurn(j, mem, own, x, k - 1);
      StepValueNext(j, mem, k);
      MarkedNext(j, mem, own, x, Turns(k - 1), k - 1);
      TurnsNext(k - 1);
    }
  }

  lemma PairedFrom(n: nat, done: nat)
    requires done % 2 == 0 && done <= n
    ensures Paired(n) == done + Paired(n - done) && Paired(n - done) % 2 == 0
  {
  }

  lemma BatchBefore(n: nat, done: nat, m: nat)
    requires done % 2 == 0 && done + 2 <= n && m == BatchSize(n - done, true)
    ensures m < Paired(n - done) ==>
              m % 2 == 0 && done + m + 2 <= Paired(n) <= n && BatchesBefore(n - done) == 1 + BatchesBefore(n - done - m)
    ensures m >= Paired(n - done) ==> BatchesBefore(n - done) == 0
  {
    PairedFrom(n, done);
  }

  lemma BatchValueNext(j: Job, mem: seq<Block>, v: Block, done: nat, m: nat)
    requires Fits(j, |mem|) && done < j.n && m == BatchSize(j.n - done, true)
    ensures BatchValue(j, mem, v, done) == BatchValue(j, mem, NextValue(j, mem, v, done + m - 1), done + m)
  {
  }

  /** The batches up to the last pair. */
  lemma {:induction false} BatchesTurn(j: Job, mem: seq<Block>, own: nat, x: Block, done: nat, c: nat)
    requires OneMarked(j, mem, own, x) && Fits(j, |mem|) && done % 2 == 0 && done + 2 <= j.n
    ensures BatchValue(j, mem, Turns(c), done) == Finish(j, mem, Turns(c + BatchesBefore(j.n - done)))
    decreases j.n - done
  {
    hide *;
    var m := BatchSize(j.n - done, true);
    BatchBefore(j.n, done, m);
    if m >= Paired(j.n - done) {
      FinishIs(j, mem, Turns(c), done);
    } else {
      BatchValueNext(j, mem, Turns(c), done, m);
      EarlyEnough(j, mem, own, x, done + m - 1);
      MarkedNext(j, mem, own, x, Turns(c), done + m - 1);
      TurnsNext(c);
      BatchesTurn(j, mem, own, x, done + m, c + 1);
    }
  }

  lemma TurnsNext(k: nat)
    ensures Turns(k + 1) == Cycle(Turns(k))
  {
  }

  /** What is left to do from the last step of the last pair on. */
  function Finish(j: Job, mem: seq<Block>, v: Block): Block
    requires Fits(j, |mem|) && j.n >= 2
  {
    var w := NextValue(j, mem, v, Paired(j.n) - 1);
    if j.n % 2 == 0 then w else NextValue(j, mem, w, j.n - 1)
  }

  lemma FinishIs(j: Job, mem: seq<Block>, v: Block, done: nat)
    requires Fits(j, |mem|) && done % 2 == 0 && done + 2 <= j.n && BatchSize(j.n - done, true) >= Paired(j.n - done)
    ensures BatchValue(j, mem, v, done) == Finish(j, mem, v)
  {
    hide NextValue, Fits;
    var m := BatchSize(j.n - done, true);
    var w := NextValue(j, mem, v, done + m - 1);
    assert done + m == Paired(j.n);
    assert BatchValue(j, mem, v, done) == BatchValue(j, mem, w, done + m);
    if j.n % 2 == 1 { OneLeft(j, mem, w); }
  }

  lemma FinishSteps(j: Job, mem: seq<Block>)
    requires Fits(j, |mem|) && j.n >= 2 && 0 <= j.outStart < |mem|
    ensures StepValue(j, mem, j.n) == Finish(j, mem, StepValue(j, mem, Paired(j.n) - 1))
  {
    hide NextValue, Fits;
    StepValueNext(j, mem, Paired(j.n));
    StepValueNext(j, mem, j.n);
  }

  /** On three blocks, xoring the result with the block itself loses nothing. */
  lemma OwnXorDiffers(a: Block, b: Block)
    requires a in {ZERO, ONE, TWO} && b in {ZERO, ONE, TWO} && a != b
    ensures XorSeq(Cycle(a), a) != XorSeq(Cycle(b), b)
  {
    assert ZERO[15] == 0 && ONE[15] == 1 && TWO[15] == 2;
    assert Xor(1, 0) == 1 && Xor(2, 1) == 3 && Xor(0, 2) == 2;
    assert XorSeq(Cycle(a), a)[15] == Xor(Cycle(a)[15], a[15]);
    assert XorSeq(Cycle(b), b)[15] == Xor(Cycle(b)[15], b[15]);
  }

  /** The last step of the last pair. */
  lemma PairDiffers(j: Job, mem: seq<Block>, own: nat, x: Block, a: Block, b: Block)
    requires OneMarked(j, mem, own, x) && Fits(j, |mem|) && a in {ZERO, ONE, TWO} && b in {ZERO, ONE, TWO} && a != b
    ensures NextValue(j, mem, a, Paired(j.n) - 1) != NextValue(j, mem, b, Paired(j.n) - 1)
    ensures own != Paired(j.n) - 1 ==>
              NextValue(j, mem, a, Paired(j.n) - 1) == Cycle(a) && NextValue(j, mem, b, Paired(j.n) - 1) == Cycle(b)
  {
    hide XorSeq, NextValue, Own, Fits, Cycle, Job.XorAt;
    var last := Paired(j.n) - 1;
    if own == last {
      LateNext(j, mem, own, a, last);
      LateNext(j, mem, own, b, last);
      OwnXorDiffers(a, b);
    } else {
      MarkedNext(j, mem, own, x, a, last);
      MarkedNext(j, mem, own, x, b, last);
      if Cycle(a) == Cycle(b) { CycleIsInjective(a, b); }
    }
  }

  lemma FinishDiffers(j: Job, mem: seq<Block>, own: nat, x: Block, a: Block, b: Block)
    requires OneMarked(j, mem, own, x) && Fits(j, |mem|) && a in {ZERO, ONE, TWO} && b in {ZERO, ONE, TWO} && a != b
    ensures Finish(j, mem, a) != Finish(j, mem, b)
  {
    hide XorSeq, NextValue, Own, Fits, Cycle, Job.XorAt;
    PairDiffers(j, mem, own, x, a, b);
    if j.n % 2 == 1 {
      var v, w := NextValue(j, mem, a, Paired(j.n) - 1), NextValue(j, mem, b, Paired(j.n) - 1);
      if own + 1 == j.n {
        LateNext(j, mem, own, v, own);
        LateNext(j, mem, own, w, own);
        Stays(a);
        Stays(b);
        OwnXorDiffers(v, w);
      } else {
        MarkedNext(j, mem, own, x, v, j.n - 1);
        MarkedNext(j, mem, own, x, w, j.n - 1);
        if Cycle(v) == Cycle(w) { CycleIsInjective(v, w); }
      }
    }
  }

  lemma Stays(a: Block)
    requires a in {ZERO, ONE, TWO}
    ensures Cycle(a) in {ZERO, ONE, TWO}
  {
  }

  /** The block to mark, so that the two versions come to the last step of the last pair with different values. */
  lemma MarkShows(j: Job, mem: seq<Block>, own: nat, x: Block, t: Block)
    requires OneMarked(j, mem, own, x) && Fits(j, |mem|) && 0 <= j.outStart < |mem| && 2 <= Paired(j.n) <= j.n
    requires t in {ZERO, ONE} && t != Turns(BatchesBefore(j.n)) && x == XorSeq(t, Cycle(Turns(Paired(j.n) - 2)))
    ensures BatchValue(j, mem, mem[j.outStart], 0) != StepValue(j, mem, j.n)
  {
    hide *;
    var before := Paired(j.n) - 2;
    StepsTurn(j, mem, own, x, before);
    StepValueNext(j, mem, before + 1);
    MarkedValue(j, mem, own, x, Turns(before));
    XorSeqCancel(t, Cycle(Turns(before)));
    XorSeqCommutes(Cycle(Turns(before)), x);
    assert StepValue(j, mem, Paired(j.n) - 1) == t;
    FinishSteps(j, mem);
    MarkedStart(j, mem, own, x);
    BatchesTurn(j, mem, own, x, 0, 0);
    FinishDiffers(j, mem, own, x, t, Turns(BatchesBefore(j.n)));
  }

  lemma MarkedValue(j: Job, mem: seq<Block>, own: nat, x: Block, v: Block)
    requires OneMarked(j, mem, own, x) && Fits(j, |mem|) && 2 <= Paired(j.n) <= j.n
    ensures NextValue(j, mem, v, Paired(j.n) - 2) == XorSeq(Cycle(v), x)
  {
    hide XorSeq, NextValue, Own, Cycle, Fits, Job.XorAt;
    LateNext(j, mem, own, v, Paired(j.n) - 2);
  }

  lemma LateShows(j: Job, size: nat, own: nat) returns (mem: seq<Block>)
    requires Own(j, size, own) && j.cipher == Cycle && !j.xorFirst && j.n >= 2 && Late(j.n, own)
    ensures |mem| == size && !Agrees(j, mem)
  {
    hide NextValue, Agrees, BatchValue, StepValue, XorSeq, Cycle, Turns, Job.XorAt, Job.InAt, Job.OutAt;
    var before := Paired(j.n) - 2;
    forall k: nat | k < j.n
      ensures 0 <= j.XorAt(k) < size && (j.XorAt(k) == j.outStart <==> k == own)
      ensures k != before ==> j.XorAt(k) != j.XorAt(before)
    {
      OwnPlaces(j, size, own, k);
      if k != before { OtherXor(j, k, before); }
    }
    OwnPlaces(j, size, own, 0);
    assert ZERO[15] == 0 && ONE[15] == 1;
    var zeros: seq<Block> := seq(size, _ => ZERO);
    var t := if Turns(BatchesBefore(j.n)) == ZERO then ONE else ZERO;
    var x := XorSeq(t, Cycle(Turns(before)));
    mem := zeros[j.XorAt(before) := x];
    assert OneMarked(j, mem, own, x);
    hide OneMarked, Own, Fits, CounterApart;
    MarkShows(j, mem, own, x, t);
    ValuesDecide(j, mem);
  }

  // ----- the exact condition -----

  lemma SameOwn(j: Job, cipher: Cipher, size: nat, own: nat)
    requires Own(j, size, own)
    ensures Own(With(j, cipher), size, own)
  {
    SameJob(j, cipher, size);
    SameStaying(j, cipher);
    assert With(j, cipher).XorAt(own) == j.XorAt(own);
  }

  /** Batches equal one block at a time for every cipher and every memory, or even only for every permutation, if and
      only if there are fewer than two blocks, or the xor with itself comes before the cipher and the step is late. */
  lemma OwnXorExactly(j: Job, size: nat, own: nat)
    requires Own(j, size, own)
    ensures AgreesAlways(j, size) <==> j.n < 2 || (j.xorFirst && Late(j.n, own))
    ensures AgreesForPermutations(j, size) <==> j.n < 2 || (j.xorFirst && Late(j.n, own))
  {
    hide Agrees, Own, Cycle;
    if j.n < 2 || (j.xorFirst && Late(j.n, own)) {
      forall cipher: Cipher, mem: seq<Block> | |mem| == size
        ensures Agrees(With(j, cipher), mem)
      {
        SameOwn(j, cipher, size, own);
        LateAgrees(With(j, cipher), mem, own);
      }
    } else if Late(j.n, own) {
      SameOwn(j, Cycle, size, own);
      var mem := LateShows(With(j, Cycle), size, own);
      assert Injective(Cycle) by {
        forall a: Block, b: Block | Cycle(a) == Cycle(b) ensures a == b { CycleIsInjective(a, b); }
      }
    } else {
      SameOwn(j, Same, size, own);
      var mem := MiddleShows(With(j, Same), size, own);
      assert Injective(Same);
    }
  }

  /** The same in the pointers given. */
  lemma OwnXorPointersExactly(flags: Flags, n: nat, xorBlocks: int, block: int, size: nat)
    requires flags.dontIncrementInOutPointers && !flags.inBlockIsCounter
    requires 0 <= Lead(flags.reverseDirection, block, xorBlocks) < n
    requires Fits(Setup(Cycle, flags, n, block, true, xorBlocks, block), size)
    ensures AgreesAlways(Setup(Cycle, flags, n, block, true, xorBlocks, block), size) <==>
              n < 2 || (flags.xorInput && Late(n, Lead(flags.reverseDirection, block, xorBlocks)))
  {
    var j := Setup(Cycle, flags, n, block, true, xorBlocks, block);
    assert j.n == n && j.xorFirst == flags.xorInput && Own(j, size, Lead(flags.reverseDirection, block, xorBlocks));
    hide *;
    OwnXorExactly(j, size, Lead(flags.reverseDirection, block, xorBlocks));
  }
}
