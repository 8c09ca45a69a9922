/** ARC4 (arc4.cpp): the state as a permutation, the key stream, and encryption in place. */
module Arc4Cipher {
  import opened Arithmetic
  import opened Bytes

  datatype State = State(s: seq<byte>, x: byte, y: byte)

  /** Every byte occurs, and only once. */
  ghost predicate Permutation(s: seq<byte>) {
    && |s| == 256
    && (forall i, j :: 0 <= i < j < 256 ==> s[i] != s[j])
    && (forall b: byte :: b in s)
  }

  function Swap(s: seq<byte>, i: byte, j: byte): (r: seq<byte>)
    requires |s| == 256
    ensures |r| == 256
  {
    s[i := s[j]][j := s[i]]
  }

  lemma SwapPermutes(s: seq<byte>, i: byte, j: byte)
    requires Permutation(s)
    ensures Permutation(Swap(s, i, j))
  {
    var r := Swap(s, i, j);
    forall b: byte
      ensures b in r
    {
      assert b in s;
      var k :| 0 <= k < 256 && s[k] == b;
      assert r[if k == i then j else if k == j then i else k] == b;
    }
  }

  function Add(a: byte, b: byte): byte {
    (a as int + b as int) % 256
  }

  function Subtract(a: byte, b: byte): byte {
    (a as int - b as int) % 256
  }

  /** The state after one step. */
  function Next(st: State): (r: State)
    requires |st.s| == 256
    ensures |r.s| == 256
  {
    var y := Add(st.y, st.s[st.x]);
    State(Swap(st.s, st.x, y), Add(st.x, 1), y)
  }

  /** The byte that one step gives. */
  function Output(st: State): byte
    requires |st.s| == 256
  {
    var y := Add(st.y, st.s[st.x]);
    Swap(st.s, st.x, y)[Add(st.s[st.x], st.s[y])]
  }

  /** The state before one step. */
  function Previous(st: State): (r: State)
    requires |st.s| == 256
    ensures |r.s| == 256
  {
    var x := Subtract(st.x, 1);
    State(Swap(st.s, x, st.y), x, Subtract(st.y, st.s[st.y]))
  }

  /** Every state has exactly one predecessor. */
  lemma StepIsReversible(st: State)
    requires |st.s| == 256
    ensures Previous(Next(st)) == st && Next(Previous(st)) == st
  {
    var y := Add(st.y, st.s[st.x]);
    var x := Subtract(st.x, 1);
    AddSubtract(st.x, 1);
    AddSubtract(st.y, st.s[st.x]);
    AddSubtract(st.y, st.s[st.y]);
    hide Add, Subtract;
    SwapTwice(st.s, st.x, y);
    SwapTwice(st.s, x, st.y);
    hide Swap;
  }

  lemma AddSubtract(a: byte, b: byte)
    ensures Subtract(Add(a, b), b) == a && Add(Subtract(a, b), b) == a
  {
  }

  lemma SwapTwice(s: seq<byte>, i: byte, j: byte)
    requires |s| == 256
    ensures Swap(Swap(s, i, j), i, j) == s && Swap(s, i, j)[i] == s[j] && Swap(s, i, j)[j] == s[i]
  {
  }

  // ----- runs -----

  function Run(st: State, n: nat): (r: State)
    requires |st.s| == 256
    ensures |r.s| == 256
  {
    if n == 0 then st else Next(Run(st, n - 1))
  }

  function Stream(st: State, n: nat): (bytes: seq<byte>)
    requires |st.s| == 256
    ensures |bytes| == n
  {
    if n == 0 then [] else Stream(st, n - 1) + [Output(Run(st, n - 1))]
  }

  function Rewind(st: State, n: nat): (r: State)
    requires |st.s| == 256
    ensures |r.s| == 256
    decreases n
  {
    if n == 0 then st else Rewind(Previous(st), n - 1)
  }

  lemma {:induction false} RunKeepsPermutation(st: State, n: nat)
    requires Permutation(st.s)
    ensures Permutation(Run(st, n).s)
  {
    if n > 0 {
      RunKeepsPermutation(st, n - 1);
      var before := Run(st, n - 1);
      hide Permutation;
      SwapPermutes(before.s, before.x, Add(before.y, before.s[before.x]));
    }
  }

  lemma {:induction false} RunIsReversible(st: State, n: nat)
    requires |st.s| == 256
    ensures Rewind(Run(st, n), n) == st
  {
    if n > 0 {
      hide Next, Previous;
      StepIsReversible(Run(st, n - 1));
      RunIsReversible(st, n - 1);
    }
  }

  lemma {:induction false} RunAdds(st: State, a: nat, b: nat)
    requires |st.s| == 256
    ensures Run(st, a + b) == Run(Run(st, a), b)
    ensures Stream(st, a + b) == Stream(st, a) + Stream(Run(st, a), b)
  {
    hide Next, Output;
    if b > 0 {
      RunAdds(st, a, b - 1);
    }
  }

  /** Discarding is skipping: what follows is a suffix of one long key stream. */
  lemma DiscardIsSuffix(st: State, n: nat, m: nat)
    requires |st.s| == 256
    ensures Stream(Run(st, n), m) == Stream(st, n + m)[n..]
  {
    hide Run, Stream;
    RunAdds(st, n, m);
  }

  // ----- encryption -----

  function Encrypt(st: State, data: seq<byte>): (r: seq<byte>)
    requires |st.s| == 256
    ensures |r| == |data|
  {
    XorSeq(data, Stream(st, |data|))
  }

  lemma EncryptInverts(st: State, data: seq<byte>)
    requires |st.s| == 256
    ensures Encrypt(st, Encrypt(st, data)) == data
  {
    XorSeqCancel(data, Stream(st, |data|));
  }

  lemma StreamAppend(st: State, a: seq<byte>, b: seq<byte>)
    requires |st.s| == 256
    ensures Stream(st, |a + b|) == Stream(st, |a|) + Stream(Run(st, |a|), |b|)
    ensures Run(st, |a + b|) == Run(Run(st, |a|), |b|)
  {
    hide Run, Stream;
    RunAdds(st, |a|, |b|);
    assert |a + b| == |a| + |b|;
  }

  lemma EncryptAppend(st: State, a: seq<byte>, b: seq<byte>)
    requires |st.s| == 256
    ensures Encrypt(st, a + b) == Encrypt(st, a) + Encrypt(Run(st, |a|), b)
  {
    hide Run, Stream;
    StreamAppend(st, a, b);
    XorSeqAppend(a, Stream(st, |a|), b, Stream(Run(st, |a|), |b|));
  }

  // ----- the key -----

  /** The first `i` rounds of the key schedule: the table and the index. */
  function Scheduled(key: seq<byte>, i: nat): (r: (seq<byte>, byte))
    requires key != [] && i <= 256
    ensures |r.0| == 256
  {
    if i == 0 then (seq<byte>(256, k requires 0 <= k < 256 => k), 0)
    else
      var (s, index) := Scheduled(key, i - 1);
      var next := Add(index, Add(key[(i - 1) % |key|], s[i - 1]));
      (Swap(s, i - 1, next), next)
  }

  function Keyed(key: seq<byte>): (st: State)
    requires key != []
    ensures |st.s| == 256
  {
    State(Scheduled(key, 256).0, 1, 0)
  }

  lemma {:induction false} ScheduleKeepsPermutation(key: seq<byte>, i: nat)
    requires key != [] && i <= 256
    ensures Permutation(Scheduled(key, i).0)
  {
    if i == 0 {
      forall b: byte
        ensures b in Scheduled(key, 0).0
      {
        assert Scheduled(key, 0).0[b] == b;
      }
    } else {
      ScheduleKeepsPermutation(key, i - 1);
      hide Permutation;
      var (s, index) := Scheduled(key, i - 1);
      SwapPermutes(s, i - 1, Add(index, Add(key[(i - 1) % |key|], s[i - 1])));
    }
  }

  /** After any key and any number of steps the state is a permutation. */
  lemma KeyedRunsArePermutations(key: seq<byte>, n: nat)
    requires key != []
    ensures Permutation(Run(Keyed(key), n).s)
  {
    ScheduleKeepsPermutation(key, 256);
    RunKeepsPermutation(Keyed(key), n);
  }

  // ----- the same written out -----

  /** `t` is `s` with places `i` and `j` exchanged. */
  ghost predicate Exchanged(s: seq<byte>, t: seq<byte>, i: int, j: int) {
    && |s| == |t| == 256 && 0 <= i < 256 && 0 <= j < 256
    && forall k :: 0 <= k < 256 ==> t[k] == if k == i then s[j] else if k == j then s[i] else s[k]
  }

  /** All tables and indices of a key schedule: from the identity and 0, round i adds entry i and the key byte of the
      round to the index, and exchanges entry i and the entry at the index. */
  ghost predicate IsSchedule(key: seq<byte>, tables: seq<seq<byte>>, indices: seq<int>) {
    && key != [] && |tables| == |indices| == 257
    && |tables[0]| == 256 && (forall k :: 0 <= k < 256 ==> tables[0][k] == k) && indices[0] == 0
    && forall i :: 0 <= i < 256 ==> IsRound(key, tables, indices, i)
  }

  ghost predicate IsRound(key: seq<byte>, tables: seq<seq<byte>>, indices: seq<int>, i: nat)
    requires key != [] && i < 256 && |tables| == |indices| == 257
  {
    && |tables[i]| == 256
    && indices[i + 1] == (indices[i] + tables[i][i] + key[i % |key|]) % 256
    && Exchanged(tables[i], tables[i + 1], i, indices[i + 1])
  }

  lemma ScheduleWrittenOut(key: seq<byte>) returns (tables: seq<seq<byte>>, indices: seq<int>)
    requires key != []
    ensures IsSchedule(key, tables, indices) && Keyed(key) == State(tables[256], 1, 0)
  {
    hide Scheduled, Exchanged, Keyed;
    tables := seq(257, i requires 0 <= i < 257 => Scheduled(key, i).0);
    indices := seq(257, i requires 0 <= i < 257 => Scheduled(key, i).1 as int);
    ScheduleEnds(key);
    forall i | 0 <= i < 256
      ensures IsRound(key, tables, indices, i)
    {
      RoundWrittenOut(key, i);
      assert tables[i] == Scheduled(key, i).0 && tables[i + 1] == Scheduled(key, i + 1).0;
    }
  }

  lemma ScheduleEnds(key: seq<byte>)
    requires key != []
    ensures (forall k :: 0 <= k < 256 ==> Scheduled(key, 0).0[k] == k) && Scheduled(key, 0).1 == 0
    ensures Keyed(key) == State(Scheduled(key, 256).0, 1, 0)
  {
  }

  lemma RoundWrittenOut(key: seq<byte>, i: nat)
    requires key != [] && i < 256
    ensures var (s, index) := Scheduled(key, i);
            var (t, next) := Scheduled(key, i + 1);
            next as int == (index as int + s[i] as int + key[i % |key|] as int) % 256 && Exchanged(s, t, i, next)
  {
    var (s, index) := Scheduled(key, i);
    AddTwice(index, key[i % |key|], s[i]);
  }

  lemma AddTwice(a: byte, b: byte, c: byte)
    ensures Add(a, Add(b, c)) as int == (a as int + c as int + b as int) % 256
  {
  }

  /** One step: entry x is added to y, entries x and y are exchanged, and the byte is the entry at their sum. */
  ghost predicate IsStep(st: State, after: State, b: byte) {
    && |st.s| == |after.s| == 256
    && after.x as int == (st.x as int + 1) % 256
    && after.y as int == (st.y as int + st.s[st.x] as int) % 256
    && Exchanged(st.s, after.s, st.x, after.y)
    && b == after.s[(st.s[st.x] as int + st.s[after.y] as int) % 256]
  }

  lemma StepWrittenOut(st: State)
    requires |st.s| == 256
    ensures IsStep(st, Next(st), Output(st))
  {
  }

  /** Steps one after another and the bytes they give. */
  ghost predicate IsRun(states: seq<State>, bytes: seq<byte>) {
    |states| == |bytes| + 1 && forall i :: 0 <= i < |bytes| ==> IsStep(states[i], states[i + 1], bytes[i])
  }

  lemma {:induction false} StreamWrittenOut(st: State, n: nat) returns (states: seq<State>)
    requires |st.s| == 256
    ensures IsRun(states, Stream(st, n)) && states[0] == st && states[n] == Run(st, n)
  {
    hide IsStep, Next, Output;
    if n == 0 {
      states := [st];
    } else {
      var before := StreamWrittenOut(st, n - 1);
      states := before + [Run(st, n)];
      StepWrittenOut(Run(st, n - 1));
    }
  }

  /** `r` is `data` encrypted under a key, with the first `discarded` bytes of the key stream left off. */
  ghost predicate IsEncryption(key: seq<byte>, discarded: nat, data: seq<byte>, r: seq<byte>) {
    exists tables, indices, states, stream :: IsEncryptionWith(key, discarded, data, r, tables, indices, states, stream)
  }

  ghost predicate IsEncryptionWith(key: seq<byte>, discarded: nat, data: seq<byte>, r: seq<byte>, tables: seq<seq<byte>>,
                                   indices: seq<int>, states: seq<State>, stream: seq<byte>) {
    && IsSchedule(key, tables, indices) && IsRun(states, stream) && states[0] == State(tables[256], 1, 0)
    && |stream| == discarded + |data| && |r| == |data|
    && forall i :: 0 <= i < |data| ==> r[i] == Xor(data[i], stream[discarded + i])
  }

  lemma EncryptionWrittenOut(key: seq<byte>, discarded: nat, data: seq<byte>)
    requires key != []
    ensures IsEncryption(key, discarded, data, Encrypt(Run(Keyed(key), discarded), data))
  {
    hide IsSchedule, IsRun, Keyed, Run, Stream, Xor;
    var tables, indices := ScheduleWrittenOut(key);
    var n := discarded + |data|;
    var states := StreamWrittenOut(Keyed(key), n);
    DiscardIsSuffix(Keyed(key), discarded, |data|);
    RunParts(states, Stream(Keyed(key), n));
    assert IsEncryptionWith(key, discarded, data, Encrypt(Run(Keyed(key), discarded), data), tables, indices, states,
                            Stream(Keyed(key), n));
  }

  lemma RunParts(states: seq<State>, bytes: seq<byte>)
    requires IsRun(states, bytes)
    ensures |states| == |bytes| + 1
  {
  }

  class Arc4 {
    const state: array<byte>
    var x: byte
    var y: byte

    ghost predicate Valid()
      reads this, state
    {
      state.Length == 256
    }

    ghost function Now(): (st: State)
      requires state.Length == 256
      reads this, state
      ensures |st.s| == 256
    {
      State(state[..], x, y)
    }

    constructor (key: seq<byte>, discardBytes: nat)
      requires 1 <= |key| <= 256
      ensures Valid() && fresh(state) && Now() == Run(Keyed(key), discardBytes)
      ensures exists tables, indices :: IsSchedule(key, tables, indices) && Keyed(key) == State(tables[256], 1, 0)
    {
      state := new byte[256];
      x, y := 1, 0;
      new;
      Schedule(key);
      DiscardBytes(discardBytes);
      ghost var tables, indices := ScheduleWrittenOut(key);
    }

    method Schedule(key: seq<byte>)
      requires Valid() && key != []
      modifies state
      ensures state[..] == Scheduled(key, 256).0
    {
      for i := 0 to 256
        invariant forall k :: 0 <= k < i ==> state[k] == k
      {
        state[i] := i;
      }
      var keyIndex: nat, stateIndex: byte := 0, 0;
      assert state[..] == Scheduled(key, 0).0;
      for i := 0 to 256
        invariant keyIndex == i % |key|
        invariant (state[..], stateIndex) == Scheduled(key, i)
      {
        ghost var s := state[..];
        var a := state[i];
        stateIndex := Add(stateIndex, Add(key[keyIndex], a));
        state[i] := state[stateIndex];
        state[stateIndex] := a;
        assert state[..] == Swap(s, i, stateIndex);
        NextIndex(i, |key|);
        keyIndex := if keyIndex + 1 >= |key| then 0 else keyIndex + 1;
      }
    }

    method MakeByte() returns (b: byte)
      requires Valid()
      modifies this, state
      ensures Now() == Next(old(Now())) && b == Output(old(Now()))
      ensures IsStep(old(Now()), Now(), b)
    {
      StepWrittenOut(Now());
      hide Add, IsStep;
      ghost var s := state[..];
      var a := state[x];
      y := Add(y, a);
      var c := state[y];
      state[x] := c;
      state[y] := a;
      assert state[..] == Swap(s, x, y);
      x := Add(x, 1);
      b := state[Add(a, c)];
    }

    method DiscardBytes(n: nat)
      requires Valid()
      modifies this, state
      ensures Now() == Run(old(Now()), n)
    {
      hide Next, Output;
      for i := 0 to n
        invariant Now() == Run(old(Now()), i)
      {
        var _ := MakeByte();
      }
    }

    method GenerateBlock(output: array<byte>)
      requires Valid() && output != state
      modifies this, state, output
      ensures Now() == Run(old(Now()), output.Length) && output[..] == Stream(old(Now()), output.Length)
      ensures exists states :: IsRun(states, output[..]) && states[0] == old(Now()) && states[output.Length] == Now()
    {
      hide Next, Output, IsStep;
      for i := 0 to output.Length
        invariant Now() == Run(old(Now()), i) && output[..i] == Stream(old(Now()), i)
      {
        output[i] := MakeByte();
        assert output[..i + 1] == output[..i] + [output[i]];
      }
      assert output[..] == output[..output.Length];
      ghost var states := StreamWrittenOut(old(Now()), output.Length);
    }

    /** `length` bytes from `inStart` to `outStart` of one memory, which may overlap. */
    method ProcessData(mem: array<byte>, inStart: nat, outStart: nat, length: nat)
      requires Valid() && mem != state && inStart + length <= mem.Length && outStart + length <= mem.Length
      modifies this, state, mem
      ensures Now() == Run(old(Now()), length)
      ensures mem[..] == Written(old(Now()), old(mem[..]), inStart, outStart, length)
    {
      hide Next, Output, Xor;
      ghost var start := Now();
      if inStart == outStart {
        for i := 0 to length
          invariant Now() == Run(start, i) && mem[..] == Written(start, old(mem[..]), inStart, outStart, i)
        {
          var b := MakeByte();
          mem[outStart + i] := Xor(mem[outStart + i], b);
        }
      } else {
        for i := 0 to length
          invariant Now() == Run(start, i) && mem[..] == Written(start, old(mem[..]), inStart, outStart, i)
        {
          var b := MakeByte();
          mem[outStart + i] := Xor(mem[inStart + i], b);
        }
      }
    }
  }

  /** The memory after `i` bytes, each read when its turn comes. */
  function Written(st: State, mem: seq<byte>, inStart: nat, outStart: nat, i: nat): (r: seq<byte>)
    requires |st.s| == 256 && inStart + i <= |mem| && outStart + i <= |mem|
    ensures |r| == |mem|
  {
    if i == 0 then mem
    else
      var before := Written(st, mem, inStart, outStart, i - 1);
      before[outStart + i - 1 := Xor(before[inStart + i - 1], Output(Run(st, i - 1)))]
  }

  /** In place, or with the output not ahead inside what is still to be read, the output is the encryption of what
      the input was, and nothing else changes. */
  lemma {:induction false} WrittenIsEncryption(st: State, mem: seq<byte>, inStart: nat, outStart: nat, i: nat, k: nat)
    requires |st.s| == 256 && inStart + i <= |mem| && outStart + i <= |mem| && k < |mem|
    requires outStart <= inStart || inStart + i <= outStart
    ensures Written(st, mem, inStart, outStart, i)[k]
         == if outStart <= k < outStart + i then Encrypt(st, mem[inStart..inStart + i])[k - outStart] else mem[k]
  {
    hide Xor, Next, Output, Stream, XorSeq;
    if i > 0 {
      WrittenIsEncryption(st, mem, inStart, outStart, i - 1, k);
      WrittenIsEncryption(st, mem, inStart, outStart, i - 1, inStart + i - 1);
      if outStart <= k < outStart + i {
        var data := mem[inStart..inStart + i];
        StreamByte(st, i, k - outStart);
        if k < outStart + i - 1 {
          StreamByte(st, i - 1, k - outStart);
        }
      }
    }
  }

  /** With the output `d` bytes ahead inside the input, it feeds back: after the first `d` bytes every byte is that
      of `d` places earlier in the output, xored with the key stream once more. */
  lemma {:induction false} WrittenAhead(st: State, mem: seq<byte>, inStart: nat, d: nat, i: nat, k: nat)
    requires |st.s| == 256 && 0 < d && inStart + d + i <= |mem| && k < i
    ensures var written := Written(st, mem, inStart, inStart + d, i);
            written[inStart + d + k] == Xor(if k < d then mem[inStart + k] else written[inStart + k], Output(Run(st, k)))
  {
    hide Xor, Next, Output, Run;
    if k + 1 < i {
      WrittenAhead(st, mem, inStart, d, i - 1, k);
    } else if k < d {
      WrittenBelow(st, mem, inStart, inStart + d, i - 1, inStart + k);
    }
  }

  lemma {:induction false} WrittenBelow(st: State, mem: seq<byte>, inStart: nat, outStart: nat, i: nat, k: nat)
    requires |st.s| == 256 && inStart + i <= |mem| && outStart + i <= |mem| && k < outStart
    ensures Written(st, mem, inStart, outStart, i)[k] == mem[k]
  {
    if i > 0 { WrittenBelow(st, mem, inStart, outStart, i - 1, k); }
  }

  /** The output is the encryption of the input for every memory if and only if it is not ahead inside it. */
  lemma EncryptsExactly(st: State, size: nat, inStart: nat, outStart: nat, i: nat)
    requires |st.s| == 256 && inStart + i <= size && outStart + i <= size
    ensures (forall mem: seq<byte> :: |mem| == size ==>
               Written(st, mem, inStart, outStart, i)[outStart..outStart + i] == Encrypt(st, mem[inStart..inStart + i]))
       <==> outStart <= inStart || inStart + i <= outStart
  {
    hide Written, Encrypt;
    if outStart <= inStart || inStart + i <= outStart {
      forall mem: seq<byte> | |mem| == size
        ensures Written(st, mem, inStart, outStart, i)[outStart..outStart + i] == Encrypt(st, mem[inStart..inStart + i])
      {
        var output, encrypted := Written(st, mem, inStart, outStart, i)[outStart..outStart + i], Encrypt(st, mem[inStart..inStart + i]);
        forall k | 0 <= k < i
          ensures output[k] == encrypted[k]
        {
          WrittenIsEncryption(st, mem, inStart, outStart, i, outStart + k);
        }
      }
    } else {
      var mem := AheadShows(st, size, inStart, outStart, i);
    }
  }

  lemma AheadShows(st: State, size: nat, inStart: nat, outStart: nat, i: nat) returns (mem: seq<byte>)
    requires |st.s| == 256 && inStart < outStart < inStart + i && outStart + i <= size
    ensures |mem| == size
    ensures Written(st, mem, inStart, outStart, i)[outStart..outStart + i] != Encrypt(st, mem[inStart..inStart + i])
  {
    hide Xor, XorSeq, Written, Stream, Next, Output, Run;
    var d := outStart - inStart;
    var first: byte := Output(Run(st, 0));
    mem := Zeros(size)[outStart := if first == 0 then 1 else 0];
    var written, data := Written(st, mem, inStart, outStart, i), mem[inStart..inStart + i];
    WrittenAhead(st, mem, inStart, d, i, 0);
    WrittenAhead(st, mem, inStart, d, i, d);
    XorZero(first);
    assert written[outStart] == first;
    StreamByte(st, i, d);
    var s := Output(Run(st, d));
    assert Encrypt(st, data)[d] == Xor(mem[outStart], s) && written[outStart + d] == Xor(first, s);
    XorCancel(mem[outStart], s);
    XorCancel(first, s);
    assert written[outStart..outStart + i][d] == written[outStart + d];
  }

  lemma {:induction false} StreamByte(st: State, n: nat, k: nat)
    requires |st.s| == 256 && k < n
    ensures Stream(st, n)[k] == Output(Run(st, k))
  {
    hide Output, Run;
    if k < n - 1 { StreamByte(st, n - 1, k); }
  }

  lemma NextIndex(i: nat, n: nat)
    requires n > 0
    ensures (i + 1) % n == if i % n + 1 >= n then 0 else i % n + 1
  {
    DivMod(i, n);
    if i % n + 1 >= n {
      MulDistributes(i / n, 1, n);
      DivModUnique(i + 1, n, i / n + 1, 0);
    } else {
      DivModUnique(i + 1, n, i / n, i % n + 1);
    }
  }

  /** One chunk, in a buffer of its own. */
  method ProcessChunk(arc4: Arc4, chunk: seq<byte>) returns (r: seq<byte>)
    requires arc4.Valid()
    modifies arc4, arc4.state
    ensures arc4.Now() == Run(old(arc4.Now()), |chunk|) && r == Encrypt(old(arc4.Now()), chunk)
  {
    hide Run, Encrypt;
    var buffer := new byte[|chunk|](k requires 0 <= k < |chunk| => chunk[k]);
    assert buffer[0..0 + |chunk|] == chunk;
    ghost var start, before := arc4.Now(), buffer[..];
    arc4.ProcessData(buffer, 0, 0, |chunk|);
    r := buffer[..];
    forall k | 0 <= k < |chunk|
      ensures r[k] == Encrypt(start, chunk)[k]
    {
      WrittenIsEncryption(start, before, 0, 0, |chunk|, k);
    }
  }

  /** The chunks of a message, one call each. */
  method ProcessChunks(key: seq<byte>, discardBytes: nat, chunks: seq<seq<byte>>) returns (r: seq<byte>)
    requires 1 <= |key| <= 256
    ensures r == Encrypt(Run(Keyed(key), discardBytes), Joined(chunks))
    ensures IsEncryption(key, discardBytes, Joined(chunks), r)
  {
    hide Keyed, Run, Encrypt, Joined, IsEncryption, IsSchedule;
    EncryptionWrittenOut(key, discardBytes, Joined(chunks));
    var arc4 := new Arc4(key, discardBytes);
    r := [];
    ghost var start := arc4.Now();
    NothingEncrypted(start);
    NothingJoined();
    assert chunks[..0] == [];
    for i := 0 to |chunks|
      invariant fresh(arc4) && fresh(arc4.state) && arc4.Valid()
      invariant arc4.Now() == Run(start, |Joined(chunks[..i])|) && r == Encrypt(start, Joined(chunks[..i]))
    {
      JoinedNext(chunks, i);
      EncryptAppend(start, Joined(chunks[..i]), chunks[i]);
      StreamAppend(start, Joined(chunks[..i]), chunks[i]);
      var part := ProcessChunk(arc4, chunks[i]);
      r := r + part;
    }
    assert chunks[..|chunks|] == chunks;
  }

  lemma NothingEncrypted(st: State)
    requires |st.s| == 256
    ensures Run(st, 0) == st && Encrypt(st, []) == []
  {
  }

  /** Two objects keyed alike undo each other, however the text is divided for either. */
  method RoundTrip(key: seq<byte>, discardBytes: nat, chunks: seq<seq<byte>>, cut: seq<byte> -> seq<seq<byte>>)
    returns (r: seq<byte>)
    requires 1 <= |key| <= 256
    requires forall text :: Joined(cut(text)) == text
    ensures r == Joined(chunks)
  {
    hide Keyed, Run, Encrypt;
    var text := ProcessChunks(key, discardBytes, chunks);
    r := ProcessChunks(key, discardBytes, cut(text));
    EncryptInverts(Run(Keyed(key), discardBytes), Joined(chunks));
  }
}
