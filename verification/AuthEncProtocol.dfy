/** The call protocol of authenticated encryption (authenc.cpp, `AuthenticatedSymmetricCipherBase`),
    whatever mode of operation is behind it. */
module AuthEncProtocol {
  import opened Arithmetic

  datatype State = Start | KeySet | IVSet | AuthUntransformed | AuthTransformed | AuthFooter

  /** Completed calls of `AuthenticateLastHeaderBlock`, `...ConfidentialBlock` and `...FooterBlock`. */
  datatype Finalisation = HeaderDone | ConfidentialDone | FooterDone

  /** The fields of the base class, and the finalisations since the last `Resynchronize`. */
  datatype Machine = Machine(state: State, header: nat, message: nat, footer: nat, buffered: nat,
                             log: seq<Finalisation>)

  /** What a mode supplies. Its finalisation hooks may throw, depending on the machine and, for the footer, on the
      size of tag asked for. */
  datatype Mode = Mode(blockSize: nat, maxHeader: nat, maxMessage: nat, maxFooter: nat, onUntransformed: bool,
                       headerHook: Machine -> bool, confidentialHook: Machine -> bool,
                       footerHook: (Machine, nat) -> bool)

  datatype Call =
    | Resynchronize(ivLengthValid: bool)
    | Preload(length: nat)            // a mode may put fewer than `blockSize` bytes into the buffer
    | Update(length: nat)
    | ProcessData(length: nat)
    | TruncatedFinal(macSize: nat)

  /** The machine after a call, and whether the call returned without throwing. */
  datatype Outcome = Outcome(after: Machine, returned: bool)

  /** What `AuthenticateData` leaves in the buffer: the input is added to it, or completes it and is taken in whole
      blocks, of which the mode leaves the remainder. */
  function BufferedLength(buffered: nat, length: nat, blockSize: nat): (r: nat)
    requires blockSize > 0
    ensures buffered < blockSize ==> r < blockSize && r == (buffered + length) % blockSize
  {
    RemainderSteps(buffered + length, blockSize);
    if 0 < buffered && buffered + length < blockSize then buffered + length
    else
      var rest := if buffered > 0 then length - (blockSize - buffered) else length;
      if rest >= blockSize then rest % blockSize else rest
  }

  lemma RemainderSteps(n: nat, d: nat)
    requires d > 0
    ensures n < d ==> n % d == n
    ensures n >= d ==> (n - d) % d == n % d
    ensures d <= n < 2 * d ==> n % d == n - d
  {
    if n < d {
      DivModUnique(n, d, 0, n);
    } else {
      DivMod(n, d);
      MulDistributes(n / d, 1, d);
      DivModUnique(n - d, d, n / d - 1, n % d);
      if n < 2 * d { DivModUnique(n, d, 1, n - d); }
    }
  }

  function Buffered(mode: Mode, m: Machine, length: nat): Machine
    requires mode.blockSize > 0
  {
    m.(buffered := BufferedLength(m.buffered, length, mode.blockSize))
  }

  function FinishHeader(mode: Mode, m: Machine): Outcome {
    if mode.headerHook(m) then Outcome(m.(buffered := 0, log := m.log + [HeaderDone]), true) else Outcome(m, false)
  }

  function FinishConfidential(mode: Mode, m: Machine): Outcome {
    if mode.confidentialHook(m) then Outcome(m.(buffered := 0, log := m.log + [ConfidentialDone]), true)
    else Outcome(m, false)
  }

  function DoResynchronize(m: Machine, ivLengthValid: bool): Outcome {
    if m.state == Start then Outcome(m, false)
    else Outcome(Machine(if ivLengthValid then IVSet else KeySet, 0, 0, 0, 0, []), ivLengthValid)
  }

  function DoPreload(mode: Mode, m: Machine, length: nat): Outcome {
    if m.state == IVSet && length < mode.blockSize then Outcome(m.(buffered := length), true) else Outcome(m, false)
  }

  /** `Update` outside the header, up to the point where it has the footer state. */
  function DoBeginFooter(mode: Mode, m: Machine): Outcome {
    match m.state
    case Start | KeySet | IVSet => Outcome(m, false)
    case AuthUntransformed | AuthTransformed =>
      var done := FinishConfidential(mode, m);
      if !done.returned then done else Outcome(done.after.(state := AuthFooter), true)
    case AuthFooter => Outcome(m, true)
  }

  function DoUpdate(mode: Mode, m: Machine, length: nat): Outcome
    requires mode.blockSize > 0
  {
    if length == 0 then Outcome(m, true)
    else if m.state == IVSet then Outcome(Buffered(mode, m, length).(header := m.header + length), true)
    else
      var begun := DoBeginFooter(mode, m);
      if !begun.returned then begun
      else Outcome(Buffered(mode, begun.after, length).(footer := m.footer + length), true)
  }

  /** `ProcessData` up to the point where it has a message state. */
  function DoAdmit(mode: Mode, m: Machine, length: nat): Outcome {
    if m.state != Start && m.state != KeySet && length > mode.maxMessage - m.message then Outcome(m, false)
    else
      var m := m.(message := m.message + length);
      match m.state
      case Start | KeySet | AuthFooter => Outcome(m, false)
      case IVSet =>
        var done := FinishHeader(mode, m);
        if !done.returned then done
        else Outcome(done.after.(state := if mode.onUntransformed then AuthUntransformed else AuthTransformed), true)
      case AuthUntransformed | AuthTransformed => Outcome(m, true)
  }

  function DoProcessData(mode: Mode, m: Machine, length: nat): Outcome
    requires mode.blockSize > 0
  {
    var admitted := DoAdmit(mode, m, length);
    if !admitted.returned then admitted else Outcome(Buffered(mode, admitted.after, length), true)
  }

  /** The header and confidential finalisations that `TruncatedFinal` still has to do. */
  function DoFinishAll(mode: Mode, m: Machine): Outcome {
    if m.state == Start || m.state == KeySet then Outcome(m, false)
    else
      var headerDone := if m.state == IVSet then FinishHeader(mode, m) else Outcome(m, true);
      if !headerDone.returned || m.state == AuthFooter then headerDone else FinishConfidential(mode, headerDone.after)
  }

  /** A final that throws in a later hook keeps what earlier hooks have done, and the state. */
  function DoTruncatedFinal(mode: Mode, m: Machine, macSize: nat): Outcome {
    if m.header > mode.maxHeader || m.footer > mode.maxFooter then Outcome(m, false)
    else
      var done := DoFinishAll(mode, m);
      if !done.returned then done
      else if !mode.footerHook(done.after, macSize) then Outcome(done.after, false)
      else Outcome(done.after.(buffered := 0, state := KeySet, log := done.after.log + [FooterDone]), true)
  }

  function Step(mode: Mode, m: Machine, call: Call): Outcome
    requires mode.blockSize > 0
  {
    match call
    case Resynchronize(valid) => DoResynchronize(m, valid)
    case Preload(length) => DoPreload(mode, m, length)
    case Update(length) => DoUpdate(mode, m, length)
    case ProcessData(length) => DoProcessData(mode, m, length)
    case TruncatedFinal(macSize) => DoTruncatedFinal(mode, m, macSize)
  }

  /** The machine after a run in which no call throws. */
  datatype RunResult = Stopped | Finished(machine: Machine)

  function Run(mode: Mode, m: Machine, calls: seq<Call>): RunResult
    requires mode.blockSize > 0
    decreases |calls|
  {
    if calls == [] then Finished(m)
    else
      var first := Step(mode, m, calls[0]);
      if first.returned then Run(mode, first.after, calls[1..]) else Stopped
  }

  /** What the state says about the finalisations so far, the buffer and the message total. */
  ghost predicate Consistent(mode: Mode, m: Machine) {
    && m.buffered < mode.blockSize
    && (m.state == IVSet ==> m.log == [])
    && (m.state == AuthUntransformed || m.state == AuthTransformed ==> m.log == [HeaderDone])
    && (m.state == AuthFooter ==> m.log == [HeaderDone, ConfidentialDone])
    && (m.state != Start && m.state != KeySet ==> m.message <= mode.maxMessage)
  }

  lemma StepKeepsConsistent(mode: Mode, m: Machine, call: Call)
    requires mode.blockSize > 0 && Consistent(mode, m) && Step(mode, m, call).returned
    ensures Consistent(mode, Step(mode, m, call).after)
    ensures call.TruncatedFinal? ==>
              && Step(mode, m, call).after.state == KeySet
              && Step(mode, m, call).after.log == [HeaderDone, ConfidentialDone, FooterDone]
  {}

  /** After `Resynchronize`, every run in which no call throws keeps the buffer below a block and the
      message within its maximum, and one that ends with `TruncatedFinal` has finalised header,
      confidential data and footer once each, in that order. */
  lemma {:induction false} RunsFinaliseOnceInOrder(mode: Mode, m: Machine, calls: seq<Call>)
    requires mode.blockSize > 0 && Consistent(mode, m) && Run(mode, m, calls).Finished?
    ensures Consistent(mode, Run(mode, m, calls).machine)
    ensures calls != [] && calls[|calls| - 1].TruncatedFinal? ==>
              Run(mode, m, calls).machine.log == [HeaderDone, ConfidentialDone, FooterDone]
    decreases |calls|
  {
    if calls != [] {
      StepKeepsConsistent(mode, m, calls[0]);
      RunsFinaliseOnceInOrder(mode, Step(mode, m, calls[0]).after, calls[1..]);
      if |calls| > 1 { assert calls[1..][|calls| - 2] == calls[|calls| - 1]; }
    }
  }

  // ----- runs that go on after a call has thrown -----

  /** The machine after all calls, whether they return or throw. */
  function RunOn(mode: Mode, m: Machine, calls: seq<Call>): Machine
    requires mode.blockSize > 0
  {
    if calls == [] then m
    else
      var n := |calls| - 1;
      Step(mode, RunOn(mode, m, calls[..n]), calls[n]).after
  }

  /** What a call that throws has finalised before it throws. */
  function Wasted(mode: Mode, m: Machine, call: Call): seq<Finalisation>
    requires mode.blockSize > 0
  {
    if Step(mode, m, call).returned || !call.TruncatedFinal? || m.header > mode.maxHeader || m.footer > mode.maxFooter then []
    else if m.state == IVSet && mode.headerHook(m) then
      if mode.confidentialHook(FinishHeader(mode, m).after) then [HeaderDone, ConfidentialDone] else [HeaderDone]
    else if (m.state == AuthUntransformed || m.state == AuthTransformed) && mode.confidentialHook(m) then [ConfidentialDone]
    else []
  }

  /** All that since the last `Resynchronize` of a keyed object: before the header was finalised for good, and after. */
  datatype Waste = Waste(early: seq<Finalisation>, late: seq<Finalisation>)

  function Wastes(mode: Mode, m: Machine, calls: seq<Call>): Waste
    requires mode.blockSize > 0
  {
    if calls == [] then Waste([], [])
    else
      var n := |calls| - 1;
      NextWaste(mode, RunOn(mode, m, calls[..n]), Wastes(mode, m, calls[..n]), calls[n])
  }

  function NextWaste(mode: Mode, m: Machine, w: Waste, call: Call): Waste
    requires mode.blockSize > 0
  {
    if call.Resynchronize? && m.state != Start then Waste([], [])
    else if m.state == IVSet then w.(early := w.early + Wasted(mode, m, call))
    else w.(late := w.late + Wasted(mode, m, call))
  }

  /** As `Consistent`, with what throwing finals have done in between. */
  ghost predicate ConsistentBut(mode: Mode, m: Machine, w: Waste) {
    && m.buffered < mode.blockSize
    && (m.state == IVSet ==> m.log == w.early && w.late == [])
    && (m.state == AuthUntransformed || m.state == AuthTransformed ==> m.log == w.early + [HeaderDone] + w.late)
    && (m.state == AuthFooter ==> m.log == w.early + [HeaderDone] + w.late + [ConfidentialDone])
    && (m.state != Start && m.state != KeySet ==> m.message <= mode.maxMessage)
  }

  /** The finalisations that a returning `TruncatedFinal` leaves. */
  function Complete(w: Waste): seq<Finalisation> {
    w.early + [HeaderDone] + w.late + [ConfidentialDone] + [FooterDone]
  }

  lemma StepKeepsConsistentBut(mode: Mode, m: Machine, w: Waste, call: Call)
    requires mode.blockSize > 0 && ConsistentBut(mode, m, w)
    ensures ConsistentBut(mode, Step(mode, m, call).after, NextWaste(mode, m, w, call))
    ensures call.TruncatedFinal? && Step(mode, m, call).returned ==>
              NextWaste(mode, m, w, call) == w && Step(mode, m, call).after.log == Complete(w)
  {
    if call.TruncatedFinal? {
      FinalKeepsConsistentBut(mode, m, w, call);
    } else {
      hide DoTruncatedFinal, DoFinishAll, Complete;
    }
  }

  lemma FinalKeepsConsistentBut(mode: Mode, m: Machine, w: Waste, call: Call)
    requires mode.blockSize > 0 && ConsistentBut(mode, m, w) && call.TruncatedFinal?
    ensures ConsistentBut(mode, Step(mode, m, call).after, NextWaste(mode, m, w, call))
    ensures Step(mode, m, call).returned ==>
              NextWaste(mode, m, w, call) == w && Step(mode, m, call).after.log == Complete(w)
  {
    hide DoResynchronize, DoPreload, DoUpdate, DoProcessData;
  }

  /** In every run, whatever throws, the buffer stays below a block and the message within its maximum, and a
      returning `TruncatedFinal` leaves the finalisations of header, confidential data and footer together with those
      that earlier finals had completed before they threw: once each in order if and only if there were none. */
  lemma {:induction false} RunsFinaliseExactly(mode: Mode, m: Machine, calls: seq<Call>)
    requires mode.blockSize > 0 && Consistent(mode, m)
    ensures ConsistentBut(mode, RunOn(mode, m, calls), Wastes(mode, m, calls))
    ensures calls != [] && calls[|calls| - 1].TruncatedFinal? &&
            Step(mode, RunOn(mode, m, calls[..|calls| - 1]), calls[|calls| - 1]).returned ==>
              && RunOn(mode, m, calls).log == Complete(Wastes(mode, m, calls))
              && (RunOn(mode, m, calls).log == [HeaderDone, ConfidentialDone, FooterDone]
                  <==> Wastes(mode, m, calls) == Waste([], []))
  {
    if calls != [] {
      var n := |calls| - 1;
      RunsFinaliseExactly(mode, m, calls[..n]);
      StepKeepsConsistentBut(mode, RunOn(mode, m, calls[..n]), Wastes(mode, m, calls[..n]), calls[n]);
      OnceEach(Wastes(mode, m, calls));
    }
  }

  lemma OnceEach(w: Waste)
    ensures Complete(w) == [HeaderDone, ConfidentialDone, FooterDone] <==> w == Waste([], [])
  {
    assert |Complete(w)| == |w.early| + |w.late| + 3;
  }

  /** There were none exactly when no final since the last `Resynchronize` completed a hook before it threw. */
  lemma {:induction false} NoWasteExactly(mode: Mode, m: Machine, calls: seq<Call>, from: nat)
    requires mode.blockSize > 0 && from <= |calls|
    requires from == 0 || (calls[from - 1].Resynchronize? && RunOn(mode, m, calls[..from - 1]).state != Start)
    requires forall i :: from <= i < |calls| ==> !calls[i].Resynchronize?
    ensures Wastes(mode, m, calls) == Waste([], [])
       <==> forall i :: from <= i < |calls| ==> Wasted(mode, RunOn(mode, m, calls[..i]), calls[i]) == []
    decreases |calls|
  {
    hide Step, RunOn, Wasted, Wastes, NextWaste;
    if from == |calls| {
      NoWasteAtStart(mode, m, calls);
    } else {
      var n := |calls| - 1;
      var front := calls[..n];
      assert from > 0 ==> front[..from - 1] == calls[..from - 1];
      assert forall i :: from <= i < n ==> front[i] == calls[i] && front[..i] == calls[..i];
      NoWasteExactly(mode, m, front, from);
      NoMoreWaste(mode, m, calls);
    }
  }

  lemma NoWasteAtStart(mode: Mode, m: Machine, calls: seq<Call>)
    requires mode.blockSize > 0
    requires calls == [] || (calls[|calls| - 1].Resynchronize? && RunOn(mode, m, calls[..|calls| - 1]).state != Start)
    ensures Wastes(mode, m, calls) == Waste([], [])
  {
    hide Step, RunOn, Wasted;
  }

  lemma NoMoreWaste(mode: Mode, m: Machine, calls: seq<Call>)
    requires mode.blockSize > 0 && calls != [] && !calls[|calls| - 1].Resynchronize?
    ensures Wastes(mode, m, calls) == Waste([], [])
       <==> && Wastes(mode, m, calls[..|calls| - 1]) == Waste([], [])
            && Wasted(mode, RunOn(mode, m, calls[..|calls| - 1]), calls[|calls| - 1]) == []
  {
    hide Step, RunOn, Wasted;
    var n := |calls| - 1;
    assert Wastes(mode, m, calls) ==
           NextWaste(mode, RunOn(mode, m, calls[..n]), Wastes(mode, m, calls[..n]), calls[n]);
  }

  /** A mode that checks for a message of one byte, as CCM does for the declared length. */
  function OneByteMessage(): Mode {
    Mode(16, 0, 1, 0, true, (m: Machine) => true, (m: Machine) => m.message == 1, (m: Machine, size: nat) => true)
  }

  /** A completed run that finalises the header twice: the message length is checked and the first final is early. */
  lemma ThrowingHookRepeatsHeader()
    ensures var mode := OneByteMessage();
            var m := Machine(IVSet, 0, 0, 0, 0, []);
            var calls := [TruncatedFinal(16), ProcessData(1), TruncatedFinal(16)];
            && Consistent(mode, m) && Step(mode, RunOn(mode, m, calls[..2]), calls[2]).returned
            && RunOn(mode, m, calls).log == [HeaderDone, HeaderDone, ConfidentialDone, FooterDone]
  {
    var mode := OneByteMessage();
    var m := Machine(IVSet, 0, 0, 0, 0, []);
    var calls := [TruncatedFinal(16), ProcessData(1), TruncatedFinal(16)];
    assert calls[..2][..1] == [TruncatedFinal(16)] && [TruncatedFinal(16)][..0] == [];
    assert RunOn(mode, m, calls[..2][..1][..0]) == m;
    var first := RunOn(mode, m, calls[..2][..1]);
    assert first == m.(log := [HeaderDone]);
    var second := RunOn(mode, m, calls[..2]);
    assert second.state == AuthUntransformed && second.message == 1 && second.log == [HeaderDone, HeaderDone];
  }

  /** A mode whose tag has 16 bytes and that refuses to make a longer one, as EAX and ChaCha20-Poly1305 do. */
  function SixteenByteTag(): Mode {
    Mode(16, 0, 1, 0, true, (m: Machine) => true, (m: Machine) => true, (m: Machine, size: nat) => size <= 16)
  }

  /** A tag size that is refused and one that is not, with no data at all: header and confidential data are finalised
      twice. */
  lemma RefusedTagSizeRepeatsBoth()
    ensures var mode := SixteenByteTag();
            var m := Machine(IVSet, 0, 0, 0, 0, []);
            var calls := [TruncatedFinal(17), TruncatedFinal(16)];
            && Consistent(mode, m) && Step(mode, RunOn(mode, m, calls[..1]), calls[1]).returned
            && RunOn(mode, m, calls).log == [HeaderDone, ConfidentialDone, HeaderDone, ConfidentialDone, FooterDone]
  {
    var mode := SixteenByteTag();
    var m := Machine(IVSet, 0, 0, 0, 0, []);
    var calls := [TruncatedFinal(17), TruncatedFinal(16)];
    assert calls[..1][..0] == [];
    assert RunOn(mode, m, calls[..1][..0]) == m;
    var first := RunOn(mode, m, calls[..1]);
    assert first.state == IVSet && first.log == [HeaderDone, ConfidentialDone];
  }
}
