/** Which runs of calls an authenticated cipher accepts, and what they add up to (authenc.cpp). */
module AuthEncRuns {
  import opened AuthEncProtocol

  function Sum(ns: seq<nat>): nat {
    if ns == [] then 0 else ns[0] + Sum(ns[1..])
  }

  function Updates(ns: seq<nat>): (calls: seq<Call>)
    ensures |calls| == |ns| && forall i :: 0 <= i < |ns| ==> calls[i] == Update(ns[i])
  {
    seq(|ns|, i requires 0 <= i < |ns| => Update(ns[i]))
  }

  function Processes(ns: seq<nat>): (calls: seq<Call>)
    ensures |calls| == |ns| && forall i :: 0 <= i < |ns| ==> calls[i] == ProcessData(ns[i])
  {
    seq(|ns|, i requires 0 <= i < |ns| => ProcessData(ns[i]))
  }

  ghost predicate Positive(ns: seq<nat>) {
    forall i :: 0 <= i < |ns| ==> ns[i] > 0
  }

  /** A mode whose hooks for header and message never throw. */
  ghost predicate Willing(mode: Mode) {
    mode.blockSize > 0 && (forall m :: mode.headerHook(m)) && forall m :: mode.confidentialHook(m)
  }

  predicate Taking(m: Machine) {
    m.state == AuthUntransformed || m.state == AuthTransformed
  }

  /** The calls of the footer, from the footer on. */
  lemma {:induction false} FooterRun(mode: Mode, m: Machine, fs: seq<nat>)
    requires Willing(mode) && m.state == AuthFooter && Positive(fs)
    ensures Run(mode, m, Updates(fs)).Finished?
    ensures var r := Run(mode, m, Updates(fs)).machine;
            && r.state == AuthFooter && r.header == m.header && r.message == m.message && r.footer == m.footer + Sum(fs)
            && r.log == m.log
    decreases |fs|
  {
    if fs != [] {
      var n := fs[0];
      assert Updates(fs)[1..] == Updates(fs[1..]);
      FooterRun(mode, Step(mode, m, Update(n)).after, fs[1..]);
    }
  }

  /** Message and footer, from the message on. */
  lemma {:induction false} MessageRun(mode: Mode, m: Machine, ms: seq<nat>, fs: seq<nat>)
    requires Willing(mode) && Taking(m) && m.message <= mode.maxMessage && Positive(fs)
    ensures Run(mode, m, Processes(ms) + Updates(fs)).Finished? <==> m.message + Sum(ms) <= mode.maxMessage
    ensures Run(mode, m, Processes(ms) + Updates(fs)).Finished? ==>
              var r := Run(mode, m, Processes(ms) + Updates(fs)).machine;
              && r.header == m.header && r.message == m.message + Sum(ms) && r.footer == m.footer + Sum(fs)
              && (if fs == [] then r.state == m.state && r.log == m.log
                  else r.state == AuthFooter && r.log == m.log + [ConfidentialDone])
    decreases |ms|
  {
    var calls := Processes(ms) + Updates(fs);
    if ms != [] {
      assert calls[1..] == Processes(ms[1..]) + Updates(fs);
      if m.message + ms[0] <= mode.maxMessage {
        MessageRun(mode, Step(mode, m, ProcessData(ms[0])).after, ms[1..], fs);
      }
    } else if fs != [] {
      assert calls == Updates(fs) && Updates(fs)[1..] == Updates(fs[1..]);
      FooterRun(mode, Step(mode, m, Update(fs[0])).after, fs[1..]);
    }
  }

  /** Header in any pieces, then message in any pieces, then footer in any pieces, which a message must precede: the run
      goes through exactly if the message is not too long, and the totals are the sums of the pieces. */
  lemma {:induction false} OrderlyRuns(mode: Mode, m: Machine, hs: seq<nat>, ms: seq<nat>, fs: seq<nat>)
    requires Willing(mode) && m.state == IVSet && m.message <= mode.maxMessage && Positive(hs) && Positive(fs)
    requires ms == [] ==> fs == []
    ensures Run(mode, m, Updates(hs) + Processes(ms) + Updates(fs)).Finished? <==> m.message + Sum(ms) <= mode.maxMessage
    ensures Run(mode, m, Updates(hs) + Processes(ms) + Updates(fs)).Finished? ==>
              var r := Run(mode, m, Updates(hs) + Processes(ms) + Updates(fs)).machine;
              && r.header == m.header + Sum(hs) && r.message == m.message + Sum(ms) && r.footer == m.footer + Sum(fs)
              && (if ms == [] then r.state == IVSet && r.log == m.log
                  else if fs == [] then r.log == m.log + [HeaderDone] &&
                    r.state == if mode.onUntransformed then AuthUntransformed else AuthTransformed
                  else r.state == AuthFooter && r.log == m.log + [HeaderDone, ConfidentialDone])
    decreases |hs|
  {
    var calls := Updates(hs) + Processes(ms) + Updates(fs);
    if hs != [] {
      assert calls[1..] == Updates(hs[1..]) + Processes(ms) + Updates(fs);
      OrderlyRuns(mode, Step(mode, m, Update(hs[0])).after, hs[1..], ms, fs);
    } else if ms != [] {
      assert calls[1..] == Processes(ms[1..]) + Updates(fs);
      if m.message + ms[0] <= mode.maxMessage {
        MessageRun(mode, Step(mode, m, ProcessData(ms[0])).after, ms[1..], fs);
      }
    }
  }

  /** What a final has to finalise. */
  function Remaining(m: Machine): seq<Finalisation> {
    if m.state == IVSet then [HeaderDone, ConfidentialDone, FooterDone]
    else if Taking(m) then [ConfidentialDone, FooterDone] else [FooterDone]
  }

  lemma FinalFrom(mode: Mode, m: Machine, macSize: nat, fits: bool)
    requires Willing(mode) && (m.state == IVSet || Taking(m) || m.state == AuthFooter)
    requires forall any: Machine :: mode.footerHook(any, macSize) == fits
    ensures var final := Step(mode, m, TruncatedFinal(macSize));
            && (final.returned <==> m.header <= mode.maxHeader && m.footer <= mode.maxFooter && fits)
            && (final.returned ==> final.after.state == KeySet && final.after.log == m.log + Remaining(m))
  {
  }

  /** The final after such a run returns exactly if header and footer are not too long and the hook for the footer does
      not refuse the tag size; then header, message and footer have each been finalised once. */
  lemma FinalOfOrderlyRun(mode: Mode, m: Machine, hs: seq<nat>, ms: seq<nat>, fs: seq<nat>, macSize: nat, fits: bool)
    requires Willing(mode) && m == Machine(IVSet, 0, 0, 0, 0, []) && Positive(hs) && Positive(fs)
    requires (ms == [] ==> fs == []) && Sum(ms) <= mode.maxMessage
    requires forall any: Machine :: mode.footerHook(any, macSize) == fits
    ensures Run(mode, m, Updates(hs) + Processes(ms) + Updates(fs)).Finished?
    ensures var run := Run(mode, m, Updates(hs) + Processes(ms) + Updates(fs)).machine;
            var final := Step(mode, run, TruncatedFinal(macSize));
            && (final.returned <==> Sum(hs) <= mode.maxHeader && Sum(fs) <= mode.maxFooter && fits)
            && (final.returned ==> final.after.log == [HeaderDone, ConfidentialDone, FooterDone])
  {
    hide Step, Run, Sum, Willing;
    assert mode.blockSize > 0 by { WillingBlock(mode); }
    OrderlyRuns(mode, m, hs, ms, fs);
    FinalFrom(mode, Run(mode, m, Updates(hs) + Processes(ms) + Updates(fs)).machine, macSize, fits);
  }

  lemma WillingBlock(mode: Mode)
    requires Willing(mode)
    ensures mode.blockSize > 0
  {
  }

  lemma ReturnsTo(mode: Mode, m: Machine, call: Call)
    requires mode.blockSize > 0 && (m.state == IVSet || Taking(m) || m.state == AuthFooter)
    requires (call.Update? && call.length > 0) || call.ProcessData?
    requires Step(mode, m, call).returned
    ensures var after := Step(mode, m, call).after;
            if call.ProcessData? then m.state != AuthFooter && Taking(after)
            else if m.state == IVSet then after.state == IVSet else after.state == AuthFooter
  {
  }

  lemma RunNext(mode: Mode, m: Machine, calls: seq<Call>)
    requires mode.blockSize > 0 && calls != [] && Run(mode, m, calls).Finished?
    ensures Step(mode, m, calls[0]).returned && Run(mode, Step(mode, m, calls[0]).after, calls[1..]).Finished?
  {
    hide Step;
  }

  lemma OneMore(n: nat, ns: seq<nat>)
    ensures Updates([n] + ns) == [Update(n)] + Updates(ns) && Processes([n] + ns) == [ProcessData(n)] + Processes(ns)
  {
  }

  /** Conversely, only such runs go through: a run of nonempty updates and of data is header, message and footer. */
  lemma {:induction false} AcceptedRunsAreOrderly(mode: Mode, m: Machine, calls: seq<Call>)
    returns (hs: seq<nat>, ms: seq<nat>, fs: seq<nat>)
    requires mode.blockSize > 0 && (m.state == IVSet || Taking(m) || m.state == AuthFooter)
    requires forall i :: 0 <= i < |calls| ==> (calls[i].Update? && calls[i].length > 0) || calls[i].ProcessData?
    requires Run(mode, m, calls).Finished?
    ensures calls == Updates(hs) + Processes(ms) + Updates(fs) && Positive(hs) && Positive(fs)
    ensures m.state != IVSet ==> hs == []
    ensures m.state == AuthFooter ==> ms == []
    ensures m.state == IVSet && ms == [] ==> fs == []
    decreases |calls|
  {
    hide Step, Run, Updates, Processes;
    if calls == [] {
      hs, ms, fs := [], [], [];
    } else {
      RunNext(mode, m, calls);
      ReturnsTo(mode, m, calls[0]);
      hs, ms, fs := AcceptedRunsAreOrderly(mode, Step(mode, m, calls[0]).after, calls[1..]);
      var n := calls[0].length;
      assert calls == [calls[0]] + calls[1..];
      if calls[0].ProcessData? {
        OneMore(n, ms);
        assert Updates(hs) == [];
        ms := [n] + ms;
      } else if m.state == IVSet {
        OneMore(n, hs);
        hs := [n] + hs;
      } else {
        OneMore(n, fs);
        assert Updates(hs) == [] && Processes(ms) == [];
        fs := [n] + fs;
      }
    }
  }

  /** Before key and initialization vector, and of data after the footer, every call but an empty update throws. */
  lemma OutOfOrder(mode: Mode, m: Machine, n: nat, macSize: nat)
    requires mode.blockSize > 0
    ensures Step(mode, m, Update(0)) == Outcome(m, true)
    ensures m.state == Start || m.state == KeySet ==>
              && (n > 0 ==> !Step(mode, m, Update(n)).returned)
              && !Step(mode, m, ProcessData(n)).returned && !Step(mode, m, TruncatedFinal(macSize)).returned
    ensures m.state == AuthFooter ==> !Step(mode, m, ProcessData(n)).returned
    ensures m.state == Start <==> !Step(mode, m, Resynchronize(true)).returned
    ensures m.state != Start ==> Step(mode, m, Resynchronize(true)).after == Machine(IVSet, 0, 0, 0, 0, [])
  {
  }
}
