/** Signed sliding-window recoding of an exponent (algebra.cpp, `WindowSlider`). */
module WindowSliders {
  import opened Arithmetic

  /** A window: the exponent contributes `digit * 2^begin`. */
  datatype Window = Window(begin: nat, digit: int)

  /** The windows of `rest * 2^pos`, lowest first. With `fast` negation a window followed by a
      one bit is replaced by its complement and a carry into the rest. */
  function Recode(rest: nat, pos: nat, w: nat, fast: bool): (ws: seq<Window>)
    requires w >= 1
    ensures rest == 0 <==> ws == []
    decreases rest
  {
    if rest == 0 then []
    else if rest % 2 == 0 then Recode(rest / 2, pos + 1, w, fast)
    else [Window(pos, Digit(rest, w, fast))] + Recode(Rest(rest, w, fast), pos + w, w, fast)
  }

  /** Whether the window at the bottom of `rest` is complemented. */
  predicate Complemented(rest: nat, w: nat, fast: bool) {
    fast && Bit(rest, w) == 1
  }

  /** The signed digit of the window at the bottom of an odd `rest`. */
  function Digit(rest: nat, w: nat, fast: bool): int {
    if Complemented(rest, w, fast) then LowBits(rest, w) - Pow2(w) else LowBits(rest, w)
  }

  /** What is left above that window, carry included. */
  function Rest(rest: nat, w: nat, fast: bool): (r: nat)
    requires w >= 1
    ensures rest % 2 == 1 ==> r < rest
  {
    if Complemented(rest, w, fast) then Shr(rest, w) + 1 else Shr(rest, w)
  }

  /** The integer a list of windows stands for. */
  function Value(ws: seq<Window>): int {
    if ws == [] then 0 else ws[0].digit * Pow2(ws[0].begin) + Value(ws[1..])
  }

  /** The recoding is exact: its digits sum to the exponent. */
  lemma {:induction false} RecodeIsExact(rest: nat, pos: nat, w: nat, fast: bool)
    requires w >= 1
    ensures Value(Recode(rest, pos, w, fast)) == rest * Pow2(pos)
    decreases rest
  {
    if rest == 0 {
    } else if rest % 2 == 0 {
      RecodeIsExact(rest / 2, pos + 1, w, fast);
      MulAssociates(rest / 2, 2, Pow2(pos));
    } else {
      RecodeIsExact(Rest(rest, w, fast), pos + w, w, fast);
      WindowIsExact(rest, pos, w, fast);
      assert Recode(rest, pos, w, fast)[1..] == Recode(Rest(rest, w, fast), pos + w, w, fast);
    }
  }

  /** Taking a window off, complemented or not, loses nothing. */
  lemma WindowIsExact(rest: nat, pos: nat, w: nat, fast: bool)
    requires w >= 1
    ensures Digit(rest, w, fast) * Pow2(pos) + Rest(rest, w, fast) * Pow2(pos + w) == rest * Pow2(pos)
  {
    var d, r, p := Digit(rest, w, fast), Rest(rest, w, fast), Pow2(w);
    calc {
      d * Pow2(pos) + r * Pow2(pos + w);
      { Pow2Add(w, pos); MulAssociates(r, p, Pow2(pos)); }
      d * Pow2(pos) + (r * p) * Pow2(pos);
      { MulDistributes(d, r * p, Pow2(pos)); }
      (d + r * p) * Pow2(pos);
      { MulDistributes(Shr(rest, w), 1, p); ShiftSplits(rest, w); }
      rest * Pow2(pos);
    }
  }

  /** Every digit is odd and below 2^w in magnitude, negative only under `fast`; every window
      starts at or after `pos` and successive ones are at least `w` apart. */
  ghost predicate WellSpaced(ws: seq<Window>, pos: nat, w: nat, fast: bool) {
    && (forall i :: 0 <= i < |ws| ==> GoodWindow(ws[i], pos, w, fast))
    && (forall i, j :: 0 <= i < j < |ws| ==> ws[i].begin + w <= ws[j].begin)
  }

  ghost predicate GoodWindow(window: Window, pos: nat, w: nat, fast: bool) {
    && window.digit % 2 == 1
    && 0 - Pow2(w) < window.digit < Pow2(w)
    && (!fast ==> window.digit > 0)
    && window.begin >= pos
  }

  lemma {:induction false} RecodeIsWellSpaced(rest: nat, pos: nat, w: nat, fast: bool)
    requires w >= 1
    ensures WellSpaced(Recode(rest, pos, w, fast), pos, w, fast)
    decreases rest
  {
    if rest == 0 {
    } else if rest % 2 == 0 {
      RecodeIsWellSpaced(rest / 2, pos + 1, w, fast);
    } else {
      var head, tail := Window(pos, Digit(rest, w, fast)), Recode(Rest(rest, w, fast), pos + w, w, fast);
      RecodeIsWellSpaced(Rest(rest, w, fast), pos + w, w, fast);
      DigitIsGood(rest, pos, w, fast);
      assert forall i :: 0 <= i < |tail| ==> GoodWindow(tail[i], pos + w, w, fast);
    }
  }

  lemma DigitIsGood(rest: nat, pos: nat, w: nat, fast: bool)
    requires w >= 1 && rest % 2 == 1
    ensures GoodWindow(Window(pos, Digit(rest, w, fast)), pos, w, fast)
  {
    assert Pow2(w) == 2 * Pow2(w - 1);
  }

  const WORD_BITS := 64

  /** Number of machine words a non-negative integer occupies, as `Integer::WordCount`. */
  function WordCount(n: nat): (c: nat)
    ensures c * WORD_BITS >= BitCount(n)
  {
    (BitCount(n) + WORD_BITS - 1) / WORD_BITS
  }

  class WindowSlider {
    var exp: nat
    var windowModulus: nat
    var windowSize: nat
    var windowBegin: nat
    var expWindow: nat
    var fastNegate: bool
    var negateNext: bool
    var firstTime: bool
    var finished: bool

    ghost predicate Valid()
      reads this
    {
      && 1 <= windowSize < 32
      && windowModulus == Pow2(windowSize)
      && (finished ==> !firstTime && Remaining() == [])
      && (!firstTime && !finished ==> expWindow % 2 == 1 && expWindow < Pow2(windowSize))
    }

    /** The windows `FindNextWindow` has not reached yet. */
    ghost function Remaining(): seq<Window>
      reads this
      requires windowSize >= 1
    {
      if firstTime then Recode(exp, windowBegin, windowSize, fastNegate)
      else Recode(Shr(exp, windowSize), windowBegin + windowSize, windowSize, fastNegate)
    }

    /** The window `FindNextWindow` stopped at. */
    ghost function Current(): Window
      reads this
    {
      Window(windowBegin, if negateNext then 0 - expWindow else expWindow)
    }

    /** The current window, if there is one, and those after it. */
    ghost function Pending(): seq<Window>
      reads this
      requires windowSize >= 1
    {
      if finished then [] else if firstTime then Remaining() else [Current()] + Remaining()
    }

    constructor (expIn: nat, fast: bool, windowSizeIn: nat)
      requires windowSizeIn < 32
      ensures Valid() && firstTime && !finished && fastNegate == fast
      ensures Remaining() == Recode(expIn, 0, windowSize, fast)
      ensures windowSizeIn > 0 ==> windowSize == windowSizeIn
      ensures windowSizeIn == 0 ==> windowSize <= 7
    {
      exp := expIn;
      windowBegin := 0;
      expWindow := 0;
      fastNegate := fast;
      negateNext, firstTime, finished := false, true, false;
      var size := windowSizeIn;
      if size == 0 {
        var expLen := BitCount(expIn);
        size := if expLen <= 17 then 1 else if expLen <= 24 then 2 else if expLen <= 70 then 3
                else if expLen <= 197 then 4 else if expLen <= 539 then 5
                else if expLen <= 1434 then 6 else 7;
      }
      windowSize := size;
      windowModulus := Pow2(size);
    }

    /** Moves to the next window of the recoding, or finishes when there is none. */
    method FindNextWindow()
      requires Valid() && !finished
      modifies this
      ensures Valid() && !firstTime
      ensures windowSize == old(windowSize) && fastNegate == old(fastNegate)
      ensures Pending() == old(Remaining())
    {
      hide Recode, LowBits, Pow2;
      var found, skipCount := NextOne(exp, if firstTime then 0 else windowSize);
      if !found {
        firstTime := false;
        finished := true;
        return;
      }
      RecodeSkipsZeros(exp, if firstTime then 0 else windowSize, skipCount, windowBegin, windowSize, fastNegate);
      firstTime := false;
      windowBegin := windowBegin + skipCount;
      exp, expWindow, negateNext :=
        TakeWindow(Shr(exp, skipCount), windowSize, windowModulus, fastNegate, windowBegin);
    }
  }

  /** The window cut of `FindNextWindow`: the window's magnitude and sign, and the exponent with
      the carry of a complemented window added. */
  method TakeWindow(exp: nat, windowSize: nat, windowModulus: nat, fastNegate: bool, ghost pos: nat)
    returns (carried: nat, expWindow: nat, negateNext: bool)
    requires windowSize >= 1 && windowModulus == Pow2(windowSize) && exp % 2 == 1
    ensures Recode(exp, pos, windowSize, fastNegate)
         == [Window(pos, if negateNext then 0 - expWindow else expWindow)]
          + Recode(Shr(carried, windowSize), pos + windowSize, windowSize, fastNegate)
    ensures expWindow % 2 == 1 && expWindow < Pow2(windowSize)
  {
    hide Shr, LowBits, Pow2;
    carried := exp;
    expWindow := LowBits(exp, windowSize);
    if fastNegate && Bit(exp, windowSize) != 0 {
      negateNext := true;
      expWindow := Pow2(windowSize) - expWindow;
      carried := carried + windowModulus;
      ShiftCarry(exp, windowSize);
      Pow2Succ(windowSize - 1);
    } else {
      negateNext := false;
    }
  }

  /** The scan loop of `FindNextWindow`: the first one bit at or above `start`. */
  method NextOne(exp: nat, start: nat) returns (found: bool, skipCount: nat)
    ensures found ==> skipCount >= start && Bit(exp, skipCount) == 1
    ensures found ==> forall k :: start <= k < skipCount ==> Bit(exp, k) == 0
    ensures !found <==> Shr(exp, start) == 0
  {
    var expLen := WordCount(exp) * WORD_BITS;
    skipCount := start;
    while Bit(exp, skipCount) == 0
      invariant skipCount >= start
      invariant forall k :: start <= k < skipCount ==> Bit(exp, k) == 0
      decreases expLen - skipCount
    {
      if skipCount >= expLen {
        ShiftBeyond(exp, skipCount);
        NoOnes(exp, start, skipCount);
        return false, skipCount;
      }
      skipCount := skipCount + 1;
    }
    ShiftShift(exp, start, skipCount - start);
    found := true;
  }

  lemma {:induction false} NoOnes(exp: nat, a: nat, b: nat)
    requires a <= b && Shr(exp, b) == 0
    requires forall k :: a <= k < b ==> Bit(exp, k) == 0
    ensures Shr(exp, a) == 0
    decreases b - a
  {
    if a < b {
      NoOnes(exp, a + 1, b);
      ShiftOne(exp, a);
      assert Bit(exp, a) == 0;
    }
  }

  lemma {:induction false} RecodeSkipsZeros(exp: nat, a: nat, b: nat, pos: nat, w: nat, fast: bool)
    requires a <= b && w >= 1
    requires forall k :: a <= k < b ==> Bit(exp, k) == 0
    ensures Recode(Shr(exp, a), pos + a, w, fast) == Recode(Shr(exp, b), pos + b, w, fast)
    decreases b - a
  {
    hide Shr;
    if a < b {
      assert Bit(exp, a) == 0;
      ShiftOne(exp, a);
      RecodeSkipsZeros(exp, a + 1, b, pos, w, fast);
    }
  }
}
