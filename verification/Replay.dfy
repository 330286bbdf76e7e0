/** The sliding replay window over packet numbers. */
module Replay {

  const WINDOW := 128

  /** The 128-bit bitmap is kept as its bits, bit 0 standing for `highest`. */
  datatype Window = Window(highest: nat, bitmap: seq<bool>, initialized: bool)

  function NewWindow(): (w: Window)
    ensures |w.bitmap| == WINDOW && !w.initialized
  {
    Window(0, seq(WINDOW, _ => false), false)
  }

  /** The bitmap 1: only `highest` itself is marked. */
  function OneBit(): (r: seq<bool>)
    ensures |r| == WINDOW && forall d :: 0 <= d < WINDOW ==> (r[d] <==> d == 0)
  {
    seq(WINDOW, i => i == 0)
  }

  function ShiftLeft(bitmap: seq<bool>, shift: nat): (r: seq<bool>)
    requires |bitmap| == WINDOW
    ensures |r| == WINDOW && forall d :: 0 <= d < WINDOW ==> (r[d] <==> d >= shift && bitmap[d - shift])
  {
    seq(WINDOW, i requires 0 <= i < WINDOW => i >= shift && bitmap[i - shift])
  }

  function Observe(w: Window, number: nat): (Window, bool)
    requires |w.bitmap| == WINDOW
  {
    if !w.initialized then (Window(number, OneBit(), true), true)
    else if number > w.highest then (Window(number, Advance(w.bitmap, number - w.highest), true), true)
    else if w.highest - number >= WINDOW || w.bitmap[w.highest - number] then (w, false)
    else (w.(bitmap := w.bitmap[w.highest - number := true]), true)
  }

  function Advance(bitmap: seq<bool>, shift: nat): (r: seq<bool>)
    requires |bitmap| == WINDOW
    ensures |r| == WINDOW
  {
    if shift >= WINDOW then OneBit() else ShiftLeft(bitmap, shift)[0 := true]
  }

  /** The window holds exactly the recent part of the set of accepted numbers. */
  predicate Remembers(w: Window, accepted: set<nat>) {
    && |w.bitmap| == WINDOW
    && (w.initialized <==> accepted != {})
    && (w.initialized ==>
          && w.highest in accepted
          && (forall a :: a in accepted ==> a <= w.highest)
          && (forall d :: 0 <= d < WINDOW ==> (w.bitmap[d] <==> d <= w.highest && w.highest - d in accepted)))
  }

  /** What the window should answer, from the set of accepted numbers alone. */
  predicate Fresh(accepted: set<nat>, number: nat) {
    number !in accepted && forall a :: a in accepted ==> a < number + WINDOW
  }

  /**
   A number is accepted exactly when it was never accepted before and is fewer
   than 128 below every accepted number; the bitmap keeps that up.
   */
  lemma ObserveExact(w: Window, accepted: set<nat>, number: nat)
    requires Remembers(w, accepted)
    ensures var (w', ok) := Observe(w, number);
            && (ok <==> Fresh(accepted, number))
            && Remembers(w', if ok then accepted + {number} else accepted)
  {
    var (w', ok) := Observe(w, number);
    if w.initialized && number > w.highest {
      MovedUp(w, accepted, number);
    } else if w.initialized && ok {
      MarkedBelow(w, accepted, number);
    }
  }

  lemma MovedUp(w: Window, accepted: set<nat>, number: nat)
    requires Remembers(w, accepted) && w.initialized && number > w.highest
    ensures Remembers(Observe(w, number).0, accepted + {number})
  {
    var w' := Observe(w, number).0;
    var shift := number - w.highest;
    forall d | 0 <= d < WINDOW
      ensures w'.bitmap[d] <==> d <= number && number - d in accepted + {number}
    {
      if d >= shift {
        assert number - d == w.highest - (d - shift);
      }
    }
  }

  lemma MarkedBelow(w: Window, accepted: set<nat>, number: nat)
    requires Remembers(w, accepted) && w.initialized && number <= w.highest && w.highest - number < WINDOW
    requires !w.bitmap[w.highest - number]
    ensures Remembers(Observe(w, number).0, accepted + {number})
  {
    var w' := Observe(w, number).0;
    forall d | 0 <= d < WINDOW
      ensures w'.bitmap[d] <==> d <= w'.highest && w'.highest - d in accepted + {number}
    {
      assert d == w.highest - number <==> w.highest - d == number;
    }
  }

  /** The numbers a window accepts when it is shown a sequence of them. */
  function Accepted(numbers: seq<nat>): set<nat>
  {
    if numbers == [] then {}
    else
      var before := Accepted(numbers[..|numbers| - 1]);
      var n := numbers[|numbers| - 1];
      if Fresh(before, n) then before + {n} else before
  }

  function After(numbers: seq<nat>): (w: Window)
    ensures |w.bitmap| == WINDOW
  {
    if numbers == [] then NewWindow() else Observe(After(numbers[..|numbers| - 1]), numbers[|numbers| - 1]).0
  }

  /** Over every run of observations, the window agrees with the unbounded set of accepted numbers. */
  lemma {:induction false} WindowRefinesSet(numbers: seq<nat>)
    ensures Remembers(After(numbers), Accepted(numbers))
  {
    if numbers != [] {
      var n := |numbers| - 1;
      WindowRefinesSet(numbers[..n]);
      ObserveExact(After(numbers[..n]), Accepted(numbers[..n]), numbers[n]);
    }
  }

  /** Whether the window accepts the `i`-th number it is shown. */
  predicate Answer(numbers: seq<nat>, i: nat)
    requires i < |numbers|
  {
    Observe(After(numbers[..i]), numbers[i]).1
  }

  lemma {:induction false} AcceptedStays(numbers: seq<nat>, i: nat, j: nat)
    requires i < j <= |numbers| && Answer(numbers, i)
    ensures numbers[i] in Accepted(numbers[..j])
    decreases j
  {
    assert numbers[..j][..j - 1] == numbers[..j - 1];
    if i == j - 1 {
      WindowRefinesSet(numbers[..i]);
      ObserveExact(After(numbers[..i]), Accepted(numbers[..i]), numbers[i]);
    } else {
      AcceptedStays(numbers, i, j - 1);
    }
  }

  /** No number is ever accepted twice. */
  lemma NeverTwice(numbers: seq<nat>, i: nat, j: nat)
    requires i < j < |numbers| && Answer(numbers, i) && Answer(numbers, j)
    ensures numbers[i] != numbers[j]
  {
    AcceptedStays(numbers, i, j);
    WindowRefinesSet(numbers[..j]);
    ObserveExact(After(numbers[..j]), Accepted(numbers[..j]), numbers[j]);
  }
}
