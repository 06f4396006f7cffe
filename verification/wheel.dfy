/**
 The mouse-wheel rule for the configured duration (in whole minutes, 0 to 60):
 one wheel event moves the duration to the next multiple of five in the scroll
 direction, clamped to the dial's range.
 */
module Wheel {

  /** The dial covers one hour. */
  const MaxMinutes: nat := 60

  /** The wheel snaps to five-minute marks. */
  const Step: nat := 5

  datatype Direction = Up | Down

  /** Only the sign of the event's `deltaY` matters; zero scrolls down. */
  function DirectionOf(deltaY: real): (dir: Direction) {
    if deltaY < 0.0 then Up else Down
  }

  predicate OnGrid(m: int) {
    m % Step == 0
  }

  function Min(a: int, b: int): (m: int) {
    if a < b then a else b
  }

  function Max(a: int, b: int): (m: int) {
    if a < b then b else a
  }

  /**
   The duration after one wheel event. An off-grid value first snaps to the
   neighbouring five-minute mark; an on-grid value moves a whole step. The
   remainder is that of JavaScript's `%`, which agrees with Dafny's on
   non-negative operands.
   */
  function Next(prev: nat, dir: Direction): (next: nat)
    ensures OnGrid(next)
    ensures dir == Up ==> next <= MaxMinutes
    ensures dir == Down ==> next <= prev
    ensures prev <= MaxMinutes ==> next <= MaxMinutes
    ensures dir == Up && prev <= MaxMinutes ==> prev <= next
  {
    var rem := prev % Step;
    if rem != 0 then
      if dir == Up then Min(MaxMinutes, prev + (Step - rem)) else Max(0, prev - rem)
    else
      if dir == Up then Min(MaxMinutes, prev + Step) else Max(0, prev - Step)
  }

  /**
   A wheel event leaves the duration where it is exactly when it pushes
   against an end of the dial: up at the top, or down at zero.
   */
  lemma NextFixedOnlyAtEnds(prev: nat, dir: Direction)
    ensures Next(prev, dir) == prev <==> (dir == Up && prev == MaxMinutes) || (dir == Down && prev == 0)
  {
    if prev % Step == 0 && dir == Down {
      assert prev > 0 ==> prev - Step < prev;
    }
  }

  /**
   Below the top of the dial, scrolling up lands on the nearest five-minute
   mark strictly above; at or beyond the top it lands on the top.
   */
  lemma UpIsNearestMarkAbove(prev: nat)
    ensures prev < MaxMinutes ==>
              var next := Next(prev, Up);
              prev < next && forall m :: prev < m < next ==> !OnGrid(m)
    ensures prev >= MaxMinutes ==> Next(prev, Up) == MaxMinutes
  {
    if prev < MaxMinutes {
      var next := Next(prev, Up);
      assert next == prev - prev % Step + Step;
      forall m | prev < m < next
        ensures !OnGrid(m)
      {
        assert prev / Step == m / Step;
      }
    }
  }

  /**
   Above zero, scrolling down lands on the nearest five-minute mark strictly
   below; at zero it stays at zero.
   */
  lemma DownIsNearestMarkBelow(prev: nat)
    ensures prev > 0 ==>
              var next := Next(prev, Down);
              next < prev && forall m :: next < m < prev ==> !OnGrid(m)
    ensures prev == 0 ==> Next(prev, Down) == 0
  {
    if prev > 0 {
      var next := Next(prev, Down);
      var q := (prev - 1) / Step;
      assert next == q * Step;
      forall m | next < m < prev
        ensures !OnGrid(m)
      {
        assert m / Step == q;
      }
    }
  }

  /** Scrolling is monotone in the starting value, in either direction. */
  lemma NextMonotone(a: nat, b: nat, dir: Direction)
    requires a <= b
    ensures Next(a, dir) <= Next(b, dir)
  {
    if dir == Up {
      UpIsNearestMarkAbove(a);
      UpIsNearestMarkAbove(b);
      if b < MaxMinutes {
        // the mark above b also lies above a, so it is no nearer to a than a's own
        assert a < Next(b, Up) && OnGrid(Next(b, Up));
      }
    } else {
      DownIsNearestMarkBelow(a);
      DownIsNearestMarkBelow(b);
      if a > 0 {
        // the mark below a also lies below b, so it is no nearer to b than b's own
        assert Next(a, Down) < b && OnGrid(Next(a, Down));
      }
    }
  }

  /** On the grid, one step up and one step down undo each other inside the dial. */
  lemma UpDownRoundTrip(m: nat)
    requires OnGrid(m)
    ensures m < MaxMinutes ==> Next(Next(m, Up), Down) == m
    ensures 0 < m <= MaxMinutes ==> Next(Next(m, Down), Up) == m
  {
  }

  /** The duration after `k` consecutive wheel events in one direction. */
  function Scroll(prev: nat, dir: Direction, k: nat): (next: nat) {
    if k == 0 then prev else Next(Scroll(prev, dir, k - 1), dir)
  }

  /** Marks are a whole step apart. */
  lemma MarksAreStepApart(x: int, j: int)
    requires OnGrid(x)
    ensures x > Step * j ==> x >= Step * (j + 1)
    ensures x < Step * j ==> x <= Step * (j - 1)
  {
    var q := x / Step;
    assert x == Step * q;
  }

  /** Every wheel event up either reaches the top or gains a whole step. */
  lemma {:induction false} ScrollUpProgress(prev: nat, k: nat)
    ensures Scroll(prev, Up, k) >= Min(MaxMinutes, Step * k)
  {
    if k > 0 {
      ScrollUpProgress(prev, k - 1);
      var y := Scroll(prev, Up, k - 1);
      if y < MaxMinutes {
        UpIsNearestMarkAbove(y);
        MarksAreStepApart(Next(y, Up), k - 1);
      }
    }
  }

  /** Every wheel event down either reaches zero or loses a whole step. */
  lemma {:induction false} ScrollDownProgress(prev: nat, k: nat)
    requires prev <= MaxMinutes
    ensures Scroll(prev, Down, k) <= Max(0, MaxMinutes - Step * k)
  {
    if k > 0 {
      ScrollDownProgress(prev, k - 1);
      var y := Scroll(prev, Down, k - 1);
      if y > 0 {
        DownIsNearestMarkBelow(y);
        MarksAreStepApart(Next(y, Down), MaxMinutes / Step - (k - 1));
      }
    }
  }

  /** Twelve wheel events reach the top from anywhere, or zero from anywhere on the dial. */
  lemma TwelveEventsSaturate(prev: nat, k: nat)
    requires k >= MaxMinutes / Step
    ensures Scroll(prev, Up, k) == MaxMinutes
    ensures prev <= MaxMinutes ==> Scroll(prev, Down, k) == 0
  {
    ScrollUpProgress(prev, k);
    if k > 0 {
      assert Scroll(prev, Up, k) <= MaxMinutes;
    }
    if prev <= MaxMinutes {
      ScrollDownProgress(prev, k);
    }
  }
}
