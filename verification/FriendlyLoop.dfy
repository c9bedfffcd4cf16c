/** The `while` loop of CUBIC's TCP-friendly region (src/tcp_scubic.c), lap by lap: when it
    ends, and what it leaves when it does. */
module FriendlyLoop {
  import opened Machine

  /** The two fields the loop moves: ack_cnt and tcp_cwnd. */
  datatype Loop = Loop(acks: u32, window: u32)

  /** The condition of the `while`. */
  predicate Guard(l: Loop, step: u32) { l.acks > step }

  /** The body of the `while`. */
  function Lap(l: Loop, step: u32): Loop
    requires Guard(l, step)
  {
    Loop(l.acks - step, Wrap32(l.window + 1))
  }

  /** The fields after n laps, or after all there are if the loop ends before. */
  function AfterLaps(l: Loop, step: u32, n: nat): Loop
    decreases n
  {
    if n == 0 || !Guard(l, step) then l else AfterLaps(Lap(l, step), step, n - 1)
  }

  /** Some number of laps makes the condition fail. */
  ghost predicate Ends(l: Loop, step: u32) {
    exists n: nat :: !Guard(AfterLaps(l, step, n), step)
  }

  /** One more lap at the far end. */
  lemma {:induction false} OneMoreLap(l: Loop, step: u32, n: nat)
    ensures AfterLaps(l, step, n + 1)
      == if Guard(AfterLaps(l, step, n), step) then Lap(AfterLaps(l, step, n), step) else AfterLaps(l, step, n)
    decreases n
  {
    if n > 0 && Guard(l, step) {
      OneMoreLap(Lap(l, step), step, n - 1);
    }
  }

  /** What n laps leave, as long as the ACKs last for them. */
  lemma {:induction false} LapsMove(l: Loop, step: u32, n: nat)
    requires n > 0 ==> n * step < l.acks
    ensures AfterLaps(l, step, n) == Loop(l.acks - n * step, Wrap32(l.window + n))
    decreases n
  {
    if n == 0 {
      WrapId(l.window);
    } else {
      LessLaps(n, step);
      LapsMove(l, step, n - 1);
      OneMoreLap(l, step, n - 1);
      WrapAdds(l.window + n - 1, 1);
    }
  }

  lemma LessLaps(n: nat, step: u32)
    requires n > 0
    ensures n * step == (n - 1) * step + step
    ensures (n - 1) * step >= 0
  {
    MulLe(0, n - 1, step);
  }

  /** Without a decrement a lap takes nothing: the condition that held holds for ever. */
  lemma {:induction false} NothingTaken(l: Loop, n: nat)
    ensures AfterLaps(l, 0, n).acks == l.acks
    decreases n
  {
    if n > 0 && Guard(l, 0) {
      NothingTaken(Lap(l, 0), n - 1);
    }
  }

  /** The number of laps: one division, leaving at least one ACK over. */
  function Laps(acks: u32, step: u32): (n: u32)
    requires step > 0 || acks == 0
    ensures acks == 0 ==> n == 0
    ensures acks > 0 ==> 0 < acks - n * step <= step
  {
    if acks == 0 then 0
    else
      LapsLeave(acks, step);
      (acks - 1) / step
  }

  lemma LapsLeave(acks: u32, step: u32)
    requires step > 0 && acks > 0
    ensures 0 <= (acks - 1) / step < acks
    ensures 0 < acks - (acks - 1) / step * step <= step
  {
    var q := (acks - 1) / step;
    assert q * step <= acks - 1 < (q + 1) * step;
    MulLe(1, step, acks);
    QuotientBounds(acks - 1, step, 0, acks);
  }

  /** The loop ends if and only if its decrement is positive or no ACK is waiting. */
  lemma EndsExactlyWhen(l: Loop, step: u32)
    ensures Ends(l, step) <==> step > 0 || l.acks == 0
  {
    if step > 0 || l.acks == 0 {
      EndsAfter(l, step);
    } else {
      forall n: nat ensures Guard(AfterLaps(l, step, n), step) {
        NothingTaken(l, n);
      }
    }
  }

  /** Where it ends, it ends after exactly the laps of the division. */
  lemma EndsAfter(l: Loop, step: u32)
    requires step > 0 || l.acks == 0
    ensures var n := Laps(l.acks, step);
      && AfterLaps(l, step, n) == Loop(l.acks - n * step, Wrap32(l.window + n))
      && !Guard(AfterLaps(l, step, n), step)
      && forall m: nat :: m < n ==> Guard(AfterLaps(l, step, m), step)
  {
    var n := Laps(l.acks, step);
    LapsMove(l, step, n);
    forall m: nat | m < n ensures Guard(AfterLaps(l, step, m), step) {
      NotYet(l, step, n, m);
    }
  }

  lemma NotYet(l: Loop, step: u32, n: nat, m: nat)
    requires m < n && n * step < l.acks
    ensures Guard(AfterLaps(l, step, m), step)
  {
    MulLe(m + 1, n, step);
    assert (m + 1) * step == m * step + step;
    LapsMove(l, step, m);
  }

  /** Once the condition has failed, further laps change nothing. */
  lemma {:induction false} Settled(l: Loop, step: u32, n: nat, more: nat)
    requires n <= more && !Guard(AfterLaps(l, step, n), step)
    ensures AfterLaps(l, step, more) == AfterLaps(l, step, n)
    decreases more
  {
    if n < more {
      Settled(l, step, n, more - 1);
      OneMoreLap(l, step, more - 1);
    }
  }

  /** Whoever watches the loop end has seen the division, however long it was watched. */
  lemma EndedMeans(l: Loop, step: u32, watched: nat)
    requires !Guard(AfterLaps(l, step, watched), step)
    ensures step > 0 || l.acks == 0
    ensures var n := Laps(l.acks, step);
      AfterLaps(l, step, watched) == Loop(l.acks - n * step, Wrap32(l.window + n))
  {
    EndsExactlyWhen(l, step);
    EndsAfter(l, step);
    var n := Laps(l.acks, step);
    assert n <= watched;
    Settled(l, step, n, watched);
  }

  /** As many laps as there are ACKs are enough to see a loop end that ends at all. */
  lemma EndsInTime(l: Loop, step: u32, watched: nat)
    requires (step > 0 || l.acks == 0) && watched >= l.acks
    ensures !Guard(AfterLaps(l, step, watched), step)
  {
    EndsAfter(l, step);
    var n := Laps(l.acks, step);
    if l.acks > 0 {
      LapsLeave(l.acks, step);
    }
    Settled(l, step, n, watched);
  }
}
