/** How fast a flow of src/tcp_scubic.c grows: the count that every update leaves, against
    the curve's target and the estimated Reno window. */
module CubicGrowth {
  import opened Machine
  import opened CubicCurve
  import opened CubicModel
  import opened CubicRuns
  import opened FriendlyLoop

  // ------------------------------------------------------------ the time on the curve

  /** The ticks since the epoch opened and the ticks of the delay, read as one number. */
  function Elapsed(ca: Ca, now: u32, delayJiffies: u32): int { now - ca.epochStart + delayJiffies }

  /** The curve is entered at the time that will have passed one delay from now, in units of
      1/1024 second, rounded down. */
  lemma CurveTimeIsElapsed(config: Config, ca: Ca, now: u32, delayJiffies: u32)
    requires ValidConfig(config) && 0 <= now - ca.epochStart < TWO32 / 2
    ensures var t, ticks := CurveTime(config, ca, now, delayJiffies), Elapsed(ca, now, delayJiffies);
      t * config.hz <= 1024 * ticks < (t + 1) * config.hz
  {
    var ticks := Elapsed(ca, now, delayJiffies);
    WrapId(now - ca.epochStart);
    WrapId64(ticks);
    WrapId64(ticks * 1024);
    assert CurveTime(config, ca, now, delayJiffies) == ticks * 1024 / config.hz;
    RoundedDown(ticks * 1024, config.hz);
  }

  lemma RoundedDown(a: int, d: int)
    requires d > 0
    ensures a / d * d <= a < (a / d + 1) * d
  {
  }

  lemma LaterTime(t1: int, t2: int, hz: int, ticks1: int, ticks2: int)
    requires hz > 0 && ticks1 <= ticks2
    requires t1 * hz <= 1024 * ticks1 && 1024 * ticks2 < (t2 + 1) * hz
    ensures t1 <= t2
  {
    if t2 + 1 <= t1 {
      MulLe(t2 + 1, t1, hz);
    }
  }

  /** Within an epoch the target never falls, neither as time passes nor with a longer
      delay, as long as the curve does not overflow. */
  lemma TargetNeverFalls(config: Config, ca: Ca, now1: u32, delay1: u32, now2: u32, delay2: u32)
    requires ValidConfig(config) && ca.epochStart <= now1 && ca.epochStart <= now2
    requires now1 < ca.epochStart + TWO32 / 2 && now2 < ca.epochStart + TWO32 / 2
    requires now1 + delay1 <= now2 + delay2
    requires Fits(ca.cubeRttScale, ca.originPoint, ca.k, CurveTime(config, ca, now1, delay1))
    requires Fits(ca.cubeRttScale, ca.originPoint, ca.k, CurveTime(config, ca, now2, delay2))
    ensures CurveTarget(config, ca, now1, delay1) <= CurveTarget(config, ca, now2, delay2)
  {
    var t1, t2 := CurveTime(config, ca, now1, delay1), CurveTime(config, ca, now2, delay2);
    CurveTimeIsElapsed(config, ca, now1, delay1);
    CurveTimeIsElapsed(config, ca, now2, delay2);
    LaterTime(t1, t2, config.hz, Elapsed(ca, now1, delay1), Elapsed(ca, now2, delay2));
    TargetMonotone(ca.cubeRttScale, ca.originPoint, ca.k, t1, t2);
  }

  // ------------------------------------------------------------ growth in one round trip

  /** With one packet for every cnt ACKs, that many ACKs gain the packets. */
  predicate Gains(cnt: int, acks: int, packets: int) { cnt * packets <= acks }

  /** The limits on how many ACKs one packet may take. A round trip of cwnd ACKs gains the
      distance to the curve's target; at the target or above it a packet takes at most 100
      round trips; before any loss it takes at most 20 ACKs. */
  predicate FollowsCurve(n: int, lastMaxCwnd: u32, cwnd: u32, target: u32) {
    && (target > cwnd ==> Gains(n, cwnd, target - cwnd))
    && (target <= cwnd ==> Gains(n, 100 * cwnd, 1))
    && (lastMaxCwnd == 0 ==> n <= 20)
  }

  /** A round trip also gains the distance to the estimated Reno window. */
  predicate FollowsReno(n: int, friendly: bool, cwnd: u32, tcpCwnd: u32) {
    friendly && tcpCwnd > cwnd ==> Gains(n, cwnd, tcpCwnd - cwnd)
  }

  lemma LargestQuotient(n: int, a: u32, d: int)
    requires d > 0
    ensures n <= Div32(a, d) <==> Gains(n, a, d)
  {
    if n <= a / d {
      MulLe(n, a / d, d);
    } else {
      MulLe(a / d + 1, n, d);
      assert a < (a / d + 1) * d;
    }
  }

  /** Before the friendly region and the floor, cnt is the largest count within the limits. */
  lemma CurveCountIsLargest(n: int, lastMaxCwnd: u32, cwnd: u32, target: u32)
    requires target > cwnd || 100 * cwnd < TWO32
    ensures n <= CurveCount(lastMaxCwnd, cwnd, target) <==> FollowsCurve(n, lastMaxCwnd, cwnd, target)
  {
    if target > cwnd {
      LargestQuotient(n, cwnd, target - cwnd);
    } else {
      WrapId(100 * cwnd);
    }
  }

  /** That is so exactly as long as the product of 100 windows is not needed, fits 32 bits, or
      is cut to 20 even after the wrap. */
  lemma CurveCountExactlyWhen(lastMaxCwnd: u32, cwnd: u32, target: u32)
    ensures (forall n: int :: n <= CurveCount(lastMaxCwnd, cwnd, target)
                         <==> FollowsCurve(n, lastMaxCwnd, cwnd, target))
       <==> target > cwnd || 100 * cwnd < TWO32 || (lastMaxCwnd == 0 && 100 * cwnd % TWO32 >= 20)
  {
    if target > cwnd || 100 * cwnd < TWO32 {
      forall n: int ensures n <= CurveCount(lastMaxCwnd, cwnd, target) <==> FollowsCurve(n, lastMaxCwnd, cwnd, target)
      {
        CurveCountIsLargest(n, lastMaxCwnd, cwnd, target);
      }
    } else {
      var n := if lastMaxCwnd == 0 then 20 else 100 * cwnd;
      assert FollowsCurve(n, lastMaxCwnd, cwnd, target);
    }
  }

  /** The friendly region leaves the largest count that is no larger and keeps up with
      Reno. */
  lemma FriendlyIsLargest(n: int, config: Config, ca: Ca, cwnd: u32)
    requires Friendly(config, ca, cwnd).Done?
    ensures var out := Friendly(config, ca, cwnd).ca;
      n <= out.cnt <==> n <= ca.cnt && FollowsReno(n, config.tcpFriendliness, cwnd, out.tcpCwnd)
  {
    var out := Friendly(config, ca, cwnd).ca;
    if config.tcpFriendliness && out.tcpCwnd > cwnd {
      LargestQuotient(n, cwnd, out.tcpCwnd - cwnd);
    }
  }

  /** The update looks at the curve again: the window has changed or more than a 32nd of a
      second has passed, and no epoch is open that was updated in this very tick. */
  predicate Due(config: Config, ca: Ca, cwnd: u32, now: u32) {
    && (ca.lastCwnd != cwnd || 32 * Signed32(Wrap32(now - ca.lastTime)) > config.hz)
    && (ca.epochStart == 0 || now != ca.lastTime)
  }

  lemma DueMeans(config: Config, ca: Ca, cwnd: u32, now: u32)
    requires ValidConfig(config)
    ensures Due(config, ca, cwnd, now) <==> !TooSoon(config, ca, cwnd, now) && !SameTick(ca, now)
  {
  }

  /** The count an update leaves is exactly the largest that follows the curve and keeps up
      with Reno, or 2 if that is smaller. */
  ghost predicate CountIs(config: Config, after: Ca, cwnd: u32, target: u32) {
    && after.cnt >= 2
    && forall n: int :: n > 2 ==>
         (n <= after.cnt <==> FollowsCurve(n, after.lastMaxCwnd, cwnd, target)
                              && FollowsReno(n, config.tcpFriendliness, cwnd, after.tcpCwnd))
  }

  lemma CountIsLargest(config: Config, ca: Ca, cwnd: u32, acked: u32, now: u32, delayJiffies: u32)
    requires ValidConfig(config) && Accepted(ca.bicScale)
    requires Due(config, ca, cwnd, now)
    ensures var after := Update(config, ca, cwnd, acked, now, delayJiffies);
      after.Done? ==>
        var target := CurveTarget(config, after.ca, now, delayJiffies);
        target > cwnd || 100 * cwnd < TWO32 ==> CountIs(config, after.ca, cwnd, target)
  {
    DueMeans(config, ca, cwnd, now);
    var counted := ca.(ackCnt := Wrap32(ca.ackCnt + acked));
    var recounted := Recount(config, counted, cwnd, acked, now, delayJiffies);
    var entered := EnterCurve(counted, cwnd, acked, now);
    CountAfterRecount(config, entered, recounted, cwnd, now, delayJiffies);
  }

  lemma CountAfterRecount(config: Config, entered: Ca, recounted: Ca, cwnd: u32, now: u32, delayJiffies: u32)
    requires ValidConfig(config)
    requires recounted == entered.(cnt := CurveCount(entered.lastMaxCwnd, cwnd,
                                                     CurveTarget(config, entered, now, delayJiffies)))
    ensures var after := AtLeastTwo(Friendly(config, recounted, cwnd));
      after.Done? ==>
        var target := CurveTarget(config, after.ca, now, delayJiffies);
        target > cwnd || 100 * cwnd < TWO32 ==> CountIs(config, after.ca, cwnd, target)
  {
    var target := CurveTarget(config, entered, now, delayJiffies);
    SameTarget(config, recounted, cwnd, now, delayJiffies);
    if target > cwnd || 100 * cwnd < TWO32 {
      LargestAfterFriendly(config, recounted, cwnd, target);
    }
  }

  lemma LargestAfterFriendly(config: Config, ca: Ca, cwnd: u32, target: u32)
    requires ca.cnt == CurveCount(ca.lastMaxCwnd, cwnd, target) && (target > cwnd || 100 * cwnd < TWO32)
    ensures var after := AtLeastTwo(Friendly(config, ca, cwnd));
      after.Done? ==> CountIs(config, after.ca, cwnd, target)
  {
    var after := AtLeastTwo(Friendly(config, ca, cwnd));
    if after.Done? {
      forall n: int | n > 2
        ensures n <= after.ca.cnt <==> FollowsCurve(n, after.ca.lastMaxCwnd, cwnd, target)
                                       && FollowsReno(n, config.tcpFriendliness, cwnd, after.ca.tcpCwnd)
      {
        CurveCountIsLargest(n, ca.lastMaxCwnd, cwnd, target);
        FriendlyIsLargest(n, config, ca, cwnd);
      }
    }
  }

  /** At or above the target, once a loss has fixed a plateau and with no Reno window ahead,
      one packet takes exactly 100 round trips of ACKs. */
  lemma PlateauTakesHundredWindows(config: Config, ca: Ca, cwnd: u32, acked: u32, now: u32, delayJiffies: u32)
    requires ValidConfig(config) && Accepted(ca.bicScale)
    requires Due(config, ca, cwnd, now) && 1 <= cwnd && 100 * cwnd < TWO32
    ensures var after := Update(config, ca, cwnd, acked, now, delayJiffies);
      after.Done? && CurveTarget(config, after.ca, now, delayJiffies) <= cwnd && after.ca.lastMaxCwnd != 0
      && (config.tcpFriendliness ==> after.ca.tcpCwnd <= cwnd) ==>
        Gains(after.ca.cnt, 100 * cwnd, 1) && !Gains(after.ca.cnt + 1, 100 * cwnd, 1)
  {
    var after := Update(config, ca, cwnd, acked, now, delayJiffies);
    CountIsLargest(config, ca, cwnd, acked, now, delayJiffies);
    if after.Done? && CurveTarget(config, after.ca, now, delayJiffies) <= cwnd && after.ca.lastMaxCwnd != 0
       && (config.tcpFriendliness ==> after.ca.tcpCwnd <= cwnd) {
      AtPlateau(config, after.ca, cwnd, CurveTarget(config, after.ca, now, delayJiffies));
    }
  }

  lemma AtPlateau(config: Config, ca: Ca, cwnd: u32, target: u32)
    requires CountIs(config, ca, cwnd, target) && target <= cwnd && ca.lastMaxCwnd != 0 && cwnd >= 1
    requires config.tcpFriendliness ==> ca.tcpCwnd <= cwnd
    ensures ca.cnt == 100 * cwnd
  {
    var n := 100 * cwnd;
    assert FollowsCurve(n, ca.lastMaxCwnd, cwnd, target) && !FollowsCurve(n + 1, ca.lastMaxCwnd, cwnd, target);
    assert FollowsReno(n, config.tcpFriendliness, cwnd, ca.tcpCwnd);
  }

  /** Before the first loss one packet takes at most 20 ACKs, and exactly 20 wherever the
      target and the Reno window allow that many. */
  lemma TwentyAcksBeforeLoss(config: Config, ca: Ca, cwnd: u32, acked: u32, now: u32, delayJiffies: u32)
    requires ValidConfig(config) && Accepted(ca.bicScale)
    requires Due(config, ca, cwnd, now) && 1 <= cwnd && 100 * cwnd < TWO32
    ensures var after := Update(config, ca, cwnd, acked, now, delayJiffies);
      after.Done? && after.ca.lastMaxCwnd == 0 ==>
        var target := CurveTarget(config, after.ca, now, delayJiffies);
        && after.ca.cnt <= 20
        && (after.ca.cnt == 20 <==>
              && (target > cwnd ==> Gains(20, cwnd, target - cwnd))
              && (config.tcpFriendliness && after.ca.tcpCwnd > cwnd ==> Gains(20, cwnd, after.ca.tcpCwnd - cwnd)))
  {
    var after := Update(config, ca, cwnd, acked, now, delayJiffies);
    CountIsLargest(config, ca, cwnd, acked, now, delayJiffies);
    if after.Done? && after.ca.lastMaxCwnd == 0 {
      var target := CurveTarget(config, after.ca, now, delayJiffies);
      assert !FollowsCurve(21, after.ca.lastMaxCwnd, cwnd, target);
      assert FollowsCurve(20, after.ca.lastMaxCwnd, cwnd, target) ==
        (target > cwnd ==> Gains(20, cwnd, target - cwnd));
    }
  }

  /** A run that ends there: after a loss at 30 the first ACK at that window, at any time,
      leaves a count of 3000. */
  lemma PlateauRun(config: Config, before: Ca, now: u32)
    requires ValidConfig(config)
    ensures var r := Run(config, before, [Loss(30), AckWindow(30, 1, now, 0)]);
      r.Reached? && CurveTarget(config, r.ca, now, 0) == 30 && r.ca.cnt == 3000
  {
    var loss, ack := Loss(30), AckWindow(30, 1, now, 0);
    assert BetaScale(717) == 15;
    RunThen(config, before, [], loss);
    assert [] + [loss] == [loss];
    RunThen(config, before, [loss], ack);
    assert [loss] + [ack] == [loss, ack];
    FirstAtPlateau(config, Run(config, before, [loss]).ca, now);
  }

  lemma FirstAtPlateau(config: Config, ca: Ca, now: u32)
    requires ValidConfig(config) && ca.bicScale == 41 && ca.betaScale == 15
    requires ca.lastCwnd == 0 && ca.epochStart == 0 && ca.lastMaxCwnd == 30
    ensures var out := Update(config, ca, 30, 1, now, 0);
      out.Done? && CurveTarget(config, out.ca, now, 0) == 30 && out.ca.cnt == 3000
  {
    var counted := ca.(ackCnt := Wrap32(ca.ackCnt + 1));
    var entered := Recount(config, counted, 30, 1, now, 0);
    OpensAtPlateau(config, counted, now);
    NothingBought(config, entered);
    SameTarget(config, entered, 30, now, 0);
    PlateauTakesHundredWindows(config, ca, 30, 1, now, 0);
  }

  lemma OpensAtPlateau(config: Config, ca: Ca, now: u32)
    requires ValidConfig(config) && Accepted(ca.bicScale) && ca.epochStart == 0 && ca.lastMaxCwnd == 30
    ensures var entered := Recount(config, ca, 30, 1, now, 0);
      && CurveTarget(config, entered, now, 0) == 30 && entered.ackCnt == 1 && entered.tcpCwnd == 30
      && entered.betaScale == ca.betaScale && entered.lastMaxCwnd == 30
  {
    var begun := EnterCurve(ca, 30, 1, now);
    assert begun.k == 0 && begun.originPoint == 30 && begun.epochStart == now;
    TargetAtOpening(config, begun, now);
    TargetAtOpening(config, Recount(config, ca, 30, 1, now, 0), now);
  }

  /** The curve of an epoch that opens at its plateau starts there. */
  lemma TargetAtOpening(config: Config, ca: Ca, now: u32)
    requires ValidConfig(config) && ca.epochStart == now && ca.k == 0
    ensures CurveTarget(config, ca, now, 0) == ca.originPoint
  {
    TimeAtOpening(config, ca, now);
    TargetAtPlateau(ca.cubeRttScale, ca.originPoint, 0);
  }

  lemma TimeAtOpening(config: Config, ca: Ca, now: u32)
    requires ValidConfig(config) && ca.epochStart == now
    ensures CurveTime(config, ca, now, 0) == 0
  {
    WrapId64(0);
    QuotientAtMost(0, config.hz);
  }

  lemma NothingBought(config: Config, ca: Ca)
    requires ca.ackCnt == 1 && ca.tcpCwnd == 30 && ca.betaScale == 15
    ensures var out := AtLeastTwo(Friendly(config, ca, 30));
      out.Done? && out.ca.tcpCwnd == 30 && out.ca.lastMaxCwnd == ca.lastMaxCwnd
  {
    assert FriendlyStep(ca, 30) == 56;
    assert Laps(1, 56) == 0;
    WrapId(30);
  }

  /** The friendly region never raises the count, and where the estimated Reno window is
      ahead it leaves one that gains the distance to it. */
  lemma FriendlyCaps(config: Config, ca: Ca, cwnd: u32)
    requires Friendly(config, ca, cwnd).Done?
    ensures var out := Friendly(config, ca, cwnd).ca;
      && out.cnt <= ca.cnt
      && (config.tcpFriendliness && out.tcpCwnd > cwnd ==> Gains(out.cnt, cwnd, out.tcpCwnd - cwnd))
      && out == ca.(cnt := out.cnt, ackCnt := out.ackCnt, tcpCwnd := out.tcpCwnd)
  {
    var out := Friendly(config, ca, cwnd).ca;
    if config.tcpFriendliness && out.tcpCwnd > cwnd {
      MulLe(out.cnt, Div32(cwnd, out.tcpCwnd - cwnd), out.tcpCwnd - cwnd);
    }
  }

  lemma CurveCountGains(lastMaxCwnd: u32, cwnd: u32, target: u32)
    requires cwnd < target
    ensures Gains(CurveCount(lastMaxCwnd, cwnd, target), cwnd, target - cwnd)
  {
    MulLe(CurveCount(lastMaxCwnd, cwnd, target), Div32(cwnd, target - cwnd), target - cwnd);
  }

  /** A count that would gain the packets still does after the floor of two exactly if two
      does. */
  lemma FloorDecides(cnt: u32, cwnd: u32, packets: int)
    requires packets > 0
    requires exists larger: u32 :: cnt <= larger && Gains(larger, cwnd, packets)
    ensures Gains(Max(cnt, 2), cwnd, packets) <==> 2 * packets <= cwnd
  {
    var larger: u32 :| cnt <= larger && Gains(larger, cwnd, packets);
    MulLe(cnt, larger, packets);
    MulLe(2, Max(cnt, 2), packets);
  }

  /** After the friendly region and the floor, a count that would have gained the packets
      still does exactly if two would. */
  lemma FloorAfterFriendly(config: Config, ca: Ca, cwnd: u32, packets: int)
    requires packets > 0 && Gains(ca.cnt, cwnd, packets)
    ensures var out := AtLeastTwo(Friendly(config, ca, cwnd));
      out.Done? ==> (Gains(out.ca.cnt, cwnd, packets) <==> 2 * packets <= cwnd)
  {
    if Friendly(config, ca, cwnd).Done? {
      FriendlyCaps(config, ca, cwnd);
      FloorDecides(Friendly(config, ca, cwnd).ca.cnt, cwnd, packets);
    }
  }

  lemma RenoAfterFriendly(config: Config, ca: Ca, cwnd: u32)
    requires config.tcpFriendliness
    ensures var out := AtLeastTwo(Friendly(config, ca, cwnd));
      out.Done? && out.ca.tcpCwnd > cwnd ==>
        (Gains(out.ca.cnt, cwnd, out.ca.tcpCwnd - cwnd) <==> 2 * (out.ca.tcpCwnd - cwnd) <= cwnd)
  {
    var out := Friendly(config, ca, cwnd);
    if out.Done? && out.ca.tcpCwnd > cwnd {
      FriendlyCaps(config, ca, cwnd);
      FloorDecides(out.ca.cnt, cwnd, out.ca.tcpCwnd - cwnd);
    }
  }

  /** The friendly region leaves the curve alone. */
  lemma SameTarget(config: Config, ca: Ca, cwnd: u32, now: u32, delayJiffies: u32)
    requires ValidConfig(config)
    ensures var out := AtLeastTwo(Friendly(config, ca, cwnd));
      out.Done? ==> CurveTarget(config, out.ca, now, delayJiffies) == CurveTarget(config, ca, now, delayJiffies)
  {
    FriendlyTouches(config, ca, cwnd);
  }

  /** The count an update leaves grows the window to the curve's target in one round trip
      exactly if the target is at most half the window away. */
  lemma CountReachesTarget(config: Config, ca: Ca, cwnd: u32, acked: u32, now: u32, delayJiffies: u32)
    requires ValidConfig(config) && Accepted(ca.bicScale)
    requires !TooSoon(config, ca, cwnd, now) && !SameTick(ca, now)
    ensures var after := Update(config, ca, cwnd, acked, now, delayJiffies);
      after.Done? ==>
        var target := CurveTarget(config, after.ca, now, delayJiffies);
        target > cwnd ==> (Gains(after.ca.cnt, cwnd, target - cwnd) <==> 2 * (target - cwnd) <= cwnd)
  {
    var entered := EnterCurve(ca.(ackCnt := Wrap32(ca.ackCnt + acked)), cwnd, acked, now);
    var target := CurveTarget(config, entered, now, delayJiffies);
    CountAfter(config, entered, cwnd, now, delayJiffies, target);
  }

  lemma CountAfter(config: Config, entered: Ca, cwnd: u32, now: u32, delayJiffies: u32, target: u32)
    requires ValidConfig(config) && target == CurveTarget(config, entered, now, delayJiffies)
    ensures var recounted := entered.(cnt := CurveCount(entered.lastMaxCwnd, cwnd, target));
      var after := AtLeastTwo(Friendly(config, recounted, cwnd));
      after.Done? ==>
        && CurveTarget(config, after.ca, now, delayJiffies) == target
        && (target > cwnd ==> (Gains(after.ca.cnt, cwnd, target - cwnd) <==> 2 * (target - cwnd) <= cwnd))
  {
    var recounted := entered.(cnt := CurveCount(entered.lastMaxCwnd, cwnd, target));
    SameTarget(config, recounted, cwnd, now, delayJiffies);
    if target > cwnd {
      CurveCountGains(recounted.lastMaxCwnd, cwnd, target);
      FloorAfterFriendly(config, recounted, cwnd, target - cwnd);
    }
  }

  /** It grows the window to the estimated Reno window (section 4.2 of RFC 8312) under the
      same condition. */
  lemma KeepsUpWithReno(config: Config, ca: Ca, cwnd: u32, acked: u32, now: u32, delayJiffies: u32)
    requires ValidConfig(config) && Accepted(ca.bicScale) && config.tcpFriendliness
    requires !TooSoon(config, ca, cwnd, now)
    ensures var after := Update(config, ca, cwnd, acked, now, delayJiffies);
      after.Done? && after.ca.tcpCwnd > cwnd ==>
        (Gains(after.ca.cnt, cwnd, after.ca.tcpCwnd - cwnd) <==> 2 * (after.ca.tcpCwnd - cwnd) <= cwnd)
  {
    var counted := ca.(ackCnt := Wrap32(ca.ackCnt + acked));
    RenoAfterFriendly(config, counted, cwnd);
    RenoAfterFriendly(config, Recount(config, counted, cwnd, acked, now, delayJiffies), cwnd);
  }

  /** Other updates: within a 32nd of a second at the same window only the ACKs are counted,
      and within the tick of the last update the old count is capped for Reno once more. */
  lemma OtherUpdates(config: Config, ca: Ca, cwnd: u32, acked: u32, now: u32, delayJiffies: u32)
    requires ValidConfig(config) && Accepted(ca.bicScale)
    requires !Due(config, ca, cwnd, now)
    ensures var after := Update(config, ca, cwnd, acked, now, delayJiffies);
      if ca.lastCwnd == cwnd && 32 * Signed32(Wrap32(now - ca.lastTime)) <= config.hz then
        after == Done(ca.(ackCnt := Wrap32(ca.ackCnt + acked)))
      else
        after.Done? ==>
          && after.ca == ca.(cnt := after.ca.cnt, ackCnt := after.ca.ackCnt, tcpCwnd := after.ca.tcpCwnd)
          && after.ca.cnt >= 2
          && forall n: int :: n > 2 ==>
               (n <= after.ca.cnt <==> n <= ca.cnt && FollowsReno(n, config.tcpFriendliness, cwnd, after.ca.tcpCwnd))
  {
    DueMeans(config, ca, cwnd, now);
    var counted := ca.(ackCnt := Wrap32(ca.ackCnt + acked));
    if !TooSoon(config, ca, cwnd, now) && Friendly(config, counted, cwnd).Done? {
      var after := AtLeastTwo(Friendly(config, counted, cwnd)).ca;
      forall n: int | n > 2
        ensures n <= after.cnt <==> n <= ca.cnt && FollowsReno(n, config.tcpFriendliness, cwnd, after.tcpCwnd)
      {
        FriendlyIsLargest(n, config, counted, cwnd);
      }
    }
  }

  // ------------------------------------------------------------ the estimated Reno window

  /** From these ACKs and this window, laps packets were bought at a price of step ACKs, an
      eighth of the product, as long as the ACKs exceeded it. */
  ghost predicate Bought(acks: u32, window: u32, after: Ca, product: u32, step: u32, laps: nat) {
    && 8 * step <= product < 8 * step + 8
    && after.ackCnt + laps * step == acks && after.tcpCwnd == Wrap32(window + laps)
    && (if acks == 0 then laps == 0 else 0 < after.ackCnt <= step)
  }

  /** What an update does to the estimated Reno window, if it ends. */
  ghost predicate RenoMoves(config: Config, out: Outcome, acks: u32, window: u32, product: u32) {
    out.Done? ==>
      if config.tcpFriendliness then
        exists step: u32, laps: nat :: Bought(acks, window, out.ca, product, step, laps)
      else out.ca.ackCnt == acks && out.ca.tcpCwnd == window
  }

  /** The estimated Reno window (section 4.2 of RFC 8312) starts an epoch at the window and
      grows by a packet for every eighth of window times beta_scale ACKs; the ACKs since the
      epoch opened are either spent on it or still waiting. */
  lemma RenoIsBooked(config: Config, ca: Ca, cwnd: u32, acked: u32, now: u32, delayJiffies: u32)
    requires ValidConfig(config) && Accepted(ca.bicScale)
    requires ca.lastCwnd != cwnd || 32 * Signed32(Wrap32(now - ca.lastTime)) > config.hz
    ensures RenoMoves(config, Update(config, ca, cwnd, acked, now, delayJiffies),
      if ca.epochStart == 0 then acked else Wrap32(ca.ackCnt + acked),
      if ca.epochStart == 0 then cwnd else ca.tcpCwnd,
      Wrap32(cwnd * ca.betaScale))
  {
    var counted := ca.(ackCnt := Wrap32(ca.ackCnt + acked));
    var recounted := Recount(config, counted, cwnd, acked, now, delayJiffies);
    EntersWith(config, counted, cwnd, acked, now, delayJiffies);
    FriendlyBuys(config, if SameTick(ca, now) then counted else recounted, cwnd);
  }

  lemma EntersWith(config: Config, ca: Ca, cwnd: u32, acked: u32, now: u32, delayJiffies: u32)
    requires ValidConfig(config) && Accepted(ca.bicScale)
    ensures var recounted := Recount(config, ca, cwnd, acked, now, delayJiffies);
      && recounted.ackCnt == (if ca.epochStart == 0 then acked else ca.ackCnt)
      && recounted.tcpCwnd == (if ca.epochStart == 0 then cwnd else ca.tcpCwnd)
      && recounted.betaScale == ca.betaScale
  {
  }

  lemma FriendlyBuys(config: Config, ca: Ca, cwnd: u32)
    ensures RenoMoves(config, AtLeastTwo(Friendly(config, ca, cwnd)), ca.ackCnt, ca.tcpCwnd,
                      Wrap32(cwnd * ca.betaScale))
  {
    var after := AtLeastTwo(Friendly(config, ca, cwnd));
    if config.tcpFriendliness && after.Done? {
      FriendlyConserves(config, ca, cwnd);
      var step, out := FriendlyStep(ca, cwnd), Friendly(config, ca, cwnd).ca;
      var laps: nat :| Moved(ca, out, step, laps);
      assert Bought(ca.ackCnt, ca.tcpCwnd, after.ca, Wrap32(cwnd * ca.betaScale), step, laps);
    }
  }

  /** A run on which both fail: the window falls from 30 to 10 without a loss, target and
      Reno window stay at 30, and the count of two gains 5 packets, not 20. */
  lemma FloorMissesBoth(config: Config, before: Ca)
    requires ValidConfig(config) && config.tcpFriendliness
    ensures var es := [AckWindow(30, 1, 1, 0), AckWindow(10, 1, 2, 0)];
      Run(config, before, es).Reached?
      && var ca := Run(config, before, es).ca;
         && CurveTarget(config, ca, 2, 0) == 30 && ca.tcpCwnd == 30 && ca.cnt == 2
         && !Gains(ca.cnt, 10, 20)
  {
    var first := AckWindow(30, 1, 1, 0);
    assert BetaScale(717) == 15;
    RunThen(config, before, [], first);
    FirstAt30(config, Init(before));
    assert [] + [first] == [first];
    RunThen(config, before, [first], AckWindow(10, 1, 2, 0));
    assert [first] + [AckWindow(10, 1, 2, 0)] == [first, AckWindow(10, 1, 2, 0)];
    ThenAt10(config, Run(config, before, [first]).ca);
  }

  lemma FirstAt30(config: Config, ca: Ca)
    requires ValidConfig(config) && config.tcpFriendliness && ca.bicScale == 41 && ca.betaScale == 15
    requires ca.lastCwnd == 0 && ca.epochStart == 0 && ca.lastMaxCwnd == 0
    ensures var out := Update(config, ca, 30, 1, 1, 0);
      out.Done? && out.ca == ca.(epochStart := 1, lastCwnd := 30, lastTime := 1, ackCnt := 1, tcpCwnd := 30,
        cubeRttScale := 410, k := 0, originPoint := 30, cnt := out.ca.cnt)
  {
    var counted := ca.(ackCnt := Wrap32(ca.ackCnt + 1));
    var entered := Recount(config, counted, 30, 1, 1, 0);
    assert FriendlyStep(entered, 30) == 56 && entered.ackCnt == 1;
    assert Laps(1, 56) == 0;
    WrapId(30);
  }

  lemma ThenAt10(config: Config, ca: Ca)
    requires ValidConfig(config) && config.tcpFriendliness && ca.bicScale == 41 && ca.betaScale == 15
    requires ca.epochStart == 1 && ca.lastCwnd == 30 && ca.lastTime == 1 && ca.ackCnt == 1 && ca.tcpCwnd == 30
    requires ca.cubeRttScale == 410 && ca.k == 0 && ca.originPoint == 30
    ensures CurveTarget(config, ca, 2, 0) == 30
    ensures var out := Update(config, ca, 10, 1, 2, 0);
      out.Done? && out.ca.cnt == 2 && out.ca.tcpCwnd == 30 && CurveTarget(config, out.ca, 2, 0) == 30
  {
    OneTick(config, ca);
    var counted := ca.(ackCnt := 2);
    var entered := Recount(config, counted, 10, 1, 2, 0);
    assert FriendlyStep(entered, 10) == 18 && entered.ackCnt == 2;
    assert Laps(2, 18) == 0;
    WrapId(30);
  }

  /** At most 1024 units of time into an epoch with K = 0 nothing has been gained. */
  lemma OneTick(config: Config, ca: Ca)
    requires ValidConfig(config) && ca.epochStart == 1
    requires ca.cubeRttScale == 410 && ca.k == 0 && ca.originPoint == 30
    ensures CurveTarget(config, ca, 2, 0) == 30
  {
    var t := CurveTime(config, ca, 2, 0);
    QuotientAtMost(1024, config.hz);
    assert t == 1024 / config.hz <= 1024;
    ScaledCubeLe(410, 0, t);
    ScaledCubeLe(410, t, 1024);
    DeltaIsExact(410, t);
    WrapId(30);
  }
}
