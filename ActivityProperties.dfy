/**
 * What the ActivityMonitor of drinkingbird.py promises, proved about the
 * value model in ActivitySpec.dfy: the move filter, the single-use
 * suppression flag, drift of sub-threshold moves, the strict idle test,
 * the cooldown, and the synthetic-move protocol.
 */
module ActivityProperties {
  import opened ActivitySpec

  // ---------------------------------------------------------------------
  // The move filter
  // ---------------------------------------------------------------------

  /**
   * The move filter is the source's Euclidean test: for the non-negative
   * square root r of the squared distance between the two points, the move
   * counts exactly when r >= 3.
   */
  lemma EuclideanTest(from: Point, to: Point, r: real)
    requires r >= 0.0 && r * r == SquaredDistance(from, to) as real
    ensures IsIntentionalMove(from, to) <==> r >= MouseMoveThreshold as real
  {
    if r >= 3.0 {
      assert r * r >= 3.0 * r >= 9.0;
    } else {
      assert r * r <= 3.0 * r < 9.0;
    }
  }

  /** A suppressed move consumes the flag, re-baselines and records nothing. */
  lemma SuppressedMoveIsConsumed(m: Monitor, x: int, y: int, now: int)
    requires m.ignoreNextMouseMove
    ensures OnMouseMove(m, x, y, now) == m.(ignoreNextMouseMove := false, lastMousePos := Point(x, y))
  {
  }

  /** An unsuppressed move at least three pixels from the reference is activity. */
  lemma IntentionalMoveRecordsActivity(m: Monitor, x: int, y: int, now: int)
    requires !m.ignoreNextMouseMove && IsIntentionalMove(m.lastMousePos, Point(x, y))
    ensures OnMouseMove(m, x, y, now) == m.(lastActivity := now, lastMousePos := Point(x, y))
  {
  }

  /** An unsuppressed move closer than three pixels changes nothing, not even the reference. */
  lemma SmallMoveChangesNothing(m: Monitor, x: int, y: int, now: int)
    requires !m.ignoreNextMouseMove && !IsIntentionalMove(m.lastMousePos, Point(x, y))
    ensures OnMouseMove(m, x, y, now) == m
  {
  }

  /** The filter measures from the reference point: an axis move of 3 counts, a diagonal (2, 2) does not. */
  lemma ThresholdExamples(p: Point)
    ensures IsIntentionalMove(p, Point(p.x + 3, p.y))
    ensures !IsIntentionalMove(p, Point(p.x + 2, p.y + 2))
    ensures IsIntentionalMove(p, Point(p.x + 2, p.y + 3))
  {
  }

  // ---------------------------------------------------------------------
  // Buttons, scrolling, keys and the flag
  // ---------------------------------------------------------------------

  /** A press records activity; a release changes nothing. */
  lemma ClickRecordsOnlyPress(m: Monitor, now: int)
    ensures OnMouseClick(m, true, now) == m.(lastActivity := now)
    ensures OnMouseClick(m, false, now) == m
  {
  }

  /** Scrolling and key presses always record activity and change nothing else. */
  lemma ScrollAndKeyRecordActivity(m: Monitor, now: int)
    ensures OnMouseScroll(m, now) == m.(lastActivity := now)
    ensures OnKeyPress(m, now) == m.(lastActivity := now)
  {
  }

  /** The suppression flag is consumed by the next pointer move and by nothing else. */
  lemma OnlyMoveConsumesFlag(m: Monitor, e: Event, now: int)
    ensures Handle(m, e, now).ignoreNextMouseMove == (m.ignoreNextMouseMove && !e.Move?)
  {
  }

  /** Every recorded activity resets the idle time to zero. */
  lemma RecordedActivityResetsIdleTime(m: Monitor, e: Event, now: int)
    requires e.Scroll? || e.KeyPress? || (e.Click? && e.pressed)
      || (e.Move? && !m.ignoreNextMouseMove && IsIntentionalMove(m.lastMousePos, Point(e.x, e.y)))
    ensures IdleTime(Handle(m, e, now), now) == 0
    ensures m.idleThreshold >= 0 ==> !IsIdle(Handle(m, e, now), now)
  {
  }

  // ---------------------------------------------------------------------
  // Traces of notifications
  // ---------------------------------------------------------------------

  /** The position a move notification reports. */
  function Position(e: Event): Point
    requires e.Move?
  {
    Point(e.x, e.y)
  }

  /** Every input is a pointer move that stays below the threshold from `reference`. */
  predicate SmallMovesFrom(reference: Point, inputs: seq<Input>) {
    forall i :: 0 <= i < |inputs| ==>
      inputs[i].event.Move? && !IsIntentionalMove(reference, Position(inputs[i].event))
  }

  /**
   * Sub-threshold moves leave the monitor exactly as it was: in particular the
   * reference point is never re-baselined to the new positions.
   */
  lemma {:induction false} SmallMovesKeepReference(m: Monitor, inputs: seq<Input>)
    requires !m.ignoreNextMouseMove && SmallMovesFrom(m.lastMousePos, inputs)
    ensures Replay(m, inputs) == m
    decreases |inputs|
  {
    if inputs != [] {
      var e := inputs[0].event;
      SmallMoveChangesNothing(m, e.x, e.y, inputs[0].at);
      assert SmallMovesFrom(m.lastMousePos, inputs[1..]) by {
        forall i | 0 <= i < |inputs[1..]|
          ensures inputs[1..][i].event.Move? && !IsIntentionalMove(m.lastMousePos, Position(inputs[1..][i].event))
        {
          assert inputs[1..][i] == inputs[i + 1];
        }
      }
      SmallMovesKeepReference(m, inputs[1..]);
    }
  }

  /**
   * Drift: however small each step is, the first move whose distance from the
   * (stale) reference point reaches the threshold records activity at its time
   * and becomes the new reference.
   */
  lemma {:induction false} DriftAccumulates(m: Monitor, smallMoves: seq<Input>, last: Input)
    requires !m.ignoreNextMouseMove && SmallMovesFrom(m.lastMousePos, smallMoves)
    requires last.event.Move? && IsIntentionalMove(m.lastMousePos, Position(last.event))
    ensures Replay(m, smallMoves + [last])
         == m.(lastActivity := last.at, lastMousePos := Position(last.event))
  {
    SmallMovesKeepReference(m, smallMoves);
    ReplayAppend(m, smallMoves, [last]);
    IntentionalMoveRecordsActivity(m, last.event.x, last.event.y, last.at);
    assert [last][1..] == [];
  }

  /** Delivering two traces one after the other is delivering their concatenation. */
  lemma {:induction false} ReplayAppend(m: Monitor, a: seq<Input>, b: seq<Input>)
    ensures Replay(m, a + b) == Replay(Replay(m, a), b)
    decreases |a|
  {
    if a == [] {
      assert a + b == b;
    } else {
      assert (a + b)[0] == a[0] && (a + b)[1..] == a[1..] + b;
      ReplayAppend(Handle(m, a[0].event, a[0].at), a[1..], b);
    }
  }

  /**
   * Three one-pixel steps along the x axis from a reference point at the
   * origin: each step is below the threshold measured from the previous
   * position, but the third is three pixels from the reference and is recorded.
   */
  lemma DriftExample(m: Monitor, t1: int, t2: int, t3: int)
    requires !m.ignoreNextMouseMove && m.lastMousePos == Point(0, 0)
    ensures Replay(m, [Input(Move(1, 0), t1), Input(Move(2, 0), t2), Input(Move(3, 0), t3)])
         == m.(lastActivity := t3, lastMousePos := Point(3, 0))
  {
    var a, b, c := Input(Move(1, 0), t1), Input(Move(2, 0), t2), Input(Move(3, 0), t3);
    assert !IsIntentionalMove(Point(1, 0), Point(2, 0)) && !IsIntentionalMove(Point(2, 0), Point(3, 0));
    assert Handle(m, a.event, t1) == m && Handle(m, b.event, t2) == m;
    assert [a, b, c][1..] == [b, c] && [b, c][1..] == [c] && [c][1..] == [];
    assert Replay(m, [a, b, c]) == Replay(m, [b, c]) == Replay(m, [c]);
  }

  /** Notifications whose handlers run at non-decreasing times, none earlier than `from`. */
  predicate Chronological(from: int, inputs: seq<Input>) {
    (forall i :: 0 <= i < |inputs| ==> from <= inputs[i].at)
    && (forall i, j :: 0 <= i < j < |inputs| ==> inputs[i].at <= inputs[j].at)
  }

  /**
   * With a clock that does not run backwards, the last activity never moves
   * back, never passes the time of the last notification, and the idle
   * threshold and the synthetic-move record are left alone by every handler.
   */
  lemma {:induction false} ActivityOnlyAdvances(m: Monitor, inputs: seq<Input>)
    requires Chronological(m.lastActivity, inputs)
    ensures m.lastActivity <= Replay(m, inputs).lastActivity
    ensures inputs != [] ==> Replay(m, inputs).lastActivity <= inputs[|inputs| - 1].at
    ensures Replay(m, inputs).idleThreshold == m.idleThreshold
    ensures Replay(m, inputs).lastAutoMove == m.lastAutoMove
    decreases |inputs|
  {
    if inputs != [] {
      var next := Handle(m, inputs[0].event, inputs[0].at);
      assert m.lastActivity <= next.lastActivity <= inputs[0].at;
      assert Chronological(next.lastActivity, inputs[1..]) by {
        forall i | 0 <= i < |inputs[1..]| ensures next.lastActivity <= inputs[1..][i].at {
          assert inputs[1..][i] == inputs[i + 1];
        }
        forall i, j | 0 <= i < j < |inputs[1..]| ensures inputs[1..][i].at <= inputs[1..][j].at {
          assert inputs[1..][i] == inputs[i + 1] && inputs[1..][j] == inputs[j + 1];
        }
      }
      ActivityOnlyAdvances(next, inputs[1..]);
    }
  }

  // ---------------------------------------------------------------------
  // Idle policy
  // ---------------------------------------------------------------------

  /** Idleness is strict: idle time equal to the threshold is not idle, one unit more is. */
  lemma IdleIsStrict(m: Monitor)
    ensures !IsIdle(m, m.lastActivity + m.idleThreshold)
    ensures IsIdle(m, m.lastActivity + m.idleThreshold + 1)
  {
  }

  /** Idle at one time means idle at every later time, as long as nothing is recorded. */
  lemma IdleStaysIdle(m: Monitor, t: int, later: int)
    requires IsIdle(m, t) && t <= later
    ensures IsIdle(m, later) && IdleTime(m, later) >= IdleTime(m, t)
  {
  }

  /** The three cases of `should_auto_move`. */
  lemma ShouldAutoMoveCases(m: Monitor, now: int)
    ensures !IsIdle(m, now) ==> !ShouldAutoMove(m, now)
    ensures IsIdle(m, now) && m.lastAutoMove == None ==> ShouldAutoMove(m, now)
    ensures IsIdle(m, now) && m.lastAutoMove.Some? ==>
              (ShouldAutoMove(m, now) <==> now - m.lastAutoMove.value >= AutoMoveCooldown)
  {
  }

  /**
   * No synthetic move is authorised while less than thirty seconds have
   * passed since one at `t`, idle or not (also when the clock was set back).
   */
  lemma CooldownGatesMoves(m: Monitor, t: int, now: int)
    requires m.lastAutoMove == Some(t) && now - t < AutoMoveCooldown
    ensures !ShouldAutoMove(m, now)
  {
  }

  /** A threshold the constructor does not reject: a negative one makes a fresh monitor idle at once. */
  lemma NegativeThresholdIsIdleAtOnce(threshold: int, now: int, p: Point)
    requires threshold < 0
    ensures IsIdle(Initial(threshold, now, p), now) && ShouldAutoMove(Initial(threshold, now, p), now)
  {
  }

  // ---------------------------------------------------------------------
  // The synthetic-move protocol
  // ---------------------------------------------------------------------

  /**
   * When each pointer write is delivered once, right after it is made, both
   * notifications are swallowed: the last activity is unchanged, the flag ends
   * cleared, the reference point ends at the pointer and the move is recorded.
   */
  lemma SyntheticMoveLeavesActivityUnchanged(m: Monitor, p: Point, now: int)
    ensures SyntheticMoveDelivered(m, p, now)
         == m.(ignoreNextMouseMove := false, lastMousePos := p, lastAutoMove := Some(now))
  {
    var first := OnMouseMove(ArmSuppression(m), p.x + 1, p.y + 1, now);
    SuppressedMoveIsConsumed(ArmSuppression(m), p.x + 1, p.y + 1, now);
    SuppressedMoveIsConsumed(ArmSuppression(first), p.x, p.y, now);
  }

  /**
   * The same holds when both notifications arrive only after the call has
   * returned: the first consumes the flag and the second is a one-pixel move
   * below the threshold, so the reference point stays at the nudged position.
   */
  lemma LateNotificationsRecordNothing(m: Monitor, p: Point, now: int, t1: int, t2: int)
    ensures var r := OnMouseMove(OnMouseMove(MoveMouseSlightly(m, now), p.x + 1, p.y + 1, t1), p.x, p.y, t2);
            r == m.(ignoreNextMouseMove := false, lastMousePos := Nudged(p), lastAutoMove := Some(now))
  {
    var first := OnMouseMove(MoveMouseSlightly(m, now), p.x + 1, p.y + 1, t1);
    assert first.lastMousePos == Nudged(p) && !first.ignoreNextMouseMove;
    assert !IsIntentionalMove(Nudged(p), Point(p.x, p.y));
  }

  /**
   * The hazard of the flag protocol: when the platform delivers no
   * notification for the synthetic writes, the armed flag swallows the next
   * real move, however far it goes.
   */
  lemma DroppedNotificationSwallowsRealMove(m: Monitor, now: int, x: int, y: int, t: int)
    requires !m.ignoreNextMouseMove && IsIntentionalMove(m.lastMousePos, Point(x, y))
    ensures OnMouseMove(m, x, y, t).lastActivity == t
    ensures OnMouseMove(MoveMouseSlightly(m, now), x, y, t).lastActivity == m.lastActivity
  {
  }

  /**
   * While nothing else happens, synthetic moves repeat every cooldown: after a
   * move at `t` taken while idle, none is due before `t + AutoMoveCooldown`
   * and one is due from then on.
   */
  lemma AutoMoveRepeatsAfterCooldown(m: Monitor, p: Point, t: int, now: int)
    requires IsIdle(m, t) && t <= now
    ensures ShouldAutoMove(SyntheticMoveDelivered(m, p, t), now) <==> now >= t + AutoMoveCooldown
  {
    SyntheticMoveLeavesActivityUnchanged(m, p, t);
    IdleStaysIdle(m, t, now);
  }

  // ---------------------------------------------------------------------
  // The status loop
  // ---------------------------------------------------------------------

  /** Ticks at which no move is due leave the monitor alone and move nothing. */
  lemma {:induction false} QuietTicks(m: Monitor, p: Point, times: seq<int>)
    requires forall i :: 0 <= i < |times| ==> !ShouldAutoMove(m, times[i])
    ensures Ticks(m, p, times) == Run(m, [])
    decreases |times|
  {
    if times != [] {
      QuietTicks(m, p, times[1..]);
    }
  }

  /** Ticking through two runs of times is ticking through their concatenation. */
  lemma {:induction false} TicksAppend(m: Monitor, p: Point, a: seq<int>, b: seq<int>)
    ensures var first := Ticks(m, p, a);
            var second := Ticks(first.monitor, p, b);
            Ticks(m, p, a + b) == Run(second.monitor, first.moves + second.moves)
    decreases |a|
  {
    if a == [] {
      assert a + b == b;
    } else {
      TicksAppend(Tick(m, p, a[0]).monitor, p, a[1..], b);
      TicksAppendStep(m, p, a, b);
    }
  }

  /** The inductive step of TicksAppend: from the first tick's successor state to the whole run. */
  lemma TicksAppendStep(m: Monitor, p: Point, a: seq<int>, b: seq<int>)
    requires a != []
    requires var next := Tick(m, p, a[0]).monitor;
             var rest := Ticks(next, p, a[1..]);
             var second := Ticks(rest.monitor, p, b);
             Ticks(next, p, a[1..] + b) == Run(second.monitor, rest.moves + second.moves)
    ensures var first := Ticks(m, p, a);
            var second := Ticks(first.monitor, p, b);
            Ticks(m, p, a + b) == Run(second.monitor, first.moves + second.moves)
  {
    var tick := Tick(m, p, a[0]);
    var rest := Ticks(tick.monitor, p, a[1..]);
    var second := Ticks(rest.monitor, p, b);
    AppendHeadTail(a, b);
    TicksStep(m, p, a);
    TicksStep(m, p, a + b);
    AppendAssociative(tick.moves, rest.moves, second.moves);
  }

  /** The head and tail of a concatenation whose first part is not empty. */
  lemma AppendHeadTail<T>(a: seq<T>, b: seq<T>)
    requires a != []
    ensures (a + b)[0] == a[0] && (a + b)[1..] == a[1..] + b
  {
  }

  lemma AppendAssociative<T>(a: seq<T>, b: seq<T>, c: seq<T>)
    ensures a + (b + c) == (a + b) + c
  {
  }

  /**
   * At most one move per tick: when the ticks come at strictly increasing
   * times, so do the moves.
   */
  lemma {:induction false} TicksMovesAscending(m: Monitor, p: Point, times: seq<int>)
    requires Ascending(times)
    ensures Ascending(Ticks(m, p, times).moves)
    decreases |times|
  {
    if times != [] {
      var first := Tick(m, p, times[0]);
      var rest := Ticks(first.monitor, p, times[1..]);
      AscendingTail(times);
      TicksMovesAscending(first.monitor, p, times[1..]);
      TicksStep(m, p, times);
      assert forall k :: 0 <= k < |rest.moves| ==> times[0] < rest.moves[k];
      AscendingCons(first.moves, times[0], rest.moves);
    }
  }

  /** The tail of ascending times is ascending and lies after the head. */
  lemma AscendingTail(times: seq<int>)
    requires times != [] && Ascending(times)
    ensures Ascending(times[1..])
    ensures forall t :: t in times[1..] ==> times[0] < t
  {
    assert forall i :: 0 <= i < |times[1..]| ==> times[1..][i] == times[i + 1];
  }

  /** Prefixing at most one time below every element keeps a sequence ascending. */
  lemma AscendingCons(head: seq<int>, t: int, rest: seq<int>)
    requires head == [] || head == [t]
    requires Ascending(rest) && forall k :: 0 <= k < |rest| ==> t < rest[k]
    ensures Ascending(head + rest)
  {
    var s := head + rest;
    forall i, j | 0 <= i < j < |s|
      ensures s[i] < s[j]
    {
      if i < |head| {
        assert s[i] == t && s[j] == rest[j - |head|];
      } else {
        assert s[i] == rest[i - |head|] && s[j] == rest[j - |head|];
      }
    }
  }

  /** One step of the status loop: the first tick, then the rest. */
  lemma TicksStep(m: Monitor, p: Point, times: seq<int>)
    requires times != []
    ensures var first := Tick(m, p, times[0]);
            var rest := Ticks(first.monitor, p, times[1..]);
            Ticks(m, p, times) == Run(rest.monitor, first.moves + rest.moves)
  {
  }

  /** The idle policy reads only the threshold, the last activity and the last synthetic move. */
  lemma PolicyReadsOnlyTimes(a: Monitor, b: Monitor, now: int)
    requires SamePolicyState(a, b)
    ensures IdleTime(a, now) == IdleTime(b, now) && IsIdle(a, now) == IsIdle(b, now)
    ensures ShouldAutoMove(a, now) == ShouldAutoMove(b, now)
  {
  }

  /**
   * `Tick` is the object's `StatusTick` followed by prompt delivery of both
   * pointer writes: the actuator runs at the same times, the policy state is
   * the same, and the delivered notifications only clear the flag and move
   * the reference point to the pointer.
   */
  lemma TickMatchesStatusTick(m: Monitor, p: Point, now: int)
    ensures var due := ShouldAutoMove(m, now);
            Tick(m, p, now).moves == (if due then [now] else [])
            && SamePolicyState(Tick(m, p, now).monitor, if due then MoveMouseSlightly(m, now) else m)
    ensures ShouldAutoMove(m, now) ==>
              Tick(m, p, now).monitor
              == MoveMouseSlightly(m, now).(ignoreNextMouseMove := false, lastMousePos := p)
  {
    SyntheticMoveLeavesActivityUnchanged(m, p, now);
  }

  /**
   * The step of the object's status loop: a status tick on a state with the
   * same policy state as the one `Tick` starts from moves exactly when `Tick`
   * does and again leaves the same policy state.
   */
  lemma StatusTickFollowsTick(s: Monitor, m: Monitor, p: Point, now: int)
    requires SamePolicyState(s, m)
    ensures var due := ShouldAutoMove(s, now);
            due == ShouldAutoMove(m, now)
            && Tick(m, p, now).moves == (if due then [now] else [])
            && SamePolicyState(if due then MoveMouseSlightly(s, now) else s, Tick(m, p, now).monitor)
  {
    PolicyReadsOnlyTimes(s, m, now);
    TickMatchesStatusTick(m, p, now);
  }

  /** Ticking through one more time extends the run by that tick. */
  lemma TicksSnoc(m: Monitor, p: Point, times: seq<int>, i: int)
    requires 0 <= i < |times|
    ensures var run := Ticks(m, p, times[..i]);
            var tick := Tick(run.monitor, p, times[i]);
            Ticks(m, p, times[..i + 1]) == Run(tick.monitor, run.moves + tick.moves)
  {
    assert times[..i + 1] == times[..i] + [times[i]];
    TicksAppend(m, p, times[..i], [times[i]]);
    var run := Ticks(m, p, times[..i]);
    TicksStep(run.monitor, p, [times[i]]);
    assert [times[i]][1..] == [];
  }

  /** `n` tick times one second apart, the first at `from`. */
  function EverySecond(from: int, n: nat): (times: seq<int>)
    ensures |times| == n
    ensures forall i :: 0 <= i < n ==> times[i] == from + i * Second
  {
    seq(n, i => from + i * Second)
  }

  /**
   * With the default threshold of three minutes and no input, ticking once a
   * second for 210 seconds after construction moves the pointer exactly once,
   * at 181 seconds (idle for 180 seconds is not yet idle), and the cooldown
   * keeps the next 29 ticks quiet.
   */
  lemma ThreeMinuteScenario(t0: int, p: Point)
    ensures Ticks(Initial(3 * Minute, t0, p), p, EverySecond(t0 + Second, 210)).moves
         == [t0 + 181 * Second]
  {
    var m := Initial(3 * Minute, t0, p);
    var times := EverySecond(t0 + Second, 210);
    var before, at, after := times[..180], [times[180]], times[181..];
    assert times == before + at + after;
    QuietTicks(m, p, before);
    var moved := Tick(m, p, times[180]);
    assert times[180] == t0 + 181 * Second;
    assert moved.moves == [t0 + 181 * Second];
    forall i | 0 <= i < |after| ensures !ShouldAutoMove(moved.monitor, after[i]) {
      assert after[i] == times[181 + i];
      CooldownGatesMoves(moved.monitor, t0 + 181 * Second, after[i]);
    }
    QuietTicks(moved.monitor, p, after);
    TicksAppend(m, p, before, at);
    TicksAppend(m, p, before + at, after);
  }
}
