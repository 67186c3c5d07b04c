/**
 * Value model of the ActivityMonitor of drinkingbird.py.
 *
 * The monitor's state is the `Monitor` datatype below; every event handler,
 * decision rule and the synthetic-move actuator is a function from a state
 * (and the current time, which the source reads from the wall clock) to a
 * new state or a verdict. The class in DrinkingBird.dfy is proved to follow
 * these functions, and ActivityProperties.dfy proves what they promise.
 *
 * Times are integers in microseconds, the resolution of Python's timedelta,
 * so every comparison of timedeltas in the source is modelled exactly.
 */
module ActivitySpec {

  /** One second in the model's time unit (microseconds). */
  const Second: int := 1_000_000
  /** One minute; `idle_threshold` is given in minutes. */
  const Minute: int := 60_000_000
  /** `mouse_move_threshold`: pixels a move must cover to count as activity. */
  const MouseMoveThreshold: nat := 3
  /** `auto_move_cooldown`: minimum time between two synthetic moves (30 s). */
  const AutoMoveCooldown: int := 30_000_000

  datatype Option<T> = None | Some(value: T)

  /** A pointer position in integer screen coordinates. */
  datatype Point = Point(x: int, y: int)

  /** The fields of one ActivityMonitor that its handlers read and write. */
  datatype Monitor = Monitor(
    idleThreshold: int,        // idle_threshold, fixed at construction, not validated
    lastActivity: int,         // last_activity
    lastMousePos: Point,       // last_mouse_pos: reference point of the move filter
    ignoreNextMouseMove: bool, // ignore_next_mouse_move: single-use suppression flag
    lastAutoMove: Option<int>  // last_auto_move: time of the last synthetic move, if any
  )

  /** A freshly constructed monitor: active now, reference point at the pointer. */
  function Initial(idleThreshold: int, now: int, pointer: Point): (m: Monitor)
    ensures m.lastActivity == now && m.lastMousePos == pointer
    ensures !m.ignoreNextMouseMove && m.lastAutoMove == None
    ensures m.idleThreshold == idleThreshold
  {
    Monitor(idleThreshold, now, pointer, false, None)
  }

  // ---------------------------------------------------------------------
  // Activity tracker
  // ---------------------------------------------------------------------

  /** Square of the Euclidean distance between two points. */
  function SquaredDistance(p: Point, q: Point): (d: nat)
    ensures d == 0 <==> p == q
  {
    var dx, dy := q.x - p.x, q.y - p.y;
    assert dx * dx >= 0 && dy * dy >= 0;
    assert dx != 0 ==> dx * dx > 0;
    assert dy != 0 ==> dy * dy > 0;
    dx * dx + dy * dy
  }

  /**
   * The move filter: a move counts as activity when the pointer is at least
   * `MouseMoveThreshold` pixels away from the reference point. The source
   * compares the square root of the squared distance with 3; comparing the
   * squared distance with 3 * 3 decides the same (see EuclideanTest). On
   * integer coordinates a move counts exactly when it covers 3 pixels or more
   * along at least one axis.
   */
  function IsIntentionalMove(from: Point, to: Point): (intentional: bool)
    ensures intentional ==> from != to
    ensures (to.x - from.x >= MouseMoveThreshold || from.x - to.x >= MouseMoveThreshold
             || to.y - from.y >= MouseMoveThreshold || from.y - to.y >= MouseMoveThreshold)
            ==> intentional
    ensures (to.x - from.x < MouseMoveThreshold && from.x - to.x < MouseMoveThreshold
             && to.y - from.y < MouseMoveThreshold && from.y - to.y < MouseMoveThreshold)
            ==> !intentional
  {
    var dx, dy := to.x - from.x, to.y - from.y;
    assert dx >= 3 || dx <= -3 ==> dx * dx >= 9 by {
      if dx >= 3 { assert dx * dx >= 3 * dx; } else if dx <= -3 { assert dx * dx >= -3 * dx; }
    }
    assert dy >= 3 || dy <= -3 ==> dy * dy >= 9 by {
      if dy >= 3 { assert dy * dy >= 3 * dy; } else if dy <= -3 { assert dy * dy >= -3 * dy; }
    }
    assert -3 < dx < 3 && -3 < dy < 3 ==> dx * dx <= 4 && dy * dy <= 4;
    SquaredDistance(from, to) >= MouseMoveThreshold * MouseMoveThreshold
  }

  /** `update_activity`: the last activity becomes now. */
  function UpdateActivity(m: Monitor, now: int): (r: Monitor)
    ensures r.lastActivity == now
    ensures r.(lastActivity := m.lastActivity) == m
  {
    m.(lastActivity := now)
  }

  /**
   * `on_mouse_move`: a suppressed move only consumes the flag and re-baselines
   * the reference point; an unsuppressed move far enough from the reference
   * point records activity and moves the reference point; any other move
   * changes nothing (the reference point stays where it was).
   */
  function OnMouseMove(m: Monitor, x: int, y: int, now: int): (r: Monitor)
    ensures r.idleThreshold == m.idleThreshold && r.lastAutoMove == m.lastAutoMove
    ensures !r.ignoreNextMouseMove
    ensures r.lastActivity == m.lastActivity || r.lastActivity == now
  {
    if m.ignoreNextMouseMove then
      m.(ignoreNextMouseMove := false, lastMousePos := Point(x, y))
    else if IsIntentionalMove(m.lastMousePos, Point(x, y)) then
      UpdateActivity(m, now).(lastMousePos := Point(x, y))
    else
      m
  }

  /** `on_mouse_click`: a press is activity, a release is not. */
  function OnMouseClick(m: Monitor, pressed: bool, now: int): (r: Monitor)
    ensures r.(lastActivity := m.lastActivity) == m
  {
    if pressed then UpdateActivity(m, now) else m
  }

  /** `on_mouse_scroll`: every scroll is activity. */
  function OnMouseScroll(m: Monitor, now: int): (r: Monitor)
    ensures r.(lastActivity := m.lastActivity) == m
  {
    UpdateActivity(m, now)
  }

  /** `on_key_press`: every key press is activity. */
  function OnKeyPress(m: Monitor, now: int): (r: Monitor)
    ensures r.(lastActivity := m.lastActivity) == m
  {
    UpdateActivity(m, now)
  }

  // ---------------------------------------------------------------------
  // Idle policy
  // ---------------------------------------------------------------------

  /** `get_idle_time`: time elapsed since the last recorded activity. */
  function IdleTime(m: Monitor, now: int): (idle: int)
    ensures m.lastActivity + idle == now
    ensures idle >= 0 <==> m.lastActivity <= now
  {
    now - m.lastActivity
  }

  /**
   * `is_idle`: idle strictly longer than the threshold, that is, strictly
   * after the deadline `lastActivity + idleThreshold`.
   */
  function IsIdle(m: Monitor, now: int): (idle: bool)
    ensures idle <==> now > m.lastActivity + m.idleThreshold
    ensures idle && m.idleThreshold >= 0 ==> now > m.lastActivity
  {
    IdleTime(m, now) > m.idleThreshold
  }

  /** `should_auto_move`: idle, and no synthetic move yet or the cooldown has passed. */
  function ShouldAutoMove(m: Monitor, now: int): (due: bool)
    ensures due ==> IsIdle(m, now)
    ensures due ==> m.lastAutoMove.None? || m.lastAutoMove.value + AutoMoveCooldown <= now
    ensures IsIdle(m, now) && m.lastAutoMove.None? ==> due
  {
    if !IsIdle(m, now) then false
    else if m.lastAutoMove.None? then true
    else now - m.lastAutoMove.value >= AutoMoveCooldown
  }

  // ---------------------------------------------------------------------
  // Movement actuator
  // ---------------------------------------------------------------------

  /** The position of the first synthetic step: one pixel right and down. */
  function Nudged(p: Point): Point {
    Point(p.x + 1, p.y + 1)
  }

  /** The positions `move_mouse_slightly` writes to the pointer, in order. */
  function SyntheticPositions(p: Point): (ps: seq<Point>)
    ensures |ps| == 2 && ps[|ps| - 1] == p
    ensures !IsIntentionalMove(p, ps[0]) && !IsIntentionalMove(ps[0], p)
  {
    [Nudged(p), p]
  }

  /** Arming the suppression flag for one pointer write. */
  function ArmSuppression(m: Monitor): Monitor {
    m.(ignoreNextMouseMove := true)
  }

  /** Recording that a synthetic move completed at `now`. */
  function RecordAutoMove(m: Monitor, now: int): Monitor {
    m.(lastAutoMove := Some(now))
  }

  /**
   * The effect of `move_mouse_slightly` on the monitor's own fields when no
   * listener callback runs during the call: the flag is armed (twice) and the
   * move is recorded. The pointer writes are in DrinkingBird.dfy.
   */
  function MoveMouseSlightly(m: Monitor, now: int): (r: Monitor)
    ensures r.ignoreNextMouseMove && r.lastAutoMove == Some(now)
    ensures r.lastActivity == m.lastActivity && r.lastMousePos == m.lastMousePos
    ensures r.idleThreshold == m.idleThreshold
  {
    RecordAutoMove(ArmSuppression(ArmSuppression(m)), now)
  }

  /**
   * One synthetic move with the pointer at `p`, where the listener delivers
   * each pointer write as one `on_mouse_move` notification right after the
   * write: arm, write Nudged(p), deliver it, arm, write p, deliver it, record.
   */
  function SyntheticMoveDelivered(m: Monitor, p: Point, now: int): (r: Monitor)
    ensures r.lastActivity == m.lastActivity && !r.ignoreNextMouseMove
    ensures r.lastAutoMove == Some(now) && r.idleThreshold == m.idleThreshold
  {
    var first := OnMouseMove(ArmSuppression(m), p.x + 1, p.y + 1, now);
    var second := OnMouseMove(ArmSuppression(first), p.x, p.y, now);
    RecordAutoMove(second, now)
  }

  // ---------------------------------------------------------------------
  // Event traces and the status loop
  // ---------------------------------------------------------------------

  /** The input notifications the listeners deliver. */
  datatype Event = Move(x: int, y: int) | Click(pressed: bool) | Scroll | KeyPress

  /** An event together with the time at which its handler runs. */
  datatype Input = Input(event: Event, at: int)

  /** Dispatch of one notification to its handler. */
  function Handle(m: Monitor, e: Event, now: int): (r: Monitor)
    ensures r.idleThreshold == m.idleThreshold && r.lastAutoMove == m.lastAutoMove
    ensures r.lastActivity == m.lastActivity || r.lastActivity == now
  {
    match e
    case Move(x, y) => OnMouseMove(m, x, y, now)
    case Click(pressed) => OnMouseClick(m, pressed, now)
    case Scroll => OnMouseScroll(m, now)
    case KeyPress => OnKeyPress(m, now)
  }

  /** Delivering a sequence of notifications one after the other. */
  function Replay(m: Monitor, inputs: seq<Input>): (r: Monitor)
    ensures r.idleThreshold == m.idleThreshold && r.lastAutoMove == m.lastAutoMove
    ensures r.lastActivity == m.lastActivity || exists i :: 0 <= i < |inputs| && r.lastActivity == inputs[i].at
    decreases |inputs|
  {
    if inputs == [] then m
    else
      var r := Replay(Handle(m, inputs[0].event, inputs[0].at), inputs[1..]);
      assert forall j :: 0 <= j < |inputs[1..]| ==> inputs[1..][j] == inputs[j + 1];
      r
  }

  /** The outcome of a run of status ticks: final state and synthetic-move times. */
  datatype Run = Run(monitor: Monitor, moves: seq<int>)

  /**
   * One iteration of `display_status` without its printing and sleeping:
   * when a synthetic move is due it is performed (with both pointer writes
   * delivered back to the tracker).
   */
  function Tick(m: Monitor, p: Point, now: int): (r: Run)
    ensures r.moves == [] || r.moves == [now]
    ensures r.moves != [] <==> ShouldAutoMove(m, now)
    ensures r.monitor.lastActivity == m.lastActivity && r.monitor.idleThreshold == m.idleThreshold
  {
    if ShouldAutoMove(m, now) then Run(SyntheticMoveDelivered(m, p, now), [now])
    else Run(m, [])
  }

  /** Times in strictly increasing order, as the clock gives them to successive ticks. */
  predicate Ascending(times: seq<int>) {
    forall i, j :: 0 <= i < j < |times| ==> times[i] < times[j]
  }

  /** Ticks at the given times, with no user input and the pointer resting at `p`. */
  function Ticks(m: Monitor, p: Point, times: seq<int>): (r: Run)
    ensures r.monitor.lastActivity == m.lastActivity && r.monitor.idleThreshold == m.idleThreshold
    ensures |r.moves| <= |times|
    ensures forall k :: 0 <= k < |r.moves| ==> r.moves[k] in times
    decreases |times|
  {
    if times == [] then Run(m, [])
    else
      var first := Tick(m, p, times[0]);
      var rest := Ticks(first.monitor, p, times[1..]);
      assert forall t :: t in times[1..] ==> t in times;
      Run(rest.monitor, first.moves + rest.moves)
  }

  /**
   * Two states on which the idle policy decides alike: the same threshold,
   * last activity and last synthetic move. The flag and the reference point
   * are not read by the policy.
   */
  predicate SamePolicyState(a: Monitor, b: Monitor) {
    a.idleThreshold == b.idleThreshold && a.lastActivity == b.lastActivity
    && a.lastAutoMove == b.lastAutoMove
  }
}
