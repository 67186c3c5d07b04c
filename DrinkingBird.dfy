/**
 * The ActivityMonitor object of drinkingbird.py, with the fields its event
 * callbacks and its actuator update in place. Each callback, the actuator
 * and `StatusTick` are proved to change the fields exactly as the matching
 * function of ActivitySpec.dfy says, so the lemmas of ActivityProperties.dfy
 * about those functions apply to the object. `Tick` and `Ticks` are not
 * methods of the object: they also deliver the actuator's pointer writes.
 * `DisplayStatus` below, the object's status loop, is proved to make the
 * moves of `Ticks` and to reach its policy state, and states its flag and
 * reference point on its own, since nothing delivers the writes.
 *
 * The wall clock is an explicit `now` argument (microseconds), and the
 * platform's mouse controller is a PointerController object.
 */
module DrinkingBird {
  import opened ActivitySpec
  import ActivityProperties

  /** The platform's mouse controller: a pointer position that can be read and assigned. */
  class PointerController {
    var position: Point

    constructor (position: Point)
      ensures this.position == position
    {
      this.position := position;
    }
  }

  class ActivityMonitor {
    var lastActivity: int
    const idleThreshold: int
    const mouseController: PointerController
    var ignoreNextMouseMove: bool
    var lastMousePos: Point
    var lastAutoMove: Option<int>

    /** The monitor's fields as a value of the model. */
    function Snapshot(): Monitor
      reads this
    {
      Monitor(idleThreshold, lastActivity, lastMousePos, ignoreNextMouseMove, lastAutoMove)
    }

    /**
     * `__init__`: active now, reference point at the controller's position,
     * flag clear, no synthetic move yet. The threshold is not validated.
     */
    constructor (idleThreshold: int, mouseController: PointerController, now: int)
      ensures Snapshot() == Initial(idleThreshold, now, mouseController.position)
      ensures this.mouseController == mouseController
    {
      lastActivity := now;
      this.idleThreshold := idleThreshold;
      this.mouseController := mouseController;
      ignoreNextMouseMove := false;
      lastMousePos := mouseController.position;
      lastAutoMove := None;
    }

    /** `on_mouse_move` */
    method OnMouseMove(x: int, y: int, now: int)
      modifies this
      ensures Snapshot() == ActivitySpec.OnMouseMove(old(Snapshot()), x, y, now)
      ensures !ignoreNextMouseMove
      ensures lastActivity == old(lastActivity) || lastActivity == now
    {
      if ignoreNextMouseMove {
        ignoreNextMouseMove := false;
        lastMousePos := Point(x, y);
        return;
      }
      var distance := SquaredDistance(lastMousePos, Point(x, y));
      if distance >= MouseMoveThreshold * MouseMoveThreshold {
        UpdateActivity(now);
        lastMousePos := Point(x, y);
      }
    }

    /** `on_mouse_click`; the position and the button are not used by the source. */
    method OnMouseClick(x: int, y: int, pressed: bool, now: int)
      modifies this
      ensures Snapshot() == ActivitySpec.OnMouseClick(old(Snapshot()), pressed, now)
      ensures lastActivity == if pressed then now else old(lastActivity)
    {
      if pressed {
        UpdateActivity(now);
      }
    }

    /** `on_mouse_scroll`; the position and the scroll amounts are not used by the source. */
    method OnMouseScroll(x: int, y: int, dx: int, dy: int, now: int)
      modifies this
      ensures Snapshot() == ActivitySpec.OnMouseScroll(old(Snapshot()), now)
      ensures lastActivity == now
    {
      UpdateActivity(now);
    }

    /** `on_key_press`; which key was pressed is not used by the source. */
    method OnKeyPress(now: int)
      modifies this
      ensures Snapshot() == ActivitySpec.OnKeyPress(old(Snapshot()), now)
      ensures lastActivity == now
    {
      UpdateActivity(now);
    }

    /** `update_activity` */
    method UpdateActivity(now: int)
      modifies this
      ensures Snapshot() == ActivitySpec.UpdateActivity(old(Snapshot()), now)
      ensures lastActivity == now
    {
      lastActivity := now;
    }

    /** `get_idle_time` */
    function GetIdleTime(now: int): (idle: int)
      reads this
      ensures lastActivity + idle == now
    {
      IdleTime(Snapshot(), now)
    }

    /** `is_idle` */
    function IsIdle(now: int): (idle: bool)
      reads this
      ensures idle <==> GetIdleTime(now) > idleThreshold
    {
      ActivitySpec.IsIdle(Snapshot(), now)
    }

    /** `should_auto_move` */
    function ShouldAutoMove(now: int): (due: bool)
      reads this
      ensures due <==> IsIdle(now) && (lastAutoMove.None? || now - lastAutoMove.value >= AutoMoveCooldown)
    {
      ActivitySpec.ShouldAutoMove(Snapshot(), now)
    }

    /**
     * `move_mouse_slightly`: arm the flag, nudge the pointer one pixel right
     * and down, arm the flag again, put the pointer back, record the move.
     * `written` lists the positions assigned to the controller, in order.
     */
    method MoveMouseSlightly(now: int) returns (written: seq<Point>)
      modifies this, mouseController
      ensures Snapshot() == ActivitySpec.MoveMouseSlightly(old(Snapshot()), now)
      ensures written == SyntheticPositions(old(mouseController.position))
      ensures mouseController.position == old(mouseController.position)
      ensures lastActivity == old(lastActivity) && lastAutoMove == Some(now)
    {
      var currentPos := mouseController.position;
      ignoreNextMouseMove := true;
      mouseController.position := Point(currentPos.x + 1, currentPos.y + 1);
      written := [mouseController.position];
      ignoreNextMouseMove := true;
      mouseController.position := currentPos;
      written := written + [mouseController.position];
      lastAutoMove := Some(now);
    }

    /**
     * One iteration of the `display_status` loop without its printing and
     * sleeping: perform a synthetic move when one is due.
     */
    method StatusTick(now: int) returns (moved: bool, written: seq<Point>)
      modifies this, mouseController
      ensures moved == ActivitySpec.ShouldAutoMove(old(Snapshot()), now)
      ensures Snapshot() == if moved then ActivitySpec.MoveMouseSlightly(old(Snapshot()), now) else old(Snapshot())
      ensures written == if moved then SyntheticPositions(old(mouseController.position)) else []
      ensures mouseController.position == old(mouseController.position)
    {
      moved := ShouldAutoMove(now);
      written := [];
      if moved {
        written := MoveMouseSlightly(now);
      }
    }

    /**
     * `display_status` for the ticks at `times`, without its printing and
     * sleeping: one StatusTick per time, in order. `moves` lists the times at
     * which the actuator ran. They are the moves of `Ticks`, and the policy
     * state is that of `Ticks`. Unlike `Ticks`, no notification is delivered
     * here: after any move the flag stays armed, and the reference point is
     * never touched.
     */
    method DisplayStatus(times: seq<int>) returns (moves: seq<int>)
      modifies this, mouseController
      ensures moves == Ticks(old(Snapshot()), old(mouseController.position), times).moves
      ensures SamePolicyState(Snapshot(), Ticks(old(Snapshot()), old(mouseController.position), times).monitor)
      ensures lastMousePos == old(lastMousePos)
      ensures ignoreNextMouseMove == (old(ignoreNextMouseMove) || moves != [])
      ensures mouseController.position == old(mouseController.position)
    {
      ghost var start := Snapshot();
      var p := mouseController.position;
      moves := [];
      var i := 0;
      while i < |times|
        invariant 0 <= i <= |times|
        invariant mouseController.position == p
        invariant moves == Ticks(start, p, times[..i]).moves
        invariant SamePolicyState(Snapshot(), Ticks(start, p, times[..i]).monitor)
        invariant lastMousePos == start.lastMousePos
        invariant ignoreNextMouseMove == (start.ignoreNextMouseMove || moves != [])
      {
        ActivityProperties.StatusTickFollowsTick(Snapshot(), Ticks(start, p, times[..i]).monitor, p, times[i]);
        ActivityProperties.TicksSnoc(start, p, times, i);
        var moved, _ := StatusTick(times[i]);
        if moved {
          moves := moves + [times[i]];
        }
        i := i + 1;
      }
      assert times[..i] == times;
    }
  }

  /**
   * A monitor created with the default threshold of three minutes and left
   * alone, its status loop ticking once a second for 210 seconds: the
   * actuator runs once, at 181 seconds, and the pointer ends where it was.
   */
  method IdleMonitorMovesOnce(controller: PointerController, t0: int) returns (moves: seq<int>)
    modifies controller
    ensures moves == [t0 + 181 * Second]
    ensures controller.position == old(controller.position)
  {
    var monitor := new ActivityMonitor(3 * Minute, controller, t0);
    moves := monitor.DisplayStatus(ActivityProperties.EverySecond(t0 + Second, 210));
    ActivityProperties.ThreeMinuteScenario(t0, controller.position);
  }

  /**
   * The actuator followed by the listener's two notifications, one per pointer
   * write, delivered to the monitor's own callback: neither is taken for
   * activity, the flag ends cleared and the pointer ends where it started.
   */
  method SyntheticMoveThenNotifications(monitor: ActivityMonitor, now: int, t1: int, t2: int)
    modifies monitor, monitor.mouseController
    ensures monitor.lastActivity == old(monitor.lastActivity)
    ensures !monitor.ignoreNextMouseMove && monitor.lastAutoMove == Some(now)
    ensures monitor.lastMousePos == Nudged(old(monitor.mouseController.position))
    ensures monitor.mouseController.position == old(monitor.mouseController.position)
  {
    ghost var before := monitor.Snapshot();
    var written := monitor.MoveMouseSlightly(now);
    monitor.OnMouseMove(written[0].x, written[0].y, t1);
    monitor.OnMouseMove(written[1].x, written[1].y, t2);
    ActivityProperties.LateNotificationsRecordNothing(before, old(monitor.mouseController.position), now, t1, t2);
  }
}
