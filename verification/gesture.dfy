/** The interaction state of the uploader: one lock shared by the drag
    gesture (press, moves, release, transition end) on either list and by the
    arrow buttons that swap a row with its neighbour. Every input is an
    event; `Step` is the component's handler for it. A committed drag or a
    finished swap reorders the list it belongs to. */
module Gesture {
  import opened Buffer
  import opened Geometry
  import opened Markers
  import opened Reorder

  datatype Option<T> = None | Some(value: T)

  datatype Direction = Up | Down

  /** What one drag gesture remembers between events: the list it started
      on, its row count, the selected row, where the press was, the list's
      bounding box, the last valid hovered row (-1 before any), the shift
      markers and the dragged row's vertical offset. */
  datatype Drag = Drag(
    kind: Kind, rows: nat, selected: nat, startY: int, width: int, height: int,
    prevHovered: int, marks: seq<Marker>, offset: int)

  /** The rows the arrow buttons mark through component state, per list:
      the row shifting up and the row shifting down, -1 when none. */
  datatype Transition = Transition(vUp: int, vDown: int, sUp: int, sDown: int)

  const NoTransition := Transition(-1, -1, -1, -1)

  datatype Phase =
    | Idle
      /** A drag's move and release listeners are attached. */
    | Dragging(drag: Drag)
      /** Released over a valid row; waiting for the row's transition to end. */
    | Settling(drag: Drag)
      /** An arrow button was pressed; waiting for the row's transition to end. */
    | Swapping(kind: Kind, prev: nat, next: nat)

  datatype World = World(locked: bool, phase: Phase, transition: Transition, lists: Lists)

  datatype Event =
    | Press(kind: Kind, y: int, width: int, height: int)
    | Move(x: int, y: int)
    | Release
    | Settled
    | Arrow(kind: Kind, dir: Direction, prev: nat)

  /** The callback a drag gesture invokes when it ends on a valid row. */
  datatype Commit = Commit(kind: Kind, selected: nat, hovered: nat)

  datatype Outcome = Outcome(world: World, commit: Option<Commit>)

  /** The markers an arrow button sets for swapping rows `up` (which moves
      up) and `down` (which moves down) of one list. */
  function Pending(t: Transition, kind: Kind, up: int, down: int): Transition
  {
    match kind
    case Videos => t.(vUp := up, vDown := down)
    case Subtitles => t.(sUp := up, sDown := down)
  }

  /** A drag's remembered state agrees with the list it belongs to. */
  ghost predicate DragOk(d: Drag, b: Lists)
  {
    && d.rows == |b.Get(d.kind)|
    && d.selected < d.rows
    && d.height < d.rows * Pitch
    && |d.marks| == d.rows
    && -1 <= d.prevHovered < d.rows
    && (d.prevHovered == -1 ==> AllUnmarked(d.marks))
    && (d.prevHovered != -1 ==> Shows(d.marks, d.selected, d.prevHovered))
  }

  /** The lock is held exactly while a drag or a swap is in progress, arrow
      markers exist only during a swap, and a settling drag has a target. */
  ghost predicate Inv(w: World)
  {
    match w.phase
    case Idle => !w.locked && w.transition == NoTransition
    case Dragging(d) => w.locked && w.transition == NoTransition && DragOk(d, w.lists)
    case Settling(d) => w.locked && w.transition == NoTransition && DragOk(d, w.lists) && d.prevHovered != -1
    case Swapping(kind, prev, next) =>
      && w.locked
      && prev < |w.lists.Get(kind)| && next < |w.lists.Get(kind)|
      && (prev + 1 == next || next + 1 == prev)
      && w.transition == Pending(NoTransition, kind, if prev < next then next else prev, if prev < next then prev else next)
  }

  /** The row counts of the two lists. */
  datatype Shape = Shape(videos: nat, subtitles: nat)
  {
    function Rows(kind: Kind): nat
    {
      match kind
      case Videos => videos
      case Subtitles => subtitles
    }
  }

  function ShapeOf(b: Lists): (r: Shape)
    ensures forall kind: Kind :: r.Rows(kind) == |b.Get(kind)|
  {
    Shape(|b.videos|, |b.subtitles|)
  }

  /** What the environment guarantees about an event on lists of shape `s`:
      a press lands inside a list whose rows cover its height, and an arrow
      button belongs to a rendered row. */
  predicate Fits(s: Shape, e: Event)
  {
    match e
    case Press(kind, y, width, height) => 0 <= y <= height < s.Rows(kind) * Pitch
    case Arrow(kind, dir, prev) => prev < s.Rows(kind)
    case _ => true
  }

  /** `dndStart`: ignored while locked; a press in a row's margin takes the
      lock and gives it back at once; otherwise the pressed row is selected
      and the drag begins with no hovered row and no markers. */
  function PressStep(w: World, kind: Kind, y: int, width: int, height: int): (r: World)
    requires Inv(w) && Fits(ShapeOf(w.lists), Press(kind, y, width, height))
    ensures Inv(r) && r.lists == w.lists
    ensures w.locked ==> r == w
    ensures !w.locked && InGap(y) ==> r == w
    ensures !w.locked && !InGap(y) ==>
      && r.locked && r.phase.Dragging?
      && r.phase.drag.kind == kind && r.phase.drag.rows == |w.lists.Get(kind)|
      && r.phase.drag.selected == Slot(y) && r.phase.drag.startY == y
      && r.phase.drag.width == width && r.phase.drag.height == height
      && r.phase.drag.prevHovered == -1 && r.phase.drag.offset == 0
  {
    if w.locked then w
    else
      var selected := Slot(y);
      if InGap(y) then w
      else
        var rows := |w.lists.Get(kind)|;
        var marks := seq(rows, _ => Unmarked);
        w.(locked := true, phase := Dragging(Drag(kind, rows, selected, y, width, height, -1, marks, 0)))
  }

  /** `onMove`: a valid hovered row that differs from the last one becomes
      the last one and redraws the markers; an invalid one changes nothing
      but the offset, which follows the pointer while it is inside the list. */
  function MoveDrag(d: Drag, x: int, y: int): (r: Drag)
    requires |d.marks| == d.rows && d.selected < d.rows && d.height < d.rows * Pitch
    ensures r.kind == d.kind && r.rows == d.rows && r.selected == d.selected
    ensures r.startY == d.startY && r.width == d.width && r.height == d.height
    ensures r.prevHovered == if HoverIndex(x, y, d.width, d.height) != -1 then HoverIndex(x, y, d.width, d.height) else d.prevHovered
    ensures var h := HoverIndex(x, y, d.width, d.height);
      h != -1 && h != d.prevHovered ==> |r.marks| == |d.marks| && Shows(r.marks, d.selected, h)
    ensures var h := HoverIndex(x, y, d.width, d.height);
      h == -1 || h == d.prevHovered ==> r.marks == d.marks
    ensures r.offset == if Within(x, y, d.width, d.height) then y - d.startY else d.offset
  {
    var hovered := HoverIndex(x, y, d.width, d.height);
    HoverIndexBelow(x, y, d.width, d.height, d.rows);
    var d1 := if hovered != -1 && d.prevHovered != hovered
      then d.(prevHovered := hovered, marks := Remark(d.marks, d.selected, hovered))
      else d;
    if Within(x, y, d.width, d.height) then d1.(offset := y - d.startY) else d1
  }

  /** A hover keeps the drag consistent with its list. */
  lemma MoveDragOk(d: Drag, b: Lists, x: int, y: int)
    requires DragOk(d, b)
    ensures DragOk(MoveDrag(d, x, y), b)
    ensures d.prevHovered != -1 ==> MoveDrag(d, x, y).prevHovered != -1
  {
    HoverIndexBelow(x, y, d.width, d.height, d.rows);
  }

  /** `cleanUp`, first half: the listeners go; with no valid hovered row the
      gesture ends at once and releases the lock; otherwise the row is sent
      to its target slot and the drag waits for the transition to end. */
  function ReleaseStep(w: World): (r: World)
    requires Inv(w)
    ensures Inv(r) && r.lists == w.lists
    ensures !w.phase.Dragging? ==> r == w
    ensures w.phase.Dragging? && w.phase.drag.prevHovered == -1 ==> !r.locked && r.phase == Idle
    ensures w.phase.Dragging? && w.phase.drag.prevHovered != -1 ==>
      var d := w.phase.drag;
      && r.locked
      && r.phase == Settling(d.(offset := (d.prevHovered - d.selected) * Pitch))
  {
    match w.phase
    case Dragging(d) =>
      if d.prevHovered == -1 then w.(locked := false, phase := Idle)
      else w.(phase := Settling(d.(offset := (d.prevHovered - d.selected) * Pitch)))
    case _ => w
  }

  /** A transition ended. For a settling drag this is the rest of
      `cleanUp`: the callback reorders the list, then the lock is released.
      For a swap it is the arrow button's handler: the two rows trade places,
      the arrow markers go and the lock is released. Otherwise nothing. */
  function SettleStep(w: World): (o: Outcome)
    requires Inv(w)
    ensures Inv(o.world) && ShapeOf(o.world.lists) == ShapeOf(w.lists)
    ensures o.commit.Some? <==> w.phase.Settling?
    ensures w.phase.Settling? ==>
      var d := w.phase.drag;
      && o.commit == Some(Commit(d.kind, d.selected, d.prevHovered))
      && o.world.lists == w.lists.Put(d.kind, MoveTo(w.lists.Get(d.kind), d.selected, d.prevHovered))
    ensures w.phase.Swapping? ==>
      var p := w.phase;
      o.world.lists == w.lists.Put(p.kind, MoveTo(w.lists.Get(p.kind), p.prev, p.next))
    ensures w.phase.Settling? || w.phase.Swapping? ==> o.world.phase == Idle && o.world.transition == NoTransition
    ensures !w.phase.Settling? && !w.phase.Swapping? ==> o.world == w
  {
    match w.phase
    case Settling(d) =>
      var list := w.lists.Get(d.kind);
      Outcome(World(false, Idle, NoTransition, w.lists.Put(d.kind, MoveTo(list, d.selected, d.prevHovered))),
              Some(Commit(d.kind, d.selected, d.prevHovered)))
    case Swapping(kind, prev, next) =>
      var list := w.lists.Get(kind);
      SwapIsMove(list, prev, next);
      Outcome(World(false, Idle, NoTransition, w.lists.Put(kind, list[prev := list[next]][next := list[prev]])), None)
    case _ => Outcome(w, None)
  }

  /** The arrow buttons (`move`): ignored while locked; a neighbour outside
      the list or a swap already pending takes the lock and gives it back;
      otherwise the two rows are marked and the lock is held until the
      transition ends. */
  function ArrowStep(w: World, kind: Kind, dir: Direction, prev: nat): (r: World)
    requires Inv(w) && Fits(ShapeOf(w.lists), Arrow(kind, dir, prev))
    ensures Inv(r) && r.lists == w.lists
    ensures w.locked ==> r == w
    ensures !w.locked ==>
      var next := if dir == Up then prev - 1 else prev + 1;
      && (r.phase.Swapping? <==> 0 <= next < |w.lists.Get(kind)|)
      && (r.phase.Swapping? ==> r.phase.kind == kind && r.phase.prev == prev && r.phase.next == next)
      && (!r.phase.Swapping? ==> r == w)
  {
    if w.locked then w
    else
      var list := w.lists.Get(kind);
      var next := prev + (if dir == Up then -1 else 1);
      if next < 0 || next > |list| - 1 then w
      else if w.transition != NoTransition then w
      else
        var t := if dir == Up then Pending(w.transition, kind, prev, prev - 1)
                 else Pending(w.transition, kind, prev + 1, prev);
        World(true, Swapping(kind, prev, next), t, w.lists)
  }

  /** One event handled. */
  function Step(w: World, e: Event): (o: Outcome)
    requires Inv(w) && Fits(ShapeOf(w.lists), e)
    ensures Inv(o.world) && ShapeOf(o.world.lists) == ShapeOf(w.lists)
    ensures o.commit.Some? ==>
      && e.Settled? && w.phase.Settling? && w.phase.drag.prevHovered != -1
      && o.commit.value == Commit(w.phase.drag.kind, w.phase.drag.selected, w.phase.drag.prevHovered)
      && !o.world.locked
  {
    match e
    case Press(kind, y, width, height) => Outcome(PressStep(w, kind, y, width, height), None)
    case Move(x, y) =>
      (match w.phase
       case Dragging(d) =>
         MoveDragOk(d, w.lists, x, y);
         Outcome(w.(phase := Dragging(MoveDrag(d, x, y))), None)
       case _ => Outcome(w, None))
    case Release => Outcome(ReleaseStep(w), None)
    case Settled => SettleStep(w)
    case Arrow(kind, dir, prev) => Outcome(ArrowStep(w, kind, dir, prev), None)
  }

  /** Nothing but a transition end can start or finish a commit, and while
      the lock is held a press or an arrow button changes nothing. */
  lemma LockedIgnoresStarts(w: World, e: Event)
    requires Inv(w) && Fits(ShapeOf(w.lists), e) && w.locked && (e.Press? || e.Arrow?)
    ensures Step(w, e) == Outcome(w, None)
  {
  }

  /** No event makes two names of a list clash: a commit or a swap only
      moves a row within its list. */
  lemma StepKeepsDistinct(w: World, e: Event)
    requires Inv(w) && Fits(ShapeOf(w.lists), e) && ListsDistinct(w.lists)
    ensures ListsDistinct(Step(w, e).world.lists)
  {
    if e.Settled? {
      match w.phase
      case Settling(d) => MoveToKeepsDistinct(w.lists.Get(d.kind), d.selected, d.prevHovered);
      case Swapping(kind, prev, next) => MoveToKeepsDistinct(w.lists.Get(kind), prev, next);
      case _ =>
    }
  }

  /** Every event of `evs` fits lists of shape `s`. */
  predicate AllFit(s: Shape, evs: seq<Event>)
  {
    forall i :: 0 <= i < |evs| ==> Fits(s, evs[i])
  }

  /** No event of `evs` is a release. */
  predicate NoRelease(evs: seq<Event>)
  {
    forall i :: 0 <= i < |evs| ==> !evs[i].Release?
  }

  /** No event of `evs` is a transition end. */
  predicate NoSettled(evs: seq<Event>)
  {
    forall i :: 0 <= i < |evs| ==> !evs[i].Settled?
  }

  /** Handle a sequence of events in order, collecting the callbacks fired. */
  function Run(w: World, evs: seq<Event>): (r: (World, seq<Commit>))
    requires Inv(w) && AllFit(ShapeOf(w.lists), evs)
    ensures Inv(r.0) && ShapeOf(r.0.lists) == ShapeOf(w.lists)
  {
    if |evs| == 0 then (w, [])
    else
      var (w1, cs) := Run(w, evs[..|evs| - 1]);
      var o := Step(w1, evs[|evs| - 1]);
      (o.world, cs + (if o.commit.Some? then [o.commit.value] else []))
  }

  /** Over any run of events the names of each list stay distinct. */
  lemma {:induction false} RunKeepsDistinct(w: World, evs: seq<Event>)
    requires Inv(w) && AllFit(ShapeOf(w.lists), evs)
    requires ListsDistinct(w.lists)
    ensures ListsDistinct(Run(w, evs).0.lists)
  {
    if |evs| > 0 {
      var pre := evs[..|evs| - 1];
      RunKeepsDistinct(w, pre);
      StepKeepsDistinct(Run(w, pre).0, evs[|evs| - 1]);
    }
  }

  /** The last valid hovered row among the move events of `evs`, or -1. */
  function LastValid(evs: seq<Event>, width: int, height: int): int
  {
    if |evs| == 0 then -1
    else
      var e := evs[|evs| - 1];
      var h := if e.Move? then HoverIndex(e.x, e.y, width, height) else -1;
      if h != -1 then h else LastValid(evs[..|evs| - 1], width, height)
  }

  /** Handling one more event extends the run by one step. */
  lemma RunSnoc(w: World, evs: seq<Event>, e: Event)
    requires Inv(w) && AllFit(ShapeOf(w.lists), evs)
    requires Fits(ShapeOf(w.lists), e)
    ensures AllFit(ShapeOf(w.lists), evs + [e])
    ensures var (w1, cs) := Run(w, evs);
      var o := Step(w1, e);
      Run(w, evs + [e]) == (o.world, cs + (if o.commit.Some? then [o.commit.value] else []))
  {
    assert (evs + [e])[..|evs|] == evs;
  }

  /** One event other than a release during a drag: the drag goes on,
      nothing fires, and a valid hovered row becomes the last one. */
  lemma StepWhileDragging(w: World, e: Event)
    requires Inv(w) && Fits(ShapeOf(w.lists), e) && w.phase.Dragging? && !e.Release?
    ensures var d := w.phase.drag;
      var o := Step(w, e);
      var h := if e.Move? then HoverIndex(e.x, e.y, d.width, d.height) else -1;
      && o.commit == None
      && o.world.lists == w.lists && o.world.locked && o.world.transition == w.transition
      && o.world.phase.Dragging?
      && o.world.phase.drag.kind == d.kind && o.world.phase.drag.selected == d.selected
      && o.world.phase.drag.width == d.width && o.world.phase.drag.height == d.height
      && o.world.phase.drag.prevHovered == if h != -1 then h else d.prevHovered
  {
  }

  /** While a drag is on, any events but a release leave it dragging and
      fire nothing; the last hovered row becomes the last valid one seen,
      if any. */
  lemma {:induction false} DragThrough(w: World, pre: seq<Event>, mid: seq<Event>)
    requires Inv(w) && AllFit(ShapeOf(w.lists), pre)
    requires Run(w, pre).0.phase.Dragging?
    requires AllFit(ShapeOf(w.lists), mid) && NoRelease(mid)
    ensures AllFit(ShapeOf(w.lists), pre + mid)
    ensures var (w0, cs0) := Run(w, pre);
      var d := w0.phase.drag;
      var (w1, cs) := Run(w, pre + mid);
      && cs == cs0
      && w1.lists == w0.lists && w1.locked && w1.transition == w0.transition
      && w1.phase.Dragging?
      && w1.phase.drag.kind == d.kind && w1.phase.drag.selected == d.selected
      && w1.phase.drag.width == d.width && w1.phase.drag.height == d.height
      && w1.phase.drag.prevHovered ==
         if LastValid(mid, d.width, d.height) != -1 then LastValid(mid, d.width, d.height) else d.prevHovered
    decreases |mid|
  {
    if |mid| == 0 {
      assert pre + mid == pre;
    } else {
      var front, e := mid[..|mid| - 1], mid[|mid| - 1];
      assert mid == front + [e];
      DragThrough(w, pre, front);
      assert pre + mid == (pre + front) + [e];
      RunSnoc(w, pre + front, e);
      var (w1, cs) := Run(w, pre + front);
      StepWhileDragging(w1, e);
      assert cs + [] == cs;
    }
  }

  /** A settling drag ignores every event but the end of its transition. */
  lemma SettlingIgnores(w: World, e: Event)
    requires Inv(w) && Fits(ShapeOf(w.lists), e) && w.phase.Settling? && !e.Settled?
    ensures Step(w, e) == Outcome(w, None)
  {
  }

  /** A drag that has hovered a valid row is settling after the release, and
      until its transition ends, other events change nothing. */
  lemma {:induction false} SettleWaits(w: World, pre: seq<Event>, tail: seq<Event>)
    requires Inv(w) && AllFit(ShapeOf(w.lists), pre)
    requires Run(w, pre).0.phase.Settling?
    requires AllFit(ShapeOf(w.lists), tail) && NoSettled(tail)
    ensures AllFit(ShapeOf(w.lists), pre + tail)
    ensures Run(w, pre + tail) == Run(w, pre)
    decreases |tail|
  {
    if |tail| == 0 {
      assert pre + tail == pre;
    } else {
      var front, e := tail[..|tail| - 1], tail[|tail| - 1];
      assert tail == front + [e];
      SettleWaits(w, pre, front);
      assert pre + tail == (pre + front) + [e];
      RunSnoc(w, pre + front, e);
      var (w1, cs) := Run(w, pre + front);
      SettlingIgnores(w1, e);
      assert cs + [] == cs;
    }
  }

  /** The press that starts a drag, as the first event of a run. */
  lemma RunPress(w: World, kind: Kind, y: int, width: int, height: int)
    requires Inv(w) && !w.locked && !InGap(y) && Fits(ShapeOf(w.lists), Press(kind, y, width, height))
    ensures var (w0, cs) := Run(w, [Press(kind, y, width, height)]);
      && cs == [] && w0.lists == w.lists && w0.transition == w.transition
      && w0.phase.Dragging?
      && w0.phase.drag == Drag(kind, |w.lists.Get(kind)|, Slot(y), y, width, height, -1, w0.phase.drag.marks, 0)
  {
    RunSnoc(w, [], Press(kind, y, width, height));
    assert [] + [Press(kind, y, width, height)] == [Press(kind, y, width, height)];
  }

  /** A whole drag gesture from an unlocked state: press on a row, any events
      but a release, release. With no valid row ever hovered the gesture
      ends there: the lock is free again, no callback fired and nothing
      changed. */
  lemma DragGestureNoTarget(w: World, kind: Kind, y: int, width: int, height: int, mid: seq<Event>)
    requires Inv(w) && !w.locked && !InGap(y)
    requires Fits(ShapeOf(w.lists), Press(kind, y, width, height))
    requires AllFit(ShapeOf(w.lists), mid) && NoRelease(mid)
    requires LastValid(mid, width, height) == -1
    ensures var evs := [Press(kind, y, width, height)] + mid + [Release];
      AllFit(ShapeOf(w.lists), evs)
    ensures Run(w, [Press(kind, y, width, height)] + mid + [Release]) == (w, [])
  {
    var press := [Press(kind, y, width, height)];
    RunPress(w, kind, y, width, height);
    DragThrough(w, press, mid);
    RunSnoc(w, press + mid, Release);
  }

  /** The release step of a drag with a valid hovered row. */
  lemma ReleaseWithTarget(w: World)
    requires Inv(w) && w.phase.Dragging? && w.phase.drag.prevHovered != -1
    ensures var d := w.phase.drag;
      Step(w, Release) == Outcome(w.(phase := Settling(d.(offset := (d.prevHovered - d.selected) * Pitch))), None)
  {
  }

  /** A release of a drag with a valid hovered row leaves it settling
      towards that row. */
  lemma RunReleaseSettles(w: World, pre: seq<Event>)
    requires Inv(w) && AllFit(ShapeOf(w.lists), pre)
    requires Run(w, pre).0.phase.Dragging? && Run(w, pre).0.phase.drag.prevHovered != -1
    ensures AllFit(ShapeOf(w.lists), pre + [Release])
    ensures var (w0, cs0) := Run(w, pre);
      var d := w0.phase.drag;
      var (w1, cs) := Run(w, pre + [Release]);
      && cs == cs0 && w1.lists == w0.lists
      && w1.phase == Settling(d.(offset := (d.prevHovered - d.selected) * Pitch))
  {
    RunSnoc(w, pre, Release);
    var (w0, cs0) := Run(w, pre);
    ReleaseWithTarget(w0);
    assert cs0 + [] == cs0;
  }

  /** The end of a settling drag's transition fires the callback with the
      drag's rows, reorders its list and releases the lock. */
  lemma RunSettledCommits(w: World, pre: seq<Event>)
    requires Inv(w) && AllFit(ShapeOf(w.lists), pre)
    requires Run(w, pre).0.phase.Settling?
    ensures AllFit(ShapeOf(w.lists), pre + [Settled])
    ensures var (w0, cs0) := Run(w, pre);
      var d := w0.phase.drag;
      var (w1, cs) := Run(w, pre + [Settled]);
      && cs == cs0 + [Commit(d.kind, d.selected, d.prevHovered)]
      && w1.lists == w0.lists.Put(d.kind, MoveTo(w0.lists.Get(d.kind), d.selected, d.prevHovered))
      && !w1.locked && w1.phase == Idle
  {
    RunSnoc(w, pre, Settled);
  }

  /** Releasing a drag that has a valid hovered row and then seeing its
      transition end, with any other events between, fires the callback
      once with the drag's rows and reorders the drag's list. */
  lemma ReleaseThenSettleCommits(w: World, pre: seq<Event>, tail: seq<Event>)
    requires Inv(w) && AllFit(ShapeOf(w.lists), pre)
    requires Run(w, pre).0.phase.Dragging? && Run(w, pre).0.phase.drag.prevHovered != -1
    requires AllFit(ShapeOf(w.lists), tail) && NoSettled(tail)
    ensures var evs := pre + [Release] + tail + [Settled];
      AllFit(ShapeOf(w.lists), evs)
    ensures var (w0, cs0) := Run(w, pre);
      var d := w0.phase.drag;
      var (w1, cs) := Run(w, pre + [Release] + tail + [Settled]);
      && cs == cs0 + [Commit(d.kind, d.selected, d.prevHovered)]
      && w1.lists == w0.lists.Put(d.kind, MoveTo(w0.lists.Get(d.kind), d.selected, d.prevHovered))
      && !w1.locked && w1.phase == Idle
  {
    var released := pre + [Release];
    RunReleaseSettles(w, pre);
    SettleWaits(w, released, tail);
    RunSettledCommits(w, released + tail);
    assert pre + [Release] + tail + [Settled] == (released + tail) + [Settled];
  }

  /** The same gesture when some valid row was hovered: once the released
      row's transition ends (any events but that one may come between), the
      callback has fired exactly once, with the selected row and the last
      valid hovered row, the list is reordered accordingly, and the lock is
      free. */
  lemma DragGestureCommits(w: World, kind: Kind, y: int, width: int, height: int, mid: seq<Event>, tail: seq<Event>)
    requires Inv(w) && !w.locked && !InGap(y)
    requires Fits(ShapeOf(w.lists), Press(kind, y, width, height))
    requires AllFit(ShapeOf(w.lists), mid) && NoRelease(mid)
    requires AllFit(ShapeOf(w.lists), tail) && NoSettled(tail)
    requires LastValid(mid, width, height) != -1
    ensures var evs := [Press(kind, y, width, height)] + mid + [Release] + tail + [Settled];
      AllFit(ShapeOf(w.lists), evs)
    ensures var (w1, cs) := Run(w, [Press(kind, y, width, height)] + mid + [Release] + tail + [Settled]);
      var hovered := LastValid(mid, width, height);
      && 0 <= hovered < |w.lists.Get(kind)|
      && cs == [Commit(kind, Slot(y), hovered)]
      && w1.lists == w.lists.Put(kind, MoveTo(w.lists.Get(kind), Slot(y), hovered))
      && !w1.locked && w1.phase == Idle
  {
    var press := [Press(kind, y, width, height)];
    RunPress(w, kind, y, width, height);
    DragThrough(w, press, mid);
    var (w2, cs2) := Run(w, press + mid);
    assert w2.phase.Dragging? && w2.phase.drag.prevHovered == LastValid(mid, width, height);
    assert cs2 == [] && w2.phase.drag.kind == kind && w2.phase.drag.selected == Slot(y) && w2.lists == w.lists;
    ReleaseThenSettleCommits(w, press + mid, tail);
  }

  /** A drag whose last valid hovered row is the row it started on still
      fires the callback, with that row twice, and the list stays as it was. */
  lemma DragGestureBackToStart(w: World, kind: Kind, y: int, width: int, height: int, mid: seq<Event>, tail: seq<Event>)
    requires Inv(w) && !w.locked && !InGap(y)
    requires Fits(ShapeOf(w.lists), Press(kind, y, width, height))
    requires AllFit(ShapeOf(w.lists), mid) && NoRelease(mid)
    requires AllFit(ShapeOf(w.lists), tail) && NoSettled(tail)
    requires LastValid(mid, width, height) == Slot(y)
    ensures var evs := [Press(kind, y, width, height)] + mid + [Release] + tail + [Settled];
      AllFit(ShapeOf(w.lists), evs)
    ensures var (w1, cs) := Run(w, [Press(kind, y, width, height)] + mid + [Release] + tail + [Settled]);
      && cs == [Commit(kind, Slot(y), Slot(y))]
      && w1.lists == w.lists
  {
    DragGestureCommits(w, kind, y, width, height, mid, tail);
    MoveToSame(w.lists.Get(kind), Slot(y));
    assert w.lists.Put(kind, w.lists.Get(kind)) == w.lists;
  }

  /** Whatever is in progress, a release followed by the end of a transition
      leaves the lock free and nothing pending. */
  lemma ReleaseThenSettleUnlocks(w: World)
    requires Inv(w)
    ensures var (w1, cs) := Run(w, [Release, Settled]);
      !w1.locked && w1.phase == Idle && w1.transition == NoTransition
  {
    RunSnoc(w, [], Release);
    assert [] + [Release] == [Release];
    RunSnoc(w, [Release], Settled);
    assert [Release] + [Settled] == [Release, Settled];
  }

  /** An arrow button pressed while nothing is in progress: when the
      neighbour exists, the row trades places with it once the transition
      ends, which is the same as moving it there, and no drag callback
      fires; otherwise the press changes nothing. */
  lemma ArrowSwaps(w: World, kind: Kind, dir: Direction, prev: nat)
    requires Inv(w) && !w.locked && Fits(ShapeOf(w.lists), Arrow(kind, dir, prev))
    ensures var (w1, cs) := Run(w, [Arrow(kind, dir, prev), Settled]);
      var list := w.lists.Get(kind);
      var next := if dir == Up then prev - 1 else prev + 1;
      && cs == []
      && !w1.locked && w1.phase == Idle
      && (0 <= next < |list| ==> w1.lists == w.lists.Put(kind, MoveTo(list, prev, next)))
      && (next < 0 || next >= |list| ==> w1 == w)
  {
    RunSnoc(w, [], Arrow(kind, dir, prev));
    assert [] + [Arrow(kind, dir, prev)] == [Arrow(kind, dir, prev)];
    RunSnoc(w, [Arrow(kind, dir, prev)], Settled);
    assert [Arrow(kind, dir, prev)] + [Settled] == [Arrow(kind, dir, prev), Settled];
  }

  /** On a touch device an arrow tap reaches the list first, as a press
      and a release, and only then the button, as an emulated mouse press.
      When the finger stays still the drag ends at once and the swap goes
      ahead as if the list had not seen the tap. */
  lemma TouchArrowTapStill(w: World, kind: Kind, y: int, width: int, height: int, dir: Direction)
    requires Inv(w) && !w.locked && !InGap(y) && Fits(ShapeOf(w.lists), Press(kind, y, width, height))
    ensures var evs := [Press(kind, y, width, height), Release, Arrow(kind, dir, Slot(y)), Settled];
      && AllFit(ShapeOf(w.lists), evs)
      && Run(w, evs) == Run(w, [Arrow(kind, dir, Slot(y)), Settled])
  {
    var press, arrow := Press(kind, y, width, height), Arrow(kind, dir, Slot(y));
    DragGestureNoTarget(w, kind, y, width, height, []);
    assert [press] + [] + [Release] == [press, Release];
    RunSnoc(w, [press, Release], arrow);
    RunSnoc(w, [], arrow);
    assert [] + [arrow] == [arrow];
    RunSnoc(w, [press, Release, arrow], Settled);
    RunSnoc(w, [arrow], Settled);
    assert [press, Release] + [arrow] == [press, Release, arrow];
    assert [press, Release, arrow] + [Settled] == [press, Release, arrow, Settled];
    assert [arrow] + [Settled] == [arrow, Settled];
  }

  /** When the finger drifts within its row before lifting, the tap is a
      drag back to its start: the emulated press of the arrow button meets
      the lock and is dropped, the drag callback fires with the row twice,
      and the list stays as it was. */
  lemma TouchArrowTapMoved(w: World, kind: Kind, y: int, width: int, height: int, dir: Direction, x: int, y2: int)
    requires Inv(w) && !w.locked && !InGap(y) && Fits(ShapeOf(w.lists), Press(kind, y, width, height))
    requires HoverIndex(x, y2, width, height) == Slot(y)
    ensures var evs := [Press(kind, y, width, height), Move(x, y2), Release, Arrow(kind, dir, Slot(y)), Settled];
      && AllFit(ShapeOf(w.lists), evs)
      && Run(w, evs).1 == [Commit(kind, Slot(y), Slot(y))]
      && Run(w, evs).0.lists == w.lists
      && !Run(w, evs).0.locked
  {
    var press, arrow := Press(kind, y, width, height), Arrow(kind, dir, Slot(y));
    var mid, tail := [Move(x, y2)], [arrow];
    assert LastValid(mid, width, height) == Slot(y);
    DragGestureCommits(w, kind, y, width, height, mid, tail);
    DragGestureBackToStart(w, kind, y, width, height, mid, tail);
    assert [press] + mid + [Release] + tail + [Settled] == [press, Move(x, y2), Release, arrow, Settled];
  }
}
