/** The animation part of a Flickity slider as an object whose fields the tick
    updates in place. Every method is specified against the pure model in
    Physics and Wrap: its new state is the model's step applied to the old
    state, and what the model promises is proved there. */
module Animation {
  import opened Numerics
  import Physics
  import Wrap

  class Flickity {
    // motion state along the horizontal axis
    var x: real
    var velocity: real
    var restingFrames: nat
    var isAnimating: bool
    // inputs set by pointer handling and selection, read by the tick
    var isPointerDown: bool
    var isFreeScrolling: bool
    var dragX: real
    var selectedTarget: real   // the selected slide's target
    var cellCount: nat         // the number of cells
    // configuration and layout
    var options: Physics.Options
    var slideableWidth: real
    var cursorPosition: real
    var innerWidth: real
    // the cells wrapped before and after the track: their outer widths, and
    // the wrap shift each one currently has
    var beforeCells: seq<real>
    var afterCells: seq<real>
    var beforeShifts: array<int>
    var afterShifts: array<int>

    /** Wrap shifting applies only with wrap-around on and more than one cell. */
    predicate WrapActive()
      reads this
    {
      options.wrapAround && cellCount > 1
    }

    /** One shift per wrapped cell, the two groups in separate arrays, a
        positive track length whenever wrapping, and a viewport width to
        divide by in percent mode. */
    ghost predicate Valid()
      reads this
    {
      beforeShifts.Length == |beforeCells| && afterShifts.Length == |afterCells| &&
      beforeShifts != afterShifts &&
      (WrapActive() ==> 0.0 < slideableWidth) &&
      (options.percentPosition ==> innerWidth != 0.0)
    }

    /** The motion state as a value of the pure model. */
    function State(): Physics.Motion
      reads this
    {
      Physics.Motion(x, velocity, restingFrames, isAnimating, isPointerDown,
                     isFreeScrolling, dragX, selectedTarget, cellCount)
    }

    /** The wrap shifts are those shiftWrapCells gives for the wrapped position wx. */
    ghost predicate ShiftsMatch(wx: real)
      reads this, beforeShifts, afterShifts
    {
      beforeShifts[..] == Wrap.Shifts(beforeCells, cursorPosition + wx, -1) &&
      afterShifts[..] == Wrap.Shifts(afterCells, innerWidth - (wx + slideableWidth + cursorPosition), 1)
    }

    /** A slider at rest at position 0, with every wrapped cell unshifted. */
    constructor (o: Physics.Options, cells: nat, target: real, width: real, cursor: real,
                 viewport: real, before: seq<real>, after: seq<real>)
      requires o.wrapAround && cells > 1 ==> 0.0 < width
      requires o.percentPosition ==> viewport != 0.0
      ensures Valid()
      ensures State() == Physics.Motion(0.0, 0.0, 0, false, false, false, 0.0, target, cells)
      ensures options == o && slideableWidth == width && cursorPosition == cursor && innerWidth == viewport
      ensures beforeCells == before && afterCells == after
      ensures fresh(beforeShifts) && fresh(afterShifts)
      ensures forall i :: 0 <= i < |before| ==> beforeShifts[i] == 0
      ensures forall i :: 0 <= i < |after| ==> afterShifts[i] == 0
    {
      x, velocity, restingFrames := 0.0, 0.0, 0;
      isAnimating, isPointerDown, isFreeScrolling := false, false, false;
      dragX, selectedTarget, cellCount := 0.0, target, cells;
      options := o;
      slideableWidth, cursorPosition, innerWidth := width, cursor, viewport;
      beforeCells, afterCells := before, after;
      beforeShifts := new int[|before|](_ => 0);
      afterShifts := new int[|after|](_ => 0);
    }

    // ------------------------------------------------------------- lifecycle

    /** startAnimation: nothing at all while already animating; otherwise mark
        the loop running, reset the counter and run the first tick at once. */
    method StartAnimation() returns (ticked: bool)
      requires Valid()
      ensures Valid()
      modifies this`x, this`velocity, this`restingFrames, this`isAnimating, this`isFreeScrolling
      modifies beforeShifts, afterShifts
      ensures State() == Physics.Start(old(State()), options)
      ensures ticked == !old(isAnimating)
      ensures ticked && WrapActive() ==> ShiftsMatch(Wrap.WrapPosition(x, slideableWidth))
      ensures !ticked || !WrapActive() ==>
                beforeShifts[..] == old(beforeShifts[..]) && afterShifts[..] == old(afterShifts[..])
    {
      if isAnimating {
        return false;
      }
      isAnimating := true;
      restingFrames := 0;
      var _ := Animate();
      ticked := true;
    }

    /** animate: one tick. The result says whether the next frame was
        requested, which happens exactly when the loop is still running. */
    method Animate() returns (rescheduled: bool)
      requires Valid()
      ensures Valid()
      modifies this`x, this`velocity, this`restingFrames, this`isAnimating, this`isFreeScrolling
      modifies beforeShifts, afterShifts
      ensures State() == Physics.Tick(old(State()), options)
      ensures rescheduled == isAnimating
      ensures WrapActive() ==> ShiftsMatch(Wrap.WrapPosition(x, slideableWidth))
      ensures !WrapActive() ==>
                beforeShifts[..] == old(beforeShifts[..]) && afterShifts[..] == old(afterShifts[..])
    {
      ApplyDragForce();
      ApplySelectedAttraction();
      var previousX := x;
      IntegratePhysics();
      var _ := PositionSlider();
      Settle(previousX);
      rescheduled := isAnimating;
    }

    /** The frame scheduler: keep running ticks for as long as each one asks
        for the next frame, for at most budget frames. Every tick it runs
        finds the loop running (the last one too), and it stops early only
        on a stopped loop. */
    method RunFrames(budget: nat) returns (frames: nat)
      requires Valid()
      ensures Valid()
      modifies this`x, this`velocity, this`restingFrames, this`isAnimating, this`isFreeScrolling
      modifies beforeShifts, afterShifts
      ensures State() == Physics.Ticks(old(State()), options, budget)
      ensures State() == Physics.Ticks(old(State()), options, frames)
      ensures frames <= budget && (frames < budget ==> !isAnimating)
      ensures 0 < frames ==> Physics.Ticks(old(State()), options, frames - 1).isAnimating
      ensures 0 < frames && WrapActive() ==> ShiftsMatch(Wrap.WrapPosition(x, slideableWidth))
      ensures frames == 0 || !WrapActive() ==>
                beforeShifts[..] == old(beforeShifts[..]) && afterShifts[..] == old(afterShifts[..])
    {
      ghost var start := State();
      frames := 0;
      var pending := isAnimating;
      while pending && frames < budget
        invariant Valid()
        invariant pending == isAnimating && frames <= budget
        invariant State() == Physics.Ticks(start, options, frames)
        invariant 0 < frames ==> Physics.Ticks(start, options, frames - 1).isAnimating
        invariant 0 < frames && WrapActive() ==> ShiftsMatch(Wrap.WrapPosition(x, slideableWidth))
        invariant frames == 0 || !WrapActive() ==>
                    beforeShifts[..] == old(beforeShifts[..]) && afterShifts[..] == old(afterShifts[..])
        decreases budget - frames
      {
        Physics.TicksStep(start, options, frames);
        pending := Animate();
        frames := frames + 1;
      }
      if frames < budget {
        Physics.TicksStopped(start, options, frames, budget);
      }
    }

    // ---------------------------------------------------------------- forces

    /** applyForce: add the force to the velocity. */
    method ApplyForce(force: real)
      modifies this`velocity
      ensures State() == Physics.ApplyForce(old(State()), force)
    {
      velocity := velocity + force;
    }

    /** applyDragForce: with the pointer down the velocity becomes the
        distance to the drag target. */
    method ApplyDragForce()
      modifies this`velocity
      ensures State() == Physics.ApplyDragForce(old(State()))
      ensures isPointerDown ==> velocity == dragX - x
      ensures !isPointerDown ==> velocity == old(velocity)
    {
      if !isPointerDown {
        return;
      }
      var dragVelocity := dragX - x;
      var dragForce := dragVelocity - velocity;
      ApplyForce(dragForce);
    }

    /** applySelectedAttraction: pull towards the selected slide unless the
        pointer is down, free scrolling is on, or there are no cells. */
    method ApplySelectedAttraction()
      modifies this`velocity
      ensures State() == Physics.ApplySelectedAttraction(old(State()), options)
    {
      if isPointerDown || isFreeScrolling || cellCount == 0 {
        return;
      }
      var distance := selectedTarget * -1.0 - x;
      var force := distance * options.selectedAttraction;
      ApplyForce(force);
    }

    /** integratePhysics: move by the velocity, then damp it by friction. */
    method IntegratePhysics()
      modifies this`x, this`velocity
      ensures State() == Physics.IntegratePhysics(old(State()), options)
    {
      x := x + velocity;
      velocity := velocity * GetFrictionFactor();
    }

    /** getFrictionFactor: the damping factor of the current mode. */
    function GetFrictionFactor(): (r: real)
      reads this
      ensures 1.0 - r == if isFreeScrolling then options.freeScrollFriction else options.friction
      ensures Physics.FrictionsInRange(options) ==> 0.0 < r < 1.0
    {
      Physics.FrictionFactor(isFreeScrolling, options)
    }

    /** getRestingPosition: where the slider comes to rest if no force acts
        from now on; free motion never moves it. */
    function GetRestingPosition(): (r: real)
      reads this
      requires GetFrictionFactor() != 1.0
      ensures (r - x) * (1.0 - GetFrictionFactor()) == velocity
      ensures forall n: nat :: Physics.RestingPosition(Physics.Coast(State(), options, n), options) == r
    {
      forall n: nat
        ensures Physics.RestingPosition(Physics.Coast(State(), options, n), options)
                == Physics.RestingPosition(State(), options)
      {
        Physics.CoastKeepsRestingPosition(State(), options, n);
      }
      Physics.RestingPosition(State(), options)
    }

    // -------------------------------------------------------------- settling

    /** settle: count a resting frame, and stop the loop (clearing free
        scrolling and rendering once more) when the counter passes 2. */
    method Settle(previousX: real)
      requires Valid()
      ensures Valid()
      modifies this`restingFrames, this`isAnimating, this`isFreeScrolling, beforeShifts, afterShifts
      ensures State() == Physics.Settle(old(State()), previousX)
      ensures 2 < restingFrames && WrapActive() ==> ShiftsMatch(Wrap.WrapPosition(x, slideableWidth))
      ensures restingFrames <= 2 || !WrapActive() ==>
                beforeShifts[..] == old(beforeShifts[..]) && afterShifts[..] == old(afterShifts[..])
    {
      if !isPointerDown && Physics.Hundredths(x) == Physics.Hundredths(previousX) {
        restingFrames := restingFrames + 1;
      }
      if restingFrames > 2 {
        isAnimating := false;
        isFreeScrolling := false;
        var _ := PositionSlider();
      }
    }

    // ------------------------------------------------------------ positioner

    /** positionSlider: wrap the position into [-slideableWidth, 0) and shift
        the boundary cells when wrapping, then add the cursor offset, mirror
        for right-to-left, and return the number it renders. */
    method PositionSlider() returns (value: real)
      requires Valid()
      ensures Valid()
      modifies beforeShifts, afterShifts
      ensures WrapActive() ==> ShiftsMatch(Wrap.WrapPosition(x, slideableWidth))
      ensures !WrapActive() ==>
                beforeShifts[..] == old(beforeShifts[..]) && afterShifts[..] == old(afterShifts[..])
      ensures value == Wrap.PositionValue(
                Wrap.RenderOffset(x, WrapActive(), slideableWidth, cursorPosition, options.rightToLeft),
                options.percentPosition, innerWidth)
    {
      var px := x;
      if options.wrapAround && cellCount > 1 {
        px := Modulo(px, slideableWidth);
        px := px - slideableWidth;
        ShiftWrapCells(px);
      }
      px := px + cursorPosition;
      px := if options.rightToLeft then -px else px;
      value := Wrap.PositionValue(px, options.percentPosition, innerWidth);
    }

    /** positionSliderAtSelected: jump straight to the selected slide, unless
        there are no cells. */
    method PositionSliderAtSelected()
      requires Valid()
      ensures Valid()
      modifies this`x, beforeShifts, afterShifts
      ensures cellCount == 0 ==>
                x == old(x) && beforeShifts[..] == old(beforeShifts[..]) && afterShifts[..] == old(afterShifts[..])
      ensures cellCount != 0 ==> x == -selectedTarget
      ensures cellCount != 0 && WrapActive() ==> ShiftsMatch(Wrap.WrapPosition(x, slideableWidth))
      ensures !WrapActive() ==>
                beforeShifts[..] == old(beforeShifts[..]) && afterShifts[..] == old(afterShifts[..])
    {
      if cellCount == 0 {
        return;
      }
      x := -selectedTarget;
      var _ := PositionSlider();
    }

    // ---------------------------------------------------------- wrap shifter

    /** shiftWrapCells: shift the cells before the track by -1 while the gap
        in front of it lasts, and the cells after it by +1 while the gap
        behind it lasts. */
    method ShiftWrapCells(wx: real)
      requires Valid()
      ensures Valid()
      modifies beforeShifts, afterShifts
      ensures ShiftsMatch(wx)
    {
      var beforeGap := cursorPosition + wx;
      ShiftCells(beforeCells, beforeShifts, beforeGap, -1);
      var afterGap := innerWidth - (wx + slideableWidth + cursorPosition);
      ShiftCells(afterCells, afterShifts, afterGap, 1);
    }

    /** _shiftCells: walk the cells, giving each the shift while the running
        gap is positive and 0 once it is used up, and consume each cell's
        width from the gap. Only the shifts change. */
    static method ShiftCells(cells: seq<real>, shifts: array<int>, gap: real, shift: int)
      requires shifts.Length == |cells|
      modifies shifts
      ensures shifts[..] == Wrap.Shifts(cells, gap, shift)
    {
      var g := gap;
      for i := 0 to |cells|
        invariant g == gap - Sum(cells[..i])
        invariant forall k :: 0 <= k < i ==> shifts[k] == Wrap.Shifts(cells, gap, shift)[k]
      {
        var cellShift := if g > 0.0 then shift else 0;
        shifts[i] := cellShift;
        assert cells[..i + 1][..i] == cells[..i];
        g := g - cells[i];
      }
    }

    /** _unshiftCells: clear the shift of every given cell; nothing for a
        missing or empty list. */
    static method UnshiftCells(shifts: array?<int>)
      modifies shifts
      ensures shifts != null ==> forall k :: 0 <= k < shifts.Length ==> shifts[k] == 0
    {
      if shifts == null || shifts.Length == 0 {
        return;
      }
      for i := 0 to shifts.Length
        invariant forall k :: 0 <= k < i ==> shifts[k] == 0
      {
        shifts[i] := 0;
      }
    }
  }

  /** A slider at rest with no cells: startAnimation runs the first tick, the
      frame loop then runs exactly two more, and the slider has settled. */
  method SettleScenario(o: Physics.Options) returns (frames: nat, animating: bool)
    ensures frames == 2 && !animating
  {
    var slider := new Flickity(o, 0, 0.0, 0.0, 0.0, 1.0, [], []);
    ghost var idle := slider.State();
    var ticked := slider.StartAnimation();
    Physics.StartStationaryStopsOnThirdTick(idle, o);
    ghost var started := slider.State();
    assert Physics.Ticks(started, o, 0) == started;
    frames := slider.RunFrames(10);
    animating := slider.isAnimating;
  }
}
