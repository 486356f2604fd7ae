/** The motion state of one slider and the pure meaning of every step of an
    animation tick: the drag and attraction forces, the Euler integrator with
    friction, the settle detector, a whole tick, startAnimation and the frame
    loop that re-runs the tick while the slider is animating. */
module Physics {
  import opened Numerics

  /** The configuration values the animation code reads. */
  datatype Options = Options(
    friction: real,
    freeScrollFriction: real,
    selectedAttraction: real,
    wrapAround: bool,
    rightToLeft: bool,
    percentPosition: bool)

  /** Both friction coefficients lie strictly between 0 and 1. */
  predicate FrictionsInRange(o: Options)
  {
    0.0 < o.friction < 1.0 && 0.0 < o.freeScrollFriction < 1.0
  }

  /** The motion state along the active axis: position, velocity, the settle
      counter, the mode flags, the drag target, the selected slide's target and
      the number of cells. */
  datatype Motion = Motion(
    x: real,
    velocity: real,
    restingFrames: nat,
    isAnimating: bool,
    isPointerDown: bool,
    isFreeScrolling: bool,
    dragX: real,
    selectedTarget: real,
    cellCount: nat)

  function Abs(v: real): real
  {
    if v < 0.0 then -v else v
  }

  // ---------------------------------------------------------------- forces

  /** applyForce: forces accumulate in the velocity. */
  function ApplyForce(m: Motion, force: real): (r: Motion)
    ensures r.velocity - m.velocity == force
    ensures r.(velocity := m.velocity) == m
  {
    m.(velocity := m.velocity + force)
  }

  /** Several forces in one tick compose additively. */
  lemma ApplyForceAdditive(m: Motion, f: real, g: real)
    ensures ApplyForce(ApplyForce(m, f), g) == ApplyForce(m, f + g)
    ensures ApplyForce(ApplyForce(m, f), g) == ApplyForce(ApplyForce(m, g), f)
  {
  }

  /** applyDragForce: while the pointer is down the velocity becomes exactly
      the distance to the drag target, whatever it was before; otherwise
      nothing changes. */
  function ApplyDragForce(m: Motion): (r: Motion)
    ensures !m.isPointerDown ==> r == m
    ensures m.isPointerDown ==> r.velocity == m.dragX - m.x
    ensures r.(velocity := m.velocity) == m
  {
    if !m.isPointerDown then m
    else
      var dragVelocity := m.dragX - m.x;
      var dragForce := dragVelocity - m.velocity;
      ApplyForce(m, dragForce)
  }

  /** The selected slide attracts only with the pointer up, outside free
      scrolling, and when there is at least one cell. */
  predicate AttractionActive(m: Motion)
  {
    !m.isPointerDown && !m.isFreeScrolling && m.cellCount != 0
  }

  /** applySelectedAttraction: with a positive coefficient the force points
      from the position towards -selectedTarget (and vanishes there). */
  function ApplySelectedAttraction(m: Motion, o: Options): (r: Motion)
    ensures !AttractionActive(m) ==> r == m
    ensures r.(velocity := m.velocity) == m
    ensures AttractionActive(m) && 0.0 < o.selectedAttraction ==>
              (m.velocity < r.velocity <==> m.x < -m.selectedTarget) &&
              (r.velocity < m.velocity <==> -m.selectedTarget < m.x)
  {
    if !AttractionActive(m) then m
    else
      var distance := m.selectedTarget * -1.0 - m.x;
      var force := distance * o.selectedAttraction;
      assert force == distance * o.selectedAttraction;
      ApplyForce(m, force)
  }

  /** The attraction force is proportional to the distance and to the coefficient. */
  lemma AttractionForce(m: Motion, o: Options)
    requires AttractionActive(m)
    ensures ApplySelectedAttraction(m, o).velocity - m.velocity ==
            (-m.selectedTarget - m.x) * o.selectedAttraction
  {
  }

  /** Selected target 200, position -150: the distance is -50 and the force
      is negative, pulling the position towards -200. */
  lemma AttractionSignExample(m: Motion, o: Options)
    requires AttractionActive(m) && m.selectedTarget == 200.0 && m.x == -150.0
    requires 0.0 < o.selectedAttraction
    ensures ApplySelectedAttraction(m, o).velocity - m.velocity == -50.0 * o.selectedAttraction < 0.0
  {
    AttractionForce(m, o);
  }

  // ------------------------------------------------------------ integrator

  /** getFrictionFactor: one minus the friction coefficient of the current mode. */
  function FrictionFactor(isFreeScrolling: bool, o: Options): (r: real)
    ensures 1.0 - r == if isFreeScrolling then o.freeScrollFriction else o.friction
    ensures FrictionsInRange(o) ==> 0.0 < r < 1.0
  {
    1.0 - (if isFreeScrolling then o.freeScrollFriction else o.friction)
  }

  /** integratePhysics: explicit Euler with geometric decay of the velocity. */
  function IntegratePhysics(m: Motion, o: Options): (r: Motion)
    ensures r.x - m.x == m.velocity
    ensures r.(x := m.x, velocity := m.velocity) == m
  {
    m.(x := m.x + m.velocity, velocity := m.velocity * FrictionFactor(m.isFreeScrolling, o))
  }

  /** With both friction coefficients in (0, 1) integration keeps the sign of
      the velocity and shrinks its magnitude, strictly unless it is already 0. */
  lemma IntegrationDecaysVelocity(m: Motion, o: Options)
    requires FrictionsInRange(o)
    ensures Abs(IntegratePhysics(m, o).velocity) <= Abs(m.velocity)
    ensures m.velocity != 0.0 ==> Abs(IntegratePhysics(m, o).velocity) < Abs(m.velocity)
    ensures 0.0 < IntegratePhysics(m, o).velocity <==> 0.0 < m.velocity
    ensures IntegratePhysics(m, o).velocity < 0.0 <==> m.velocity < 0.0
  {
    var f := FrictionFactor(m.isFreeScrolling, o);
    var nv := IntegratePhysics(m, o).velocity;
    assert nv == m.velocity * f && 0.0 < f < 1.0;
    if 0.0 < m.velocity {
      ScaleMonotone(f, 1.0, m.velocity);
      ScaleMonotone(0.0, f, m.velocity);
      assert 0.0 < nv < m.velocity;
    } else if m.velocity < 0.0 {
      ScaleMonotone(f, 1.0, -m.velocity);
      ScaleMonotone(0.0, f, -m.velocity);
      assert 0.0 < -nv < -m.velocity;
    } else {
      assert nv == 0.0;
    }
  }

  /** getRestingPosition: where free motion would stop, x + v / (1 - factor). */
  function RestingPosition(m: Motion, o: Options): (r: real)
    requires FrictionFactor(m.isFreeScrolling, o) != 1.0
    ensures (r - m.x) * (1.0 - FrictionFactor(m.isFreeScrolling, o)) == m.velocity
  {
    Predicted(m.x, m.velocity, FrictionFactor(m.isFreeScrolling, o))
  }

  /** The limit of position x moving with velocity v decaying by factor f. */
  function Predicted(x: real, v: real, f: real): (r: real)
    requires f != 1.0
    ensures (r - x) * (1.0 - f) == v
  {
    x + v / (1.0 - f)
  }

  /** One step of free motion, from x with velocity v to x + v with velocity
      v f, does not change the limit. */
  lemma PredictedStep(x: real, v: real, f: real)
    requires f != 1.0
    ensures Predicted(x + v, v * f, f) == Predicted(x, v, f)
  {
    var c := 1.0 - f;
    var q := v / c;
    assert q * c == v;
    assert (q - v) * c == v * f;
    DivideExact(v * f, c, q - v);
  }

  /** One integration step does not move the predicted resting position: it
      is the fixed point of free motion. */
  lemma RestingPositionInvariant(m: Motion, o: Options)
    requires FrictionFactor(m.isFreeScrolling, o) != 1.0
    ensures RestingPosition(IntegratePhysics(m, o), o) == RestingPosition(m, o)
  {
    var f := FrictionFactor(m.isFreeScrolling, o);
    var x, v := m.x, m.velocity;
    PredictedStep(x, v, f);
    var m1 := IntegratePhysics(m, o);
    assert m1.x == x + v && m1.velocity == v * f && m1.isFreeScrolling == m.isFreeScrolling;
  }

  /** Division undoes multiplication by a non-zero factor. */
  lemma DivideExact(a: real, c: real, q: real)
    requires c != 0.0 && q * c == a
    ensures a / c == q
  {
  }

  /** n integration steps with no force applied. */
  function Coast(m: Motion, o: Options, n: nat): (r: Motion)
    ensures r.(x := m.x, velocity := m.velocity) == m
    decreases n
  {
    if n == 0 then m else Coast(IntegratePhysics(m, o), o, n - 1)
  }

  function Pow(b: real, n: nat): real
  {
    if n == 0 then 1.0 else b * Pow(b, n - 1)
  }

  /** Free motion keeps the mode, so every step uses the same friction factor,
      and the velocity after n steps is v * factor^n. */
  lemma {:induction false} CoastVelocity(m: Motion, o: Options, n: nat)
    ensures Coast(m, o, n).velocity == m.velocity * Pow(FrictionFactor(m.isFreeScrolling, o), n)
    decreases n
  {
    if n > 0 {
      var f := FrictionFactor(m.isFreeScrolling, o);
      var m1 := IntegratePhysics(m, o);
      assert m1.velocity == m.velocity * f;
      assert FrictionFactor(m1.isFreeScrolling, o) == f;
      CoastVelocity(m1, o, n - 1);
      assert Pow(f, n) == f * Pow(f, n - 1);
      MultiplyAssociates(m.velocity, f, Pow(f, n - 1));
    }
  }

  lemma MultiplyAssociates(a: real, b: real, c: real)
    ensures (a * b) * c == a * (b * c)
  {
  }

  /** The predicted resting position is the same at every point of free motion. */
  lemma {:induction false} CoastKeepsRestingPosition(m: Motion, o: Options, n: nat)
    requires FrictionFactor(m.isFreeScrolling, o) != 1.0
    ensures RestingPosition(Coast(m, o, n), o) == RestingPosition(m, o)
    decreases n
  {
    if n > 0 {
      RestingPositionInvariant(m, o);
      CoastKeepsRestingPosition(IntegratePhysics(m, o), o, n - 1);
    }
  }

  // -------------------------------------------------------- settle detector

  /** The position quantised to hundredths, as Math.round(v * 100). */
  function Hundredths(v: real): (r: int)
    ensures v * 100.0 - 0.5 < r as real <= v * 100.0 + 0.5
  {
    Round(v * 100.0)
  }

  /** The frame counts as resting: pointer up and the position unchanged to
      two decimals. */
  predicate RestingFrame(m: Motion, previousX: real)
  {
    !m.isPointerDown && Hundredths(m.x) == Hundredths(previousX)
  }

  /** settle: the counter goes up by exactly one on a resting frame and is left
      as it is otherwise (never reset here); once it exceeds 2 the loop stops
      and free scrolling is cleared. Position, velocity and inputs stay. */
  function Settle(m: Motion, previousX: real): (r: Motion)
    ensures r.restingFrames == m.restingFrames + (if RestingFrame(m, previousX) then 1 else 0)
    ensures 2 < r.restingFrames ==> !r.isAnimating && !r.isFreeScrolling
    ensures r.restingFrames <= 2 ==> r.isAnimating == m.isAnimating && r.isFreeScrolling == m.isFreeScrolling
    ensures r.(restingFrames := m.restingFrames, isAnimating := m.isAnimating,
               isFreeScrolling := m.isFreeScrolling) == m
  {
    var counted := if RestingFrame(m, previousX) then m.(restingFrames := m.restingFrames + 1) else m;
    if counted.restingFrames > 2 then counted.(isAnimating := false, isFreeScrolling := false)
    else counted
  }

  // ------------------------------------------------------------------- tick

  /** The fields a tick reads but never writes. */
  predicate SameInputs(a: Motion, b: Motion)
  {
    a.isPointerDown == b.isPointerDown && a.dragX == b.dragX &&
    a.selectedTarget == b.selectedTarget && a.cellCount == b.cellCount
  }

  /** animate: forces, integration, then settle against the position before
      integration. With the pointer down the position lands exactly on the
      drag target and the counter does not move. A tick never starts a
      stopped loop, and when it stops a running one the counter is past 2. */
  function Tick(m: Motion, o: Options): (r: Motion)
    ensures SameInputs(m, r)
    ensures m.restingFrames <= r.restingFrames <= m.restingFrames + 1
    ensures m.isPointerDown ==> r.x == m.dragX && r.restingFrames == m.restingFrames
    ensures r.isAnimating ==> m.isAnimating
    ensures m.isAnimating && !r.isAnimating ==> 2 < r.restingFrames && !r.isFreeScrolling
  {
    var forced := ApplySelectedAttraction(ApplyDragForce(m), o);
    var previousX := forced.x;
    Settle(IntegratePhysics(forced, o), previousX)
  }

  /** One pointer-down tick with friction 0.2 from position 0 towards drag
      target 100: the position reaches 100 and the velocity decays to 80. */
  lemma DragTickExample(m: Motion, o: Options)
    requires m.isPointerDown && m.x == 0.0 && m.velocity == 0.0 && m.dragX == 100.0
    requires !m.isFreeScrolling && o.friction == 0.2
    ensures Tick(m, o).x == 100.0 && Tick(m, o).velocity == 80.0
  {
  }

  /** With no force acting (pointer up, and free scrolling or no cells), a tick
      only decays the velocity, strictly in magnitude unless it is 0. */
  lemma {:induction false} FreeTickDecays(m: Motion, o: Options)
    requires !m.isPointerDown && (m.isFreeScrolling || m.cellCount == 0)
    requires FrictionsInRange(o)
    ensures Tick(m, o).x == m.x + m.velocity
    ensures Tick(m, o).velocity == m.velocity * FrictionFactor(m.isFreeScrolling, o)
    ensures m.velocity != 0.0 ==> Abs(Tick(m, o).velocity) < Abs(m.velocity)
  {
    assert ApplySelectedAttraction(ApplyDragForce(m), o) == m;
    var i := IntegratePhysics(m, o);
    assert Tick(m, o) == Settle(i, m.x);
    IntegrationDecaysVelocity(m, o);
  }

  // -------------------------------------------------------- start and loop

  /** startAnimation: a no-op while animating; from idle it marks the loop
      running, resets the counter and runs one tick at once, which can never
      stop the loop. */
  function Start(m: Motion, o: Options): (r: Motion)
    ensures m.isAnimating ==> r == m
    ensures !m.isAnimating ==> r.isAnimating && r.restingFrames <= 1 && SameInputs(m, r)
  {
    if m.isAnimating then m
    else Tick(m.(isAnimating := true, restingFrames := 0), o)
  }

  /** The frame loop: up to k further ticks, each scheduled only while the
      previous one left the loop running. */
  function Ticks(m: Motion, o: Options, k: nat): (r: Motion)
    ensures SameInputs(m, r)
    ensures m.restingFrames <= r.restingFrames <= m.restingFrames + k
    ensures r.isAnimating ==> m.isAnimating
    ensures m.isAnimating && !r.isAnimating ==> 2 < r.restingFrames && !r.isFreeScrolling
    decreases k
  {
    if k == 0 || !m.isAnimating then m else Ticks(Tick(m, o), o, k - 1)
  }

  /** Running a ticks and then b more is running a + b ticks. */
  lemma {:induction false} TicksCompose(m: Motion, o: Options, a: nat, b: nat)
    ensures Ticks(Ticks(m, o, a), o, b) == Ticks(m, o, a + b)
    decreases a
  {
    if a > 0 && m.isAnimating {
      TicksCompose(Tick(m, o), o, a - 1, b);
    }
  }

  /** One more frame of a running loop is one more tick. */
  lemma TicksStep(m: Motion, o: Options, k: nat)
    ensures Ticks(m, o, k).isAnimating ==> Ticks(m, o, k + 1) == Tick(Ticks(m, o, k), o)
  {
    TicksCompose(m, o, k, 1);
    var t := Ticks(m, o, k);
    assert t.isAnimating ==> Ticks(t, o, 1) == Ticks(Tick(t, o), o, 0);
  }

  /** Once the loop has stopped, further frames change nothing. */
  lemma TicksStopped(m: Motion, o: Options, k: nat, n: nat)
    requires k <= n
    requires !Ticks(m, o, k).isAnimating
    ensures Ticks(m, o, n) == Ticks(m, o, k)
  {
    TicksCompose(m, o, k, n - k);
    StoppedStaysStopped(Ticks(m, o, k), o, n - k);
  }

  /** A stopped loop stays stopped: no further tick runs. */
  lemma StoppedStaysStopped(m: Motion, o: Options, k: nat)
    requires !m.isAnimating
    ensures Ticks(m, o, k) == m
  {
  }

  /** The loop cannot stop before the counter has had time to pass 2. */
  lemma NoEarlyStop(m: Motion, o: Options, k: nat)
    requires m.isAnimating && m.restingFrames + k <= 2
    ensures Ticks(m, o, k).isAnimating
  {
  }

  /** While the pointer is down the loop never stops and the counter never moves. */
  lemma {:induction false} PointerDownNeverStops(m: Motion, o: Options, k: nat)
    requires m.isAnimating && m.isPointerDown && m.restingFrames <= 2
    ensures Ticks(m, o, k).isAnimating
    ensures Ticks(m, o, k).restingFrames == m.restingFrames
    decreases k
  {
    if k > 0 {
      PointerDownNeverStops(Tick(m, o), o, k - 1);
    }
  }

  /** Nothing moves: pointer up, no velocity, and no attraction to act
      (free scrolling, no cells, or already at the selected target). */
  predicate Stationary(m: Motion)
  {
    !m.isPointerDown && m.velocity == 0.0 &&
    (m.isFreeScrolling || m.cellCount == 0 || m.x == -m.selectedTarget)
  }

  /** A stationary tick keeps the position and counts one resting frame. */
  lemma {:induction false} StationaryTick(m: Motion, o: Options)
    requires Stationary(m)
    ensures Tick(m, o).x == m.x && Tick(m, o).restingFrames == m.restingFrames + 1
    ensures Tick(m, o).isAnimating ==> Stationary(Tick(m, o))
  {
    var forced := ApplySelectedAttraction(ApplyDragForce(m), o);
    assert forced == m;
    var i := IntegratePhysics(m, o);
    assert i == m;
    assert RestingFrame(i, m.x);
  }

  /** A stationary running loop with a fresh counter stops on exactly the
      third tick, and runs no tick after it. */
  lemma {:induction false} StationaryStopsOnThirdTick(m: Motion, o: Options, k: nat)
    requires Stationary(m) && m.isAnimating && m.restingFrames == 0
    ensures Ticks(m, o, 1).isAnimating && Ticks(m, o, 2).isAnimating
    ensures !Ticks(m, o, 3).isAnimating && Ticks(m, o, 3).x == m.x
    ensures 3 <= k ==> Ticks(m, o, k) == Ticks(m, o, 3)
  {
    var t1 := Tick(m, o);
    StationaryTick(m, o);
    assert t1.isAnimating;
    var t2 := Tick(t1, o);
    StationaryTick(t1, o);
    assert t2.isAnimating;
    var t3 := Tick(t2, o);
    StationaryTick(t2, o);
    assert Ticks(m, o, 1) == Ticks(t1, o, 0) == t1;
    assert Ticks(m, o, 2) == Ticks(t1, o, 1) == Ticks(t2, o, 0) == t2;
    assert Ticks(m, o, 3) == Ticks(t1, o, 2) == Ticks(t2, o, 1) == Ticks(t3, o, 0) == t3;
    if 3 <= k {
      TicksCompose(m, o, 3, k - 3);
      StoppedStaysStopped(t3, o, k - 3);
    }
  }

  /** startAnimation from idle on a stationary slider: the synchronous first
      tick and one more keep the loop running; the loop stops on the third. */
  lemma {:induction false} StartStationaryStopsOnThirdTick(m: Motion, o: Options)
    requires Stationary(m) && !m.isAnimating
    ensures Start(m, o).isAnimating && Ticks(Start(m, o), o, 1).isAnimating
    ensures !Ticks(Start(m, o), o, 2).isAnimating
  {
    var m0 := m.(isAnimating := true, restingFrames := 0);
    StationaryStopsOnThirdTick(m0, o, 3);
    assert Start(m, o) == Tick(m0, o) == Ticks(m0, o, 1);
    TicksCompose(m0, o, 1, 1);
    TicksCompose(m0, o, 1, 2);
  }
}
