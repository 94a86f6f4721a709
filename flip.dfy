/**
 * The shrink/expand flip of test.py: one rectangle that, after a space press, narrows
 * about its fixed centre until its width reaches zero, then widens back until it is at
 * least 200 wide. Two flags, `flipping` (shrinking) and `expanding`, drive it.
 */
module Flip {

  /** Width lost (or regained) per second while shrinking (expanding). */
  const ShrinkRate: real := 1500.0
  /** Horizontal shift per second: half the width change, so the centre stays put. */
  const ShiftRate: real := 750.0
  /** Expansion stops on the first frame whose width is at least this. */
  const FullWidth: real := 200.0

  /** The module-level state of test.py: the rectangle `rec` and the two flags. */
  datatype FlipState = FlipState(x: real, y: real, width: real, height: real, flipping: bool, expanding: bool)

  /** `rec = Rectangle(100, 100, 200, 200)`, both flags false. */
  const Initial := FlipState(100.0, 100.0, 200.0, 200.0, false, false)

  /** One iteration of the frame loop: its input is whether space was pressed and the frame time. */
  datatype Frame = Frame(spacePressed: bool, dt: real)

  predicate Idle(s: FlipState)
  {
    !s.flipping && !s.expanding
  }

  /** Lines 15-17: a space press starts shrinking, but only when neither flag is set. */
  function Press(s: FlipState, spacePressed: bool): (r: FlipState)
    ensures r != s <==> spacePressed && Idle(s)
    ensures r.flipping == (s.flipping || (spacePressed && Idle(s)))
    ensures r.(flipping := s.flipping) == s
  {
    if spacePressed && !s.flipping && !s.expanding then s.(flipping := true) else s
  }

  /** Lines 19-22: while shrinking, the width drops by `1500 dt` and `x` moves right by `750 dt`. */
  function Shrink(s: FlipState, dt: real): (r: FlipState)
    ensures r.x + r.width / 2.0 == s.x + s.width / 2.0
    ensures r.(x := s.x, width := s.width) == s
    ensures s.flipping ==> s.width - r.width == ShrinkRate * dt
    ensures !s.flipping ==> r == s
  {
    if s.flipping then s.(width := s.width - ShrinkRate * dt, x := s.x + ShiftRate * dt) else s
  }

  /** Lines 24-27: a width of zero or less turns shrinking into expanding (whatever the flags were). */
  function TurnAround(s: FlipState): (r: FlipState)
    ensures r.(flipping := s.flipping, expanding := s.expanding) == s
    ensures r.flipping <==> s.flipping && s.width > 0.0
    ensures r.expanding <==> s.expanding || s.width <= 0.0
  {
    if s.width <= 0.0 then s.(flipping := false, expanding := true) else s
  }

  /** Lines 29-32: while expanding, the width grows by `1500 dt` and `x` moves left by `750 dt`. */
  function Expand(s: FlipState, dt: real): (r: FlipState)
    ensures r.x + r.width / 2.0 == s.x + s.width / 2.0
    ensures r.(x := s.x, width := s.width) == s
    ensures s.expanding ==> r.width - s.width == ShrinkRate * dt
    ensures !s.expanding ==> r == s
  {
    if s.expanding then s.(width := s.width + ShrinkRate * dt, x := s.x - ShiftRate * dt) else s
  }

  /** Lines 34-36: a width of 200 or more ends expanding; the width is not clamped. */
  function Settle(s: FlipState): (r: FlipState)
    ensures r.(expanding := s.expanding) == s
    ensures r.expanding <==> s.expanding && s.width < FullWidth
  {
    if s.width >= FullWidth then s.(expanding := false) else s
  }

  /**
   * One frame of the loop, the five blocks in the order the source runs them. With a
   * non-negative frame time a positive width stays positive: the frame that drives it to
   * zero or below gives the same amount back.
   */
  function Next(s: FlipState, f: Frame): (r: FlipState)
    ensures f.dt >= 0.0 && s.width > 0.0 ==> r.width > 0.0
  {
    Settle(Expand(TurnAround(Shrink(Press(s, f.spacePressed), f.dt)), f.dt))
  }

  /**
   * The state after running the loop over `frames`, oldest first. However long the run,
   * the rectangle's centre, `y` and height are those it started with.
   */
  function Replay(s: FlipState, frames: seq<Frame>): (r: FlipState)
    ensures r.x + r.width / 2.0 == s.x + s.width / 2.0
    ensures r.y == s.y && r.height == s.height
    decreases |frames|
  {
    if frames == [] then s
    else
      var before := Replay(s, frames[..|frames| - 1]);
      CentreFixed(before, frames[|frames| - 1]);
      Next(before, frames[|frames| - 1])
  }

  /** `n` frames of constant frame time `dt` without a space press. */
  function Frames(s: FlipState, dt: real, n: nat): FlipState
    decreases n
  {
    if n == 0 then s else Frames(Next(s, Frame(false, dt)), dt, n - 1)
  }

  /**
   * What holds after every frame of a run from `Initial` (with non-negative frame times):
   * the flags are exclusive, the centre stays at x = 200, `y` and the height never change,
   * the width stays positive, an idle rectangle is at least 200 wide and an expanding one
   * is still narrower than that.
   */
  predicate Valid(s: FlipState)
  {
    !(s.flipping && s.expanding) &&
    s.x + s.width / 2.0 == 200.0 && s.y == 100.0 && s.height == 200.0 &&
    s.width > 0.0 &&
    (Idle(s) ==> s.width >= FullWidth) &&
    (s.expanding ==> s.width < FullWidth)
  }

  lemma InitialValid()
    ensures Valid(Initial) && Idle(Initial)
  {
  }

  /** A frame never sets both flags at once, whatever its inputs, if they were not both set before. */
  lemma FlagsStayExclusive(s: FlipState, f: Frame)
    requires !(s.flipping && s.expanding)
    ensures !(Next(s, f).flipping && Next(s, f).expanding)
  {
  }

  /** Every frame moves `x` by minus half the width change: the centre, `y` and the height are fixed. */
  lemma CentreFixed(s: FlipState, f: Frame)
    ensures Next(s, f).x + Next(s, f).width / 2.0 == s.x + s.width / 2.0
    ensures Next(s, f).y == s.y && Next(s, f).height == s.height
  {
  }

  /** A space press while shrinking or expanding is ignored. */
  lemma PressIgnoredWhenBusy(s: FlipState, dt: real)
    requires s.flipping || s.expanding
    ensures Next(s, Frame(true, dt)) == Next(s, Frame(false, dt))
  {
  }

  /** An idle rectangle of positive width is left alone by a frame without a press. */
  lemma IdleFrameIsNoOp(s: FlipState, dt: real)
    requires Idle(s) && s.width > 0.0
    ensures Next(s, Frame(false, dt)) == s
  {
  }

  /**
   * The frame in which the width drops to zero or below: shrinking stops, expanding starts
   * and gives back the same `1500 dt`, so the frame ends at the width it began with.
   */
  lemma TurnAroundFrame(s: FlipState, dt: real)
    requires s.flipping && !s.expanding
    requires s.width - ShrinkRate * dt <= 0.0
    ensures Next(s, Frame(false, dt)).width == s.width
    ensures !Next(s, Frame(false, dt)).flipping
    ensures Next(s, Frame(false, dt)).expanding <==> s.width < FullWidth
  {
  }

  /** Expansion ends on the first frame that reaches 200, at whatever width that frame produced. */
  lemma ExpansionStops(s: FlipState, dt: real)
    requires s.expanding && !s.flipping && s.width > 0.0
    ensures Next(s, Frame(false, dt)).width == s.width + ShrinkRate * dt
    ensures Next(s, Frame(false, dt)).expanding <==> s.width + ShrinkRate * dt < FullWidth
  {
  }

  /** The width is not clamped: an expanding rectangle 190 wide, after a 0.1 s frame, is idle and 340 wide. */
  lemma OvershootExample()
    ensures var s := Next(FlipState(105.0, 100.0, 190.0, 200.0, false, true), Frame(false, 0.1));
            Idle(s) && s.width == 340.0 && s.width > FullWidth
  {
  }

  /** Every frame with a non-negative frame time keeps `Valid`. */
  lemma NextValid(s: FlipState, f: Frame)
    requires Valid(s) && f.dt >= 0.0
    ensures Valid(Next(s, f))
  {
  }

  /** A run from a `Valid` state (such as `Initial`) with non-negative frame times ends in a `Valid` state. */
  lemma {:induction false} ReplayValid(s: FlipState, frames: seq<Frame>)
    requires Valid(s)
    requires forall i | 0 <= i < |frames| :: frames[i].dt >= 0.0
    ensures Valid(Replay(s, frames))
    decreases |frames|
  {
    if frames != [] {
      var init := frames[..|frames| - 1];
      ReplayValid(s, init);
      NextValid(Replay(s, init), frames[|frames| - 1]);
    }
  }

  /** For `c > 0` some whole number of steps of size `c` covers `a`. */
  lemma Archimedean(a: real, c: real) returns (k: nat)
    requires c > 0.0
    ensures a <= k as real * c
  {
    if a <= 0.0 {
      k := 0;
    } else {
      var q := a / c;
      k := q.Floor + 1;
      assert q < k as real;
      assert q * c == a;
      assert (k as real - q) * c > 0.0;
    }
  }

  /** Expanding with `k` steps of `1500 dt` enough to reach 200, some later frame is idle. */
  lemma {:induction false} ExpandTerminates(s: FlipState, dt: real, k: nat)
    requires Valid(s) && s.expanding && dt > 0.0
    requires FullWidth - s.width <= k as real * (ShrinkRate * dt)
    ensures exists n: nat :: Idle(Frames(s, dt, n))
    decreases k
  {
    var t := Next(s, Frame(false, dt));
    NextValid(s, Frame(false, dt));
    assert Frames(s, dt, 1) == t;
    if Idle(t) {
      assert Idle(Frames(s, dt, 1));
    } else {
      assert t.expanding && t.width == s.width + ShrinkRate * dt;
      assert k > 0;
      ExpandTerminates(t, dt, k - 1);
      var n: nat :| Idle(Frames(t, dt, n));
      assert Frames(s, dt, n + 1) == Frames(t, dt, n);
    }
  }

  /** Shrinking with a width of at most `k` steps of `1500 dt`, some later frame is idle. */
  lemma {:induction false} ShrinkTerminates(s: FlipState, dt: real, k: nat)
    requires Valid(s) && s.flipping && dt > 0.0
    requires s.width <= k as real * (ShrinkRate * dt)
    ensures exists n: nat :: Idle(Frames(s, dt, n))
    decreases k
  {
    var t := Next(s, Frame(false, dt));
    NextValid(s, Frame(false, dt));
    assert Frames(s, dt, 1) == t;
    if Idle(t) {
      assert Idle(Frames(s, dt, 1));
    } else if t.expanding {
      var j := Archimedean(FullWidth - t.width, ShrinkRate * dt);
      ExpandTerminates(t, dt, j);
      var n: nat :| Idle(Frames(t, dt, n));
      assert Frames(s, dt, n + 1) == Frames(t, dt, n);
    } else {
      assert t.flipping && t.width == s.width - ShrinkRate * dt;
      assert k > 0;
      ShrinkTerminates(t, dt, k - 1);
      var n: nat :| Idle(Frames(t, dt, n));
      assert Frames(s, dt, n + 1) == Frames(t, dt, n);
    }
  }

  /** `n` frames of time `dt` without a press, as a sequence of loop inputs. */
  function Quiet(dt: real, n: nat): (frames: seq<Frame>)
    ensures |frames| == n && forall i | 0 <= i < n :: frames[i] == Frame(false, dt)
  {
    seq(n, _ => Frame(false, dt))
  }

  /** Running one more frame at the front is running the rest from the state it leaves. */
  lemma {:induction false} ReplayFirst(s: FlipState, f: Frame, frames: seq<Frame>)
    ensures Replay(s, [f] + frames) == Replay(Next(s, f), frames)
    decreases |frames|
  {
    if frames != [] {
      var all := [f] + frames;
      assert all[..|all| - 1] == [f] + frames[..|frames| - 1];
      ReplayFirst(s, f, frames[..|frames| - 1]);
    } else {
      assert ([f] + frames)[..0] == [];
    }
  }

  /** `Frames` is the loop run over `n` frames of time `dt` without a press. */
  lemma {:induction false} FramesIsReplay(s: FlipState, dt: real, n: nat)
    ensures Frames(s, dt, n) == Replay(s, Quiet(dt, n))
    decreases n
  {
    if n > 0 {
      FramesIsReplay(Next(s, Frame(false, dt)), dt, n - 1);
      assert Quiet(dt, n) == [Frame(false, dt)] + Quiet(dt, n - 1);
      ReplayFirst(s, Frame(false, dt), Quiet(dt, n - 1));
    }
  }

  /**
   * With a constant frame time `dt > 0` and no further presses, a started cycle returns to
   * idle: the frame loop run over enough such frames (as `FlipDemo.Run` does) ends idle.
   */
  lemma CycleReturnsToIdle(s: FlipState, dt: real)
    requires Valid(s) && dt > 0.0
    ensures exists n: nat :: Idle(Frames(s, dt, n))
    ensures exists n: nat :: Idle(Replay(s, Quiet(dt, n)))
  {
    CycleReachesIdle(s, dt);
    var n: nat :| Idle(Frames(s, dt, n));
    FramesIsReplay(s, dt, n);
  }

  lemma CycleReachesIdle(s: FlipState, dt: real)
    requires Valid(s) && dt > 0.0
    ensures exists n: nat :: Idle(Frames(s, dt, n))
  {
    if Idle(s) {
      assert Frames(s, dt, 0) == s;
    } else if s.flipping {
      var k := Archimedean(s.width, ShrinkRate * dt);
      ShrinkTerminates(s, dt, k);
    } else {
      var k := Archimedean(FullWidth - s.width, ShrinkRate * dt);
      ExpandTerminates(s, dt, k);
    }
  }

  /** test.py's module state, updated in place frame by frame. */
  class FlipDemo {
    var x: real
    var y: real
    var width: real
    var height: real
    var flipping: bool
    var expanding: bool

    function State(): FlipState
      reads this
    {
      FlipState(x, y, width, height, flipping, expanding)
    }

    constructor ()
      ensures State() == Initial && Valid(State())
    {
      x, y, width, height := 100.0, 100.0, 200.0, 200.0;
      flipping, expanding := false, false;
    }

    /** The body of the frame loop, as written: five guarded updates in sequence. */
    method Step(spacePressed: bool, dt: real)
      modifies this
      ensures State() == Next(old(State()), Frame(spacePressed, dt))
      ensures old(Valid(State())) && dt >= 0.0 ==> Valid(State())
    {
      ghost var before := State();
      if spacePressed && !flipping && !expanding {
        flipping := true;
      }
      if flipping {
        width := width - ShrinkRate * dt;
        x := x + ShiftRate * dt;
      }
      if width <= 0.0 {
        flipping := false;
        expanding := true;
      }
      if expanding {
        width := width + ShrinkRate * dt;
        x := x - ShiftRate * dt;
      }
      if width >= FullWidth {
        expanding := false;
      }
      if Valid(before) && dt >= 0.0 {
        NextValid(before, Frame(spacePressed, dt));
      }
    }

    /** The frame loop over a finite sequence of frames (the window closing ends it). */
    method Run(frames: seq<Frame>)
      modifies this
      ensures State() == Replay(old(State()), frames)
      ensures Valid(old(State())) && (forall i | 0 <= i < |frames| :: frames[i].dt >= 0.0) ==> Valid(State())
    {
      var i := 0;
      while i < |frames|
        invariant 0 <= i <= |frames|
        invariant State() == Replay(old(State()), frames[..i])
      {
        assert frames[..i + 1][..i] == frames[..i];
        Step(frames[i].spacePressed, frames[i].dt);
        i := i + 1;
      }
      assert frames[..i] == frames;
      if Valid(old(State())) && (forall i | 0 <= i < |frames| :: frames[i].dt >= 0.0) {
        ReplayValid(old(State()), frames);
      }
    }
  }
}
