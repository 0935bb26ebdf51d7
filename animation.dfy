/**
 * `TextAnimation`: a non-empty list of frames, each an image with an
 * absolute time threshold, played FORWARD (stop at the end) or LOOP.
 *
 * The playback state is `currentFrame` (an index into `frames`),
 * `animationTime` and `running`. `update` advances the time whatever
 * `running` says, and compares each frame's threshold directly with the
 * accumulated time; both are the source's behaviour and are kept.
 */
module Animation {
  import opened Wrappers
  import opened Compositor

  datatype AnimationType = Forward | Loop

  /**
   * `Type.fromString`: `valueOf` accepts exactly the constant names; any
   * other string falls back to FORWARD.
   */
  function TypeFromString(value: string): (t: AnimationType)
    ensures t == Loop <==> value == "LOOP"
  {
    if value == "FORWARD" then Forward
    else if value == "LOOP" then Loop
    else Forward
  }

  /** A frame: an image and the accumulated time until which it shows. */
  datatype Frame = Frame(image: TransparentTextImage, time: real)

  /** The transient playback state. */
  datatype Playback = Playback(current: nat, time: real, running: bool)

  /** The state after construction or `stop()`. */
  const Stopped := Playback(0, 0.0, false)

  /** The state after `start()`. */
  const Started := Playback(0, 0.0, true)

  /**
   * `frames.stream().filter(frame -> frame.getValue() > time).findFirst()`:
   * the index of the first frame whose threshold exceeds `time`.
   */
  function FirstAfter(frames: seq<Frame>, time: real): (r: Option<nat>)
    ensures r.Some? ==> r.value < |frames| && frames[r.value].time > time
    ensures r.Some? ==> forall j :: 0 <= j < r.value ==> frames[j].time <= time
    ensures r.None? <==> forall j :: 0 <= j < |frames| ==> frames[j].time <= time
  {
    if frames == [] then None
    else if frames[0].time > time then Some(0)
    else match FirstAfter(frames[1..], time)
      case None => None
      case Some(i) => Some(i + 1)
  }

  /** `update(elapsed)` as a function of the playback state before it. */
  function Step(frames: seq<Frame>, kind: AnimationType, s: Playback, elapsed: real): Playback
  {
    var time := s.time + elapsed;
    match FirstAfter(frames, time)
    case Some(i) => Playback(i, time, s.running)
    case None =>
      match kind
      case Forward => Playback(s.current, time, false)
      case Loop => Started
  }

  /** The current frame stays an element of a non-empty frame list. */
  lemma StepKeepsFrame(frames: seq<Frame>, kind: AnimationType, s: Playback, elapsed: real)
    requires s.current < |frames|
    ensures Step(frames, kind, s, elapsed).current < |frames|
  {
  }

  /**
   * `running` is never consulted: a paused and a running animation advance
   * to the same frame and time.
   */
  lemma StepIgnoresRunning(frames: seq<Frame>, kind: AnimationType, s: Playback, elapsed: real)
    ensures Step(frames, kind, s, elapsed).current == Step(frames, kind, s.(running := !s.running), elapsed).current
    ensures Step(frames, kind, s, elapsed).time == Step(frames, kind, s.(running := !s.running), elapsed).time
  {
  }

  /**
   * While some threshold exceeds the new time, the first such frame is
   * shown, the time is the old time plus `elapsed`, and `running` is kept.
   */
  lemma StepShowsFirstDue(frames: seq<Frame>, kind: AnimationType, s: Playback, elapsed: real, i: nat)
    requires i < |frames| && frames[i].time > s.time + elapsed
    requires forall j :: 0 <= j < i ==> frames[j].time <= s.time + elapsed
    ensures Step(frames, kind, s, elapsed) == Playback(i, s.time + elapsed, s.running)
  {
    var r := FirstAfter(frames, s.time + elapsed);
    assert r.Some?;
  }

  /**
   * FORWARD past the last threshold: the animation pauses, keeps the frame
   * it had (not necessarily the last) and keeps accumulating time.
   */
  lemma ForwardPastEnd(frames: seq<Frame>, s: Playback, elapsed: real)
    requires forall j :: 0 <= j < |frames| ==> frames[j].time <= s.time + elapsed
    ensures Step(frames, Forward, s, elapsed) == Playback(s.current, s.time + elapsed, false)
  {
  }

  /** LOOP past the last threshold restarts at frame 0 and time 0, dropping the overshoot. */
  lemma LoopPastEnd(frames: seq<Frame>, s: Playback, elapsed: real)
    requires forall j :: 0 <= j < |frames| ==> frames[j].time <= s.time + elapsed
    ensures Step(frames, Loop, s, elapsed) == Started
  {
  }

  /**
   * Once a FORWARD animation has passed every threshold, further
   * non-negative updates never change its frame.
   */
  lemma {:induction false} ForwardStaysFrozen(frames: seq<Frame>, s: Playback, steps: seq<real>)
    requires FirstAfter(frames, s.time).None?
    requires forall k :: 0 <= k < |steps| ==> steps[k] >= 0.0
    ensures Run(frames, Forward, s, steps).current == s.current
    ensures |steps| > 0 ==> !Run(frames, Forward, s, steps).running
    decreases |steps|
  {
    if steps != [] {
      var next := Step(frames, Forward, s, steps[0]);
      assert next == Playback(s.current, s.time + steps[0], false);
      assert FirstAfter(frames, next.time).None?;
      assert forall k :: 0 <= k < |steps[1..]| ==> steps[1..][k] >= 0.0;
      ForwardStaysFrozen(frames, next, steps[1..]);
    }
  }

  /** A sequence of `update` calls. */
  function Run(frames: seq<Frame>, kind: AnimationType, s: Playback, steps: seq<real>): Playback
    decreases |steps|
  {
    if steps == [] then s else Run(frames, kind, Step(frames, kind, s, steps[0]), steps[1..])
  }

  /**
   * Frames [(S0, 0.1), (S1, 0.3)] played FORWARD: `update(0.1)` shows S1
   * (0.1 does not exceed 0.1), `update(0.25)` passes 0.3 and pauses on S1.
   */
  lemma ForwardExample(s0: TransparentTextImage, s1: TransparentTextImage)
    ensures var frames := [Frame(s0, 0.1), Frame(s1, 0.3)];
            && Step(frames, Forward, Started, 0.1) == Playback(1, 0.1, true)
            && Step(frames, Forward, Playback(1, 0.1, true), 0.25) == Playback(1, 0.35, false)
  {
    var frames := [Frame(s0, 0.1), Frame(s1, 0.3)];
    StepShowsFirstDue(frames, Forward, Started, 0.1, 1);
  }

  /** The same frames played LOOP restart at S0 with time 0 once 0.3 is passed. */
  lemma LoopExample(s0: TransparentTextImage, s1: TransparentTextImage)
    ensures var frames := [Frame(s0, 0.1), Frame(s1, 0.3)];
            Step(frames, Loop, Playback(1, 0.1, true), 0.25) == Started
  {
  }

  /**
   * A single FORWARD update that passes every threshold at once leaves the
   * animation paused on frame 0, not on the last frame.
   */
  lemma ForwardOvershootKeepsFirstFrame(frames: seq<Frame>, elapsed: real)
    requires |frames| >= 2
    requires forall j :: 0 <= j < |frames| ==> frames[j].time <= elapsed
    ensures Step(frames, Forward, Started, elapsed).current == 0 != |frames| - 1
  {
  }

  class TextAnimation {
    const frames: seq<Frame>
    const kind: AnimationType
    var currentFrame: nat
    var animationTime: real
    var running: bool

    ghost predicate Valid()
      reads this
    {
      |frames| > 0 && currentFrame < |frames|
    }

    function State(): Playback
      reads this
    {
      Playback(currentFrame, animationTime, running)
    }

    /** The frame on show; always an element of `frames`. */
    function CurrentFrame(): (f: Frame)
      reads this
      requires Valid()
      ensures f in frames
    {
      frames[currentFrame]
    }

    /** The private constructor: keeps the frames and type, then `stop()`. */
    constructor (frames: seq<Frame>, kind: AnimationType)
      requires |frames| > 0
      ensures Valid() && this.frames == frames && this.kind == kind
      ensures State() == Stopped
    {
      this.frames := frames;
      this.kind := kind;
      new;
      Stop();
    }

    /** `start()`: `stop()` then `resume()`. */
    method Start()
      requires Valid()
      modifies this
      ensures Valid() && State() == Started
    {
      Stop();
      Resume();
    }

    /** `pause()`: only `running` changes. */
    method Pause()
      requires Valid()
      modifies this
      ensures Valid() && State() == old(State()).(running := false)
    {
      running := false;
    }

    /** `resume()`: only `running` changes. */
    method Resume()
      requires Valid()
      modifies this
      ensures Valid() && State() == old(State()).(running := true)
    {
      running := true;
    }

    /** `stop()`: frame 0, time 0, not running. */
    method Stop()
      requires |frames| > 0
      modifies this
      ensures Valid() && State() == Stopped
    {
      currentFrame := 0;
      animationTime := 0.0;
      Pause();
    }

    /** `update(elapsed)`. */
    method Update(elapsed: real)
      requires Valid()
      modifies this
      ensures Valid() && State() == Step(frames, kind, old(State()), elapsed)
    {
      animationTime := animationTime + elapsed;
      var frameOptional := FirstAfter(frames, animationTime);
      if frameOptional.Some? {
        currentFrame := frameOptional.value;
      } else {
        match kind
        case Forward => Pause();
        case Loop => Start();
      }
    }
  }

  /**
   * The end of `read`: the frames of the definition and its "type" string
   * make the animation; an empty frame list fails in `stop()`, at `frames.get(0)`.
   */
  method FromDefinition(frames: seq<Frame>, typeName: string) returns (r: Result<TextAnimation>)
    ensures r.Err? <==> frames == []
    ensures r.Ok? ==> fresh(r.value) && r.value.Valid() && r.value.State() == Stopped
    ensures r.Ok? ==> r.value.frames == frames && r.value.kind == TypeFromString(typeName)
  {
    if frames == [] {
      return Err(IndexOutOfBounds);
    }
    var animation := new TextAnimation(frames, TypeFromString(typeName));
    return Ok(animation);
  }
}
