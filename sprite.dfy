/**
 * `TextSprite`: a fixed, non-empty list of named states, each holding a
 * static image or an animation, and a pointer to the current state.
 */
module Sprite {
  import opened Wrappers
  import opened Glyphs
  import opened Compositor
  import opened Animation

  /** What a state shows: the source's image-or-animation `Object`. */
  datatype Content = Image(image: TransparentTextImage) | Animated(animation: TextAnimation)

  datatype State = State(name: string, content: Content)

  /**
   * `states.stream().filter(state -> Objects.equals(state.getKey(), name)).findFirst()`:
   * the index of the first state with that name.
   */
  function FindState(states: seq<State>, name: string): (r: Option<nat>)
    ensures r.Some? ==> r.value < |states| && states[r.value].name == name
    ensures r.Some? ==> forall j :: 0 <= j < r.value ==> states[j].name != name
    ensures r.None? <==> forall j :: 0 <= j < |states| ==> states[j].name != name
  {
    if states == [] then None
    else if states[0].name == name then Some(0)
    else match FindState(states[1..], name)
      case None => None
      case Some(i) => Some(i + 1)
  }

  /** The animations the states hold. */
  function Animations(states: seq<State>): set<TextAnimation> {
    set i | 0 <= i < |states| && states[i].content.Animated? :: states[i].content.animation
  }

  class TextSprite {
    const states: seq<State>
    var currentState: nat

    ghost predicate Valid()
      reads this, Animations(states)
    {
      && |states| > 0
      && currentState < |states|
      && forall i :: 0 <= i < |states| && states[i].content.Animated? ==> states[i].content.animation.Valid()
    }

    /** The state on show; always one of `states`. */
    function Current(): (s: State)
      reads this
      requires currentState < |states|
      ensures s in states
    {
      states[currentState]
    }

    /** The first state becomes current. */
    constructor (states: seq<State>)
      requires |states| > 0
      requires forall i :: 0 <= i < |states| && states[i].content.Animated? ==> states[i].content.animation.Valid()
      ensures Valid() && this.states == states && currentState == 0
    {
      this.states := states;
      currentState := 0;
    }

    /**
     * `updateState(name)`: the first state with that name becomes current;
     * an unknown name leaves the current state as it was, with no error.
     */
    method UpdateState(name: string)
      requires Valid()
      modifies this`currentState
      ensures Valid()
      ensures match FindState(states, name)
              case Some(i) => currentState == i
              case None => currentState == old(currentState)
    {
      var found := FindState(states, name);
      currentState := if found.Some? then found.value else currentState;
    }

    /**
     * `update(elapsed)`: forwarded to the current state's animation; an
     * image state does nothing. No other animation changes.
     */
    method Update(elapsed: real)
      requires Valid()
      modifies Animations(states)
      ensures Valid() && currentState == old(currentState)
      ensures match Current().content
              case Animated(a) =>
                && a.State() == Step(a.frames, a.kind, old(a.State()), elapsed)
                && forall b :: b in Animations(states) && b != a ==> b.State() == old(b.State())
              case Image(_) =>
                forall b :: b in Animations(states) ==> b.State() == old(b.State())
    {
      match states[currentState].content
      case Animated(animation) =>
        assert animation in Animations(states);
        animation.Update(elapsed);
      case Image(_) =>
    }

    /**
     * `render(textGraphics)` of an image state: the image is drawn at the
     * top-left corner whatever the sprite's position. Rendering an
     * animation state calls a method the animation does not define and is
     * not part of this model: the destination is left as it is.
     */
    method Render(graphics: array2<Cell>)
      requires currentState < |states|
      requires Current().content.Image? ==> Current().content.image.buffer != graphics
      modifies graphics
      ensures match Current().content
              case Image(image) =>
                forall row, column :: 0 <= row < graphics.Length0 && 0 <= column < graphics.Length1 ==>
                  graphics[row, column] ==
                    if row < image.buffer.Length0 && column < image.buffer.Length1
                    then Composed(image.buffer[row, column], old(graphics[row, column]))
                    else old(graphics[row, column])
              case Animated(_) =>
                forall row, column :: 0 <= row < graphics.Length0 && 0 <= column < graphics.Length1 ==>
                  graphics[row, column] == old(graphics[row, column])
    {
      match states[currentState].content
      case Image(image) =>
        image.DrawImage(graphics, TopLeftCorner);
        assert TopLeftCorner.row == 0 && TopLeftCorner.column == 0;
        forall row, column | 0 <= row < graphics.Length0 && 0 <= column < graphics.Length1
          ensures graphics[row, column] ==
                    if row < image.buffer.Length0 && column < image.buffer.Length1
                    then Composed(image.buffer[row, column], old(graphics[row, column]))
                    else old(graphics[row, column])
        {
        }
      case Animated(_) =>
    }
  }

  /** One entry of the "states" list of a sprite definition. */
  datatype StateDefinition = StateDefinition(name: Option<string>, image: Option<string>, animation: Option<string>)

  /** Where a state's content is read from, relative to the sprite resource. */
  datatype ContentSource = ImageFile(path: string) | AnimationFile(path: string)

  /**
   * The choice inside `read`: a missing name fails (`toString` on null); an
   * "image" entry wins over an "animation" entry; with neither the source
   * throws `IllegalArgumentException`.
   */
  function StateSource(definition: StateDefinition): (r: Result<(string, ContentSource)>)
    ensures definition.name.None? ==> r == Err(NullPointer)
    ensures r.Ok? <==> definition.name.Some? && (definition.image.Some? || definition.animation.Some?)
    ensures r.Ok? ==> r.value.0 == definition.name.value
    ensures r.Ok? && definition.image.Some? ==> r.value.1 == ImageFile(definition.image.value)
    ensures r.Ok? && definition.image.None? ==> r.value.1 == AnimationFile(definition.animation.value)
    ensures definition.name.Some? && definition.image.None? && definition.animation.None? ==>
              r == Err(IllegalArgument(""))
  {
    match definition.name
    case None => Err(NullPointer)
    case Some(name) =>
      if definition.image.Some? then Ok((name, ImageFile(definition.image.value)))
      else if definition.animation.Some? then Ok((name, AnimationFile(definition.animation.value)))
      else Err(IllegalArgument(""))
  }

  /**
   * All state definitions in order, failing at the first bad one; an
   * empty list fails in the constructor, at `states.get(0)`.
   */
  function SpriteSources(definitions: seq<StateDefinition>): (r: Result<seq<(string, ContentSource)>>)
    ensures r.Ok? <==> definitions != [] && forall i :: 0 <= i < |definitions| ==> StateSource(definitions[i]).Ok?
    ensures r.Ok? ==> |r.value| == |definitions|
    ensures r.Ok? ==> forall i :: 0 <= i < |definitions| ==> r.value[i] == StateSource(definitions[i]).value
  {
    if definitions == [] then Err(IndexOutOfBounds) else AllSources(definitions)
  }

  function AllSources(definitions: seq<StateDefinition>): (r: Result<seq<(string, ContentSource)>>)
    ensures r.Ok? <==> forall i :: 0 <= i < |definitions| ==> StateSource(definitions[i]).Ok?
    ensures r.Ok? ==> |r.value| == |definitions|
    ensures r.Ok? ==> forall i :: 0 <= i < |definitions| ==> r.value[i] == StateSource(definitions[i]).value
  {
    if definitions == [] then Ok([])
    else match StateSource(definitions[0])
      case Err(e) => Err(e)
      case Ok(first) =>
        match AllSources(definitions[1..])
        case Err(e) => Err(e)
        case Ok(rest) => Ok([first] + rest)
  }
}
