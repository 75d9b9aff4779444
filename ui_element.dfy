/**
 * scripts/ui/ui_element.py: the geometry and visibility of a UI element,
 * the text fields of `Text`, and the three-state `Button`.
 *
 * `Box`, `Text`, `TextBox` and `Image` share the `UIElement` state and
 * differ only in how they draw; one class with a `kind` stands for all of
 * them. Surfaces are not modelled: a flag says whether one is set, and a
 * counter records each re-render.
 */
module UIElements {
  import opened Basic
  import opened Glob

  datatype ElementKind = BoxKind | TextKind | TextBoxKind | ImageKind

  /** `isinstance(elem, Text)`: `TextBox` is a subclass of `Text`. */
  predicate IsTextual(kind: ElementKind) { kind == TextKind || kind == TextBoxKind }

  const AlignTop: string := "align_top"
  const AlignRight: string := "align_right"
  const AlignBottom: string := "align_bottom"
  const AlignLeft: string := "align_left"

  /** `DEFAULT_ALIGN_DICT`: the four sides, none aligned. */
  function DefaultAlignment(): map<string, bool> {
    map[AlignTop := false, AlignRight := false, AlignBottom := false, AlignLeft := false]
  }

  /**
   * The alignment after `__set_align(**args)` has processed the argument
   * names in `done`: a name already in the dict takes its argument when
   * that is a `bool`; any other name or value is ignored.
   */
  function AlignedWith(alignment: map<string, bool>, args: map<string, Value>, done: set<string>): (r: map<string, bool>)
    ensures r.Keys == alignment.Keys
  {
    map k | k in alignment :: if k in done && k in args && args[k].BoolValue? then args[k].b else alignment[k]
  }

  /**
   * Only sides already in the dict change, each to its `bool` argument;
   * the other sides keep their value, and applying the same arguments
   * again changes nothing.
   */
  lemma AlignFacts(alignment: map<string, bool>, args: map<string, Value>)
    ensures var r := AlignedWith(alignment, args, args.Keys);
      && r.Keys == alignment.Keys
      && (forall k :: k in alignment && k in args && args[k].BoolValue? ==> r[k] == args[k].b)
      && (forall k :: k in alignment && (k !in args || !args[k].BoolValue?) ==> r[k] == alignment[k])
      && AlignedWith(r, args, args.Keys) == r
  {
  }

  /** `round(n / 2)` for an integer `n`: Python rounds a half to the even neighbour. */
  function RoundHalf(n: int): (r: int)
    ensures r * 2 == n || r * 2 == n - 1 || r * 2 == n + 1
    ensures n % 2 == 1 ==> r % 2 == 0
  {
    if n % 2 == 0 then n / 2
    else
      var q := n / 2;
      if q % 2 == 0 then q else q + 1
  }

  /**
   * One coordinate of `set_pos`, for an integer `glob.scale`: half the
   * surface, plus the scaled offset, moved by half the surface towards an
   * aligned side unless both opposite sides are set, and moved back by half
   * the element when it is centred.
   */
  function AxisPos(surfLen: int, offset: int, scale: int, towardsEnd: bool, towardsStart: bool,
                   centered: bool, elemLen: int): int
  {
    var half := RoundHalf(surfLen);
    var shifted :=
      if towardsEnd && towardsStart then offset * scale
      else if towardsEnd then offset * scale + half
      else if towardsStart then offset * scale - half
      else offset * scale;
    half + shifted - (if centered then RoundHalf(elemLen) else 0)
  }

  /**
   * Aligning to both opposite sides is the same as aligning to neither; a
   * side alignment moves the element by half the surface; a centred
   * element without offset or alignment sits with its middle on the
   * surface's middle.
   */
  lemma AxisPosFacts(surfLen: int, offset: int, scale: int, centered: bool, elemLen: int)
    ensures AxisPos(surfLen, offset, scale, true, true, centered, elemLen) == AxisPos(surfLen, offset, scale, false, false, centered, elemLen)
    ensures AxisPos(surfLen, offset, scale, true, false, centered, elemLen) == AxisPos(surfLen, offset, scale, false, false, centered, elemLen) + RoundHalf(surfLen)
    ensures AxisPos(surfLen, offset, scale, false, true, centered, elemLen) == AxisPos(surfLen, offset, scale, false, false, centered, elemLen) - RoundHalf(surfLen)
    ensures AxisPos(surfLen, 0, scale, false, false, true, elemLen) + RoundHalf(elemLen) == RoundHalf(surfLen)
  {
  }

  /** `__set_in_surf_bounds`: the element's box reaches into the surface `[0, sw] x [0, sh]`. */
  predicate OverlapsSurface(x: int, y: int, w: int, h: int, sw: int, sh: int) {
    x + w >= 0 && x <= sw && y + h >= 0 && y <= sh
  }

  /**
   * For boxes and surfaces with non-negative sides, the test holds exactly
   * when some point lies in both, edges included.
   */
  lemma {:induction false} OverlapsSurfaceIff(x: int, y: int, w: nat, h: nat, sw: nat, sh: nat)
    ensures OverlapsSurface(x, y, w, h, sw, sh) <==>
      exists px, py :: IsPointInRect(px, py, x, y, w, h) && IsPointInRect(px, py, 0, 0, sw, sh)
  {
    if OverlapsSurface(x, y, w, h, sw, sh) {
      var px := if x < 0 then 0 else x;
      var py := if y < 0 then 0 else y;
      assert IsPointInRect(px, py, x, y, w, h) && IsPointInRect(px, py, 0, 0, sw, sh);
    }
  }

  /**
   * `any(glob.get_tag(t).display for t in tags)`, evaluated lazily from the
   * front: the first displayed tag answers `true`; an unregistered tag
   * reached before that raises `KeyError` (`None`).
   */
  function AnyTagDisplayed(tags: seq<string>, registry: map<string, Tag>): Option<bool>
  {
    if tags == [] then Some(false)
    else if tags[0] !in registry then None
    else if registry[tags[0]].display then Some(true)
    else AnyTagDisplayed(tags[1..], registry)
  }

  /** The lazy `any` answers `true` exactly when some tag is displayed and every tag before it is registered. */
  lemma {:induction false} AnyTagDisplayedTrue(tags: seq<string>, registry: map<string, Tag>)
    ensures AnyTagDisplayed(tags, registry) == Some(true) <==>
      exists i :: 0 <= i < |tags| && tags[i] in registry && registry[tags[i]].display &&
        forall j :: 0 <= j < i ==> tags[j] in registry
  {
    if tags != [] && tags[0] in registry && !registry[tags[0]].display {
      var rest := tags[1..];
      AnyTagDisplayedTrue(rest, registry);
      if AnyTagDisplayed(rest, registry) == Some(true) {
        var i :| 0 <= i < |rest| && rest[i] in registry && registry[rest[i]].display &&
          forall j :: 0 <= j < i ==> rest[j] in registry;
        assert forall j :: 1 <= j < i + 1 ==> tags[j] == rest[j - 1];
        assert tags[i + 1] == rest[i];
      }
      if exists i :: 0 <= i < |tags| && tags[i] in registry && registry[tags[i]].display &&
          forall j :: 0 <= j < i ==> tags[j] in registry {
        var i :| 0 <= i < |tags| && tags[i] in registry && registry[tags[i]].display &&
          forall j :: 0 <= j < i ==> tags[j] in registry;
        assert i > 0;
        assert forall j :: 0 <= j < i - 1 ==> rest[j] == tags[j + 1];
        assert rest[i - 1] == tags[i];
      }
    } else if tags != [] && tags[0] in registry {
      assert tags[0] in registry && registry[tags[0]].display;
    }
  }

  /**
   * The lazy `any` raises `KeyError` exactly when it reaches an
   * unregistered tag after tags that are all registered and hidden.
   */
  lemma {:induction false} AnyTagDisplayedNone(tags: seq<string>, registry: map<string, Tag>)
    ensures AnyTagDisplayed(tags, registry) == None <==>
      exists i :: 0 <= i < |tags| && tags[i] !in registry &&
        forall j :: 0 <= j < i ==> tags[j] in registry && !registry[tags[j]].display
  {
    if tags != [] && tags[0] in registry && !registry[tags[0]].display {
      var rest := tags[1..];
      AnyTagDisplayedNone(rest, registry);
      if AnyTagDisplayed(rest, registry) == None {
        var i :| 0 <= i < |rest| && rest[i] !in registry &&
          forall j :: 0 <= j < i ==> rest[j] in registry && !registry[rest[j]].display;
        assert forall j :: 1 <= j < i + 1 ==> tags[j] == rest[j - 1];
        assert tags[i + 1] == rest[i];
      }
      if exists i :: 0 <= i < |tags| && tags[i] !in registry &&
          forall j :: 0 <= j < i ==> tags[j] in registry && !registry[tags[j]].display {
        var i :| 0 <= i < |tags| && tags[i] !in registry &&
          forall j :: 0 <= j < i ==> tags[j] in registry && !registry[tags[j]].display;
        assert i > 0;
        assert forall j :: 0 <= j < i - 1 ==> rest[j] == tags[j + 1];
        assert rest[i - 1] == tags[i];
      }
    } else if tags != [] && tags[0] !in registry {
      assert tags[0] !in registry;
    } else if tags != [] {
      assert tags[0] in registry && registry[tags[0]].display;
    }
  }

  /** When every tag is registered the lazy `any` answers, and answers whether some tag is displayed. */
  lemma AnyTagDisplayedRegistered(tags: seq<string>, registry: map<string, Tag>)
    requires forall i :: 0 <= i < |tags| ==> tags[i] in registry
    ensures AnyTagDisplayed(tags, registry) == Some(exists i :: 0 <= i < |tags| && registry[tags[i]].display)
  {
    AnyTagDisplayedTrue(tags, registry);
    AnyTagDisplayedNone(tags, registry);
    assert AnyTagDisplayed(tags, registry) != None;
  }

  class UIElement {
    const kind: ElementKind
    var width: int
    var height: int
    var offsetX: int
    var offsetY: int
    var alignment: map<string, bool>
    var centered: bool
    var pos: seq<int>          // `__pos`, the list `[x, y]`
    var alpha: int
    var display: bool
    var hasSurf: bool          // `__surf != None`
    var inSurfBounds: bool
    var tags: seq<string>
    // `Text` fields
    var text: string
    var font: string
    var colour: string
    var renders: nat           // number of `set_surf` calls made by `update_text`

    ghost predicate Valid()
      reads this
    {
      |pos| == 2 && alignment.Keys == DefaultAlignment().Keys
    }

    /**
     * `UIElement.__init__` (with the `Text` fields): the default alignment
     * updated from the keyword arguments, position `[0, 0]`, no surface, in
     * bounds, and the tags registered through `__set_tags`.
     */
    constructor (kind: ElementKind, width: int, height: int, offsetX: int, offsetY: int, alpha: int,
                 centered: bool, display: bool, tags: seq<string>, alignArgs: map<string, Value>,
                 text: string, font: string, colour: string, reg: Registry)
      requires reg.Valid()
      modifies reg
      ensures Valid() && reg.Valid()
      ensures this.kind == kind && this.width == width && this.height == height
      ensures this.offsetX == offsetX && this.offsetY == offsetY && this.alpha == alpha
      ensures this.centered == centered && this.display == display
      ensures alignment == AlignedWith(DefaultAlignment(), alignArgs, alignArgs.Keys)
      ensures pos == [0, 0] && !hasSurf && inSurfBounds && renders == 0
      ensures this.tags == tags
      ensures this.text == text && this.font == font && this.colour == colour
      ensures RegisteredTags(old(reg.tags), reg.tags, tags)
      ensures reg.colours == old(reg.colours) && reg.hasAudio == old(reg.hasAudio) && reg.scale == old(reg.scale)
    {
      this.kind := kind;
      this.width := width;
      this.height := height;
      this.offsetX := offsetX;
      this.offsetY := offsetY;
      this.alignment := DefaultAlignment();
      this.centered := centered;
      this.pos := [0, 0];
      this.alpha := alpha;
      this.display := display;
      this.hasSurf := false;
      this.inSurfBounds := true;
      this.tags := [];
      this.text := text;
      this.font := font;
      this.colour := colour;
      this.renders := 0;
      new;
      SetAlign(alignArgs);
      SetTags(tags, reg);
    }

    /** `__set_align(**align_args)`: each `bool` argument for a known side is applied, the rest ignored. */
    method SetAlign(args: map<string, Value>)
      requires Valid()
      modifies this`alignment
      ensures Valid()
      ensures alignment == AlignedWith(old(alignment), args, args.Keys)
    {
      var remaining := args.Keys;
      ghost var start := alignment;
      while remaining != {}
        invariant remaining <= args.Keys
        invariant alignment == AlignedWith(start, args, args.Keys - remaining)
        decreases |remaining|
      {
        var name :| name in remaining;
        if args[name].BoolValue? {
          if name in alignment {
            alignment := alignment[name := args[name].b];
          }
        }
        remaining := remaining - {name};
      }
    }

    /**
     * `__set_tags(tags)`: every id is appended to the element's tags, and
     * an id the registry does not know is registered with a default tag.
     */
    method SetTags(ids: seq<string>, reg: Registry)
      requires reg.Valid()
      modifies this`tags, reg
      ensures reg.Valid()
      ensures tags == old(tags) + ids
      ensures RegisteredTags(old(reg.tags), reg.tags, ids)
      ensures reg.colours == old(reg.colours) && reg.hasAudio == old(reg.hasAudio) && reg.scale == old(reg.scale)
    {
      if |ids| > 0 {
        for i := 0 to |ids|
          invariant reg.Valid()
          invariant tags == old(tags) + ids[..i]
          invariant RegisteredTags(old(reg.tags), reg.tags, ids[..i])
          invariant reg.colours == old(reg.colours) && reg.hasAudio == old(reg.hasAudio) && reg.scale == old(reg.scale)
        {
          if !reg.IsTag(ids[i]) {
            reg.AddTag(DefaultTag(ids[i]));
          }
          tags := tags + [ids[i]];
          assert ids[..i + 1] == ids[..i] + [ids[i]];
        }
        assert ids[..|ids|] == ids;
      }
    }

    /** `set_display(display)`. */
    method SetDisplay(d: bool)
      modifies this`display
      ensures display == d
    {
      display := d;
    }

    /** `__set_in_surf_bounds(surf_dim)`. */
    method SetInSurfBounds(surfWidth: int, surfHeight: int)
      requires Valid()
      modifies this`inSurfBounds
      ensures inSurfBounds == OverlapsSurface(pos[0], pos[1], width, height, surfWidth, surfHeight)
    {
      inSurfBounds := pos[0] + width >= 0 && pos[0] <= surfWidth && pos[1] + height >= 0 && pos[1] <= surfHeight;
    }

    /**
     * `set_pos(surf_dim)` for an integer `glob.scale`: both coordinates are
     * placed by `AxisPos` (x by right/left, y by bottom/top), then the bounds
     * flag is recomputed.
     */
    method SetPos(surfWidth: int, surfHeight: int, scale: int)
      requires Valid()
      modifies this`pos, this`inSurfBounds
      ensures Valid()
      ensures pos == [AxisPos(surfWidth, offsetX, scale, alignment[AlignRight], alignment[AlignLeft], centered, width),
                      AxisPos(surfHeight, offsetY, scale, alignment[AlignBottom], alignment[AlignTop], centered, height)]
      ensures inSurfBounds == OverlapsSurface(pos[0], pos[1], width, height, surfWidth, surfHeight)
    {
      var surfDim := [surfWidth, surfHeight];
      var offset := [offsetX, offsetY];
      var dim := [width, height];
      for i := 0 to 2
        invariant |pos| == 2
        invariant i > 0 ==> pos[0] == AxisPos(surfWidth, offsetX, scale, alignment[AlignRight], alignment[AlignLeft], centered, width)
        invariant i > 1 ==> pos[1] == AxisPos(surfHeight, offsetY, scale, alignment[AlignBottom], alignment[AlignTop], centered, height)
      {
        var half := RoundHalf(surfDim[i]);
        var off := offset[i] * scale;
        if i == 0 && !(alignment[AlignRight] && alignment[AlignLeft]) {
          if alignment[AlignRight] {
            off := off + half;
          } else if alignment[AlignLeft] {
            off := off - half;
          }
        }
        if i == 1 && !(alignment[AlignTop] && alignment[AlignBottom]) {
          if alignment[AlignBottom] {
            off := off + half;
          } else if alignment[AlignTop] {
            off := off - half;
          }
        }
        if centered {
          off := off - RoundHalf(dim[i]);
        }
        pos := pos[i := half + off];
      }
      SetInSurfBounds(surfWidth, surfHeight);
    }

    /** `intersects(pos)`: the inclusive rectangle test on the position and the dimensions. */
    function Intersects(px: int, py: int): (r: bool)
      reads this
      requires Valid()
      ensures r <==> IsPointInRect(px, py, pos[0], pos[1], width, height)
    {
      pos[0] <= px <= pos[0] + width && pos[1] <= py <= pos[1] + height
    }

    /**
     * `is_displayed()`: when the element has tags, at least one must be
     * displayed (an unregistered tag reached first raises, `None`); then the
     * element must be displayed, opaque, have a surface and be in bounds.
     */
    function IsDisplayed(reg: Registry): (r: Option<bool>)
      reads this, reg
      ensures r.None? <==> |tags| > 0 && AnyTagDisplayed(tags, reg.tags).None?
      ensures r == Some(true) <==>
        && display && alpha > 0 && hasSurf && inSurfBounds
        && (|tags| > 0 ==> AnyTagDisplayed(tags, reg.tags) == Some(true))
    {
      if |tags| > 0 && AnyTagDisplayed(tags, reg.tags) != Some(true) then
        (if AnyTagDisplayed(tags, reg.tags).None? then None else Some(false))
      else Some(display && alpha > 0 && hasSurf && inSurfBounds)
    }

    /**
     * `Text.update_text(surf_dim, text, font, colour)`: a field changes only
     * for an argument that is given and differs, and the text is re-rendered
     * exactly when some field changed.
     */
    method UpdateText(newText: Option<string>, newFont: Option<string>, newColour: Option<string>)
      requires IsTextual(kind)
      modifies this`text, this`font, this`colour, this`renders, this`hasSurf
      ensures text == (if newText.Some? then newText.value else old(text))
      ensures font == (if newFont.Some? then newFont.value else old(font))
      ensures colour == (if newColour.Some? then newColour.value else old(colour))
      ensures var changed := text != old(text) || font != old(font) || colour != old(colour);
        && renders == old(renders) + (if changed then 1 else 0)
        && hasSurf == (old(hasSurf) || changed)
    {
      var update := false;
      if newText.Some? && newText.value != text {
        text := newText.value;
        update := true;
      }
      if newFont.Some? && newFont.value != font {
        font := newFont.value;
        update := true;
      }
      if newColour.Some? && newColour.value != colour {
        colour := newColour.value;
        update := true;
      }
      if update {
        renders := renders + 1;
        hasSurf := true;
      }
    }
  }

  /** After `__set_tags(ids)`: every id is registered, known ids keep their tag, and new ids get a default tag. */
  ghost predicate RegisteredTags(before: map<string, Tag>, after: map<string, Tag>, ids: seq<string>) {
    && (forall id :: id in after <==> id in before || id in ids)
    && (forall id :: id in before ==> after[id] == before[id])
    && (forall id :: id in after && id !in before ==> after[id] == DefaultTag(id))
  }

  // =====================================================================
  // Button

  datatype ButtonState = Unpress | Hover | Press

  /** The state names `UNPRESS`, `HOVER` and `PRESS`. */
  function StateName(s: ButtonState): string {
    match s
    case Unpress => "unpress"
    case Hover => "hover"
    case Press => "press"
  }

  /** The key lookup in `self.states`: `None` for a name that is not a state (the key error). */
  function ParseState(name: string): (r: Option<ButtonState>)
    ensures r.Some? ==> StateName(r.value) == name
    ensures forall s :: StateName(s) == name ==> r == Some(s)
  {
    if name == "unpress" then Some(Unpress)
    else if name == "hover" then Some(Hover)
    else if name == "press" then Some(Press)
    else None
  }

  /** `__TOGGLE_STATES`: only the pressed state is toggled on. */
  function ToggleFor(s: ButtonState): bool {
    s == Press
  }

  /**
   * The state `intersects(pos, press, toggle)` asks for: on a hit, pressed
   * and not toggling asks for PRESS, not pressed asks for HOVER when there
   * is a hover element and otherwise for UNPRESS unless toggling; a pressed
   * toggling hit asks for nothing. A miss asks for PRESS when toggling with
   * the toggle on, and for UNPRESS otherwise.
   */
  function TargetState(hit: bool, pressed: bool, toggle: bool, hasHover: bool, toggleState: bool): Option<ButtonState> {
    if hit then
      if pressed then (if !toggle then Some(Press) else None)
      else if hasHover then Some(Hover)
      else if !toggle then Some(Unpress)
      else None
    else if toggle && toggleState then Some(Press)
    else Some(Unpress)
  }

  /** A hit never asks to leave for UNPRESS while toggling, and a miss never asks for HOVER. */
  lemma TargetStateFacts(hit: bool, pressed: bool, toggle: bool, hasHover: bool, toggleState: bool)
    ensures toggle && hit ==> TargetState(hit, pressed, toggle, hasHover, toggleState) != Some(Unpress)
    ensures !hit ==> TargetState(hit, pressed, toggle, hasHover, toggleState).Some? &&
                     TargetState(hit, pressed, toggle, hasHover, toggleState) != Some(Hover)
    ensures !toggle && pressed && hit ==> TargetState(hit, pressed, toggle, hasHover, toggleState) == Some(Press)
  {
  }

  class Button {
    const unpress: UIElement
    const hover: UIElement?
    const press: UIElement?
    var current: ButtonState
    var toggleState: bool
    var display: bool

    /** `self.states[s]`. */
    function Elem(s: ButtonState): UIElement? {
      match s
      case Unpress => unpress
      case Hover => hover
      case Press => press
    }

    ghost function Elems(): set<UIElement> {
      {unpress} + (if hover != null then {hover} else {}) + (if press != null then {press} else {})
    }

    /**
     * The current state has an element whose display flag is the button's;
     * every element that is not the current one is hidden (an element may
     * serve several states).
     */
    ghost predicate Valid()
      reads this, Elems()
    {
      && Elem(current) != null
      && Elem(current).display == display
      && forall s :: Elem(s) != null && Elem(s) != Elem(current) ==> !Elem(s).display
    }

    /**
     * `Button.__init__`: every element is hidden, the current state is
     * UNPRESS, `set_display(display)` shows or hides its element, and the
     * toggle flag takes its default.
     */
    constructor (unpress: UIElement, hover: UIElement?, press: UIElement?, defaultToggleState: bool, display: bool)
      modifies {unpress, hover, press}`display
      ensures Valid()
      ensures this.unpress == unpress && this.hover == hover && this.press == press
      ensures current == Unpress && toggleState == defaultToggleState && this.display == display
      ensures unpress.display == display
      ensures hover != null && hover != unpress ==> !hover.display
      ensures press != null && press != unpress ==> !press.display
    {
      this.unpress := unpress;
      this.hover := hover;
      this.press := press;
      unpress.display := false;
      if hover != null {
        hover.display := false;
      }
      if press != null {
        press.display := false;
      }
      current := Unpress;
      this.display := display;
      unpress.display := display;
      toggleState := defaultToggleState;
    }

    /** `set_display(display)`: the flag, and the current element's display. */
    method SetDisplay(d: bool)
      requires Valid()
      modifies this`display, Elems()`display
      ensures Valid()
      ensures display == d && current == old(current) && toggleState == old(toggleState)
      ensures forall e :: e in Elems() && e != Elem(current) ==> e.display == old(e.display)
    {
      display := d;
      Elem(current).display := d;
    }

    /** Whether `set_curent_state(s)` moves the button: a different state that has an element. */
    predicate Moves(s: ButtonState)
      reads this
    {
      s != current && Elem(s) != null
    }

    /**
     * `set_curent_state(state_name)` for a state name: nothing happens when
     * the state is already current or has no element; otherwise the toggle
     * flag follows the state, the old element is hidden and the new one
     * takes the button's display flag. The hover/press sounds are left out.
     */
    method SetState(s: ButtonState)
      requires Valid()
      modifies this`current, this`toggleState, Elems()`display
      ensures Valid()
      ensures display == old(display)
      ensures !old(Moves(s)) ==> current == old(current) && toggleState == old(toggleState)
      ensures !old(Moves(s)) ==> forall e :: e in Elems() ==> e.display == old(e.display)
      ensures old(Moves(s)) ==> current == s && toggleState == ToggleFor(s)
      ensures old(Moves(s)) && Elem(s) != old(Elem(current)) ==> !old(Elem(current)).display
      ensures forall e :: e in Elems() && e != old(Elem(current)) && e != Elem(s) ==> e.display == old(e.display)
    {
      if current != s {
        if Elem(s) != null {
          toggleState := ToggleFor(s);
          Elem(current).display := false;
          current := s;
          if display {
            Elem(current).display := true;
          }
        }
      }
    }

    /** `set_curent_state(state_name)`: an unknown name is rejected (logged) and changes nothing. */
    method SetCurrentState(name: string)
      requires Valid()
      modifies this`current, this`toggleState, Elems()`display
      ensures Valid()
      ensures display == old(display)
      ensures ParseState(name).None? ==> current == old(current) && toggleState == old(toggleState)
      ensures ParseState(name).None? ==> forall e :: e in Elems() ==> e.display == old(e.display)
      ensures ParseState(name).Some? && !old(Moves(ParseState(name).value)) ==>
        current == old(current) && toggleState == old(toggleState)
      ensures ParseState(name).Some? && !old(Moves(ParseState(name).value)) ==>
        forall e :: e in Elems() ==> e.display == old(e.display)
      ensures ParseState(name).Some? && old(Moves(ParseState(name).value)) ==>
        current == ParseState(name).value && toggleState == ToggleFor(current)
      ensures ParseState(name).Some? && old(Moves(ParseState(name).value)) && Elem(ParseState(name).value) != old(Elem(current)) ==>
        !old(Elem(current)).display
      ensures ParseState(name).Some? ==>
        forall e :: e in Elems() && e != old(Elem(current)) && e != Elem(ParseState(name).value) ==> e.display == old(e.display)
    {
      var s := ParseState(name);
      if s.Some? {
        SetState(s.value);
      }
    }

    /** `toggle()`: flips the toggle flag and moves to PRESS when it is on, to UNPRESS when it is off. */
    method Toggle()
      requires Valid()
      modifies this`current, this`toggleState, Elems()`display
      ensures Valid()
      ensures toggleState == !old(toggleState)
      ensures !toggleState ==> current == Unpress
      ensures press != null ==> (current == Press <==> toggleState)
      ensures press == null && toggleState ==> current == old(current)
    {
      toggleState := !toggleState;
      if toggleState {
        SetState(Press);
      } else {
        SetState(Unpress);
      }
    }

    /**
     * `__is_states_displayed()`: `any(e.is_displayed())` over the elements
     * in the order UNPRESS, HOVER, PRESS, lazily; `None` is the key error an
     * element with an unregistered tag raises.
     */
    function StatesDisplayed(reg: Registry): Option<bool>
      reads this, Elems(), reg
    {
      var u := unpress.IsDisplayed(reg);
      if u != Some(false) then u
      else
        var h := if hover != null then hover.IsDisplayed(reg) else Some(false);
        if h != Some(false) then h
        else if press != null then press.IsDisplayed(reg) else Some(false)
    }

    /**
     * `intersects(pos, press, toggle)`: the button is hit when it is
     * displayed, one of its elements is displayed, and the UNPRESS element
     * contains the point; the state then moves as `TargetState` asks.
     * `None` is the key error raised while checking the elements.
     */
    method Intersects(px: int, py: int, pressed: bool, toggle: bool, reg: Registry) returns (r: Option<bool>)
      requires Valid() && unpress.Valid()
      modifies this`current, this`toggleState, Elems()`display
      ensures Valid()
      ensures r.None? <==> old(display) && old(StatesDisplayed(reg)).None?
      ensures r == Some(true) <==> old(display) && old(StatesDisplayed(reg)) == Some(true) && old(unpress.Intersects(px, py))
      ensures r.None? ==> current == old(current) && toggleState == old(toggleState)
      ensures r.Some? ==>
        var target := TargetState(r.value, pressed, toggle, hover != null, old(toggleState));
        && (target.None? ==> current == old(current) && toggleState == old(toggleState))
        && (target.Some? && old(Moves(target.value)) ==> current == target.value && toggleState == ToggleFor(current))
        && (target.Some? && !old(Moves(target.value)) ==> current == old(current) && toggleState == old(toggleState))
    {
      var shown: Option<bool> := Some(false);
      if display {
        shown := StatesDisplayed(reg);
        if shown.None? {
          return None;
        }
      }
      if display && shown == Some(true) && unpress.Intersects(px, py) {
        if pressed {
          if !toggle {
            SetState(Press);
          }
        } else if hover != null {
          SetState(Hover);
        } else {
          if !toggle {
            SetState(Unpress);
          }
        }
        return Some(true);
      }
      if toggle && toggleState {
        SetState(Press);
      } else {
        SetState(Unpress);
      }
      return Some(false);
    }
  }
}
