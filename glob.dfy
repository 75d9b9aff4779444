/**
 * scripts/utility/glob.py: the process-wide registries of the engine. The
 * module-level dictionaries and settings become the fields of one `Registry`
 * object that `init` (the constructor, or `Init` for a later re-run) resets.
 * Only the colour and tag registries are modelled; images, fonts and the
 * clock hold pygame objects or wall-clock time.
 */
module Glob {
  import opened Basic

  /** The `Tag` dataclass: an id (meant to be a `str`), a description and a display flag. */
  datatype Tag = Tag(tagId: Value, description: string, display: bool)

  /** A tag built with the dataclass defaults, as `Tag(tag_id)` does. */
  function DefaultTag(tagId: string): Tag {
    Tag(StrValue(tagId), "", true)
  }

  /** What `add_colour` did with its argument. */
  datatype AddColourOutcome =
    | Stored          // a 3-tuple of ints, now under its name
    | Rejected        // logged as an invalid colour value, registry unchanged
    | NotIterable     // the rejection path iterates the value and raises `TypeError`

  /** The value `add_colour` accepts: a tuple of exactly three `int` items (booleans included). */
  predicate IsColour(v: Value) {
    v.TupleValue? && |v.items| == 3 && IsOnlyType(v.items, IntType)
  }

  /** Values that `get_first_item_of_incorrect_type` can iterate: lists, tuples and strings. */
  predicate IsIterable(v: Value) {
    v.TupleValue? || v.ListValue? || v.StrValue?
  }

  class Registry {
    var colours: map<string, Value>
    var tags: map<string, Tag>
    var hasAudio: bool
    var scale: real

    /** Every stored colour passed the `add_colour` check, and every tag sits under its own id. */
    ghost predicate Valid()
      reads this
    {
      && (forall name :: name in colours ==> IsColour(colours[name]))
      && (forall id :: id in tags ==> tags[id].tagId == StrValue(id))
    }

    /** `init()`: empty registries, no audio, scale 1.0. */
    constructor ()
      ensures Valid()
      ensures colours == map[] && tags == map[] && !hasAudio && scale == 1.0
    {
      colours := map[];
      tags := map[];
      hasAudio := false;
      scale := 1.0;
    }

    /** `init()` run again on an existing registry (every importing module calls it). */
    method Init()
      modifies this
      ensures Valid()
      ensures colours == map[] && tags == map[] && !hasAudio && scale == 1.0
    {
      colours := map[];
      tags := map[];
      hasAudio := false;
      scale := 1.0;
    }

    /**
     * `add_colour(name, colour)`: a 3-tuple of ints is stored (overwriting an
     * earlier entry of that name); anything else leaves the registry as it was,
     * and a value that cannot be iterated makes the rejection path raise.
     */
    method AddColour(name: string, colour: Value) returns (outcome: AddColourOutcome)
      requires Valid()
      modifies this
      ensures Valid()
      ensures outcome == Stored <==> IsColour(colour)
      ensures outcome == NotIterable <==> !IsColour(colour) && !IsIterable(colour)
      ensures outcome == Stored ==> colours == old(colours)[name := colour]
      ensures outcome != Stored ==> colours == old(colours)
      ensures tags == old(tags) && hasAudio == old(hasAudio) && scale == old(scale)
    {
      if colour.TupleValue? && |colour.items| == 3 && IsOnlyType(colour.items, IntType) {
        colours := colours[name := colour];
        outcome := Stored;
      } else if IsIterable(colour) {
        outcome := Rejected;
      } else {
        outcome := NotIterable;
      }
    }

    /** `get_colour(name)`: the stored colour, or nothing (after logging) for an unknown name. */
    function GetColour(name: string): (r: Option<Value>)
      reads this
      requires Valid()
      ensures r.Some? <==> name in colours
      ensures r.Some? ==> r.value == colours[name] && IsColour(r.value)
    {
      if name in colours then Some(colours[name]) else None
    }

    /**
     * `add_tag(tag)`: a tag whose id is a `str` is stored under that id,
     * replacing an earlier tag with the same id; other ids are untouched.
     * A tag with a non-`str` id is rejected.
     */
    method AddTag(tag: Tag)
      requires Valid()
      modifies this
      ensures Valid()
      ensures tag.tagId.StrValue? ==> tags == old(tags)[tag.tagId.s := tag]
      ensures !tag.tagId.StrValue? ==> tags == old(tags)
      ensures colours == old(colours) && hasAudio == old(hasAudio) && scale == old(scale)
    {
      if tag.tagId.StrValue? {
        tags := tags[tag.tagId.s := tag];
      }
    }

    /** `is_tag(tag_id)`: whether the id is a key of the tag registry. */
    predicate IsTag(tagId: string)
      reads this
    {
      tagId in tags
    }

    /** `get_tag(tag_id)`: the tag stored under the id; `None` stands for the `KeyError` an unknown id raises. */
    function GetTag(tagId: string): (r: Option<Tag>)
      reads this
      requires Valid()
      ensures r.Some? <==> IsTag(tagId)
      ensures r.Some? ==> r.value == tags[tagId] && r.value.tagId == StrValue(tagId)
    {
      if tagId in tags then Some(tags[tagId]) else None
    }
  }

  /** A registry filled in a fixed order answers with the last write for each id. */
  method AddTagLastWriteWins(reg: Registry, a: Tag, b: Tag)
    requires reg.Valid()
    requires a.tagId.StrValue? && a.tagId == b.tagId
    modifies reg
    ensures reg.Valid()
    ensures reg.IsTag(a.tagId.s) && reg.GetTag(a.tagId.s) == Some(b)
    ensures forall id :: id != a.tagId.s ==> (id in reg.tags <==> id in old(reg.tags))
    ensures forall id :: id != a.tagId.s && id in reg.tags ==> reg.tags[id] == old(reg.tags)[id]
  {
    reg.AddTag(a);
    reg.AddTag(b);
  }
}
