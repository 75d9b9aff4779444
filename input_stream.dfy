/**
 * scripts/ui/input_stream.py: a one-line editor that types the keys being
 * pressed into a text element. `pygame.key.key_code` becomes the `keyCode`
 * parameter and `pygame.key.get_mods` the `shift` and `caps` flags.
 */
module InputStreams {
  import opened Basic
  import opened PyStrings
  import opened UIElements

  /** The key codes `modify_text` distinguishes; every other key is `Other`. */
  datatype KeyCode = Space | BackspaceKey | Return | Tab | Escape | Other

  /** `__SPECIAL_CHAR_MAP`: what a key name types while shift is held. */
  const SpecialChars: map<string, string> := map[
    "1" := "!", "2" := "@", "3" := "#", "4" := "$", "5" := "%",
    "6" := "^", "7" := "&", "8" := "*", "9" := "(", "0" := ")",
    "-" := "_", "=" := "+", "[" := "{", "]" := "}", "\\" := "|",
    ";" := ":", "'" := "\"", "," := "<", "." := ">", "/" := "?"]

  /** What one key press does to the text. */
  datatype Edit = Append(s: string) | Backspace | End

  /**
   * The edit for a newly pressed key: space, return and tab type their
   * character, backspace deletes, escape ends the stream; any other key
   * types its shifted character (or its upper-cased name) under shift, its
   * upper-cased name under caps lock, and its name otherwise.
   */
  function KeyEdit(name: string, code: KeyCode, shift: bool, caps: bool): Edit {
    match code
    case Space => Append(" ")
    case BackspaceKey => Backspace
    case Return => Append("\n")
    case Tab => Append("\t")
    case Escape => End
    case Other =>
      if shift then Append(if name in SpecialChars then SpecialChars[name] else Upper(name))
      else if caps then Append(Upper(name))
      else Append(name)
  }

  /** The text after an edit; `text[:-1]` of an empty text is empty, and ending the stream leaves the text alone. */
  function ApplyEdit(text: string, e: Edit): (r: string)
    ensures e.Append? ==> |r| == |text| + |e.s| && r[..|text|] == text
    ensures e.Backspace? ==> r == (if |text| == 0 then text else text[..|text| - 1])
    ensures e.End? ==> r == text
  {
    match e
    case Append(s) => text + s
    case Backspace => if |text| == 0 then text else text[..|text| - 1]
    case End => text
  }

  /** Backspace after typing one character gives the text back. */
  lemma BackspaceUndoesChar(text: string, c: char)
    ensures ApplyEdit(ApplyEdit(text, Append([c])), Backspace) == text
  {
    assert (text + [c])[..|text|] == text;
  }

  /** Each shifted character is one character, different from its key. */
  lemma SpecialCharsFacts()
    ensures forall k :: k in SpecialChars ==> |k| == 1 && |SpecialChars[k]| == 1 && SpecialChars[k] != k
  {
  }

  /**
   * The special keys type exactly one character whatever the modifiers;
   * a one-letter key name types its capital under shift or caps lock and
   * itself otherwise.
   */
  lemma KeyEditFacts(name: string, code: KeyCode, shift: bool, caps: bool)
    ensures code in {Space, Return, Tab} ==> KeyEdit(name, code, shift, caps).Append? && |KeyEdit(name, code, shift, caps).s| == 1
    ensures code == Other && |name| == 1 && 'a' <= name[0] <= 'z' ==>
      KeyEdit(name, code, shift, caps) == Append(if shift || caps then [(name[0] as int - 32) as char] else name)
    ensures code == Other && !shift ==> KeyEdit(name, code, shift, caps) == Append(if caps then Upper(name) else name)
  {
    if code == Other && |name| == 1 && 'a' <= name[0] <= 'z' {
      assert name !in SpecialChars;
      assert Upper(name) == [(name[0] as int - 32) as char];
    }
  }

  /** The keys pressed now that were not pressed in the previous frame (`set(input) - set(past_input)`). */
  function NewKeys(input: seq<string>, pastInput: seq<string>): (r: set<string>)
    ensures forall k :: k in r <==> k in input && k !in pastInput
  {
    set k | k in input && k !in pastInput
  }

  class InputStream {
    var active: bool            // `input_stream`
    var elem: UIElement?        // `__input_stream_ui_elem`

    /** The stream is on exactly when it has an element, and that element is a `Text`. */
    ghost predicate Valid()
      reads this
    {
      (active <==> elem != null) && (elem != null ==> IsTextual(elem.kind))
    }

    /** `InputStream()`: off, no element. */
    constructor ()
      ensures Valid() && !active && elem == null
    {
      active := false;
      elem := null;
    }

    /** `set_input_stream(e)`: a `Text` (or `TextBox`) starts the stream on it; anything else is rejected and changes nothing. */
    method SetInputStream(e: UIElement?)
      requires Valid()
      modifies this
      ensures Valid()
      ensures e != null && IsTextual(e.kind) ==> active && elem == e
      ensures !(e != null && IsTextual(e.kind)) ==> active == old(active) && elem == old(elem)
    {
      if e != null && IsTextual(e.kind) {
        elem := e;
        active := true;
      }
    }

    /** `end_input_stream()`: off, no element. */
    method EndInputStream()
      modifies this
      ensures Valid() && !active && elem == null
    {
      active := false;
      elem := null;
    }

    /**
     * `modify_text(surf_dim, input, past_input)`: when the stream is on and
     * the pressed keys changed, one newly pressed key (which one is not
     * specified: the source takes the first of an unordered set) is applied
     * to the element's text through `update_text`; escape ends the stream
     * instead. The key processed is returned.
     */
    method ModifyText(input: seq<string>, pastInput: seq<string>, keyCode: string -> KeyCode, shift: bool, caps: bool)
      returns (key: Option<string>)
      requires Valid()
      modifies this, {elem}`text, {elem}`font, {elem}`colour, {elem}`renders, {elem}`hasSurf
      ensures Valid()
      ensures key.None? <==> input == pastInput || !old(active) || NewKeys(input, pastInput) == {}
      ensures key.Some? ==> key.value in NewKeys(input, pastInput)
      ensures key.None? ==> active == old(active) && elem == old(elem)
      ensures key.None? && elem != null ==> elem.text == old(elem.text) && elem.renders == old(elem.renders)
      ensures key.Some? && KeyEdit(key.value, keyCode(key.value), shift, caps).End? ==>
        !active && elem == null && old(elem).text == old(elem.text)
      ensures key.Some? && !KeyEdit(key.value, keyCode(key.value), shift, caps).End? ==>
        && active && elem == old(elem)
        && elem.text == ApplyEdit(old(elem.text), KeyEdit(key.value, keyCode(key.value), shift, caps))
        && elem.renders == old(elem.renders) + (if elem.text != old(elem.text) then 1 else 0)
      ensures old(elem) != null ==> old(elem).font == old(elem.font) && old(elem).colour == old(elem.colour)
      ensures old(elem) != null ==> old(elem).hasSurf == (old(elem.hasSurf) || old(elem).text != old(elem.text))
    {
      key := None;
      if input != pastInput && active {
        var newKeys := NewKeys(input, pastInput);
        if newKeys != {} {
          var name :| name in newKeys;
          key := Some(name);
          var edit := KeyEdit(name, keyCode(name), shift, caps);
          if edit.End? {
            EndInputStream();
            return;
          }
          var newText := ApplyEdit(elem.text, edit);
          elem.UpdateText(Some(newText), None, None);
        }
      }
    }
  }
}
