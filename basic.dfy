/**
 * scripts/utility/basic.py: type checks over lists and tuples, the inclusive
 * point-in-rectangle test and file-name extraction. Python values are given
 * by a small datatype so that `isinstance` can be stated; `bool` is a
 * subclass of `int` in Python, and `IsInstance` says so.
 */
module Basic {
  import opened PyStrings

  datatype Option<+T> = None | Some(value: T)

  /** The outcome of a call that either returns a value or raises. */
  datatype Result<+T, +E> = Success(value: T) | Failure(error: E)

  /** The Python values the engine passes around. */
  datatype Value =
    | NoneValue
    | BoolValue(b: bool)
    | IntValue(i: int)
    | FloatValue(f: real)
    | StrValue(s: string)
    | TupleValue(items: seq<Value>)
    | ListValue(items: seq<Value>)

  /** The built-in types `isinstance` is asked about. */
  datatype PyType = NoneType | BoolType | IntType | FloatType | StrType | TupleType | ListType

  /** `isinstance(v, t)`; `True` and `False` are instances of `int`. */
  predicate IsInstance(v: Value, t: PyType) {
    match t
    case NoneType => v.NoneValue?
    case BoolType => v.BoolValue?
    case IntType => v.IntValue? || v.BoolValue?
    case FloatType => v.FloatValue?
    case StrType => v.StrValue?
    case TupleType => v.TupleValue?
    case ListType => v.ListValue?
  }

  /**
   * `is_only_type(data, t)`: `all(isinstance(item, t) for item in data)`,
   * vacuously true on an empty list.
   */
  function IsOnlyType(data: seq<Value>, t: PyType): (r: bool)
    ensures r <==> forall i :: 0 <= i < |data| ==> IsInstance(data[i], t)
    decreases |data|
  {
    if data == [] then true
    else IsInstance(data[0], t) && IsOnlyType(data[1..], t)
  }

  /**
   * `get_first_item_of_incorrect_type(data, t)`: the earliest item that is not
   * an instance of `t`, or `None` when there is none.
   */
  function FirstItemOfIncorrectType(data: seq<Value>, t: PyType): (r: Option<Value>)
    ensures r.None? <==> forall i :: 0 <= i < |data| ==> IsInstance(data[i], t)
    ensures r.Some? ==>
      exists k :: 0 <= k < |data| && r.value == data[k] && !IsInstance(data[k], t) &&
        (forall j :: 0 <= j < k ==> IsInstance(data[j], t))
    decreases |data|
  {
    if data == [] then None
    else if !IsInstance(data[0], t) then Some(data[0])
    else
      var r := FirstItemOfIncorrectType(data[1..], t);
      if r.Some? then
        var k :| 0 <= k < |data[1..]| && r.value == data[1..][k] && !IsInstance(data[1..][k], t) &&
          (forall j :: 0 <= j < k ==> IsInstance(data[1..][j], t));
        assert data[k + 1] == data[1..][k];
        assert forall j :: 1 <= j < k + 1 ==> data[j] == data[1..][j - 1];
        r
      else r
  }

  /** The two list checks agree: no incorrect item exactly when the list has only the type. */
  lemma FirstItemAgreesWithOnlyType(data: seq<Value>, t: PyType)
    ensures FirstItemOfIncorrectType(data, t).None? <==> IsOnlyType(data, t)
  {
  }

  /** The Python object a result stands for: no item is Python's `None`. */
  function PyValue(r: Option<Value>): Value {
    if r.Some? then r.value else NoneValue
  }

  /**
   * The Python result of `get_first_item_of_incorrect_type` is `None` both when
   * every item has the type and when the earliest item without it is `None`
   * itself, so a caller cannot tell the two apart.
   */
  lemma PyFirstItemIsNone(data: seq<Value>, t: PyType)
    ensures PyValue(FirstItemOfIncorrectType(data, t)) == NoneValue <==>
      || IsOnlyType(data, t)
      || exists k :: 0 <= k < |data| && data[k] == NoneValue && !IsInstance(data[k], t) &&
           forall j :: 0 <= j < k ==> IsInstance(data[j], t)
  {
  }

  /** A `None` colour component is reported as Python's `None`, like a colour with no wrong component. */
  lemma NoneItemLooksLikeNoItem()
    ensures PyValue(FirstItemOfIncorrectType([IntValue(1), NoneValue, IntValue(3)], IntType)) == NoneValue
    ensures !IsOnlyType([IntValue(1), NoneValue, IntValue(3)], IntType)
  {
    assert !IsInstance([IntValue(1), NoneValue, IntValue(3)][1], IntType);
  }

  /**
   * `is_point_in_rect((x, y), (rx, ry, w, h))`: the comparison chain
   * `rx <= x <= rx + w and ry <= y <= ry + h`.
   */
  predicate IsPointInRect(x: int, y: int, rx: int, ry: int, w: int, h: int) {
    rx <= x <= rx + w && ry <= y <= ry + h
  }

  /**
   * The test is inclusive on all four edges: the four corners of a rectangle
   * with non-negative sides are inside it, and a point one step past an edge is not.
   */
  lemma {:induction false} PointInRectEdges(rx: int, ry: int, w: nat, h: nat)
    ensures IsPointInRect(rx, ry, rx, ry, w, h)
    ensures IsPointInRect(rx + w, ry, rx, ry, w, h)
    ensures IsPointInRect(rx, ry + h, rx, ry, w, h)
    ensures IsPointInRect(rx + w, ry + h, rx, ry, w, h)
    ensures !IsPointInRect(rx - 1, ry, rx, ry, w, h) && !IsPointInRect(rx + w + 1, ry, rx, ry, w, h)
    ensures !IsPointInRect(rx, ry - 1, rx, ry, w, h) && !IsPointInRect(rx, ry + h + 1, rx, ry, w, h)
  {
  }

  /** `'//' in path`; it can only hold when `'/' in path`. */
  predicate HasDoubleSlash(path: string) {
    exists i :: 0 <= i < |path| - 1 && path[i] == '/' && path[i + 1] == '/'
  }

  /**
   * `get_filename(path, include_extension)`: the text after the last `/`
   * (the whole path when there is none) and, without the extension, the part
   * of that before the first `.`. The source's `'//'` branch cannot be taken,
   * because a path holding `//` also holds `/`.
   */
  function GetFilename(path: string, includeExtension: bool): (r: string)
    ensures '/' !in r
  {
    var filename :=
      if '/' in path then Last(Split(path, '/'))
      else if HasDoubleSlash(path) then assert false; path
      else path;
    SplitPieces(path, '/');
    assert '/' !in filename;
    if !includeExtension then
      SplitPieces(filename, '.');
      Split(filename, '.')[0]
    else filename
  }

  function Last<T>(s: seq<T>): T
    requires |s| > 0
  {
    s[|s| - 1]
  }

  /** With the extension kept, the result is the path's text after its last `/`, or the whole path. */
  lemma {:induction false} FilenameIsLastComponent(path: string)
    ensures '/' !in path ==> GetFilename(path, true) == path
    ensures '/' in path ==> exists k :: 0 <= k < |path| && path[k] == '/' && GetFilename(path, true) == path[k + 1..]
  {
    SplitLast(path, '/');
  }

  /**
   * Without the extension, the result is the filename up to its first `.`:
   * `a.tar.gz` gives `a`.
   */
  lemma {:induction false} FilenameStemIsBeforeFirstDot(path: string)
    ensures var name := GetFilename(path, true);
      var stem := GetFilename(path, false);
      && '.' !in stem && |stem| <= |name| && stem == name[..|stem|]
      && (|stem| == |name| || name[|stem|] == '.')
  {
    var name := GetFilename(path, true);
    SplitFirst(name, '.');
  }

  /** `a.tar.gz` without its extension is `a`: only the text before the first dot is kept. */
  lemma FilenameExample()
    ensures GetFilename("a.tar.gz", false) == "a"
  {
    var name := "a.tar.gz";
    assert '/' !in name;
    FilenameStemIsBeforeFirstDot(name);
    FilenameIsLastComponent(name);
    var stem := GetFilename(name, false);
    assert name[1] == '.' && name[0] != '.';
    assert name[..2] == "a." && name[..1] == "a";
  }
}
