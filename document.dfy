/**
  The task-definition document as an already decoded JSON tree, and the
  shape-checked accessors that narrow one of its nodes: a key is looked up
  in a map node and its value must have the expected variant.
*/
module Document {
  import opened Errors

  /** A decoded JSON value. Numbers are kept opaque. */
  datatype JVal =
    | JNull
    | JBool(b: bool)
    | JNum(n: real)
    | JStr(str: string)
    | JArr(arr: seq<JVal>)
    | JObj(obj: map<string, JVal>)

  /** `v` is a map node holding a string under `key`. */
  predicate HasString(v: JVal, key: string)
  {
    v.JObj? && key in v.obj && v.obj[key].JStr?
  }

  /** `v` is a map node holding a map under `key`. */
  predicate HasMap(v: JVal, key: string)
  {
    v.JObj? && key in v.obj && v.obj[key].JObj?
  }

  /**
    The array stored under `key` in the root map. The root is a map by
    construction, so only a missing key or a value of another variant fails.
  */
  function ExtractSlice(root: map<string, JVal>, key: string, title: Title): (r: Result<seq<JVal>>)
    ensures key !in root ==> r == Failure(MissingKey(title, key))
    ensures key in root && !root[key].JArr? ==> r == Failure(WrongShape(title, key, SliceShape))
    ensures r.Success? <==> key in root && root[key].JArr?
    ensures r.Success? ==> root[key] == JArr(r.value)
  {
    if key !in root then Failure(MissingKey(title, key))
    else match root[key]
      case JArr(items) => Success(items)
      case _ => Failure(WrongShape(title, key, SliceShape))
  }

  /** The map stored under `key` in the map node `source`. */
  function ExtractMap(source: JVal, key: string, title: Title): (r: Result<map<string, JVal>>)
    ensures !source.JObj? ==> r == Failure(NotAMap(title))
    ensures source.JObj? && key !in source.obj ==> r == Failure(MissingKey(title, key))
    ensures source.JObj? && key in source.obj && !source.obj[key].JObj? ==>
              r == Failure(WrongShape(title, key, MapShape))
    ensures r.Success? <==> HasMap(source, key)
    ensures r.Success? ==> source.obj[key] == JObj(r.value)
  {
    match source
    case JObj(fields) =>
      if key !in fields then Failure(MissingKey(title, key))
      else (match fields[key]
        case JObj(m) => Success(m)
        case _ => Failure(WrongShape(title, key, MapShape)))
    case _ => Failure(NotAMap(title))
  }

  /** The string stored under `key` in the map node `source`. */
  function ExtractString(source: JVal, key: string, title: Title): (r: Result<string>)
    ensures !source.JObj? ==> r == Failure(NotAMap(title))
    ensures source.JObj? && key !in source.obj ==> r == Failure(MissingKey(title, key))
    ensures source.JObj? && key in source.obj && !source.obj[key].JStr? ==>
              r == Failure(WrongShape(title, key, StringShape))
    ensures r.Success? <==> HasString(source, key)
    ensures r.Success? ==> source.obj[key] == JStr(r.value)
  {
    match source
    case JObj(fields) =>
      if key !in fields then Failure(MissingKey(title, key))
      else (match fields[key]
        case JStr(s) => Success(s)
        case _ => Failure(WrongShape(title, key, StringShape)))
    case _ => Failure(NotAMap(title))
  }

  /** The map node `node` with `key` bound to `value`; every other key keeps its value. */
  function SetField(node: JVal, key: string, value: JVal): (r: JVal)
    requires node.JObj?
    ensures r.JObj? && r.obj.Keys == node.obj.Keys + {key}
    ensures r.obj[key] == value
    ensures forall k :: k in node.obj && k != key ==> r.obj[k] == node.obj[k]
  {
    JObj(node.obj[key := value])
  }

  /** Storing a value under a key leaves every other key readable exactly as before. */
  lemma ReadOtherAfterWrite(node: JVal, key: string, value: JVal, other: string, title: Title)
    requires node.JObj? && other != key
    ensures ExtractString(SetField(node, key, value), other, title) == ExtractString(node, other, title)
    ensures ExtractMap(SetField(node, key, value), other, title) == ExtractMap(node, other, title)
  {
  }

  /** A second store under the same key replaces the first. */
  lemma StoreTwice(m: map<string, JVal>, key: string, first: JVal, second: JVal)
    ensures m[key := first][key := second] == m[key := second]
  {
  }
}
