/**
 * The manifest document as `json.load` delivers it: a tree of JSON values
 * whose objects keep their members in document order, and the key names of
 * video_clipper.py:12-18.
 */
module Documents {
  import opened Wrappers

  datatype Json =
    | JNull
    | JBool(b: bool)
    | JNumber(literal: string)
    | JString(str: string)
    | JArray(elements: seq<Json>)
    | JObject(members: seq<(string, Json)>)

  const KEY_VERSION: string := "version"
  const KEY_VIDEOS: string := "videos"
  const KEY_START: string := "start"
  const KEY_END: string := "end"
  const KEY_CLIPS: string := "clips"
  const KEY_SHA256_CHECKSUM: string := "sha256_checksum"

  /** The value stored under `key` in an object's members (the first, should a key repeat). */
  function Lookup(members: seq<(string, Json)>, key: string): Option<Json>
  {
    if |members| == 0 then None
    else if members[0].0 == key then Some(members[0].1)
    else Lookup(members[1..], key)
  }

  /** Member `i` is the first member that carries `key`. */
  ghost predicate FirstWith(members: seq<(string, Json)>, key: string, i: int)
  {
    0 <= i < |members| && members[i].0 == key && forall j :: 0 <= j < i ==> members[j].0 != key
  }

  /**
   * A key is found exactly when some member has it, and what is found is the
   * value of the first member that has it.
   */
  lemma {:induction false} LookupMeaning(members: seq<(string, Json)>, key: string)
    ensures Lookup(members, key).None? <==> forall i :: 0 <= i < |members| ==> members[i].0 != key
    ensures Lookup(members, key).Some? ==>
      exists i :: 0 <= i < |members| && members[i] == (key, Lookup(members, key).value)
    ensures Lookup(members, key).Some? ==>
      exists i :: FirstWith(members, key, i) && members[i].1 == Lookup(members, key).value
    ensures forall i :: FirstWith(members, key, i) ==> Lookup(members, key) == Some(members[i].1)
    decreases |members|
  {
    if |members| > 0 && members[0].0 == key {
      assert FirstWith(members, key, 0);
      forall i | FirstWith(members, key, i)
        ensures i == 0
      {
      }
    } else if |members| > 0 {
      var rest := members[1..];
      LookupMeaning(rest, key);
      assert forall i :: 0 < i < |members| ==> members[i] == rest[i - 1];
      if Lookup(members, key).Some? {
        var i :| FirstWith(rest, key, i) && rest[i].1 == Lookup(members, key).value;
        assert members[i + 1] == (key, Lookup(members, key).value);
        assert FirstWith(members, key, i + 1);
      }
      forall i | FirstWith(members, key, i)
        ensures Lookup(members, key) == Some(members[i].1)
      {
        assert FirstWith(rest, key, i - 1);
      }
    }
  }

  /** Whether `needle` occurs in `hay` as a contiguous piece (Python's `needle in hay` on strings). */
  predicate IsSubstring(needle: string, hay: string)
  {
    needle <= hay || (|hay| > 0 && IsSubstring(needle, hay[1..]))
  }

  /** `needle` occurs in `hay` exactly when some suffix of `hay` starts with it. */
  lemma {:induction false} IsSubstringMeaning(needle: string, hay: string)
    ensures IsSubstring(needle, hay) <==> exists i :: 0 <= i <= |hay| && needle <= hay[i..]
    decreases |hay|
  {
    if |hay| > 0 {
      IsSubstringMeaning(needle, hay[1..]);
      assert forall i :: 1 <= i <= |hay| ==> hay[i..] == hay[1..][i - 1..];
      if !IsSubstring(needle, hay) {
        forall i | 0 <= i <= |hay|
          ensures !(needle <= hay[i..])
        {
          if i > 0 {
            assert hay[i..] == hay[1..][i - 1..];
          }
        }
      } else if !(needle <= hay) {
        var i :| 0 <= i <= |hay[1..]| && needle <= hay[1..][i..];
        assert hay[1..][i..] == hay[i + 1..];
        assert needle <= hay[i + 1..];
      } else {
        assert needle <= hay[0..];
      }
    } else {
      assert hay[0..] == hay;
    }
  }

  /** Error classes of reading a document: a missing key, or a value of a type where Python raises. */
  datatype ParseError =
    | MissingVersion
    | MissingVideos
    | MissingClips(video: string)
    | MissingStart(clip: string)
    | MissingEnd(clip: string)
    | TypeMismatch

  /**
   * Python's `key in value`: key membership on a dict, element membership on a
   * list, substring on a str; a TypeError on any other value.
   */
  function Contains(value: Json, key: string): (r: Result<bool, ParseError>)
    ensures value.JObject? ==> r == Success(exists i :: 0 <= i < |value.members| && value.members[i].0 == key)
    ensures value.JArray? ==> r == Success(exists i :: 0 <= i < |value.elements| && value.elements[i] == JString(key))
    ensures value.JString? ==> r == Success(exists i :: 0 <= i <= |value.str| && key <= value.str[i..])
    ensures r.Failure? <==> !(value.JObject? || value.JArray? || value.JString?)
  {
    match value
    case JObject(members) => LookupMeaning(members, key); Success(Lookup(members, key).Some?)
    case JArray(elements) => Success(JString(key) in elements)
    case JString(s) => IsSubstringMeaning(key, s); Success(IsSubstring(key, s))
    case _ => Failure(TypeMismatch)
  }

  /**
   * Python's `value[key]`: the value of the member that carries the key in a
   * dict (the first, should it repeat); a KeyError or TypeError otherwise.
   */
  function Index(value: Json, key: string): (r: Result<Json, ParseError>)
    ensures r.Success? <==> value.JObject? && exists i :: 0 <= i < |value.members| && value.members[i].0 == key
    ensures r.Success? ==> exists i :: FirstWith(value.members, key, i) && value.members[i].1 == r.value
  {
    if value.JObject? then
      LookupMeaning(value.members, key);
      // A missing key would be a KeyError; every caller tests `Contains` first, so this branch is not reached.
      if Lookup(value.members, key).Some? then Success(Lookup(value.members, key).value) else Failure(TypeMismatch)
    else Failure(TypeMismatch)
  }

  /** What `dict.get(key)` finds, told apart the way the parser needs. */
  datatype Field = Absent | Null | Text(s: string) | OtherValue

  /**
   * `dict.get(key)`: nothing when no member carries the key; otherwise the
   * value of the first member that does, as null, a string or something else.
   */
  function GetField(members: seq<(string, Json)>, key: string): (f: Field)
    ensures f.Absent? <==> forall i :: 0 <= i < |members| ==> members[i].0 != key
    ensures f.Null? <==> exists i :: FirstWith(members, key, i) && members[i].1 == JNull
    ensures f.Text? <==> exists i :: FirstWith(members, key, i) && members[i].1.JString?
    ensures f.Text? ==> exists i :: FirstWith(members, key, i) && members[i].1 == JString(f.s)
    ensures f.OtherValue? <==> exists i :: FirstWith(members, key, i) && !members[i].1.JNull? && !members[i].1.JString?
  {
    LookupMeaning(members, key);
    match Lookup(members, key)
    case None => Absent
    case Some(JNull) => Null
    case Some(JString(s)) => Text(s)
    case Some(_) => OtherValue
  }
}
