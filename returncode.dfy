/**
 * `jp::ReturnCode` (include/pluginmanager.h, src/pluginmanager.cpp): the
 * result code every manager operation returns.
 */
module ReturnCodes {
  import opened Wrappers

  /**
   * The enumerators of `ReturnCode::Type`. `SearchListFilesError` is used by
   * src/pluginmanager.cpp but has no enumerator in include/pluginmanager.h;
   * `Unlisted` stands for any other value a cast can put in the field.
   */
  datatype Type =
    | Success
    | UnknownError
    | SearchNothingFound
    | SearchNameAlreadyExists
    | SearchCannotParseMetadata
    | SearchListFilesError
    | LoadDependencyBadVersion
    | LoadDependencyNotFound
    | LoadDependencyCycle
    | UnloadNotAll
    | Unlisted(raw: int)

  /** The integer the header gives each enumerator, if it gives one. */
  function HeaderValue(t: Type): Option<int>
  {
    match t
    case Success => Some(0)
    case UnknownError => Some(1)
    case SearchNothingFound => Some(100)
    case SearchNameAlreadyExists => Some(101)
    case SearchCannotParseMetadata => Some(102)
    case SearchListFilesError => None
    case LoadDependencyBadVersion => Some(200)
    case LoadDependencyNotFound => Some(201)
    case LoadDependencyCycle => Some(202)
    case UnloadNotAll => Some(300)
    case Unlisted(raw) => Some(raw)
  }

  /** `static_cast<Type>(v)`: the enumerator whose header value is `v`. */
  function FromValue(v: int): (t: Type)
    ensures HeaderValue(t) == Some(v)
  {
    if v == 0 then Success
    else if v == 1 then UnknownError
    else if v == 100 then SearchNothingFound
    else if v == 101 then SearchNameAlreadyExists
    else if v == 102 then SearchCannotParseMetadata
    else if v == 200 then LoadDependencyBadVersion
    else if v == 201 then LoadDependencyNotFound
    else if v == 202 then LoadDependencyCycle
    else if v == 300 then UnloadNotAll
    else Unlisted(v)
  }

  /** Casting an enumerator's value back gives the enumerator. */
  lemma FromValueOfHeaderValue(t: Type)
    requires HeaderValue(t).Some?
    requires !t.Unlisted? || t.raw !in {0, 1, 100, 101, 102, 200, 201, 202, 300}
    ensures FromValue(HeaderValue(t).value) == t
  {
  }

  /** Enumerators with a header value have pairwise distinct values. */
  lemma HeaderValuesDistinct(t: Type, u: Type)
    requires !t.Unlisted? && !u.Unlisted?
    requires HeaderValue(t).Some? && HeaderValue(t) == HeaderValue(u)
    ensures t == u
  {
  }

  /** Which operation raises a code: the hundreds digit of its header value. */
  datatype Group = General | Search | Load | Unload

  function GroupOf(t: Type): Option<Group>
  {
    match t
    case Success | UnknownError => Some(General)
    case SearchNothingFound | SearchNameAlreadyExists | SearchCannotParseMetadata | SearchListFilesError => Some(Search)
    case LoadDependencyBadVersion | LoadDependencyNotFound | LoadDependencyCycle => Some(Load)
    case UnloadNotAll => Some(Unload)
    case Unlisted(_) => None
  }

  /** Search codes lie in 100-102, load codes in 200-202, the unload code is 300, the others are 0 and 1. */
  lemma CodesGrouped(t: Type)
    requires HeaderValue(t).Some? && !t.Unlisted?
    ensures GroupOf(t) == Some(General) <==> 0 <= HeaderValue(t).value <= 1
    ensures GroupOf(t) == Some(Search) <==> 100 <= HeaderValue(t).value <= 102
    ensures GroupOf(t) == Some(Load) <==> 200 <= HeaderValue(t).value <= 202
    ensures GroupOf(t) == Some(Unload) <==> HeaderValue(t).value == 300
  {
  }

  datatype ReturnCode = ReturnCode(kind: Type)
  {
    /** `explicit operator bool`: true exactly for the enumerator whose value is 0. */
    predicate IsSuccess()
      ensures IsSuccess() <==> !kind.Unlisted? && HeaderValue(kind) == Some(0)
    {
      kind == Success
    }

    /** `ReturnCode::message`: a fixed text per enumerator, "" for anything else. */
    function Message(): (m: string)
      ensures m == "" <==> kind.Unlisted?
    {
      match kind
      case Success => "Success"
      case UnknownError => "Unknown error"
      case SearchNothingFound => "No plugins was found in that directory"
      case SearchCannotParseMetadata => "Plugins metadata cannot be parsed (maybe they are invalid ?)"
      case SearchNameAlreadyExists => "A plugin with the same name was already found"
      case SearchListFilesError => "An error occurs during the scan of the plugin dir"
      case LoadDependencyBadVersion => "The plugin requires a dependency that's in an incorrect version"
      case LoadDependencyNotFound => "THe plugin requires a dependency that wasn't found"
      case LoadDependencyCycle => "The dependencies graph contains a cycle, which makes impossible to load plugins"
      case UnloadNotAll => "Not all plugins have been unloaded"
      case Unlisted(_) => ""
    }
  }

  /** `ReturnCode()`: the default code. */
  function Default(): (r: ReturnCode)
    ensures r.IsSuccess()
  {
    ReturnCode(Success)
  }

  /** `ReturnCode(bool)`: casts `!val` to the enumeration. */
  function FromBool(val: bool): (r: ReturnCode)
    ensures r.IsSuccess() <==> val
    ensures !val ==> r.kind == UnknownError
  {
    ReturnCode(FromValue(if val then 0 else 1))
  }

  /** `ReturnCode(Type)`: keeps the code, so success is exactly `Success`. */
  function FromType(t: Type): (r: ReturnCode)
    ensures r.kind == t
    ensures r.IsSuccess() <==> t == Success
  {
    ReturnCode(t)
  }

  /** Different enumerators have different messages. */
  lemma MessagesDistinct(a: ReturnCode, b: ReturnCode)
    requires !a.kind.Unlisted? && !b.kind.Unlisted?
    requires a.kind != b.kind
    ensures a.Message() != b.Message()
  {
    MessageLength(a);
    MessageLength(b);
  }

  /** Each message has its own length, which tells the enumerators apart. */
  lemma MessageLength(r: ReturnCode)
    ensures |r.Message()| == match r.kind
      case Success => 7
      case UnknownError => 13
      case SearchNothingFound => 38
      case SearchCannotParseMetadata => 60
      case SearchNameAlreadyExists => 45
      case SearchListFilesError => 49
      case LoadDependencyBadVersion => 63
      case LoadDependencyNotFound => 50
      case LoadDependencyCycle => 79
      case UnloadNotAll => 34
      case Unlisted(_) => 0
  {
    match r.kind
    case Success =>
    case UnknownError =>
    case SearchNothingFound =>
    case SearchCannotParseMetadata =>
    case SearchNameAlreadyExists =>
    case SearchListFilesError =>
    case LoadDependencyBadVersion =>
    case LoadDependencyNotFound =>
    case LoadDependencyCycle =>
    case UnloadNotAll =>
    case Unlisted(_) =>
  }
}
