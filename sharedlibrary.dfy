/**
 * `jp::SharedLibrary` (include/sharedlibrary.h): a handle on one dynamic
 * library, with the message of the last failure.
 *
 * The dynamic loader is foreign code. Each call into it is represented by
 * its outcome, passed in as a parameter: the contracts hold whatever
 * `dlopen`, `dlclose` or `dlsym` answer.
 */
module SharedLib {

  /** `_handle`: null, or a handle the loader gave out. */
  datatype Handle = Null | Native(id: nat)

  /** A message from `dlerror` after a failure. */
  type ErrorText = s: string | s != "" witness "error"

  /** What `dlopen` answers. */
  datatype DlOpen = Opened(id: nat) | OpenFailed(error: ErrorText)

  /** What `dlclose` answers: 0, or non-zero with a message. */
  datatype DlClose = Closed | CloseFailed(error: ErrorText)

  /** What `dlsym` answers: a symbol address (0 is a null symbol), or a message. */
  datatype DlSym = Found(address: nat) | Missing(error: ErrorText)

  /** The two fields of a `SharedLibrary`. */
  datatype LibState = LibState(handle: Handle, lastError: string)
  {
    /** `isLoaded()`. */
    predicate IsLoaded()
    {
      handle != Null
    }

    /** `hasError()`: an error was recorded, that is `errorString()` is not empty. */
    predicate HasError()
    {
      lastError != ""
    }

    /** `loadImpl`: clears the error, then keeps what `dlopen` gives. */
    function LoadImpl(opening: DlOpen): (r: (bool, LibState))
      ensures r.0 <==> opening.Opened?
      ensures r.0 <==> r.1.IsLoaded()
      ensures r.0 ==> r.1 == LibState(Native(opening.id), "")
      ensures !r.0 ==> r.1.handle == Null && r.1.lastError == opening.error && r.1.HasError()
    {
      match opening
      case Opened(id) => (true, LibState(Native(id), ""))
      case OpenFailed(e) => (false, LibState(Null, e))
    }

    /** `unloadImpl`: the handle is cleared only when `dlclose` succeeds. */
    function UnloadImpl(closing: DlClose): (r: (bool, LibState))
      ensures r.0 <==> closing.Closed?
      ensures r.0 ==> !r.1.IsLoaded() && !r.1.HasError()
      ensures !r.0 ==> r.1.handle == handle && r.1.lastError == closing.error
    {
      if closing.Closed? then (true, LibState(Null, "")) else (false, LibState(handle, closing.error))
    }

    /** `unload()`: false without touching anything when nothing is loaded. */
    function Unload(closing: DlClose): (r: (bool, LibState))
      ensures r.0 <==> IsLoaded() && closing.Closed?
      ensures !IsLoaded() ==> r.1 == this
      ensures r.0 ==> !r.1.IsLoaded() && !r.1.HasError()
      ensures IsLoaded() && !r.0 ==> r.1.handle == handle && r.1.HasError()
    {
      if IsLoaded() then UnloadImpl(closing) else (false, this)
    }

    /**
     * `load(path)`: a loaded library is unloaded first; when that fails the
     * old library stays and nothing is opened. `closing` is only consulted
     * when a library is loaded.
     */
    function Load(closing: DlClose, opening: DlOpen): (r: (bool, LibState))
      ensures IsLoaded() && closing.CloseFailed? ==>
                !r.0 && r.1 == LibState(handle, closing.error)
      ensures !IsLoaded() || closing.Closed? ==> r == LoadImpl(opening)
      ensures r.0 <==> (!IsLoaded() || closing.Closed?) && opening.Opened?
    {
      if IsLoaded() && !Unload(closing).0 then (false, Unload(closing).1)
      else Unload(closing).1.LoadImpl(opening)
    }

    /** `getImpl`: the symbol, or null with the message recorded; the handle is kept. */
    function GetImpl(lookup: DlSym): (r: (nat, LibState))
      ensures r.1.handle == handle
      ensures lookup.Found? ==> r.0 == lookup.address && !r.1.HasError()
      ensures lookup.Missing? ==> r.0 == 0 && r.1.lastError == lookup.error
    {
      match lookup
      case Found(address) => (address, LibState(handle, ""))
      case Missing(e) => (0, LibState(handle, e))
    }

    /** `hasSymbol`: whether the lookup succeeded; the state comes back exactly as it was. */
    function HasSymbol(lookup: DlSym): (r: (bool, LibState))
      ensures r.0 <==> lookup.Found?
      ensures r.1 == this
    {
      var (_, probed) := GetImpl(lookup);
      (!probed.HasError(), LibState(probed.handle, lastError))
    }
  }

  /** A default-constructed library: nothing loaded, no error. */
  function Unloaded(): (s: LibState)
    ensures !s.IsLoaded() && !s.HasError()
  {
    LibState(Null, "")
  }

  /** Loading, then unloading with success, leaves a library that is not loaded and has no error. */
  lemma LoadThenUnload(s: LibState, closing: DlClose, id: nat)
    requires !s.IsLoaded() || closing.Closed?
    ensures s.Load(closing, Opened(id)).0
    ensures var t := s.Load(closing, Opened(id)).1;
            t.IsLoaded() && t.Unload(Closed) == (true, Unloaded())
  {
  }

  /** A second `unload()` after a successful one reports false and changes nothing. */
  lemma UnloadTwice(s: LibState, first: DlClose, second: DlClose)
    requires s.Unload(first).0
    ensures s.Unload(first).1.Unload(second) == (false, s.Unload(first).1)
  {
  }

  class SharedLibrary {
    var handle: Handle
    var lastError: string

    function State(): LibState
      reads this
    {
      LibState(handle, lastError)
    }

    /** `SharedLibrary()`: no library associated. */
    constructor()
      ensures State() == Unloaded()
    {
      handle := Null;
      lastError := "";
    }

    /** `SharedLibrary(path)`: constructs, then loads `path` at once. */
    constructor Open(opening: DlOpen)
      ensures State() == Unloaded().Load(Closed, opening).1
    {
      handle := Null;
      lastError := "";
      new;
      var _ := Load(Closed, opening);
    }

    predicate IsLoaded()
      reads this
      ensures IsLoaded() <==> State().IsLoaded()
    {
      handle != Null
    }

    predicate HasError()
      reads this
      ensures HasError() <==> ErrorString() != ""
    {
      !(lastError == "")
    }

    /** `errorString()`: the recorded error, empty exactly when there is none. */
    function ErrorString(): (e: string)
      reads this
      ensures e == State().lastError
      ensures State().HasError() <==> e != ""
    {
      lastError
    }

    method LoadImpl(opening: DlOpen) returns (ok: bool)
      modifies this
      ensures (ok, State()) == old(State()).LoadImpl(opening)
    {
      lastError := "";
      match opening {
        case Opened(id) =>
          handle := Native(id);
        case OpenFailed(e) =>
          handle := Null;
          lastError := e;
          return false;
      }
      return true;
    }

    method UnloadImpl(closing: DlClose) returns (ok: bool)
      modifies this
      ensures (ok, State()) == old(State()).UnloadImpl(closing)
    {
      lastError := "";
      if closing.CloseFailed? {
        lastError := closing.error;
        return false;
      }
      handle := Null;
      return true;
    }

    method Unload(closing: DlClose) returns (ok: bool)
      modifies this
      ensures (ok, State()) == old(State()).Unload(closing)
    {
      ok := false;
      if IsLoaded() {
        ok := UnloadImpl(closing);
      }
    }

    method Load(closing: DlClose, opening: DlOpen) returns (ok: bool)
      modifies this
      ensures (ok, State()) == old(State()).Load(closing, opening)
    {
      if IsLoaded() {
        var unloaded := Unload(closing);
        if !unloaded {
          return false;
        }
      }
      ok := LoadImpl(opening);
    }

    method GetImpl(lookup: DlSym) returns (symbol: nat)
      modifies this
      ensures (symbol, State()) == old(State()).GetImpl(lookup)
    {
      lastError := "";
      match lookup {
        case Found(address) =>
          symbol := address;
        case Missing(e) =>
          lastError := e;
          symbol := 0;
      }
    }

    /** `getRawAddress`: the address `getImpl` gives, 0 standing for null. */
    method GetRawAddress(lookup: DlSym) returns (symbol: nat)
      modifies this
      ensures (symbol, State()) == old(State()).GetImpl(lookup)
    {
      symbol := GetImpl(lookup);
    }

    /**
     * `get<Type>`: dereferences the address `getImpl` gives, so the symbol
     * must be found and not null.
     */
    method Get(lookup: DlSym) returns (symbol: nat)
      requires lookup.Found? && lookup.address != 0
      modifies this
      ensures symbol == lookup.address && State() == LibState(old(handle), "")
    {
      symbol := GetImpl(lookup);
    }

    method HasSymbol(lookup: DlSym) returns (has: bool)
      modifies this
      ensures (has, State()) == old(State()).HasSymbol(lookup)
    {
      var error := lastError;
      var _ := GetImpl(lookup);
      has := lastError == "";
      lastError := error;
    }
  }
}
