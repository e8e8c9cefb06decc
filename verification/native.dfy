/**
 * The operating-system side of the loader, which the library only calls:
 * the `DYNLIB_OPEN`, `DYNLIB_CLOSE` and `DYNLIB_GET_FUNC` macros of
 * src/dynamic_lib.cpp expand to `LoadLibrary`/`FreeLibrary`/`GetProcAddress`
 * on Windows, `dlopen`/`dlclose`/`dlsym` on Linux and Apple, and to nothing
 * on other platforms. What the OS answers is a parameter of the model.
 */
module Native {
  import opened Wrappers
  import opened LibExtensions

  /** A `void*` (or `HMODULE`): a module handle or a symbol address. */
  datatype Pointer = Null | Ptr(address: nat)

  /**
   * The build platform and the process's native loader. `native(path, mode)`
   * is what the OS returns for opening `path` (`mode` is None for
   * `LoadLibrary`, which takes no mode); `symbol(h, name)` is what it
   * returns for looking `name` up in `h`. Both may be Null.
   */
  datatype Host = Host(
    platform: Platform,
    native: (string, Option<bv32>) -> Pointer,
    symbol: (Pointer, string) -> Pointer)
  {
    /** The mode argument that reaches the native call: Windows drops it. */
    function ModeArgument(mode: bv32): Option<bv32> {
      if platform == Windows then None else Some(mode)
    }

    /** `DYNLIB_OPEN(path, mode)`: a null handle without any call on an unsupported platform. */
    function Load(path: string, mode: bv32): Pointer {
      if platform == Unsupported then Null else native(path, ModeArgument(mode))
    }

    /** `DYNLIB_GET_FUNC(h, name)`: a null address on an unsupported platform. */
    function Lookup(h: Pointer, name: string): Pointer {
      if platform == Unsupported then Null else symbol(h, name)
    }

    /** The native calls that `DYNLIB_OPEN(path, mode)` makes. */
    function LoadEvents(path: string, mode: bv32): (es: seq<Event>)
      ensures platform == Unsupported <==> es == []
    {
      if platform == Unsupported then [] else [Opened(path, ModeArgument(mode), Load(path, mode))]
    }
  }

  /** The mode given to `open` has no effect on what a Windows build loads. */
  lemma WindowsIgnoresMode(host: Host, path: string, m1: bv32, m2: bv32)
    requires host.platform == Windows
    ensures host.Load(path, m1) == host.Load(path, m2)
  {
  }

  /** A native call made by a library object: an open with its result, or a release. */
  datatype Event = Opened(path: string, mode: Option<bv32>, handle: Pointer) | Closed(handle: Pointer)

  /** The handle an object holds after the calls in `t`: the result of the last open, unless released since. */
  function Owned(t: seq<Event>): Pointer {
    if t == [] then Null
    else match t[|t| - 1]
      case Opened(_, _, h) => h
      case Closed(_) => Null
  }

  /** Every release frees a non-null handle that the object held at that moment. */
  ghost predicate WellNested(t: seq<Event>) {
    forall i :: 0 <= i < |t| && t[i].Closed? ==> t[i].handle != Null && Owned(t[..i]) == t[i].handle
  }

  /** The release `close` performs on the handle `h`: none for a null handle. */
  function ReleaseEvents(h: Pointer): (es: seq<Event>)
    ensures h == Null <==> es == []
    ensures es != [] ==> es == [Closed(h)] && Owned(es) == Null
  {
    if h == Null then [] else [Closed(h)]
  }

  lemma WellNestedAppend(t: seq<Event>, e: Event)
    requires WellNested(t)
    requires e.Closed? ==> e.handle != Null && Owned(t) == e.handle
    ensures WellNested(t + [e])
  {
    var u := t + [e];
    forall i | 0 <= i < |u| && u[i].Closed?
      ensures u[i].handle != Null && Owned(u[..i]) == u[i].handle
    {
      if i < |t| {
        assert u[..i] == t[..i];
      } else {
        assert u[..i] == t;
      }
    }
  }

  /**
   * No handle is released twice: between two releases of the same handle
   * there is an open that returned it again.
   */
  lemma NoDoubleRelease(t: seq<Event>, i: nat, j: nat)
    requires WellNested(t)
    requires i < j < |t| && t[i].Closed? && t[j].Closed? && t[i].handle == t[j].handle
    ensures exists k :: i < k < j && t[k].Opened? && t[k].handle == t[i].handle
  {
    assert Owned(t[..j]) == t[j].handle != Null;
    assert t[..j][j - 1] == t[j - 1];
    var k := j - 1;
    assert t[k].Opened? && t[k].handle == t[i].handle;
  }
}
