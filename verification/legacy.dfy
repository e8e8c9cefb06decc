/**
 * The earlier revision at the repository root (dynamic_lib.h,
 * dynamic_lib.cpp, lib_extensions.h). Its resolution is checked against
 * the same `Dynlib.Resolve` as the current revision, so both revisions
 * choose the same file and throw the same errors.
 */
module Legacy {
  import opened Wrappers
  import Detail
  import LibExtensions
  import opened Native
  import Dynlib

  /** Only Windows, Linux and Apple build: any other target is an `#error`. */
  type LegacyPlatform = p: LibExtensions.Platform | p != LibExtensions.Unsupported witness LibExtensions.Linux

  /** `library_dynamic_extensions` of the legacy header: the same tables as today. */
  function DynamicExtensions(p: LegacyPlatform): (t: seq<string>)
    ensures t == LibExtensions.DynamicExtensions(p)
  {
    match p
    case Windows => [".dll"]
    case Linux => [".so"]
    case Apple => [".dylib", ".so"]
  }

  /** `library_static_extensions` of the legacy header: the same tables as today. */
  function StaticExtensions(p: LegacyPlatform): (t: seq<string>)
    ensures t == LibExtensions.StaticExtensions(p)
  {
    match p
    case Windows => [".lib"]
    case Linux => [".a"]
    case Apple => [".bundle", ".a"]
  }

  /** The legacy `extension(str)`: the same computation as the current `_extension`. */
  function Extension(str: string): (ext: string)
    ensures ext == Detail.Extension(str)
  {
    var file := match Detail.RFind(str, '/')
      case None => str
      case Some(p) => str[p..];
    match Detail.RFind(file, '.')
    case None => []
    case Some(q) => file[q..]
  }

  /**
   * The resolution part of the legacy `open`, with its own `extension` and
   * table; it decides exactly as the current revision's `Resolve`.
   */
  method ResolveName(name: string, p: LegacyPlatform, fs: set<string>) returns (r: Result<string, Dynlib.OpenError>)
    ensures r == Dynlib.Resolve(name, LibExtensions.DynamicExtensions(p), fs)
  {
    var table := DynamicExtensions(p);
    var file := name;
    var ext := Extension(file);
    if ext == [] {
      var i := 0;
      while i < |table|
        invariant 0 <= i <= |table|
        invariant ext == []
        invariant forall j :: 0 <= j < i ==> file + table[j] !in fs
      {
        if file + table[i] in fs {
          ext := table[i];
          break;
        }
        i := i + 1;
      }
      if ext == [] {
        return Err(Dynlib.DefaultExtensionsNotFound);
      }
      file := file + ext;
    } else {
      if ext !in table {
        return Err(Dynlib.UnexpectedExtension(ext));
      }
    }
    if file !in fs {
      return Err(Dynlib.FileNotFound(file));
    }
    return Ok(file);
  }

  /** `RTLD_LAZY` from <dlfcn.h>, the POSIX default mode of the legacy `open`. */
  const RTLD_LAZY: bv32 := 1

  /** The legacy class: the same single handle, with a platform-specific `open`. */
  class DynamicLib {
    const host: Host
    var library: Pointer
    ghost var trace: seq<Event>

    ghost predicate Valid()
      reads this
    {
      host.platform != LibExtensions.Unsupported &&
      library == Owned(trace) && WellNested(trace)
    }

    constructor(host: Host)
      requires host.platform != LibExtensions.Unsupported
      ensures Valid() && this.host == host
      ensures library == Null && trace == []
    {
      this.host := host;
      library := Null;
      trace := [];
    }

    method Destroy()
      requires Valid()
      modifies this
      ensures Valid() && library == Null
      ensures trace == old(trace) + ReleaseEvents(old(library))
    {
      Close();
    }

    method Close()
      requires Valid()
      modifies this
      ensures Valid() && library == Null
      ensures trace == old(trace) + ReleaseEvents(old(library))
    {
      if library != Null {
        WellNestedAppend(trace, Closed(library));
        trace := trace + [Closed(library)];
        library := Null;
      }
    }

    /** `open(name, mode = RTLD_LAZY)`, the Linux and Apple signature. */
    method Open(name: string, fs: set<string>, mode: bv32 := RTLD_LAZY) returns (r: Outcome<Dynlib.OpenError>)
      requires Valid() && host.platform != LibExtensions.Windows
      modifies this
      ensures Valid()
      ensures r.Fail? ==> library == Null
      ensures match Dynlib.Resolve(name, LibExtensions.DynamicExtensions(host.platform), fs)
        case Err(e) =>
          r == Fail(e) && trace == old(trace) + ReleaseEvents(old(library))
        case Ok(file) =>
          r == Pass && library == host.Load(file, mode) &&
          trace == old(trace) + ReleaseEvents(old(library)) + [Opened(file, Some(mode), library)]
    {
      r := OpenNative(name, fs, Some(mode));
    }

    /** `open(name)`, the Windows signature: `LoadLibrary` takes no mode. */
    method OpenWindows(name: string, fs: set<string>) returns (r: Outcome<Dynlib.OpenError>)
      requires Valid() && host.platform == LibExtensions.Windows
      modifies this
      ensures Valid()
      ensures r.Fail? ==> library == Null
      ensures match Dynlib.Resolve(name, LibExtensions.DynamicExtensions(host.platform), fs)
        case Err(e) =>
          r == Fail(e) && trace == old(trace) + ReleaseEvents(old(library))
        case Ok(file) =>
          r == Pass && library == host.native(file, None) &&
          trace == old(trace) + ReleaseEvents(old(library)) + [Opened(file, None, library)]
    {
      r := OpenNative(name, fs, None);
    }

    /** The body both signatures share; `arg` is what reaches the native open call. */
    method OpenNative(name: string, fs: set<string>, arg: Option<bv32>) returns (r: Outcome<Dynlib.OpenError>)
      requires Valid()
      modifies this
      ensures Valid()
      ensures r.Fail? ==> library == Null
      ensures match Dynlib.Resolve(name, LibExtensions.DynamicExtensions(host.platform), fs)
        case Err(e) =>
          r == Fail(e) && trace == old(trace) + ReleaseEvents(old(library))
        case Ok(file) =>
          r == Pass && library == host.native(file, arg) &&
          trace == old(trace) + ReleaseEvents(old(library)) + [Opened(file, arg, library)]
    {
      Close();
      var resolved := ResolveName(name, host.platform, fs);
      match resolved
      case Err(e) =>
        r := Fail(e);
      case Ok(file) =>
        library := host.native(file, arg);
        WellNestedAppend(trace, Opened(file, arg, library));
        trace := trace + [Opened(file, arg, library)];
        r := Pass;
    }

    /** `function(name)`: `GetProcAddress`/`dlsym` on the handle, or Null when nothing is loaded. */
    function Function(name: string): (p: Pointer)
      reads this
      requires Valid()
      ensures Owned(trace) == Null ==> p == Null
      ensures Owned(trace) != Null ==> p == host.symbol(Owned(trace), name)
    {
      if library != Null then host.symbol(library, name) else Null
    }

    /** `function_cast<T>(name)`: a nullary callable bound to the address `function(name)` gives. */
    function FunctionCast(name: string): (f: Dynlib.Callable)
      reads this
      requires Valid()
      ensures f.target == Function(name)
      ensures Owned(trace) == Null ==> f.target == Null
    {
      Dynlib.Callable(Function(name))
    }
  }

  /**
   * Both revisions open the same file on every supported platform: the
   * legacy table gives the same resolution as the current one.
   */
  lemma SameResolution(p: LegacyPlatform, name: string, fs: set<string>)
    ensures Dynlib.Resolve(name, DynamicExtensions(p), fs)
         == Dynlib.Resolve(name, LibExtensions.DynamicExtensions(p), fs)
  {
  }
}
