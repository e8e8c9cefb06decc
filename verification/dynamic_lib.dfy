/**
 * `dynlib::DynamicLib` (src/dynamic_lib.h, src/dynamic_lib.cpp): one
 * nullable native handle, the file resolution `open` performs before it
 * calls the loader, and the open/close lifecycle.
 */
module Dynlib {
  import opened Wrappers
  import opened Detail
  import opened LibExtensions
  import opened Modes
  import opened Native

  /** The three `std::invalid_argument`s that `open` throws. */
  datatype OpenError =
    | DefaultExtensionsNotFound     // no extension given and no `name + ex` exists
    | UnexpectedExtension(ext: string)  // explicit extension not in the table
    | FileNotFound(file: string)    // the resolved file does not exist

  /** The first index `k` of `table` such that `name + table[k]` exists. */
  function FirstExisting(name: string, table: seq<string>, fs: set<string>): (k: Option<nat>)
    ensures k.None? ==> forall j :: 0 <= j < |table| ==> name + table[j] !in fs
    ensures k.Some? ==> k.value < |table| && name + table[k.value] in fs
    ensures k.Some? ==> forall j :: 0 <= j < k.value ==> name + table[j] !in fs
  {
    if table == [] then None
    else if name + table[0] in fs then Some(0)
    else match FirstExisting(name, table[1..], fs)
      case None => None
      case Some(k) => Some(k + 1)
  }

  /** The final existence check of `open`. */
  function CheckExists(file: string, fs: set<string>): (r: Result<string, OpenError>)
    ensures r.Ok? <==> file in fs
    ensures r.Ok? ==> r.value == file
    ensures r.Err? ==> r.error == FileNotFound(file)
  {
    if file in fs then Ok(file) else Err(FileNotFound(file))
  }

  /**
   * The decision `open` makes before calling the loader: the path it loads,
   * or the error it throws. `fs` is the set of paths that exist.
   */
  function Resolve(name: string, table: seq<string>, fs: set<string>): (r: Result<string, OpenError>)
    ensures r.Ok? ==> r.value in fs
  {
    var ext := Extension(name);
    if ext == [] then
      match FirstExisting(name, table, fs)
      case None => Err(DefaultExtensionsNotFound)
      case Some(k) =>
        // the loop breaks on the first existing entry; an empty entry leaves `ext` empty
        if table[k] == [] then Err(DefaultExtensionsNotFound) else CheckExists(name + table[k], fs)
    else if ext !in table then Err(UnexpectedExtension(ext))
    else CheckExists(name, fs)
  }

  /**
   * The body of `open` between `close()` and the loader call: take the
   * extension, try the table in order when there is none (stopping at the
   * first file that exists), otherwise require it to be in the table; then
   * check that the file exists.
   */
  method ResolveName(name: string, table: seq<string>, fs: set<string>) returns (r: Result<string, OpenError>)
    ensures r == Resolve(name, table, fs)
  {
    var file := name;
    var ext := Extension(file);
    if ext == [] {
      var i := 0;
      while i < |table|
        invariant 0 <= i <= |table|
        invariant ext == []
        invariant forall j :: 0 <= j < i ==> file + table[j] !in fs
      {
        if file + table[i] in fs {
          ext := table[i];
          break;
        }
        i := i + 1;
      }
      if ext == [] {
        return Err(DefaultExtensionsNotFound);
      }
      file := file + ext;
    } else if ext !in table {
      return Err(UnexpectedExtension(ext));
    }
    if file !in fs {
      return Err(FileNotFound(file));
    }
    return Ok(file);
  }

  /** Without an extension, the first table entry whose file exists is appended. */
  lemma InferenceFirstMatch(name: string, table: seq<string>, fs: set<string>, k: nat)
    requires WellFormedTable(table)
    requires Extension(name) == [] && k < |table| && name + table[k] in fs
    requires forall j :: 0 <= j < k ==> name + table[j] !in fs
    ensures Resolve(name, table, fs) == Ok(name + table[k])
  {
    var f := FirstExisting(name, table, fs);
    assert f.Some? && f.value == k;
  }

  /** If the files for entries i < j both exist, the one for entry j is never chosen. */
  lemma EarlierEntryWins(name: string, table: seq<string>, fs: set<string>, i: nat, j: nat)
    requires WellFormedTable(table)
    requires Extension(name) == [] && i < j < |table|
    requires name + table[i] in fs && name + table[j] in fs
    ensures Resolve(name, table, fs).Ok?
    ensures Resolve(name, table, fs) != Ok(name + table[j])
  {
    var k := FirstExisting(name, table, fs).value;
    InferenceFirstMatch(name, table, fs, k);
    assert (name + table[k])[|name|..] == table[k];
    assert (name + table[j])[|name|..] == table[j];
  }

  /** Without an extension, `open` fails with DefaultExtensionsNotFound exactly when no candidate exists. */
  lemma NoCandidate(name: string, table: seq<string>, fs: set<string>)
    requires WellFormedTable(table)
    requires Extension(name) == []
    ensures Resolve(name, table, fs) == Err(DefaultExtensionsNotFound)
        <==> forall j :: 0 <= j < |table| ==> name + table[j] !in fs
  {
    var f := FirstExisting(name, table, fs);
    if f.Some? {
      assert IsEntry(table[f.value]);
    }
  }

  /** An explicit extension missing from the table is rejected, whatever exists. */
  lemma UnrecognisedExtension(name: string, table: seq<string>, fs: set<string>)
    requires Extension(name) != [] && Extension(name) !in table
    ensures Resolve(name, table, fs) == Err(UnexpectedExtension(Extension(name)))
  {
  }

  /** An explicit, recognised extension: the name is loaded as given if it exists. */
  lemma ExplicitExtension(name: string, table: seq<string>, fs: set<string>)
    requires Extension(name) in table && Extension(name) != []
    ensures name in fs ==> Resolve(name, table, fs) == Ok(name)
    ensures name !in fs ==> Resolve(name, table, fs) == Err(FileNotFound(name))
  {
  }

  /** FileNotFound can only come from a name with an explicit extension. */
  lemma NotFoundOnlyWhenExplicit(name: string, table: seq<string>, fs: set<string>)
    requires Resolve(name, table, fs).Err? && Resolve(name, table, fs).error.FileNotFound?
    ensures Extension(name) != [] && Extension(name) in table
    ensures Resolve(name, table, fs).error == FileNotFound(name)
  {
  }

  /** Whatever `open` loads exists and carries one of the table's extensions. */
  lemma ResolvedIsRecognised(name: string, table: seq<string>, fs: set<string>)
    requires WellFormedTable(table) && Resolve(name, table, fs).Ok?
    ensures Resolve(name, table, fs).value in fs
    ensures Extension(Resolve(name, table, fs).value) in table
  {
    if Extension(name) == [] {
      var k := FirstExisting(name, table, fs).value;
      AppendEntry(name, table[k]);
    }
  }

  /** With an empty table (an unsupported platform) every `open` fails. */
  lemma EmptyTableAlwaysFails(name: string, fs: set<string>)
    ensures Resolve(name, [], fs).Err?
  {
  }

  /** A static library name ("libfoo.a") is refused as an unexpected extension. */
  lemma StaticLibraryRejected(p: Platform, name: string, fs: set<string>)
    requires Extension(name) in StaticExtensions(p)
    ensures Resolve(name, DynamicExtensions(p), fs) == Err(UnexpectedExtension(Extension(name)))
  {
    StaticAndDynamicDisjoint(p, Extension(name));
  }

  /** On Apple ".dylib" is preferred, and ".so" is taken only when no ".dylib" exists. */
  lemma ApplePrefersDylib(name: string, fs: set<string>)
    requires Extension(name) == []
    ensures name + ".dylib" in fs ==> Resolve(name, DynamicExtensions(Apple), fs) == Ok(name + ".dylib")
    ensures name + ".dylib" !in fs && name + ".so" in fs ==>
              Resolve(name, DynamicExtensions(Apple), fs) == Ok(name + ".so")
    ensures name + ".dylib" !in fs && name + ".so" !in fs ==>
              Resolve(name, DynamicExtensions(Apple), fs) == Err(DefaultExtensionsNotFound)
  {
    var t := DynamicExtensions(Apple);
    if name + ".dylib" in fs {
      InferenceFirstMatch(name, t, fs, 0);
    } else if name + ".so" in fs {
      InferenceFirstMatch(name, t, fs, 1);
    } else {
      NoCandidate(name, t, fs);
    }
  }

  /** Scenario: with only "testlib.so" present, "testlib" resolves to it on Linux. */
  lemma TestlibFound()
    ensures Resolve("testlib", DynamicExtensions(Linux), {"testlib.so"}) == Ok("testlib.so")
  {
    NoDotNoExtension("testlib");
    assert "testlib" + DynamicExtensions(Linux)[0] == "testlib.so";
    InferenceFirstMatch("testlib", DynamicExtensions(Linux), {"testlib.so"}, 0);
  }

  /** Scenario: "testlib.xyz" is refused whatever exists. */
  lemma XyzRefused(fs: set<string>)
    ensures Resolve("testlib.xyz", DynamicExtensions(Linux), fs) == Err(UnexpectedExtension(".xyz"))
  {
    assert "testlib.xyz" == "testlib" + ".xyz";
    assert IsEntry(".xyz");
    ExtensionCharacterised("testlib.xyz", ".xyz");
  }

  /** Scenario: "missing" fails when no "missing.so" exists. */
  lemma MissingNotFound(fs: set<string>)
    requires "missing.so" !in fs
    ensures Resolve("missing", DynamicExtensions(Linux), fs) == Err(DefaultExtensionsNotFound)
  {
    NoDotNoExtension("missing");
    assert "missing" + DynamicExtensions(Linux)[0] == "missing.so";
    NoCandidate("missing", DynamicExtensions(Linux), fs);
  }

  /**
   * The library object. Its only real state is the handle `library`
   * (`m_library`); `host` stands for the build platform and the process's
   * native loader, and `trace` records the native open and close calls the
   * object has made. Copying is not offered (the C++ copy operations are deleted).
   */
  class DynamicLib {
    const host: Host
    var library: Pointer
    ghost var trace: seq<Event>

    /** The handle is exactly what the last native open returned, unless released since. */
    ghost predicate Valid()
      reads this
    {
      library == Owned(trace) && WellNested(trace) &&
      (host.platform == Unsupported ==> trace == [])
    }

    /** `DynamicLib()`: nothing loaded. */
    constructor(host: Host)
      ensures Valid() && this.host == host
      ensures library == Null && trace == []
    {
      this.host := host;
      library := Null;
      trace := [];
    }

    /** `~DynamicLib()`: closes, so a loaded image is released exactly once. */
    method Destroy()
      requires Valid()
      modifies this
      ensures Valid() && library == Null
      ensures trace == old(trace) + ReleaseEvents(old(library))
    {
      Close();
    }

    /** `is_open()`: a handle is held and has not been released. */
    function IsOpen(): (b: bool)
      reads this
      requires Valid()
      ensures b <==> Owned(trace) != Null
    {
      library != Null
    }

    /** `close()`: releases the handle if there is one; otherwise does nothing. */
    method Close()
      requires Valid()
      modifies this
      ensures Valid() && library == Null
      ensures trace == old(trace) + ReleaseEvents(old(library))
    {
      if library != Null {
        WellNestedAppend(trace, Closed(library));
        trace := trace + [Closed(library)];
        library := Null;
      }
    }

    /**
     * `open(name, mode)`: close, resolve `name` against the platform's
     * dynamic-extension table and the existing files `fs`, and on success
     * store whatever the loader returns for the resolved path.
     */
    method Open(name: string, fs: set<string>, mode: bv32 := DefaultMode) returns (r: Outcome<OpenError>)
      requires Valid()
      modifies this
      ensures Valid()
      ensures r.Fail? ==> library == Null
      ensures match Resolve(name, DynamicExtensions(host.platform), fs)
        case Err(e) =>
          r == Fail(e) && trace == old(trace) + ReleaseEvents(old(library))
        case Ok(file) =>
          r == Pass && library == host.Load(file, mode) &&
          trace == old(trace) + ReleaseEvents(old(library)) + host.LoadEvents(file, mode)
    {
      Close();
      var resolved := ResolveName(name, DynamicExtensions(host.platform), fs);
      match resolved
      case Err(e) =>
        r := Fail(e);
      case Ok(file) =>
        if host.platform == Unsupported {
          library := Null;
        } else {
          var arg := host.ModeArgument(mode);
          library := host.native(file, arg);
          WellNestedAppend(trace, Opened(file, arg, library));
          trace := trace + [Opened(file, arg, library)];
        }
        r := Pass;
    }

    /** `function(name)`: the symbol's address, or Null when nothing is loaded. */
    function Function(name: string): (p: Pointer)
      reads this
      requires Valid()
      ensures Owned(trace) == Null ==> p == Null
      ensures Owned(trace) != Null ==> p == host.Lookup(Owned(trace), name)
    {
      if library != Null then host.Lookup(library, name) else Null
    }

    /** `function_cast<T, Args...>(name)`: a callable bound to the address `function(name)` gives. */
    function FunctionCast(name: string): (f: Callable)
      reads this
      requires Valid()
      ensures f.target == Function(name)
      ensures !IsOpen() ==> f.target == Null
    {
      Callable(Function(name))
    }
  }

  /** A client: a failed reload leaves the object unloaded, and closing twice is harmless. */
  method ReloadScenario(host: Host)
    requires host.platform == Linux && host.native("testlib.so", Some(DefaultMode)) != Null
  {
    var lib := new DynamicLib(host);
    TestlibFound();
    var r := lib.Open("testlib", {"testlib.so"});
    assert r == Pass && lib.IsOpen();
    XyzRefused({"testlib.so", "testlib.xyz"});
    r := lib.Open("testlib.xyz", {"testlib.so", "testlib.xyz"});
    assert r.Fail? && !lib.IsOpen();
    lib.Close();
    lib.Close();
    assert lib.Function("f") == Null;
  }

  /**
   * A `std::function` built from a symbol address cast to a function type;
   * the cast itself is unchecked, so only the address is modelled.
   */
  datatype Callable = Callable(target: Pointer)
}
