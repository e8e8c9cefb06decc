# dynlib: a verified model of the shared-library loader

dynlib wraps the operating system's dynamic loader in one C++ class,
`DynamicLib`. The class holds a single nullable handle, `m_library`.
Before `open` calls the loader it resolves the name the caller gave:

- A name without an extension is completed with the first entry of the
  platform's dynamic-extension table whose file exists.
- An explicit extension must be one of the table's entries.
- The resolved file must exist.

`close` releases the handle. `is_open` and `function` only read it. The
destructor closes.

This project models that core in Dafny:

- `Detail` (detail.dfy): `std::string::rfind` and `_extension`. Both are
  pure functions. `Extension` is proved equal to an independent reference
  definition of "the extension of a path", in both directions.
- `LibExtensions` (lib_extensions.dfy): the per-platform `const` tables.
  The preprocessor's platform choice becomes a `Platform` value.
- `Modes` (modes.dfy): the `Mode` enumeration as `bv32` flags. Combining
  flags with `|` is proved lossless.
- `Native` (native.dfy): the operating system, which the library only
  calls. A `Host` value holds the build platform and two total functions
  for what the OS answers: opening a path and looking up a symbol.
  `Host.Load` and `Host.Lookup` expand the `DYNLIB_OPEN` and
  `DYNLIB_GET_FUNC` macros: `LoadLibrary` with no mode on Windows, `dlopen`
  with the mode on Linux and Apple, and a null result with no call
  elsewhere. `Event` traces record the native open and close calls an
  object makes.
- `Dynlib` (dynamic_lib.dfy): the decision procedure `Resolve` and its
  lemmas, and the class `DynamicLib`:
  - The class has the real field `library` and a ghost `trace` of native
    calls.
  - Its invariant `Valid()` says that the handle is what the last native
    open returned, unless it has been released since. It also says that
    every release frees a handle the object held.
  - `ResolveName` is the part of `open` between `close()` and the loader
    call. It is a method whose loop mirrors the source's `for` loop with
    `break`, and it is proved to compute `Resolve`.
  - `Open` closes, runs `ResolveName`, and then calls the loader. On every
    error it leaves the object unloaded and makes no native open call. On
    success it stores the loader's result verbatim, even when that result
    is null.
  - `Function` and `IsOpen` are Dafny functions with `reads this`, so they
    cannot change the object.
- `Legacy` (legacy.dfy): the earlier revision at the repository root. It
  has its own tables, `extension`, resolution loop and class, whose `open`
  takes a mode only on POSIX. Its resolution is proved against the same
  `Dynlib.Resolve`, so both revisions pick the same file and raise the same
  errors.

The filesystem is a parameter `fs: set<string>` holding the paths that
exist.

The error outcomes of `open` are three `OpenError` constructors. The source
stores a null loader result without raising an error, and the model keeps
that behaviour. It adds no "loader failure" error.

The header src/dynamic_lib.h declares `open(char const*, Mode)`, while
src/dynamic_lib.cpp defines `open(char const*, int)`. The model takes the
mode as a `bv32` word defaulting to `ModeLazy`.

The deleted copy operations have no counterpart. The model offers no
operation that duplicates a handle.

## Model

| member | source | states |
|---|---|---|
| Detail.RFind | src/dynamic_lib.cpp:76-80 | `rfind`: the index of the last occurrence of the character, or none when it does not occur; nothing after that index is the character |
| Detail.Extension | src/dynamic_lib.cpp:71-83 | the result is empty or a suffix of the input that starts with '.' and contains no '/' and no other '.' |
| Detail.ExtensionCharacterised | src/dynamic_lib.cpp:71-83 | `Extension(s) == e` iff `e` is the reference extension: empty exactly when every '.' of `s` is followed by a '/', otherwise the suffix of `s` that is a single extension |
| Detail.ExtensionUnique | src/dynamic_lib.cpp:76-82 | at most one string meets the reference definition of the extension |
| Detail.LastDotOfSegment | src/dynamic_lib.cpp:80-82 | a non-empty extension starts at the last '.' of the path |
| Detail.NoDotBeforeExtension | src/dynamic_lib.cpp:76-82 | a non-empty extension means the last segment contains a '.' |
| Detail.ExtensionMeetsReference | src/dynamic_lib.cpp:71-83 | the computed extension satisfies the reference definition |
| Detail.NoDotNoExtension | src/dynamic_lib.cpp:80-82 | a name without any '.' has an empty extension |
| Detail.DirectoryDotsIgnored | src/dynamic_lib.cpp:76-82 | a path whose last '/'-segment has no '.' has an empty extension, whatever dots its directories contain |
| Detail.BackslashIsNotSeparator | src/dynamic_lib.cpp:76-79 | '\' is not a separator: in `dir.sub\base` the extension is `.sub\base` |
| Detail.AppendEntry | src/dynamic_lib.cpp:109-120 | appending a table entry to a name without extension yields a name whose extension is that entry |
| Detail.EntryIsOwnExtension | src/lib_extensions.h:35-42 | each well-formed table entry is its own `_extension` result |
| LibExtensions.DynamicExtensions | src/lib_extensions.h:34-46 | every entry is a single extension, no entry repeats, and the table is empty exactly on an unsupported platform |
| LibExtensions.StaticExtensions | src/lib_extensions.h:34-46 | the same shape for the static tables: single extensions, no repeats, empty exactly on an unsupported platform |
| LibExtensions.StaticAndDynamicDisjoint | src/lib_extensions.h:35-42 | on every platform no static extension is also a dynamic one |
| Modes.ValuesAreFlags | src/dynamic_lib.h:34-42 | `ModeLocal` is the only zero enumerator; every other one is a single bit, and distinct enumerators share no bit |
| Modes.FlagsOfCombine | src/dynamic_lib.h:34-42 | or-ing a list of flags and decoding the word gives back exactly the non-local flags of the list |
| Modes.CombineUnambiguous | src/dynamic_lib.h:34-42 | two flag lists give the same word iff they name the same non-local flags |
| Native.WindowsIgnoresMode | src/dynamic_lib.cpp:40 | on Windows the mode has no effect on what is loaded |
| Native.NoDoubleRelease | src/dynamic_lib.cpp:140-147 | in a well-nested trace, between two releases of one handle there is a native open that returned it again |
| Dynlib.FirstExisting | src/dynamic_lib.cpp:110-115 | the least table index whose `name + entry` exists, or none when no candidate exists |
| Dynlib.ResolveName | src/dynamic_lib.cpp:107-128 | the loop over the table, which stops at the first existing file, and the checks after it compute exactly `Resolve` |
| Dynlib.Resolve | src/dynamic_lib.cpp:106-128 | a successful resolution names an existing file |
| Dynlib.InferenceFirstMatch | src/dynamic_lib.cpp:109-120 | without an extension, the path is `name + table[k]` for the first `k` whose file exists |
| Dynlib.EarlierEntryWins | src/dynamic_lib.cpp:110-115 | if the files for entries `i < j` both exist, resolution succeeds and never picks entry `j` |
| Dynlib.NoCandidate | src/dynamic_lib.cpp:116-119 | without an extension, "default extensions not found" happens iff no `name + entry` exists |
| Dynlib.UnrecognisedExtension | src/dynamic_lib.cpp:121-125 | an explicit extension outside the table gives "unexpected library extension" whatever files exist |
| Dynlib.ExplicitExtension | src/dynamic_lib.cpp:121-128 | a recognised explicit extension resolves to the name itself if it exists, else "doesn't exist" |
| Dynlib.NotFoundOnlyWhenExplicit | src/dynamic_lib.cpp:126-128 | the final existence check can fail only for a name with a recognised explicit extension |
| Dynlib.ResolvedIsRecognised | src/dynamic_lib.cpp:106-128 | whatever is loaded exists and carries one of the table's extensions |
| Dynlib.EmptyTableAlwaysFails | src/lib_extensions.h:44-45 | with the empty table of an unsupported platform every resolution fails |
| Dynlib.StaticLibraryRejected | src/dynamic_lib.cpp:121-125 | a name with a static-library extension is refused as an unexpected extension |
| Dynlib.ApplePrefersDylib | src/lib_extensions.h:41 | on Apple `.dylib` is chosen when it exists, `.so` only when no `.dylib` exists, and otherwise the open fails |
| Dynlib.TestlibFound | src/dynamic_lib.cpp:109-120 | on Linux, with only `testlib.so` present, `testlib` resolves to `testlib.so` |
| Dynlib.XyzRefused | src/dynamic_lib.cpp:121-125 | on Linux `testlib.xyz` is refused with the extension `.xyz` |
| Dynlib.MissingNotFound | src/dynamic_lib.cpp:116-119 | on Linux `missing` fails with "default extensions not found" when `missing.so` does not exist |
| Dynlib.DynamicLib.constructor | src/dynamic_lib.cpp:89-92 | a new object holds no handle and has made no native call |
| Dynlib.DynamicLib.Destroy | src/dynamic_lib.cpp:95-98 | destruction leaves the object unloaded and releases a held handle exactly once |
| Dynlib.DynamicLib.IsOpen | src/dynamic_lib.cpp:133-137 | `is_open` holds iff the object holds a handle that it has not released |
| Dynlib.DynamicLib.Close | src/dynamic_lib.cpp:140-147 | `close` leaves the handle null and releases exactly the held handle, or makes no call when none is held, so it is idempotent |
| Dynlib.DynamicLib.Open | src/dynamic_lib.cpp:101-130 | closes first; on every `Resolve` error it throws that error, leaves the object unloaded and makes no native open; otherwise it loads exactly the resolved path with the given mode (default `ModeLazy`) and stores the result verbatim |
| Dynlib.DynamicLib.Function | src/dynamic_lib.cpp:150-159 | a null address when nothing is loaded, otherwise the loader's lookup in the held handle |
| Dynlib.DynamicLib.FunctionCast | src/dynamic_lib.h:70-76 | the callable is bound to exactly the address `function(name)` returns, null when not loaded |
| Legacy.DynamicExtensions | lib_extensions.h:33-44 | the legacy dynamic tables equal the current ones on every supported platform |
| Legacy.StaticExtensions | lib_extensions.h:33-44 | the legacy static tables equal the current ones on every supported platform |
| Legacy.Extension | dynamic_lib.cpp:49-59 | the legacy `extension` computes the same result as `_extension` on every input |
| Legacy.ResolveName | dynamic_lib.cpp:85-109 | the legacy loop and checks, run with the legacy `extension` and table, compute exactly the current `Resolve` |
| Legacy.SameResolution | lib_extensions.h:33-41 | the legacy table gives the same resolution as the current table for every name and filesystem |
| Legacy.DynamicLib.constructor | dynamic_lib.cpp:64-67 | a new object holds no handle |
| Legacy.DynamicLib.Destroy | dynamic_lib.cpp:70-73 | destruction closes, releasing a held handle exactly once |
| Legacy.DynamicLib.Close | dynamic_lib.cpp:121-133 | `close` nulls the handle and releases only a held handle |
| Legacy.DynamicLib.Open | dynamic_lib.cpp:79-118 | POSIX `open(name, mode = RTLD_LAZY)`: the same outcome as the current `Resolve`, with `dlopen` called on the resolved path and the mode |
| Legacy.DynamicLib.OpenWindows | dynamic_lib.cpp:76-118 | Windows `open(name)`: the same outcome as the current `Resolve`, with `LoadLibrary` called on the resolved path and no mode |
| Legacy.DynamicLib.OpenNative | dynamic_lib.cpp:83-118 | closes first; a failing resolution leaves the object unloaded without a native open; otherwise stores the native result verbatim |
| Legacy.DynamicLib.Function | dynamic_lib.cpp:136-150 | a null address when nothing is loaded, otherwise `GetProcAddress`/`dlsym` on the handle |
| Legacy.DynamicLib.FunctionCast | dynamic_lib.h:61-65 | the nullary callable is bound to exactly the address `function(name)` returns |

## Left out

- The native loader (`dlopen`/`dlclose`/`dlsym`, `LoadLibrary`/`FreeLibrary`/`GetProcAddress`) is a foreign call. It is modelled by the `Host` functions and a trace of calls. Reference counting across handles and what the mode bits mean to the loader are OS behaviour.
- The existence test via `access` is filesystem I/O. It is the set `fs`, and the model assumes `fs` does not change during one `open`.
- Exception messages are not modelled. Each error is a constructor, so the legacy wording "not exist" and the current "doesn't exist" are the same `FileNotFound`.
- Dynlib.DynamicLib.FunctionCast: models only the address the callable is bound to. The unchecked `reinterpret_cast` to a caller-chosen signature has no verifiable behaviour, and neither does calling the result.
- Legacy.DynamicLib.FunctionCast: the same; `std::bind` over the cast pointer is only its target address.
- Preprocessor platform selection, `#warning` and `#error` are not modelled as such. The platform is a value of the model. The legacy `#error` on other platforms is the subset type `LegacyPlatform` and the constructor's requirement.
- C++ `const` qualification is represented by Dafny functions with `reads this`. The legacy `function` is not `const`, but it changes nothing either.
- The deleted copy constructor and assignment have no counterpart. Dafny objects are references, and aliasing of one object through two references is not modelled.
- A null `char const*` name is undefined behaviour in `std::string(name)` and is not modelled. Names are strings.
- '\' is not treated as a path separator, as in the source. A Windows path with a dotted directory and no '/' is therefore read as having an explicit extension (Detail.BackslashIsNotSeparator).
