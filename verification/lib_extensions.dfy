/**
 * The per-platform extension tables of src/lib_extensions.h. The platform is
 * chosen by the preprocessor at build time; here it is a value.
 */
module LibExtensions {
  import opened Detail

  /** The build targets the headers distinguish; Unsupported is the `#else` branch. */
  datatype Platform = Windows | Linux | Apple | Unsupported

  /** An extension table: each entry a single extension, no entry twice. */
  ghost predicate WellFormedTable(t: seq<string>) {
    (forall i :: 0 <= i < |t| ==> IsEntry(t[i])) &&
    (forall i, j :: 0 <= i < j < |t| ==> t[i] != t[j])
  }

  /** `library_dynamic_extensions`, in the order `open` tries them. */
  function DynamicExtensions(p: Platform): (t: seq<string>)
    ensures WellFormedTable(t)
    ensures t == [] <==> p == Unsupported
  {
    match p
    case Windows => [".dll"]
    case Linux => [".so"]
    case Apple => [".dylib", ".so"]
    case Unsupported => []
  }

  /** `library_static_extensions`; `open` never consults it. */
  function StaticExtensions(p: Platform): (t: seq<string>)
    ensures WellFormedTable(t)
    ensures t == [] <==> p == Unsupported
  {
    match p
    case Windows => [".lib"]
    case Linux => [".a"]
    case Apple => [".bundle", ".a"]
    case Unsupported => []
  }

  /** No static extension is also a dynamic one, on any platform. */
  lemma StaticAndDynamicDisjoint(p: Platform, e: string)
    requires e in StaticExtensions(p)
    ensures e !in DynamicExtensions(p)
  {
  }
}
