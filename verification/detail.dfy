/**
 * The string helpers of `namespace dynlib::detail` (src/dynamic_lib.cpp):
 * `std::string::rfind` and `_extension`, which takes the suffix of a path
 * that starts at the last '.' of its last '/'-separated segment.
 */
module Detail {
  import opened Wrappers

  /** `s.rfind(c)`: the index of the last occurrence of `c`, or None for `npos`. */
  function RFind(s: string, c: char): (r: Option<nat>)
    ensures r.None? ==> forall i :: 0 <= i < |s| ==> s[i] != c
    ensures r.Some? ==> r.value < |s| && s[r.value] == c
    ensures r.Some? ==> forall i :: r.value < i < |s| ==> s[i] != c
    decreases |s|
  {
    if s == [] then None
    else if s[|s| - 1] == c then Some(|s| - 1)
    else RFind(s[..|s| - 1], c)
  }

  /**
   * `_extension(str)`: cut the path at its last '/' (the cut keeps the '/'),
   * then return everything from the last '.' of what is left, or "" when
   * there is no such '.'. Only '/' separates path segments.
   */
  function Extension(str: string): (ext: string)
    ensures ext == [] || (|ext| <= |str| && ext == str[|str| - |ext|..])
    ensures ext == [] || IsEntry(ext)
  {
    var file := match RFind(str, '/')
      case None => str
      case Some(p) => str[p..];
    match RFind(file, '.')
    case None => []
    case Some(q) => file[q..]
  }

  /**
   * A single file-name extension: a '.' followed by characters that are
   * neither '.' nor '/'. Every non-empty result of `Extension` has this shape.
   */
  predicate IsEntry(e: string) {
    |e| > 0 && e[0] == '.' && forall k :: 0 < k < |e| ==> e[k] != '.' && e[k] != '/'
  }

  /** Every '.' of `s` lies in a directory component: a '/' follows it. */
  ghost predicate NoDotInLastSegment(s: string) {
    forall i :: 0 <= i < |s| && s[i] == '.' ==> '/' in s[i + 1..]
  }

  /**
   * Reference definition of "the extension of `s`", independent of `rfind`:
   * empty when the last segment has no '.', otherwise the suffix of `s`
   * that is a single extension.
   */
  ghost predicate IsExtension(s: string, e: string) {
    if e == [] then NoDotInLastSegment(s)
    else IsEntry(e) && |e| <= |s| && e == s[|s| - |e|..]
  }

  lemma ExtensionMeetsReference(s: string)
    ensures IsExtension(s, Extension(s))
  {
    var ext := Extension(s);
    if ext == [] {
      match RFind(s, '/')
      case None =>
        assert RFind(s, '.').None?;
      case Some(p) =>
        var file := s[p..];
        assert RFind(file, '.').None?;
        assert forall k :: p <= k < |s| ==> s[k] == file[k - p];
        forall i | 0 <= i < |s| && s[i] == '.'
          ensures '/' in s[i + 1..]
        {
          assert i < p;
          assert s[i + 1..][p - i - 1] == '/';
        }
    }
  }

  lemma ExtensionUnique(s: string, e1: string, e2: string)
    requires IsExtension(s, e1) && IsExtension(s, e2)
    ensures e1 == e2
  {
    if e1 == [] && e2 != [] {
      NoDotBeforeExtension(s, e2);
    } else if e1 != [] && e2 == [] {
      NoDotBeforeExtension(s, e1);
    } else if e1 != [] && e2 != [] {
      LastDotOfSegment(s, e1);
      LastDotOfSegment(s, e2);
      assert |e1| == |e2|;
    }
  }

  /** A non-empty extension starts at the last '.' of `s`. */
  lemma LastDotOfSegment(s: string, e: string)
    requires e != [] && IsExtension(s, e)
    ensures s[|s| - |e|] == '.'
    ensures forall j :: |s| - |e| < j < |s| ==> s[j] != '.'
  {
    assert forall j :: |s| - |e| <= j < |s| ==> s[j] == e[j - (|s| - |e|)];
  }

  /** A non-empty extension puts a '.' in the last segment. */
  lemma NoDotBeforeExtension(s: string, e: string)
    requires e != [] && IsExtension(s, e)
    ensures !NoDotInLastSegment(s)
  {
    var i := |s| - |e|;
    assert s[i] == '.';
    assert s[i + 1..] == e[1..];
    assert forall j :: 0 <= j < |e[1..]| ==> e[1..][j] == e[j + 1];
  }

  /** `Extension` computes exactly the reference extension, in both directions. */
  lemma ExtensionCharacterised(s: string, e: string)
    ensures Extension(s) == e <==> IsExtension(s, e)
  {
    ExtensionMeetsReference(s);
    if IsExtension(s, e) {
      ExtensionUnique(s, Extension(s), e);
    }
  }

  /** A path with no '.' at all has no extension. */
  lemma NoDotNoExtension(s: string)
    requires '.' !in s
    ensures Extension(s) == []
  {
    ExtensionCharacterised(s, []);
  }

  /** Dots in directory names are ignored: "dir.d/lib" has no extension. */
  lemma DirectoryDotsIgnored(dir: string, base: string)
    requires '.' !in base
    ensures Extension(dir + "/" + base) == []
  {
    var s := dir + "/" + base;
    var tail := "/" + base;
    assert s == dir + tail && s[|dir|] == '/';
    var p := RFind(s, '/').value;
    assert s[p..] == tail[p - |dir|..];
    assert '.' !in tail;
  }

  /** A '\' is an ordinary character: a dot before it starts the extension. */
  lemma BackslashIsNotSeparator(dir: string, sub: string, base: string)
    requires '.' !in sub + base && '/' !in sub + base
    ensures Extension(dir + "." + sub + "\\" + base) == "." + sub + "\\" + base
  {
    var s := dir + "." + sub + "\\" + base;
    var e := "." + sub + "\\" + base;
    forall k | 0 < k < |e|
      ensures e[k] != '.' && e[k] != '/'
    {
      if k <= |sub| {
        assert e[k] == (sub + base)[k - 1];
      } else if k > |sub| + 1 {
        assert e[k] == (sub + base)[k - 2];
      }
    }
    assert s == dir + e;
    ExtensionCharacterised(s, e);
  }

  /** Appending a table entry to a name without extension gives that entry as extension. */
  lemma AppendEntry(name: string, e: string)
    requires Extension(name) == [] && IsEntry(e)
    ensures Extension(name + e) == e
  {
    var s := name + e;
    assert e == s[|s| - |e|..];
    ExtensionCharacterised(name + e, e);
  }

  /** Each entry is itself a possible `_extension` result. */
  lemma EntryIsOwnExtension(e: string)
    requires IsEntry(e)
    ensures Extension(e) == e
  {
    AppendEntry([], e);
  }
}
