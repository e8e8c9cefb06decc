/**
 * The `Mode` enumeration of src/dynamic_lib.h: load-mode flags passed to
 * the native loader, combined by bitwise or.
 */
module Modes {

  datatype Mode = ModeLocal | ModeLazy | ModeNow | ModeNoLoad | ModeDeepBind | ModeGlobal | ModeNodelete

  const AllModes: seq<Mode> := [ModeLocal, ModeLazy, ModeNow, ModeNoLoad, ModeDeepBind, ModeGlobal, ModeNodelete]

  /** The numeric value of each enumerator. */
  function Value(m: Mode): bv32 {
    match m
    case ModeLocal => 0x0000
    case ModeLazy => 0x0001
    case ModeNow => 0x0002
    case ModeNoLoad => 0x0004
    case ModeDeepBind => 0x0008
    case ModeGlobal => 0x0100
    case ModeNodelete => 0x1000
  }

  /** The mode `open` uses when the caller gives none. */
  const DefaultMode: bv32 := Value(ModeLazy)

  predicate IsSingleBit(v: bv32) {
    v != 0 && v & (v - 1) == 0
  }

  /** ModeLocal is zero; every other enumerator is its own single bit. */
  lemma ValuesAreFlags(m: Mode, n: Mode)
    ensures m == ModeLocal <==> Value(m) == 0
    ensures m != ModeLocal ==> IsSingleBit(Value(m))
    ensures m != n ==> Value(m) & Value(n) == 0
  {
  }

  /** `m1 | m2 | ...`: the mode word for a list of flags. */
  function Combine(ms: seq<Mode>): bv32 {
    if ms == [] then 0 else Value(ms[0]) | Combine(ms[1..])
  }

  /** The flags set in a mode word (ModeLocal, being zero, is never "set"). */
  function Flags(v: bv32): (fs: set<Mode>)
    ensures ModeLocal !in fs
  {
    set m | m in AllModes && m != ModeLocal && v & Value(m) != 0
  }

  lemma FlagsOfOr(a: bv32, b: bv32)
    ensures Flags(a | b) == Flags(a) + Flags(b)
  {
    forall m | m in AllModes
      ensures (a | b) & Value(m) != 0 <==> a & Value(m) != 0 || b & Value(m) != 0
    {
    }
  }

  lemma FlagsOfValue(m: Mode)
    ensures Flags(Value(m)) == {m} - {ModeLocal}
  {
    forall n | n in AllModes
      ensures Value(m) & Value(n) != 0 <==> n == m && m != ModeLocal
    {
      ValuesAreFlags(m, n);
    }
  }

  lemma ElementsOfCons(ms: seq<Mode>)
    requires ms != []
    ensures (set m | m in ms) == {ms[0]} + (set m | m in ms[1..])
  {
    assert ms == [ms[0]] + ms[1..];
  }

  /** Combining flags loses nothing: the word decodes to exactly the non-local flags given. */
  lemma {:induction false} FlagsOfCombine(ms: seq<Mode>)
    ensures Flags(Combine(ms)) == (set m | m in ms) - {ModeLocal}
  {
    if ms == [] {
    } else {
      var rest := set m | m in ms[1..];
      calc {
        Flags(Combine(ms));
        { FlagsOfOr(Value(ms[0]), Combine(ms[1..])); }
        Flags(Value(ms[0])) + Flags(Combine(ms[1..]));
        { FlagsOfValue(ms[0]); FlagsOfCombine(ms[1..]); }
        ({ms[0]} - {ModeLocal}) + (rest - {ModeLocal});
        ({ms[0]} + rest) - {ModeLocal};
        { ElementsOfCons(ms); }
        (set m | m in ms) - {ModeLocal};
      }
    }
  }

  /** Two flag lists give the same word exactly when they name the same non-local flags. */
  lemma CombineUnambiguous(ms: seq<Mode>, ns: seq<Mode>)
    ensures Combine(ms) == Combine(ns) <==> (set m | m in ms) - {ModeLocal} == (set m | m in ns) - {ModeLocal}
  {
    FlagsOfCombine(ms);
    FlagsOfCombine(ns);
    CombineWithinFlagBits(ms);
    CombineWithinFlagBits(ns);
    if Flags(Combine(ms)) == Flags(Combine(ns)) {
      WordDeterminedByFlags(Combine(ms), Combine(ns));
    }
  }

  /** The bits no enumerator uses. */
  const UnusedBits: bv32 := 0xFFFF_EEF0

  lemma {:induction false} CombineWithinFlagBits(ms: seq<Mode>)
    ensures Combine(ms) & UnusedBits == 0
  {
    if ms != [] {
      CombineWithinFlagBits(ms[1..]);
    }
  }

  /** A word built only from enumerator bits is determined by the flags it has set. */
  lemma WordDeterminedByFlags(v: bv32, w: bv32)
    requires v & UnusedBits == 0 && w & UnusedBits == 0
    requires Flags(v) == Flags(w)
    ensures v == w
  {
    assert (ModeLazy in Flags(v)) == (v & 0x0001 != 0) && (ModeLazy in Flags(w)) == (w & 0x0001 != 0);
    assert (ModeNow in Flags(v)) == (v & 0x0002 != 0) && (ModeNow in Flags(w)) == (w & 0x0002 != 0);
    assert (ModeNoLoad in Flags(v)) == (v & 0x0004 != 0) && (ModeNoLoad in Flags(w)) == (w & 0x0004 != 0);
    assert (ModeDeepBind in Flags(v)) == (v & 0x0008 != 0) && (ModeDeepBind in Flags(w)) == (w & 0x0008 != 0);
    assert (ModeGlobal in Flags(v)) == (v & 0x0100 != 0) && (ModeGlobal in Flags(w)) == (w & 0x0100 != 0);
    assert (ModeNodelete in Flags(v)) == (v & 0x1000 != 0) && (ModeNodelete in Flags(w)) == (w & 0x1000 != 0);
  }
}
