/** `Flags<T>` (lette/Source/Core/Flags.cs): a set of up to 64 flags packed
    in an unsigned 64-bit word, addressed by integer or by enum member. */
module FlagSet {
  import opened Framework

  /** The bit the int indexer addresses: C#'s `index % 64` lies in
      (-64, 64), and shifting a `ulong` uses only the low six bits of the
      count, so a negative remainder wraps to the top of the word. The
      result is `index` modulo 64. */
  function BitIndex(index: int): (i: int)
    ensures 0 <= i < 64 && i == index % 64
  {
    var r := TruncRem(index, 64);
    if r >= 0 then r else r + 64
  }

  /** That bit as a shift count. */
  function ShiftCount(index: int): bv6
  {
    BitIndex(index) as bv6
  }

  /** `1UL << k`. */
  function Mask(k: bv6): bv64 { 1 << k }

  /** Bit `k` of `b` is set. */
  predicate Has(b: bv64, k: bv6) { b & Mask(k) != 0 }

  /** Indices that differ by 64 address the same bit. */
  lemma BitIndexAliases(index: int)
    ensures BitIndex(index) == BitIndex(index + 64)
  {
  }

  lemma {:induction false} IndicesAlias(index: int)
    ensures ShiftCount(index) == ShiftCount(index + 64)
  {
    BitIndexAliases(index);
  }

  /** `b |= Mask(k)` sets bit `k` and leaves every other bit as it was. */
  lemma SetBit(b: bv64, k: bv6, j: bv6)
    ensures Has(b | Mask(k), j) == (j == k || Has(b, j))
  {
    if j == k {
      SetSameBit(b, k);
    } else {
      SetOtherBit(b, k, j);
    }
  }

  lemma SetSameBit(b: bv64, k: bv6)
    ensures Has(b | Mask(k), k)
  {
  }

  lemma SetOtherBit(b: bv64, k: bv6, j: bv6)
    requires j != k
    ensures Has(b | Mask(k), j) == Has(b, j)
  {
  }

  /** `b &= ~Mask(k)` clears bit `k` and leaves every other bit as it was. */
  lemma ClearBit(b: bv64, k: bv6, j: bv6)
    ensures Has(b & !Mask(k), j) == (j != k && Has(b, j))
  {
    if j == k {
      ClearSameBit(b, k);
    } else {
      ClearOtherBit(b, k, j);
    }
  }

  lemma ClearSameBit(b: bv64, k: bv6)
    ensures !Has(b & !Mask(k), k)
  {
  }

  lemma ClearOtherBit(b: bv64, k: bv6, j: bv6)
    requires j != k
    ensures Has(b & !Mask(k), j) == Has(b, j)
  {
  }

  /** What the setter writes: `b | Mask(k)` for true, `b & ~Mask(k)` for
      false. */
  function Assign(b: bv64, k: bv6, value: bool): bv64
  {
    if value then b | Mask(k) else b & !Mask(k)
  }

  /** After the setter, bit `k` reads as the value written and every other
      bit as before. */
  lemma AssignBits(b: bv64, k: bv6, value: bool, j: bv6)
    ensures Has(Assign(b, k, value), j) == if j == k then value else Has(b, j)
  {
    if value {
      SetBit(b, k, j);
    } else {
      ClearBit(b, k, j);
    }
  }

  /** `Matches`: every flag of `toMatch` is set in `b`. */
  predicate Includes(b: bv64, toMatch: bv64) { b & toMatch == toMatch }

  /** `DoesNotMatch`: every flag of `inverseMatch` is clear in `b`. */
  predicate Excludes(b: bv64, inverseMatch: bv64) { !b & inverseMatch == inverseMatch }

  /** A flag of `toMatch` is a flag of every `b` that matches it. */
  lemma IncludesBit(b: bv64, toMatch: bv64, k: bv6)
    requires Includes(b, toMatch) && Has(toMatch, k)
    ensures Has(b, k)
  {
  }

  /** A flag of `inverseMatch` is clear in every `b` that does not match it. */
  lemma ExcludesBit(b: bv64, inverseMatch: bv64, k: bv6)
    requires Excludes(b, inverseMatch) && Has(inverseMatch, k)
    ensures !Has(b, k)
  {
  }

  /** `Matches` at the word level: `toMatch` has no flag outside `b`. */
  lemma SubsetIncludes(b: bv64, toMatch: bv64)
    requires !b & toMatch == 0
    ensures Includes(b, toMatch)
  {
  }

  /** The converse: a word that matches `toMatch` has all of its flags. */
  lemma IncludesSubset(b: bv64, toMatch: bv64)
    requires Includes(b, toMatch)
    ensures !b & toMatch == 0
  {
  }

  /** `DoesNotMatch` at the word level: `b` and `inverseMatch` share no flag. */
  lemma DisjointExcludes(b: bv64, inverseMatch: bv64)
    requires b & inverseMatch == 0
    ensures Excludes(b, inverseMatch)
  {
  }

  /** The converse: a word that does not match `inverseMatch` shares no flag with it. */
  lemma ExcludesDisjoint(b: bv64, inverseMatch: bv64)
    requires Excludes(b, inverseMatch)
    ensures b & inverseMatch == 0
  {
  }

  /** Every flag of `m` is a flag of `b`. */
  predicate SubsetOf(m: bv64, b: bv64) { !b & m == 0 }

  /** `b` and `m` have no flag in common. */
  predicate Disjoint(b: bv64, m: bv64) { b & m == 0 }

  /** Both directions together: matching is inclusion of the flag words. */
  lemma IncludesIsSubset(b: bv64, toMatch: bv64)
    ensures Includes(b, toMatch) == SubsetOf(toMatch, b)
  {
    if Includes(b, toMatch) {
      IncludesSubset(b, toMatch);
    } else if !b & toMatch == 0 {
      SubsetIncludes(b, toMatch);
    }
  }

  /** Both directions together: not matching is disjointness of the flag words. */
  lemma ExcludesIsDisjoint(b: bv64, inverseMatch: bv64)
    ensures Excludes(b, inverseMatch) == Disjoint(b, inverseMatch)
  {
    if Excludes(b, inverseMatch) {
      ExcludesDisjoint(b, inverseMatch);
    } else if b & inverseMatch == 0 {
      DisjointExcludes(b, inverseMatch);
    }
  }

  /** Matching is reflexive, every word matches the empty set of flags, and
      only the empty set is both matched and not matched. */
  lemma MatchLaws(b: bv64, m: bv64)
    ensures Includes(b, b) && Includes(b, 0) && Excludes(b, 0)
    ensures Includes(b, m) && Excludes(b, m) ==> m == 0
  {
  }

  /** The members of `AnimFlag` (lette/Source/Core/Flags.cs:5-16). */
  datatype AnimFlag = DirB | DirBR | DirR | DirTR | DirT | DirTL | DirL | DirBL | Moving

  /** `t.ToInt32(null)`: the declaration position. */
  function Ordinal(t: AnimFlag): (n: int)
    ensures 0 <= n < 9
  {
    match t
    case DirB => 0
    case DirBR => 1
    case DirR => 2
    case DirTR => 3
    case DirT => 4
    case DirTL => 5
    case DirL => 6
    case DirBL => 7
    case Moving => 8
  }

  /** `Flags<AnimFlag>`. The struct's `Backing` is updated in place by the
      setters. */
  class Flags {
    var Backing: bv64

    /** `new Flags<T>()`: no flag set. */
    constructor()
      ensures Backing == 0
    {
      Backing := 0;
    }

    /** The int getter. */
    function Get(index: int): (r: bool)
      reads this
      ensures r == Has(Backing, (index % 64) as bv6)
    {
      Has(Backing, ShiftCount(index))
    }

    /** The int setter: the addressed bit becomes `value`. */
    method Set(index: int, value: bool)
      modifies this
      ensures Backing == Assign(old(Backing), ShiftCount(index), value)
      ensures Get(index) == value
    {
      if value {
        Backing := Backing | Mask(ShiftCount(index));
      } else {
        Backing := Backing & !Mask(ShiftCount(index));
      }
      AssignBits(old(Backing), ShiftCount(index), value, ShiftCount(index));
    }

    /** The enum getter: the int getter at the member's ordinal. */
    function GetFlag(t: AnimFlag): (r: bool)
      reads this
      ensures r == Has(Backing, Ordinal(t) as bv6)
    {
      Get(Ordinal(t))
    }

    /** The enum setter: the int setter at the member's ordinal. */
    method SetFlag(t: AnimFlag, value: bool)
      modifies this
      ensures Backing == Assign(old(Backing), ShiftCount(Ordinal(t)), value)
      ensures GetFlag(t) == value
    {
      Set(Ordinal(t), value);
    }

    /** `Matches`: the flags of `toMatch` are a subset of these. */
    function Matches(toMatch: Flags): (r: bool)
      reads this, toMatch
      ensures r == SubsetOf(toMatch.Backing, Backing)
    {
      IncludesIsSubset(Backing, toMatch.Backing);
      Includes(Backing, toMatch.Backing)
    }

    /** `DoesNotMatch`: these flags and those of `inverseMatch` are disjoint. */
    function DoesNotMatch(inverseMatch: Flags): (r: bool)
      reads this, inverseMatch
      ensures r == Disjoint(Backing, inverseMatch.Backing)
    {
      ExcludesIsDisjoint(Backing, inverseMatch.Backing);
      Excludes(Backing, inverseMatch.Backing)
    }
  }

  /** The checks of lette/Program.cs:11-19: after setting `DirL` and then
      `DirR`, both read true and `Moving` reads false, and the flags match a
      set holding exactly `DirL` and `DirR`. */
  method AnimFlagsExample() returns (dirL: bool, dirR: bool, moving: bool, matches: bool)
    ensures dirL && dirR && !moving && matches
  {
    var flags := new Flags();
    flags.SetFlag(DirL, true);
    flags.SetFlag(DirR, true);
    dirL, dirR, moving := flags.GetFlag(DirL), flags.GetFlag(DirR), flags.GetFlag(Moving);
    var expected := new Flags();
    expected.SetFlag(DirL, true);
    expected.SetFlag(DirR, true);
    matches := flags.Matches(expected);
  }
}
