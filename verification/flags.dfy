/** Control-flag words: the `uint64_t` bit sets behind `BundleControlFlags`
    (`primary-block.h`) and `BlockControlFlags` (`canonical-block.h`), with the
    test, set and clear operations every flag accessor of the blocks uses. */
module Flags {
  import opened BoundedInts

  /** `(flags & mask) != 0`: the predicate form of every flag getter. */
  predicate Has(flags: bv64, mask: bv64) {
    flags & mask != 0
  }

  /** The setter pattern: `flags | mask` to enable, `flags & ~mask` to clear. */
  function Set(flags: bv64, mask: bv64, enable: bool): (r: bv64)
  {
    if enable then flags | mask else flags & !mask
  }

  /** Setting or clearing a flag decides that flag. */
  lemma SetDecidesItsFlag(flags: bv64, mask: bv64, enable: bool)
    requires mask != 0
    ensures Has(Set(flags, mask, enable), mask) == enable
  {
    if enable {
      EnableDecides(flags, mask);
    } else {
      ClearDecides(flags, mask);
    }
  }

  /** Setting or clearing a flag leaves every flag of a disjoint mask as it
      was. */
  lemma SetKeepsOtherFlags(flags: bv64, mask: bv64, enable: bool, other: bv64)
    requires mask & other == 0
    ensures Has(Set(flags, mask, enable), other) == Has(flags, other)
  {
    if enable {
      EnableKeeps(flags, mask, other);
    } else {
      ClearKeeps(flags, mask, other);
    }
  }

  lemma EnableDecides(flags: bv64, mask: bv64)
    requires mask != 0
    ensures Has(Set(flags, mask, true), mask)
  {
  }

  lemma ClearDecides(flags: bv64, mask: bv64)
    ensures !Has(Set(flags, mask, false), mask)
  {
  }

  lemma EnableKeeps(flags: bv64, mask: bv64, other: bv64)
    requires mask & other == 0
    ensures Has(Set(flags, mask, true), other) == Has(flags, other)
  {
  }

  lemma ClearKeeps(flags: bv64, mask: bv64, other: bv64)
    requires mask & other == 0
    ensures Has(Set(flags, mask, false), other) == Has(flags, other)
  {
  }

  /** The flag word as the unsigned integer the CBOR encoding carries. */
  function ToUint64(flags: bv64): (n: uint64)
    ensures FromUint64(n) == flags
  {
    flags as int
  }

  function FromUint64(n: uint64): bv64 {
    n as bv64
  }
}
