/**
 * The Linux runtime heap's placement policy: the constants the runtime library
 * is built with, for each of its three build configurations.  Addresses are
 * `unsigned long` values, so the all-ones value `~0` depends on the width of the
 * configuration.
 */
module HeapPolicy {

  /** The build configurations: the default 32-bit build, a build for a 64-bit
      mutatee, and the 32-bit POWER build. */
  datatype Config = Default32 | Mutatee64 | Power32

  /** Width in bits of an `Address` in the configuration. */
  function AddressWidth(c: Config): (w: nat)
    ensures w == 32 || w == 64
    ensures w == 64 <==> c.Mutatee64?
  {
    if c.Mutatee64? then 64 else 32
  }

  /** Number of distinct addresses: unsigned arithmetic on addresses is modulo this. */
  function AddressModulus(c: Config): (m: nat)
    ensures m == if AddressWidth(c) == 64 then 0x1_0000_0000_0000_0000 else 0x1_0000_0000
  {
    if c.Mutatee64? then 0x1_0000_0000_0000_0000 else 0x1_0000_0000
  }

  /** The all-ones address `~0`. */
  function MaxAddress(c: Config): (a: nat)
    ensures a + 1 == AddressModulus(c)
  {
    AddressModulus(c) - 1
  }

  /** `DYNINSTheap_align`: heaps are word-aligned in every configuration. */
  function HeapAlign(c: Config): (a: nat)
    ensures a > 0 && a % 4 == 0
  {
    4
  }

  /** `DYNINSTheap_loAddr`: the lowest address a heap may be placed at. */
  function HeapLoAddr(c: Config): (lo: nat)
    ensures lo <= MaxAddress(c)
    ensures !c.Power32? ==> lo >= 0x1_0000 && lo % HeapAlign(c) == 0
  {
    match c
    case Default32 => 0x5000_0000
    case Mutatee64 => 0x1_0000
    case Power32 => MaxAddress(c)
  }

  /** `DYNINSTheap_hiAddr`: the highest address a heap may reach. */
  function HeapHiAddr(c: Config): (hi: nat)
    ensures HeapLoAddr(c) <= hi <= MaxAddress(c)
    ensures !c.Power32? ==> HeapLoAddr(c) < hi
  {
    match c
    case Default32 => 0xb000_0000
    case Mutatee64 => MaxAddress(c)
    case Power32 => MaxAddress(c)
  }

  /** Linux `mmap` flag values. */
  const MAP_PRIVATE: bv32 := 0x02
  const MAP_FIXED: bv32 := 0x10

  /** `DYNINSTheap_mmapFlags`: a fixed-address, private mapping, in every
      configuration; no other flag is set. */
  function HeapMmapFlags(): (f: bv32)
    ensures f & MAP_FIXED == MAP_FIXED
    ensures f & MAP_PRIVATE == MAP_PRIVATE
    ensures f & !(MAP_FIXED | MAP_PRIVATE) == 0
  {
    MAP_FIXED | MAP_PRIVATE
  }

  /** `DYNINSTheap_useMalloc`: the runtime heap never lives in the mutatee's own
      malloc heap on Linux, whatever window is asked for. */
  function UseMalloc(lo: nat, hi: nat): (r: bool)
    ensures !r
  {
    false
  }

  /** In every configuration the placement window is a well-formed range of
      addresses, and in the default and 64-bit ones its low end is aligned and
      strictly below its high end.  The POWER build leaves both bounds at `~0`;
      its low bound is meant to be set from the page size when used. */
  lemma PlacementWindow(c: Config)
    ensures HeapAlign(c) == 4
    ensures HeapLoAddr(c) <= HeapHiAddr(c) <= MaxAddress(c)
    ensures !c.Power32? ==> HeapLoAddr(c) < HeapHiAddr(c) && HeapLoAddr(c) % HeapAlign(c) == 0
    ensures c.Default32? ==> HeapLoAddr(c) == 0x5000_0000 && HeapHiAddr(c) == 0xb000_0000
    ensures c.Power32? ==> HeapLoAddr(c) == HeapHiAddr(c) == MaxAddress(c)
  {
  }
}
