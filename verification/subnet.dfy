/**
 * Classless subnetting of a classful network: the class default mask, the
 * block size and host count of a subnet mask, the number of subnets, the
 * enumeration of subnet bases and the address lists derived from them.
 *
 * A subnet query is an address together with a mask (the calculator's CIDR
 * value). The model passes the two as separate words.
 */
module Subnet {
  import opened Bits
  import opened IpClass
  import opened Blocks

  /** ip_inverse: the distance from x up to 2^32; for x at most 2^32 it is again at most 2^32. */
  function Inverse(x: nat): (r: int)
    ensures x <= Limit <==> 0 <= r
    ensures 0 <= r ==> r <= Limit && r + x == Limit
  {
    Limit - x
  }

  /** ip_inverse undoes itself on 0 to 2^32. */
  lemma InverseInvolution(x: nat)
    requires x <= Limit
    ensures Inverse(Inverse(x)) == x
  {
  }

  /** The length of the class default prefix: 32 minus the class's host bits. */
  function DefaultPrefix(a: Word): (p: nat)
    requires ClassOf(a) in {A, B, C}
    ensures ClassOf(a) == A ==> p == 8
    ensures ClassOf(a) == B ==> p == 16
    ensures ClassOf(a) == C ==> p == 24
  {
    32 - Row(a, 0).hostbits.value
  }

  /**
   * get_default_mask: 2^32 - 2^hostbits. Only classes A to C have host bits;
   * for D and E the source raises a TypeError, hence the precondition.
   */
  function DefaultMask(a: Word): (m: Word)
    requires ClassOf(a) in {A, B, C}
    ensures m == PrefixMask(DefaultPrefix(a))
    ensures ClassOf(a) == A ==> m == 0xFF00_0000
    ensures ClassOf(a) == B ==> m == 0xFFFF_0000
    ensures ClassOf(a) == C ==> m == 0xFFFF_FF00
  {
    Pow2Values();
    Inverse(Pow2(Row(a, 0).hostbits.value))
  }

  /** subnet_block_size: the number of addresses one block of the mask spans. */
  function BlockSize(mask: Word): (r: nat)
    ensures 1 <= r <= Limit
  {
    Inverse(mask)
  }

  /** get_addressable_hosts_per_subnet: the block minus its network and broadcast addresses. */
  function AddressableHosts(mask: Word): (r: int)
    ensures -1 <= r < Limit - 1
  {
    BlockSize(mask) - 2
  }

  /**
   * The masks a subnet query can be given: the address is of class A to C
   * (so that it has a default mask) and the mask is not below that default
   * (so that the subtraction in get_subnet_count stays a valid address).
   */
  predicate Refines(a: Word, mask: Word)
  {
    ClassOf(a) in {A, B, C} && DefaultMask(a) <= mask
  }

  /** get_subnet_count: 2 to the run of one-bits that the mask adds to the default mask. */
  function SubnetCount(a: Word, mask: Word): (r: nat)
    requires Refines(a, mask)
    ensures 1 <= r <= Pow2(32 - DefaultPrefix(a))
  {
    var extra := mask - DefaultMask(a);
    var h := 32 - DefaultPrefix(a);
    BinaryLength(extra, h);
    Pow2Monotone(LeadingOnes(extra), h);
    Pow2(LeadingOnes(extra))
  }

  /**
   * The supported shape: a contiguous mask of n bits, n at least the
   * class default prefix. Then the mask borrows n - DefaultPrefix(a) bits
   * from the host part, which gives 2^(n - DefaultPrefix(a)) subnets of
   * 2^(32 - n) addresses each; together they span exactly the classful
   * network (2^hostbits addresses).
   */
  lemma ContiguousMask(a: Word, n: nat)
    requires ClassOf(a) in {A, B, C} && DefaultPrefix(a) <= n <= 32
    ensures Refines(a, PrefixMask(n))
    ensures SubnetCount(a, PrefixMask(n)) == Pow2(n - DefaultPrefix(a))
    ensures BlockSize(PrefixMask(n)) == Pow2(32 - n)
    ensures AddressableHosts(PrefixMask(n)) == Pow2(32 - n) - 2
    ensures SubnetCount(a, PrefixMask(n)) * BlockSize(PrefixMask(n)) == Pow2(32 - DefaultPrefix(a))
  {
    ContiguousCount(a, n);
    assert BlockSize(PrefixMask(n)) == Pow2(32 - n);
    BlocksPerNetwork(DefaultPrefix(a), n);
  }

  /** What a contiguous mask of n bits adds to the default mask is a run of n - DefaultPrefix(a) ones. */
  lemma ExtraOnes(a: Word, n: nat)
    requires ClassOf(a) in {A, B, C} && DefaultPrefix(a) <= n <= 32
    ensures Refines(a, PrefixMask(n))
    ensures LeadingOnes(PrefixMask(n) - DefaultMask(a)) == n - DefaultPrefix(a)
  {
    var p := DefaultPrefix(a);
    PrefixMaskDifference(p, n);
    assert DefaultMask(a) == PrefixMask(p);
  }

  /** A contiguous mask of n bits makes 2^(n - DefaultPrefix(a)) subnets. */
  lemma ContiguousCount(a: Word, n: nat)
    requires ClassOf(a) in {A, B, C} && DefaultPrefix(a) <= n <= 32
    ensures Refines(a, PrefixMask(n))
    ensures SubnetCount(a, PrefixMask(n)) == Pow2(n - DefaultPrefix(a))
  {
    ExtraOnes(a, n);
  }

  /** The subnet bases get_valid_subnet_ips yields: count blocks from a AND mask upwards. */
  function SubnetBases(a: Word, mask: Word): (s: seq<nat>)
    requires Refines(a, mask)
    ensures |s| == SubnetCount(a, mask) && s[0] == And(a, mask)
    ensures forall i :: 0 <= i < |s| ==> And(a, mask) <= s[i] && s[i] - And(a, mask) == i * BlockSize(mask)
  {
    Run(And(a, mask), SubnetCount(a, mask), BlockSize(mask))
  }

  /**
   * The bases are exactly SubnetCount of them, start at a AND mask, are
   * exactly one block apart and so strictly ascend.
   */
  lemma {:induction false} SubnetBasesSpaced(a: Word, mask: Word)
    requires Refines(a, mask)
    ensures |SubnetBases(a, mask)| == SubnetCount(a, mask)
    ensures SubnetBases(a, mask)[0] == And(a, mask)
    ensures forall i :: 0 <= i < |SubnetBases(a, mask)| - 1 ==>
              SubnetBases(a, mask)[i + 1] == SubnetBases(a, mask)[i] + BlockSize(mask)
    ensures forall i, j :: 0 <= i < j < |SubnetBases(a, mask)| ==>
              SubnetBases(a, mask)[i] < SubnetBases(a, mask)[j]
  {
    RunSpaced(And(a, mask), SubnetCount(a, mask), BlockSize(mask));
  }

  /**
   * get_valid_subnet_ips: starting at a AND mask, yield the current base
   * and step one block while below the end of the last block.
   */
  method ValidSubnetIps(a: Word, mask: Word) returns (bases: seq<nat>)
    requires Refines(a, mask)
    ensures |bases| == SubnetCount(a, mask)
    ensures bases == SubnetBases(a, mask)
  {
    var start := And(a, mask);
    var block := BlockSize(mask);
    var count := SubnetCount(a, mask);
    var subnet := start;
    var maxAddress: int := subnet + block * count;
    bases := [];
    while subnet < maxAddress
      invariant |bases| <= count
      invariant subnet == BlockStart(start, |bases|, block)
      invariant forall i :: 0 <= i < |bases| ==> bases[i] == BlockStart(start, i, block)
      decreases maxAddress - subnet
    {
      StepBelowEnd(start, |bases|, count, block);
      bases := bases + [subnet];
      subnet := subnet + block;
    }
    if |bases| < count {
      StepBelowEnd(start, |bases|, count, block);
    }
    EnumeratedBases(a, mask, bases);
  }

  /** A list of SubnetCount values spaced one block apart from a AND mask is the list of subnet bases. */
  lemma EnumeratedBases(a: Word, mask: Word, bases: seq<nat>)
    requires Refines(a, mask) && |bases| == SubnetCount(a, mask)
    requires forall i :: 0 <= i < |bases| ==> bases[i] == BlockStart(And(a, mask), i, BlockSize(mask))
    ensures bases == SubnetBases(a, mask)
  {
  }

  /**
   * ASSUMPTION: common.list_add_and_str adds the offset to every address,
   * with offset 0 when none is given, and joins the results into text;
   * this is the list before the joining.
   */
  function ListAdd(addrs: seq<int>, offset: int): (r: seq<int>)
    ensures |r| == |addrs|
    ensures forall i :: 0 <= i < |r| ==> r[i] == addrs[i] + offset
  {
    seq(|addrs|, i requires 0 <= i < |addrs| => addrs[i] + offset)
  }

  /** get_valid_subnets: the subnet bases themselves. */
  function ValidSubnets(a: Word, mask: Word): (r: seq<int>)
    requires Refines(a, mask)
    ensures |r| == SubnetCount(a, mask)
    ensures forall i :: 0 <= i < |r| ==> r[i] == SubnetBases(a, mask)[i]
  {
    ListAdd(SubnetBases(a, mask), 0)
  }

  /** The valid subnets are the subnet bases unchanged. */
  lemma ValidSubnetsAreBases(a: Word, mask: Word)
    requires Refines(a, mask)
    ensures ValidSubnets(a, mask) == SubnetBases(a, mask)
  {
  }

  /** get_broadcast_addresses: the last address of every block. */
  function BroadcastAddresses(a: Word, mask: Word): (r: seq<int>)
    requires Refines(a, mask)
    ensures |r| == SubnetCount(a, mask)
    ensures forall i :: 0 <= i < |r| ==> r[i] == SubnetBases(a, mask)[i] + BlockSize(mask) - 1
  {
    ListAdd(SubnetBases(a, mask), BlockSize(mask) - 1)
  }

  /** get_first_addresses: the address after every base. */
  function FirstAddresses(a: Word, mask: Word): (r: seq<int>)
    requires Refines(a, mask)
    ensures |r| == SubnetCount(a, mask)
    ensures forall i :: 0 <= i < |r| ==> r[i] == SubnetBases(a, mask)[i] + 1
  {
    ListAdd(SubnetBases(a, mask), 1)
  }

  /** get_last_addresses: the address before every broadcast address. */
  function LastAddresses(a: Word, mask: Word): (r: seq<int>)
    requires Refines(a, mask)
    ensures |r| == SubnetCount(a, mask)
    ensures forall i :: 0 <= i < |r| ==> r[i] == SubnetBases(a, mask)[i] + BlockSize(mask) - 2
  {
    ListAdd(SubnetBases(a, mask), BlockSize(mask) - 2)
  }

  /**
   * For a contiguous mask of n bits, the enumeration as written is the run
   * of 2^(n - DefaultPrefix(a)) blocks of 2^(32 - n) addresses from a AND
   * mask, and the classful one the same run from the classful network.
   */
  lemma ContiguousBases(a: Word, n: nat)
    requires ClassOf(a) in {A, B, C} && DefaultPrefix(a) <= n <= 32
    ensures Refines(a, PrefixMask(n)) && BlockSize(PrefixMask(n)) == Pow2(32 - n)
    ensures SubnetBases(a, PrefixMask(n)) == Run(And(a, PrefixMask(n)), Pow2(n - DefaultPrefix(a)), Pow2(32 - n))
    ensures ClassfulSubnetBases(a, PrefixMask(n)) == Run(And(a, PrefixMask(DefaultPrefix(a))), Pow2(n - DefaultPrefix(a)), Pow2(32 - n))
  {
    ContiguousMask(a, n);
  }

  /** A class A to C network of 2^hostbits addresses that holds a ends at or below 2^32. */
  lemma NetworkFits(a: Word)
    requires ClassOf(a) in {A, B, C}
    ensures a + Pow2(32 - DefaultPrefix(a)) <= Limit
  {
    Pow2Values();
    Pow2Monotone(32 - DefaultPrefix(a), 24);
  }

  /** The four lists hold at position i the base, the broadcast address (the block's last), the first and the last host address. */
  lemma ListEntries(a: Word, mask: Word, i: nat)
    requires Refines(a, mask) && i < SubnetCount(a, mask)
    ensures var base, block := SubnetBases(a, mask)[i], BlockSize(mask);
      && ValidSubnets(a, mask)[i] == base
      && BroadcastAddresses(a, mask)[i] == base + block - 1
      && FirstAddresses(a, mask)[i] == base + 1
      && LastAddresses(a, mask)[i] == base + block - 2
  {
  }

  /**
   * For a contiguous mask of n bits: the four lists hold, block by block,
   * the base, the broadcast address (the block's last), the first and the
   * last host address; each lies in the base's subnet, and each next base
   * directly follows the previous broadcast address.
   */
  lemma SubnetListsWithinBlocks(a: Word, n: nat)
    requires ClassOf(a) in {A, B, C} && DefaultPrefix(a) <= n <= 32
    requires Refines(a, PrefixMask(n))
    ensures var mask := PrefixMask(n);
      var bases := SubnetBases(a, mask);
      && |ValidSubnets(a, mask)| == |BroadcastAddresses(a, mask)| == |bases|
      && |FirstAddresses(a, mask)| == |LastAddresses(a, mask)| == |bases|
      && (forall i :: 0 <= i < |bases| - 1 ==> BroadcastAddresses(a, mask)[i] + 1 == bases[i + 1])
    ensures var mask := PrefixMask(n);
      forall i :: 0 <= i < |SubnetBases(a, mask)| ==>
        var base, block := SubnetBases(a, mask)[i], BlockSize(mask);
        && ValidSubnets(a, mask)[i] == base
        && BroadcastAddresses(a, mask)[i] == base + block - 1
        && FirstAddresses(a, mask)[i] == base + 1
        && LastAddresses(a, mask)[i] == base + block - 2
    ensures var mask := PrefixMask(n);
      forall i :: 0 <= i < |SubnetBases(a, mask)| ==> WithinBlock(SubnetBases(a, mask)[i], BlockSize(mask), n)
  {
    var mask := PrefixMask(n);
    SubnetBasesSpaced(a, mask);
    forall i | 0 <= i < |SubnetBases(a, mask)| {
      ListEntries(a, mask, i);
    }
    forall i | 0 <= i < |SubnetBases(a, mask)| {
      BlockAddresses(a, n, i);
    }
  }

  /** Block i of a contiguous mask fits below 2^32, and its base, broadcast, first and last address lie in the base's subnet. */
  lemma BlockAddresses(a: Word, n: nat, i: nat)
    requires ClassOf(a) in {A, B, C} && DefaultPrefix(a) <= n <= 32
    requires Refines(a, PrefixMask(n)) && i < SubnetCount(a, PrefixMask(n))
    ensures WithinBlock(SubnetBases(a, PrefixMask(n))[i], BlockSize(PrefixMask(n)), n)
  {
    ContiguousBases(a, n);
    NetworkFits(a);
    RunAddresses(a, DefaultPrefix(a), n, i);
  }

  /**
   * A non-contiguous mask at or above the default mask can drive the
   * enumeration past 2^32: for 0.0.0.0 (class A) with 255.127.255.255 the
   * mask adds 23 one-bits below the default, so there are 2^23 subnets of
   * 2^23 + 1 addresses, and base 512 already lies at or above 2^32.
   */
  lemma NonContiguousBasesPassLimit(a: Word, mask: Word)
    requires a == 0 && mask == 0xFF7F_FFFF
    ensures Refines(a, mask) && SubnetCount(a, mask) == Pow2(23) && BlockSize(mask) == 0x80_0001
    ensures |SubnetBases(a, mask)| > 512 && SubnetBases(a, mask)[512] >= Limit
  {
    ClassUnique(a, A);
    Pow2Values();
    Pow2Add(23, 0);
    assert Pow2(23) == 0x80_0000 by {
      Pow2Add(16, 7);
    }
    assert mask - DefaultMask(a) == OnesThenZeros(23, 0);
    LeadingOnesOfOnesThenZeros(23, 0);
  }

  // ---------------------------------------------------------------------
  // Worked examples

  /** 192.168.1.10 is a class C address whose host byte is 10. */
  lemma Example10(a: Word)
    requires a == 0xC0A8_010A
    ensures ClassOf(a) == C && DefaultPrefix(a) == 24 && DefaultMask(a) == 0xFFFF_FF00
  {
    ClassUnique(a, C);
  }

  /** 192.168.1.10 with mask 255.255.255.0: one subnet of 254 hosts, 192.168.1.0 to 192.168.1.255. */
  lemma Example10Mask24(a: Word, mask: Word)
    requires a == 0xC0A8_010A && mask == 0xFFFF_FF00
    ensures Refines(a, mask) && SubnetCount(a, mask) == 1 && AddressableHosts(mask) == 254
    ensures ValidSubnets(a, mask) == [0xC0A8_0100]
    ensures BroadcastAddresses(a, mask) == [0xC0A8_01FF]
    ensures FirstAddresses(a, mask) == [0xC0A8_0101]
    ensures LastAddresses(a, mask) == [0xC0A8_01FE]
  {
    Example10(a);
    Pow2Values();
    assert Pow2(0) == 1;
    ContiguousMask(a, 24);
    InBlock(a, 0xC0_A801, 0x0A, 24);
    ListEntries(a, mask, 0);
  }

  /** 192.168.1.10 with mask 255.255.255.192: four subnets of 62 hosts at 192.168.1.0, .64, .128 and .192. */
  lemma Example10Mask26(a: Word, mask: Word)
    requires a == 0xC0A8_010A && mask == 0xFFFF_FFC0
    ensures Refines(a, mask) && SubnetCount(a, mask) == 4 && AddressableHosts(mask) == 62
    ensures ValidSubnets(a, mask) == [0xC0A8_0100, 0xC0A8_0140, 0xC0A8_0180, 0xC0A8_01C0]
  {
    Example10Mask26Bases(a, mask);
    ValidSubnetsAreBases(a, mask);
  }

  lemma Example10Mask26Bases(a: Word, mask: Word)
    requires a == 0xC0A8_010A && mask == 0xFFFF_FFC0
    ensures Refines(a, mask) && SubnetCount(a, mask) == 4 && AddressableHosts(mask) == 62
    ensures SubnetBases(a, mask) == [0xC0A8_0100, 0xC0A8_0140, 0xC0A8_0180, 0xC0A8_01C0]
  {
    Example10Mask26Counts(a, mask);
    RunOfFour(0xC0A8_0100, 64);
  }

  lemma Example10Mask26Counts(a: Word, mask: Word)
    requires a == 0xC0A8_010A && mask == 0xFFFF_FFC0
    ensures Refines(a, mask) && SubnetCount(a, mask) == 4 && BlockSize(mask) == 64 && AddressableHosts(mask) == 62
    ensures And(a, mask) == 0xC0A8_0100
  {
    Example10(a);
    assert Pow2(6) == 64 && Pow2(2) == 4;
    ContiguousMask(a, 26);
    InBlock(a, 0x0302_A004, 0x0A, 26);
  }

  // ---------------------------------------------------------------------
  // The enumeration starts at a AND mask, not at the classful network

  /** 192.168.1.70 is a class C address; 255.255.255.192 is its /26 mask: four blocks of 64, the first at 192.168.1.64. */
  lemma Example26(a: Word, mask: Word)
    requires a == 0xC0A8_0146 && mask == 0xFFFF_FFC0
    ensures ClassOf(a) == C && DefaultMask(a) == PrefixMask(24) && mask == PrefixMask(26)
    ensures Refines(a, mask) && SubnetCount(a, mask) == 4 && BlockSize(mask) == 64
    ensures And(a, mask) == 0xC0A8_0140
  {
    Example26Counts(a, mask);
    AndPrefixMask(a, 26);
    DivUnique(a, 64, 0x0302_A005, 6);
  }

  lemma Example26Counts(a: Word, mask: Word)
    requires a == 0xC0A8_0146 && mask == 0xFFFF_FFC0
    ensures ClassOf(a) == C && DefaultMask(a) == PrefixMask(24) && mask == PrefixMask(26)
    ensures Refines(a, mask) && SubnetCount(a, mask) == 4 && BlockSize(mask) == 64
    ensures Pow2(32 - 26) == 64
  {
    ClassUnique(a, C);
    assert Pow2(6) == 64 && Pow2(2) == 4;
    ContiguousMask(a, 26);
  }

  /** For 192.168.1.70 with mask 255.255.255.192 the enumeration yields 192.168.1.64, .128, .192 and 192.168.2.0. */
  lemma SubnetBasesFromAddress(a: Word, mask: Word)
    requires a == 0xC0A8_0146 && mask == 0xFFFF_FFC0
    ensures Refines(a, mask)
    ensures SubnetBases(a, mask) == [0xC0A8_0140, 0xC0A8_0180, 0xC0A8_01C0, 0xC0A8_0200]
  {
    Example26(a, mask);
    RunOfFour(0xC0A8_0140, 64);
  }

  /**
   * In that example the last base lies outside the class C network
   * 192.168.1.0 being subnetted, and the network's own first subnet
   * 192.168.1.0 is missing from the list.
   */
  lemma SubnetBasesLeaveNetwork(a: Word, mask: Word)
    requires a == 0xC0A8_0146 && mask == 0xFFFF_FFC0
    ensures Refines(a, mask)
    ensures SubnetBases(a, mask) == [0xC0A8_0140, 0xC0A8_0180, 0xC0A8_01C0, 0xC0A8_0200]
    ensures And(SubnetBases(a, mask)[3], DefaultMask(a)) != And(a, DefaultMask(a))
    ensures And(a, DefaultMask(a)) !in SubnetBases(a, mask)
  {
    Example26(a, mask);
    SubnetBasesFromAddress(a, mask);
    var next: Word := SubnetBases(a, mask)[3];
    assert Pow2(8) == 256;
    AndPrefixMask(a, 24);
    DivUnique(a, 256, 0xC0_A801, 0x46);
    AndPrefixMask(next, 24);
    DivUnique(next, 256, 0xC0_A802, 0);
  }

  /** The enumeration the subnet report evidently intends: the subnets of the address's classful network. */
  function ClassfulSubnetBases(a: Word, mask: Word): (s: seq<nat>)
    requires Refines(a, mask)
    ensures |s| == SubnetCount(a, mask)
  {
    Run(And(a, DefaultMask(a)), SubnetCount(a, mask), BlockSize(mask))
  }

  /**
   * The enumeration as written and the classful one list the same bases
   * exactly when a AND mask is the start of the classful network, that is,
   * when the address lies in the network's first subnet.
   */
  lemma {:induction false} EnumerationsAgreeIff(a: Word, mask: Word)
    requires Refines(a, mask)
    ensures SubnetBases(a, mask) == ClassfulSubnetBases(a, mask) <==> And(a, mask) == And(a, DefaultMask(a))
  {
    var s, t := SubnetBases(a, mask), ClassfulSubnetBases(a, mask);
    if s == t {
      assert s[0] == t[0];
    }
    if And(a, mask) == And(a, DefaultMask(a)) {
      assert forall i :: 0 <= i < |s| ==> s[i] == t[i];
    }
  }

  /**
   * For a contiguous mask, the classful enumeration lists exactly the
   * subnets of the address's classful network: every base is an aligned
   * address inside that network, and every address of the network falls
   * into the block of one of the bases.
   */
  lemma ClassfulSubnetsTileNetwork(a: Word, n: nat)
    requires ClassOf(a) in {A, B, C} && DefaultPrefix(a) <= n <= 32
    requires Refines(a, PrefixMask(n))
    ensures var mask := PrefixMask(n);
      var bases := ClassfulSubnetBases(a, mask);
      && (forall i :: 0 <= i < |bases| ==>
            && 0 <= bases[i] < Limit
            && And(bases[i], mask) == bases[i]
            && And(bases[i], DefaultMask(a)) == And(a, DefaultMask(a)))
      && (forall x: Word :: And(x, DefaultMask(a)) == And(a, DefaultMask(a)) ==> And(x, mask) in bases)
  {
    ContiguousBases(a, n);
    Tiles(a, DefaultPrefix(a), n);
  }
}
