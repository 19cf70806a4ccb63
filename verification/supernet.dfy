/**
 * Supernetting: the smallest block that holds a list of addresses, found
 * from the bits on which all of them agree (get_supernet_mask and
 * get_supernet_address).
 */
module Supernet {
  import opened Bits

  /** An address paired with a network mask (ip_address_cidr). */
  datatype Cidr = Cidr(address: Word, mask: Word)

  /** All of ws fall in the same block of prefix length n. */
  predicate CommonPrefix(ws: seq<Word>, n: nat)
    requires |ws| >= 1 && n <= 32
  {
    forall j :: 0 <= j < |ws| ==> And(ws[j], PrefixMask(n)) == And(ws[0], PrefixMask(n))
  }

  // ---------------------------------------------------------------------
  // The code as written

  /** get_supernet_mask's prefix length: leading_1s of the agreement bits. */
  function SupernetPrefix(ws: seq<Word>): (n: nat)
    requires |ws| >= 1
    ensures n <= 32
  {
    LeadingOnesOfWord(XnorAll(ws));
    LeadingOnes(XnorAll(ws))
  }

  /** get_supernet_mask: the contiguous mask of the supernet prefix length. */
  function SupernetMask(ws: seq<Word>): (m: Word)
    requires |ws| >= 1
    ensures LeadingOnes(m) == SupernetPrefix(ws)
    ensures m + Pow2(32 - SupernetPrefix(ws)) == Limit
  {
    var n := SupernetPrefix(ws);
    LeadingOnesOfOnesThenZeros(n, 32 - n);
    PrefixMask(n)
  }

  /** get_supernet_address: the first address masked by the supernet mask. */
  function SupernetAddress(ws: seq<Word>): (c: Cidr)
    requires |ws| >= 1
    ensures c.mask == SupernetMask(ws)
    ensures And(ws[0], c.mask) == c.address
    ensures And(c.address, c.mask) == c.address
  {
    var m := SupernetMask(ws);
    MaskIdempotent(ws[0], SupernetPrefix(ws));
    Cidr(And(ws[0], m), m)
  }

  /** Masking a masked address again changes nothing. */
  lemma MaskIdempotent(x: Word, n: nat)
    requires n <= 32
    ensures And(And(x, PrefixMask(n)), PrefixMask(n)) == And(x, PrefixMask(n))
  {
    var p := Pow2(32 - n);
    var y := And(x, PrefixMask(n));
    AndPrefixMask(x, n);
    AndPrefixMask(y, n);
    DivNat(x, p);
    DivUnique(y, p, x / p, 0);
  }

  // ---------------------------------------------------------------------
  // The longest common prefix

  /** Two words agree on their top n bits exactly when masking both with /n gives the same block. */
  lemma SamePrefixMasked(x: Word, y: Word, n: nat)
    requires n <= 32
    ensures And(x, PrefixMask(n)) == And(y, PrefixMask(n)) <==>
      forall i :: 0 <= i < n ==> ToBits(x, 32)[i] == ToBits(y, 32)[i]
  {
    var p := Pow2(32 - n);
    AndPrefixMask(x, n);
    AndPrefixMask(y, n);
    SamePrefix(x, y, n);
    if x / p * p == y / p * p {
      MulCancel(x / p, y / p, p);
    }
    var sx, sy := ToBits(x, 32), ToBits(y, 32);
    if forall i :: 0 <= i < n ==> sx[i] == sy[i] {
      assert sx[..n] == sy[..n];
    }
  }

  /** The inputs share a /n block exactly when they agree on each of the top n bits. */
  lemma CommonPrefixAgree(ws: seq<Word>, n: nat)
    requires |ws| >= 1 && n <= 32
    ensures CommonPrefix(ws, n) <==> forall i :: 0 <= i < n ==> Agree(ws, i)
  {
    forall j | 0 <= j < |ws|
      ensures And(ws[j], PrefixMask(n)) == And(ws[0], PrefixMask(n)) <==>
        forall i :: 0 <= i < n ==> ToBits(ws[j], 32)[i] == ToBits(ws[0], 32)[i]
    {
      SamePrefixMasked(ws[j], ws[0], n);
    }
    if forall i :: 0 <= i < n ==> Agree(ws, i) {
      forall j | 0 <= j < |ws|
        ensures forall i :: 0 <= i < n ==> ToBits(ws[j], 32)[i] == ToBits(ws[0], 32)[i]
      {
        forall i | 0 <= i < n
          ensures ToBits(ws[j], 32)[i] == ToBits(ws[0], 32)[i]
        {
          assert Agree(ws, i);
        }
      }
    }
  }

  /** The length of the longest common prefix: the agreement bits counted from bit 31. */
  function CommonPrefixLength(ws: seq<Word>): (n: nat)
    requires |ws| >= 1
    ensures n <= 32
  {
    LeadingTrue(ToBits(XnorAll(ws), 32))
  }

  /** The inputs share a /n block exactly when n is at most the common prefix length. */
  lemma CommonPrefixUpTo(ws: seq<Word>, n: nat)
    requires |ws| >= 1 && n <= 32
    ensures CommonPrefix(ws, n) <==> n <= CommonPrefixLength(ws)
  {
    CommonPrefixAgree(ws, n);
    XnorAllBits(ws);
    var l := CommonPrefixLength(ws);
    if l < n {
      assert !Agree(ws, l);
    }
  }

  /** The supernet computed from the longest common prefix. */
  function CorrectedSupernetAddress(ws: seq<Word>): (c: Cidr)
    requires |ws| >= 1
    ensures c.mask == PrefixMask(CommonPrefixLength(ws))
    ensures forall j :: 0 <= j < |ws| ==> And(ws[j], c.mask) == c.address
    ensures forall n :: CommonPrefixLength(ws) < n <= 32 ==> !CommonPrefix(ws, n)
  {
    var l := CommonPrefixLength(ws);
    CommonPrefixUpTo(ws, l);
    forall n | l < n <= 32
      ensures !CommonPrefix(ws, n)
    {
      CommonPrefixUpTo(ws, n);
    }
    Cidr(And(ws[0], PrefixMask(l)), PrefixMask(l))
  }

  // ---------------------------------------------------------------------
  // Where the code as written and the longest common prefix meet

  /**
   * leading_1s counts from the highest set bit, not from bit 31, so the
   * code's prefix length is the longest common prefix exactly when the
   * inputs agree on bit 31 or agree on no bit at all.
   */
  lemma SupernetPrefixCorrectIff(ws: seq<Word>)
    requires |ws| >= 1
    ensures SupernetPrefix(ws) == CommonPrefixLength(ws) <==> Agree(ws, 0) || XnorAll(ws) == 0
  {
    var x := XnorAll(ws);
    XnorAllBits(ws);
    if Agree(ws, 0) {
      LeadingOnesTopBit(x);
    } else {
      assert CommonPrefixLength(ws) == 0;
      if x > 0 {
        var s := Binary(x);
        assert LeadingTrue(s) == 1 + LeadingTrue(s[1..]);
      }
    }
  }

  /**
   * When the inputs agree on bit 31, or on no bit at all,
   * get_supernet_address returns the smallest block that holds every input.
   */
  lemma SupernetAddressSmallest(ws: seq<Word>)
    requires |ws| >= 1 && (Agree(ws, 0) || XnorAll(ws) == 0)
    ensures forall j :: 0 <= j < |ws| ==> And(ws[j], SupernetAddress(ws).mask) == SupernetAddress(ws).address
    ensures forall n :: SupernetPrefix(ws) < n <= 32 ==> !CommonPrefix(ws, n)
  {
    SupernetPrefixCorrectIff(ws);
    var c := CorrectedSupernetAddress(ws);
  }

  /**
   * For every other input list, those that differ in bit 31 but agree on
   * some lower bit, the code's prefix is longer than /0 and its block
   * leaves out an input.
   */
  lemma SupernetLeavesOutInput(ws: seq<Word>)
    requires |ws| >= 1 && !Agree(ws, 0) && XnorAll(ws) != 0
    ensures SupernetPrefix(ws) > 0
    ensures exists j :: 0 <= j < |ws| && And(ws[j], SupernetAddress(ws).mask) != SupernetAddress(ws).address
  {
    XnorAllBits(ws);
    assert CommonPrefixLength(ws) == 0;
    SupernetPrefixCorrectIff(ws);
    CommonPrefixUpTo(ws, SupernetPrefix(ws));
  }

  /**
   * [0.0.0.0, 128.0.0.0] differ in bit 31 but agree below it, so the code
   * returns a mask longer than /0 whose block leaves out 128.0.0.0.
   */
  lemma SupernetMissesInput(ws: seq<Word>)
    requires |ws| == 2 && ws[0] == 0 && ws[1] == 0x8000_0000
    ensures SupernetPrefix(ws) > 0
    ensures And(ws[1], SupernetAddress(ws).mask) != SupernetAddress(ws).address
  {
    DisagreeOnTopBit(ws);
    SupernetPrefixCorrectIff(ws);
    var n := SupernetPrefix(ws);
    CommonPrefixUpTo(ws, n);
    SecondOutside(ws, n);
  }

  /** 0.0.0.0 and 128.0.0.0 differ in bit 31 and agree in bit 0. */
  lemma DisagreeOnTopBit(ws: seq<Word>)
    requires |ws| == 2 && ws[0] == 0 && ws[1] == 0x8000_0000
    ensures !Agree(ws, 0) && XnorAll(ws) != 0 && CommonPrefixLength(ws) == 0
  {
    XnorAllBits(ws);
    BitAt(ws[0], 0);
    BitAt(ws[1], 0);
    BitAt(ws[0], 31);
    BitAt(ws[1], 31);
    assert Pow2(32) == 2 * Pow2(31);
    Pow2Word();
    assert !Agree(ws, 0);
    assert Agree(ws, 31);
    BitAt(0, 31);
  }

  /** Of two inputs without a common /n block, the second lies outside the first one's block. */
  lemma SecondOutside(ws: seq<Word>, n: nat)
    requires |ws| == 2 && n <= 32 && !CommonPrefix(ws, n)
    ensures And(ws[1], PrefixMask(n)) != And(ws[0], PrefixMask(n))
  {
  }

  /** The supernet of 10.0.0.0 and 10.0.1.0 is 10.0.0.0 with mask 255.255.254.0. */
  lemma SupernetExample(ws: seq<Word>)
    requires |ws| == 2 && ws[0] == 0x0A00_0000 && ws[1] == 0x0A00_0100
    ensures SupernetPrefix(ws) == 23
    ensures SupernetAddress(ws) == Cidr(0x0A00_0000, 0xFFFF_FE00)
  {
    ExampleAgreesOnTopBit(ws);
    SupernetPrefixCorrectIff(ws);
    ExampleBlock23(ws);
    ExampleBlock24(ws);
    CommonPrefixUpTo(ws, 23);
    CommonPrefixUpTo(ws, 24);
    assert PrefixMask(23) == 0xFFFF_FE00 by {
      Pow2Values();
      assert Pow2(9) == 2 * Pow2(8);
    }
  }

  /** 10.0.0.0 and 10.0.1.0 both have bit 31 clear. */
  lemma ExampleAgreesOnTopBit(ws: seq<Word>)
    requires |ws| == 2 && ws[0] == 0x0A00_0000 && ws[1] == 0x0A00_0100
    ensures Agree(ws, 0)
  {
    Pow2Word();
    assert Pow2(32) == 2 * Pow2(31);
    BitAt(ws[0], 0);
    BitAt(ws[1], 0);
    DivUnique(ws[0], Pow2(31), 0, ws[0]);
    DivUnique(ws[1], Pow2(31), 0, ws[1]);
  }

  /** 10.0.0.0 and 10.0.1.0 share the /23 block 10.0.0.0. */
  lemma ExampleBlock23(ws: seq<Word>)
    requires |ws| == 2 && ws[0] == 0x0A00_0000 && ws[1] == 0x0A00_0100
    ensures And(ws[0], PrefixMask(23)) == 0x0A00_0000
    ensures CommonPrefix(ws, 23)
  {
    Pow2Values();
    assert Pow2(9) == 2 * Pow2(8);
    InBlock(ws[0], 0x5_0000, 0, 23);
    InBlock(ws[1], 0x5_0000, 256, 23);
  }

  /** 10.0.0.0 and 10.0.1.0 lie in different /24 blocks. */
  lemma ExampleBlock24(ws: seq<Word>)
    requires |ws| == 2 && ws[0] == 0x0A00_0000 && ws[1] == 0x0A00_0100
    ensures !CommonPrefix(ws, 24)
  {
    Pow2Values();
    InBlock(ws[0], 0xA_0000, 0, 24);
    InBlock(ws[1], 0xA_0001, 0, 24);
  }
}
