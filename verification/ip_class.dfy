/**
 * Classful IPv4 addressing: the class table, the class of an address, and
 * the per-class statistics (network and host counts, first and last
 * address). Classes A, B and C are those of section 3.2 of RFC 791; class D
 * is the multicast range of section 4 of RFC 1112.
 */
module IpClass {
  import opened Bits

  datatype Option<T> = None | Some(value: T)

  /**
   * One row of the class table: the first address of the class and, for
   * classes A to C, the width of the network and host parts. The `first`
   * field is a plain natural because the sentinel row holds 2^32.
   */
  datatype ClassRow = ClassRow(first: nat, netbits: Option<nat>, hostbits: Option<nat>)

  /** The five classes followed by a sentinel row that closes class E at 2^32. */
  const Table: seq<ClassRow> := [
    ClassRow(0x0000_0000, Some(7), Some(24)),
    ClassRow(0x8000_0000, Some(14), Some(16)),
    ClassRow(0xc000_0000, Some(21), Some(8)),
    ClassRow(0xe000_0000, None, None),
    ClassRow(0xf000_0000, None, None),
    ClassRow(0x1_0000_0000, None, None)
  ]

  datatype IpClass = A | B | C | D | E

  /** The position of the class letter in "ABCDE" (class2int). */
  function ClassIndex(c: IpClass): (i: nat)
    ensures i < 5 && [A, B, C, D, E][i] == c
  {
    match c
    case A => 0
    case B => 1
    case C => 2
    case D => 3
    case E => 4
  }

  /** The class letter at position i of "ABCDE" (int2class). */
  function IndexClass(i: nat): (c: IpClass)
    requires i < 5
    ensures ClassIndex(c) == i
  {
    [A, B, C, D, E][i]
  }

  /** The class table's boundaries start at 0, strictly increase and end at 2^32. */
  lemma TableOrdered()
    ensures Table[0].first == 0 && Table[5].first == Limit
    ensures forall i, j :: 0 <= i < j < |Table| ==> Table[i].first < Table[j].first
  {
  }

  /**
   * The scan of get_ip_addr_class from row i on: the first class k >= i
   * whose successor row starts above a, or None if the scan falls off the
   * end of the table.
   */
  function ClassSearch(a: nat, i: nat): (r: Option<nat>)
    requires i <= 5
    decreases 5 - i
    ensures r.Some? ==> i <= r.value < 5 && a < Table[r.value + 1].first
    ensures r.Some? ==> forall j :: i < j <= r.value ==> Table[j].first <= a
    ensures r.None? ==> forall j :: i < j <= 5 ==> Table[j].first <= a
  {
    if i == 5 then None
    else if a < Table[i + 1].first then Some(i)
    else ClassSearch(a, i + 1)
  }

  /** get_ip_addr_class: the class whose table range holds the address. */
  function ClassOf(a: Word): (c: IpClass)
    ensures Table[ClassIndex(c)].first <= a < Table[ClassIndex(c) + 1].first
  {
    var r := ClassSearch(a, 0);
    IndexClass(r.value)
  }

  /** The lookup never falls off the table: every 32-bit value has a class. */
  lemma ClassSearchTotal(a: Word)
    ensures ClassSearch(a, 0).Some?
    ensures Table[ClassSearch(a, 0).value].first <= a
  {
  }

  /** The class of an address is the only class whose range holds it. */
  lemma ClassUnique(a: Word, c: IpClass)
    requires Table[ClassIndex(c)].first <= a < Table[ClassIndex(c) + 1].first
    ensures ClassOf(a) == c
  {
    TableOrdered();
  }

  /**
   * The class read off the leading bits, as RFC 791 and RFC 1112 define it:
   * 0 for A, 10 for B, 110 for C, 1110 for D and 1111 for E; that is, the
   * class index is the number of leading one-bits among the top four bits.
   */
  lemma {:induction false} ClassOfLeadingBits(a: Word)
    ensures ClassIndex(ClassOf(a)) == LeadingTrue(ToBits(a, 32)[..4])
  {
    Pow2Top4();
    ToBitsPrefix(a, 4, 28);
    DivNat(a, 0x1000_0000);
    Top4(a / 0x1000_0000);
    ClassByTopNibble(a);
  }

  /** The class of an address read off its top four bits, a / 2^28. */
  lemma ClassByTopNibble(a: Word)
    ensures var k := a / 0x1000_0000;
      ClassIndex(ClassOf(a)) == if k < 8 then 0 else if k < 12 then 1 else if k < 14 then 2 else if k < 15 then 3 else 4
  {
    var k := a / 0x1000_0000;
    DivMod(a, 0x1000_0000);
    if k < 8 {
      ClassUnique(a, A);
    } else if k < 12 {
      ClassUnique(a, B);
    } else if k < 14 {
      ClassUnique(a, C);
    } else if k < 15 {
      ClassUnique(a, D);
    } else {
      ClassUnique(a, E);
    }
  }

  lemma Pow2Top4()
    ensures Pow2(28) == 0x1000_0000 && Pow2(4) == 16
  {
    Pow2Values();
    Pow2Add(4, 24);
  }

  /** The leading-one count of a 4-bit value, by its range. */
  lemma Top4(k: nat)
    requires k < 16
    ensures LeadingTrue(ToBits(k, 4)) ==
      if k < 8 then 0 else if k < 12 then 1 else if k < 14 then 2 else if k < 15 then 3 else 4
  {
    var k1 := k / 2;
    var k2 := k1 / 2;
    var k3 := k2 / 2;
    var s := ToBits(k, 4);
    assert s == [k3 % 2 == 1, k2 % 2 == 1, k1 % 2 == 1, k % 2 == 1] by {
      assert ToBits(k, 4) == ToBits(k1, 3) + [k % 2 == 1];
      assert ToBits(k1, 3) == ToBits(k2, 2) + [k1 % 2 == 1];
      assert ToBits(k2, 2) == ToBits(k3, 1) + [k2 % 2 == 1];
    }
    assert s[1..] == [k2 % 2 == 1, k1 % 2 == 1, k % 2 == 1];
    assert s[1..][1..] == [k1 % 2 == 1, k % 2 == 1];
    assert s[1..][1..][1..] == [k % 2 == 1];
    assert s[1..][1..][1..][1..] == [];
    if k < 8 {
      assert k3 == 0;
    } else if k < 12 {
      assert k3 == 1 && k2 == 2;
    } else if k < 14 {
      assert k3 == 1 && k2 == 3 && k1 == 6;
      assert LeadingTrue(s[1..][1..]) == 0;
    } else if k < 15 {
      assert k3 == 1 && k2 == 3 && k1 == 7 && k == 14;
      assert LeadingTrue(s[1..][1..][1..]) == 0;
    } else {
      assert k3 == 1 && k2 == 3 && k1 == 7 && k == 15;
      assert LeadingTrue(s[1..][1..][1..]) == 1;
    }
  }

  /** The value get_ip_addr_network and get_ip_addr_host return: a count or "N/A". */
  datatype Count = Count(n: nat) | NotApplicable

  /** ip_class_row: the row of the address's class, or the row after it. */
  function Row(a: Word, offset: nat): (row: ClassRow)
    requires offset <= 1
    ensures exists k :: 0 <= k < 5 && Table[k].first <= a < Table[k + 1].first && row == Table[k + offset]
  {
    Table[ClassIndex(ClassOf(a)) + offset]
  }

  /** get_ip_addr_network: 2^netbits for classes A to C, "N/A" otherwise. */
  function NetworkCount(a: Word): (r: Count)
    ensures ClassOf(a) == A ==> r == Count(128)
    ensures ClassOf(a) == B ==> r == Count(16384)
    ensures ClassOf(a) == C ==> r == Count(2097152)
    ensures ClassOf(a) in {D, E} ==> r == NotApplicable
  {
    Pow2Values();
    match Row(a, 0).netbits
    case Some(n) => if n != 0 then Count(Pow2(n)) else NotApplicable
    case None => NotApplicable
  }

  /** get_ip_addr_host: 2^hostbits for classes A to C, "N/A" otherwise. */
  function HostCount(a: Word): (r: Count)
    ensures ClassOf(a) == A ==> r == Count(16777216)
    ensures ClassOf(a) == B ==> r == Count(65536)
    ensures ClassOf(a) == C ==> r == Count(256)
    ensures ClassOf(a) in {D, E} ==> r == NotApplicable
  {
    Pow2Values();
    match Row(a, 0).hostbits
    case Some(n) => if n != 0 then Count(Pow2(n)) else NotApplicable
    case None => NotApplicable
  }

  /** get_ip_addr_first_address: the lowest address of the address's class. */
  function FirstAddress(a: Word): (r: Word)
    ensures r <= a && ClassOf(r) == ClassOf(a)
    ensures forall b: Word :: b < r ==> ClassOf(b) != ClassOf(a)
  {
    var f := Row(a, 0).first;
    ClassUnique(f, ClassOf(a));
    f
  }

  /** get_ip_addr_last_address: the highest address of the address's class. */
  function LastAddress(a: Word): (r: Word)
    ensures a <= r && ClassOf(r) == ClassOf(a)
    ensures forall b: Word :: r < b ==> ClassOf(b) != ClassOf(a)
    ensures ClassOf(a) == E ==> r == 0xFFFF_FFFF
  {
    var l := Row(a, 1).first - 1;
    ClassUnique(l, ClassOf(a));
    l
  }

  /** 10.0.0.1 is a class A address: 128 networks of 16777216 hosts, from 0.0.0.0 to 127.255.255.255. */
  lemma ClassAExample(a: Word)
    requires a == 0x0A00_0001
    ensures ClassOf(a) == A
    ensures NetworkCount(a) == Count(128) && HostCount(a) == Count(16777216)
    ensures FirstAddress(a) == 0 && LastAddress(a) == 0x7FFF_FFFF
  {
    ClassUnique(a, A);
  }
}
