/**
 * Runs of equal, consecutive address blocks: the arithmetic behind subnet
 * enumeration. Everything here is stated for a network prefix length p and
 * a subnet prefix length n with p <= n <= 32, without reference to address
 * classes: a /p network holds 2^(n - p) blocks of 2^(32 - n) addresses.
 */
module Blocks {
  import opened Bits

  /** The first address of the i-th block of the given size after start. */
  function BlockStart(start: nat, i: nat, block: nat): (r: nat)
    ensures r >= start
  {
    MulNonneg(i, block);
    start + i * block
  }

  /** count blocks of the given size, the first at start. */
  function Run(start: nat, count: nat, block: nat): (s: seq<nat>)
    ensures |s| == count
  {
    seq(count, i requires 0 <= i => BlockStart(start, i, block))
  }

  /** Consecutive blocks of a run are one block apart, so a run strictly ascends. */
  lemma RunSpaced(start: nat, count: nat, block: nat)
    requires block >= 1
    ensures count > 0 ==> Run(start, count, block)[0] == start
    ensures forall i :: 0 <= i < count - 1 ==> Run(start, count, block)[i + 1] == Run(start, count, block)[i] + block
    ensures forall i, j :: 0 <= i < j < count ==> Run(start, count, block)[i] < Run(start, count, block)[j]
  {
    var s := Run(start, count, block);
    forall i | 0 <= i < count - 1
      ensures s[i + 1] == s[i] + block
    {
      MulStep(i, block);
    }
    forall i, j | 0 <= i < j < count
      ensures s[i] < s[j]
    {
      MulStrict(block, i, j);
    }
  }

  /** A run of four blocks, written out. */
  lemma RunOfFour(start: nat, block: nat)
    ensures Run(start, 4, block) == [start, start + block, start + 2 * block, start + 3 * block]
  {
    var s := Run(start, 4, block);
    assert s[1] == start + block;
    assert s[2] == start + 2 * block;
    assert s[3] == start + 3 * block;
  }

  /**
   * One step of an enumeration: the next block starts one block further,
   * and block k starts below start + block * count exactly when k < count.
   */
  lemma StepBelowEnd(start: nat, k: nat, count: nat, block: nat)
    requires block >= 1
    ensures BlockStart(start, k + 1, block) == BlockStart(start, k, block) + block
    ensures BlockStart(start, k, block) < start + block * count <==> k < count
  {
    MulStep(k, block);
    if k < count {
      MulStrict(block, k, count);
      MulComm(count, block);
    } else {
      MulMonotone(block, count, k);
    }
  }

  /**
   * The /p network of x: x AND the /p mask is the q-th multiple of the
   * network size, at or below x, and the network ends at or below 2^32.
   */
  lemma NetworkOf(x: Word, p: nat) returns (q: nat)
    requires p <= 32
    ensures q == x / Pow2(32 - p)
    ensures And(x, PrefixMask(p)) == q * Pow2(32 - p)
    ensures q * Pow2(32 - p) <= x
    ensures q * Pow2(32 - p) + Pow2(32 - p) <= Limit
  {
    var h := 32 - p;
    var net := Pow2(h);
    DivNat(x, net);
    q := x / net;
    AndPrefixMask(x, p);
    DivMulBound(x, net);
    DivBound(x, p, h);
    Pow2Add(p, h);
    Pow2Word();
    MulStep(q, net);
    MulMonotone(net, q + 1, Pow2(p));
  }

  /** A /p network holds 2^(n - p) blocks of 2^(32 - n) addresses. */
  lemma BlocksPerNetwork(p: nat, n: nat)
    requires p <= n <= 32
    ensures Pow2(n - p) * Pow2(32 - n) == Pow2(32 - p)
  {
    Pow2Add(n - p, 32 - n);
  }

  /** Block i of count equal blocks that together span net addresses ends within them. */
  lemma BlockWithin(i: nat, count: nat, block: nat, net: nat)
    requires i < count && count * block == net
    ensures i * block + block <= net
  {
    MulStep(i, block);
    MulMonotone(block, i + 1, count);
  }

  /** An address o places after a block start q * 2^(32 - n) lies in that block's /n prefix. */
  lemma InBlockAt(base: nat, q: nat, o: nat, n: nat)
    requires n <= 32 && base == q * Pow2(32 - n) && o < Pow2(32 - n) && base + o < Limit
    ensures And(base + o, PrefixMask(n)) == base
  {
    InBlock(base + o, q, o, n);
  }

  // ---------------------------------------------------------------------
  // A run that starts at x AND the /n mask

  /**
   * Block i of the 2^(n - p) blocks of 2^(32 - n) addresses that start at
   * x AND the /n mask is a multiple of the block and ends at or below 2^32,
   * provided the /p network size still fits above x.
   */
  lemma RunBlockAt(x: Word, p: nat, n: nat, i: nat) returns (q: nat)
    requires p <= n <= 32 && i < Pow2(n - p) && x + Pow2(32 - p) <= Limit
    ensures Run(And(x, PrefixMask(n)), Pow2(n - p), Pow2(32 - n))[i] == q * Pow2(32 - n)
    ensures q * Pow2(32 - n) + Pow2(32 - n) <= Limit
  {
    var block, count := Pow2(32 - n), Pow2(n - p);
    var start := NetworkOf(x, n);
    BlocksPerNetwork(p, n);
    AlignedBase(start, i, count, block, Pow2(32 - p), x);
    q := start + i;
  }

  /** Base i of a run of equal blocks that starts at a multiple of the block is itself a multiple, and fits when the run does. */
  lemma AlignedBase(q: nat, i: nat, count: nat, block: nat, total: nat, bound: nat)
    requires q * block <= bound && count * block == total && bound + total <= Limit && i < count
    ensures q * block + i * block == (q + i) * block
    ensures (q + i) * block + block <= Limit
  {
    MulDistrib(q, i, block);
    MulStep(i, block);
    MulMonotone(block, i + 1, count);
    MulDistrib(q, i + 1, block);
  }

  /**
   * The block of the given size at base lies below 2^32, and its base, its
   * last address and, for blocks of at least two addresses, its second
   * and second-to-last addresses all mask to the base under /n.
   */
  predicate WithinBlock(base: int, block: int, n: nat)
    requires n <= 32
  {
    && 0 <= base && 1 <= block && base + block <= Limit
    && And(base, PrefixMask(n)) == base
    && And(base + block - 1, PrefixMask(n)) == base
    && (2 <= block ==> And(base + 1, PrefixMask(n)) == base && And(base + block - 2, PrefixMask(n)) == base)
  }

  /** Every block of the run from x AND the /n mask is a /n subnet that holds its own addresses. */
  lemma RunAddresses(x: Word, p: nat, n: nat, i: nat)
    requires p <= n <= 32 && i < Pow2(n - p) && x + Pow2(32 - p) <= Limit
    ensures WithinBlock(Run(And(x, PrefixMask(n)), Pow2(n - p), Pow2(32 - n))[i], Pow2(32 - n), n)
  {
    var q := RunBlockAt(x, p, n, i);
    BlockOffsets(q, n);
  }

  /** The block of 2^(32 - n) addresses at q * 2^(32 - n) is a /n subnet that holds its own addresses. */
  lemma BlockOffsets(q: nat, n: nat)
    requires n <= 32 && q * Pow2(32 - n) + Pow2(32 - n) <= Limit
    ensures WithinBlock(q * Pow2(32 - n), Pow2(32 - n), n)
  {
    var block := Pow2(32 - n);
    var base := q * block;
    MulNonneg(q, block);
    InBlockAt(base, q, 0, n);
    InBlockAt(base, q, block - 1, n);
    if 2 <= block {
      InBlockAt(base, q, 1, n);
      InBlockAt(base, q, block - 2, n);
    }
  }

  // ---------------------------------------------------------------------
  // A run that starts at the /p network of x

  /**
   * Block i of the 2^(n - p) blocks of 2^(32 - n) addresses that start at
   * the /p network q * 2^(32 - p) of x lies i blocks into that network,
   * which is also the (q * 2^(n - p) + i)-th multiple of the block.
   */
  lemma TileAt(x: Word, p: nat, n: nat, i: nat) returns (q: nat)
    requires p <= n <= 32 && i < Pow2(n - p)
    ensures q == x / Pow2(32 - p)
    ensures And(x, PrefixMask(p)) == q * Pow2(32 - p)
    ensures var block, net, count := Pow2(32 - n), Pow2(32 - p), Pow2(n - p);
      && Run(And(x, PrefixMask(p)), count, block)[i] == q * net + i * block == (q * count + i) * block
      && i * block + block <= net && q * net + net <= Limit
  {
    var block, net, count := Pow2(32 - n), Pow2(32 - p), Pow2(n - p);
    q := NetworkOf(x, p);
    BlocksPerNetwork(p, n);
    BlockWithin(i, count, block, net);
    MulRegroup(q, count, i, block);
  }

  /** Block i of that run is aligned to /n and lies in the /p network of x. */
  lemma TileBlock(x: Word, p: nat, n: nat, i: nat)
    requires p <= n <= 32 && i < Pow2(n - p)
    ensures var base := Run(And(x, PrefixMask(p)), Pow2(n - p), Pow2(32 - n))[i];
      && 0 <= base < Limit
      && And(base, PrefixMask(n)) == base
      && And(base, PrefixMask(p)) == And(x, PrefixMask(p))
  {
    var block, count := Pow2(32 - n), Pow2(n - p);
    var base := Run(And(x, PrefixMask(p)), count, block)[i];
    var q := TileAt(x, p, n, i);
    MulNonneg(q, count);
    MulNonneg(i, block);
    InBlock(base, q * count + i, 0, n);
    InBlock(base, q, i * block, p);
  }

  /** Two addresses in the same /p network have the same quotient by the network size. */
  lemma SameNetwork(x: Word, y: Word, p: nat)
    requires p <= 32 && And(y, PrefixMask(p)) == And(x, PrefixMask(p))
    ensures y / Pow2(32 - p) == x / Pow2(32 - p)
  {
    var net := Pow2(32 - p);
    AndPrefixMask(x, p);
    AndPrefixMask(y, p);
    MulCancel(y / net, x / net, net);
  }

  /** The /n block of y is block j of its /p network, for some j < 2^(n - p). */
  lemma CoverIndex(x: Word, p: nat, n: nat, y: Word) returns (j: nat)
    requires p <= n <= 32 && y / Pow2(32 - p) == x / Pow2(32 - p)
    ensures j < Pow2(n - p)
    ensures y / Pow2(32 - n) == x / Pow2(32 - p) * Pow2(n - p) + j
  {
    var block, count := Pow2(32 - n), Pow2(n - p);
    BlocksPerNetwork(p, n);
    MulComm(count, block);
    DivDiv(y, block, count);
    DivMod(y / block, count);
    j := y / block % count;
  }

  /** Every address y of the /p network of x falls into the block of one base of the run. */
  lemma TileCover(x: Word, p: nat, n: nat, y: Word)
    requires p <= n <= 32 && And(y, PrefixMask(p)) == And(x, PrefixMask(p))
    ensures And(y, PrefixMask(n)) in Run(And(x, PrefixMask(p)), Pow2(n - p), Pow2(32 - n))
  {
    SameNetwork(x, y, p);
    var j := CoverIndex(x, p, n, y);
    var bases := Run(And(x, PrefixMask(p)), Pow2(n - p), Pow2(32 - n));
    assert bases[j] == And(y, PrefixMask(n)) by {
      AndPrefixMask(y, n);
      var q := TileAt(x, p, n, j);
    }
  }

  /**
   * The run of 2^(n - p) blocks from the /p network of x lists exactly the
   * /n subnets of that network: every base is an aligned address of the
   * network, and every address of the network falls into one base's block.
   */
  lemma Tiles(x: Word, p: nat, n: nat)
    requires p <= n <= 32
    ensures var bases := Run(And(x, PrefixMask(p)), Pow2(n - p), Pow2(32 - n));
      && (forall i :: 0 <= i < |bases| ==>
            && 0 <= bases[i] < Limit
            && And(bases[i], PrefixMask(n)) == bases[i]
            && And(bases[i], PrefixMask(p)) == And(x, PrefixMask(p)))
      && (forall y: Word :: And(y, PrefixMask(p)) == And(x, PrefixMask(p)) ==> And(y, PrefixMask(n)) in bases)
  {
    var bases := Run(And(x, PrefixMask(p)), Pow2(n - p), Pow2(32 - n));
    forall i | 0 <= i < |bases|
      ensures 0 <= bases[i] < Limit
      ensures And(bases[i], PrefixMask(n)) == bases[i]
      ensures And(bases[i], PrefixMask(p)) == And(x, PrefixMask(p))
    {
      TileBlock(x, p, n, i);
    }
    forall y: Word | And(y, PrefixMask(p)) == And(x, PrefixMask(p))
      ensures And(y, PrefixMask(n)) in bases
    {
      TileCover(x, p, n, y);
    }
  }
}
