/** The packed positional record of the k-mer index (`KmerEntry`): which contig a
    k-mer lies on, its offset there, on which strand it was stored, and how long
    the contig is.

    The offset and the strand share one 32-bit word `_pos`: the low 28 bits hold
    the offset, measured from the start of the contig in the contig's forward
    orientation, and the high 4 bits ("nibble") hold the strand flag, all zero
    for forward. The first part of the module describes that word as a value;
    the class `KmerEntry` is the record whose methods rewrite it in place. */
module KmerEntries {
  import opened FixedWidth

  /** One more than the largest storable offset: 2^28. */
  const PosLimit: int := 0x1000_0000
  /** The word held by the "not in the index" entry. */
  const SentinelWord: bv32 := 0x0FFF_FFFF

  // ---------------------------------------------------------------------------
  // Bridging bit-level masks and integer arithmetic on the 28/4 split.

  lemma NibbleValue(w: bv32)
    ensures (w >> 28) as int == w as int / 0x1000_0000
  {
  }

  lemma LowPartValue(w: bv32)
    ensures (w & 0x0FFF_FFFF) as int == w as int - (w >> 28) as int * 0x1000_0000
  {
  }

  lemma EuclidSplit(n: int, q: int)
    requires q == n / 0x1000_0000
    ensures n - q * 0x1000_0000 == n % 0x1000_0000
  {
  }

  /** Masking with 0x0FFF_FFFF is reduction modulo 2^28. */
  lemma LowBits(w: bv32)
    ensures (w & 0x0FFF_FFFF) as int == w as int % 0x1000_0000
  {
    NibbleValue(w);
    LowPartValue(w);
    EuclidSplit(w as int, (w >> 28) as int);
  }

  lemma HighLowSum(w: bv32)
    ensures (w & 0xF000_0000) as int + (w & 0x0FFF_FFFF) as int == w as int
  {
  }

  /** Masking with 0xF000_0000 keeps the multiple of 2^28 below the value. */
  lemma HighBits(w: bv32)
    ensures (w & 0xF000_0000) as int == w as int - w as int % PosLimit
  {
    HighLowSum(w);
    LowBits(w);
  }

  /** Words that agree on the offset field agree modulo 2^28. */
  lemma SameOffsetField(a: bv32, b: bv32)
    requires a & 0x0FFF_FFFF == b & 0x0FFF_FFFF
    ensures a as int % PosLimit == b as int % PosLimit
  {
    LowBits(a);
    LowBits(b);
  }

  /** Words that agree on the strand nibble agree after rounding down to a
      multiple of 2^28. */
  lemma SameNibble(a: bv32, b: bv32)
    requires a & 0xF000_0000 == b & 0xF000_0000
    ensures a as int - a as int % PosLimit == b as int - b as int % PosLimit
  {
    HighBits(a);
    HighBits(b);
  }

  /** A word whose nibble comes from `w` and whose offset field comes from `src`. */
  lemma Splice(w: bv32, src: bv32, r: bv32)
    requires r & 0xF000_0000 == w & 0xF000_0000
    requires r & 0x0FFF_FFFF == src & 0x0FFF_FFFF
    ensures r as int % PosLimit == src as int % PosLimit
    ensures r as int == w as int - w as int % PosLimit + src as int % PosLimit
  {
    SameOffsetField(r, src);
    SameNibble(r, w);
  }

  lemma NibbleValues()
    ensures (0 as bv32) as int == 0
    ensures (0xF000_0000 as bv32) as int == 15 * PosLimit
  {
  }

  lemma NibbleClear(w: bv32)
    ensures (w & 0xF000_0000 == 0) == (w >> 28 == 0)
  {
  }

  lemma ModOfMod(n: int)
    ensures n % Two32 % PosLimit == n % PosLimit
  {
    assert Two32 == 16 * PosLimit;
  }

  lemma SameForward(a: bv32, b: bv32)
    requires a & 0xF000_0000 == b & 0xF000_0000
    ensures Forward(a) == Forward(b)
  {
  }

  lemma PosValue(w: bv32, p: int32, r: bv32)
    requires r & 0xF000_0000 == w & 0xF000_0000 && r & 0x0FFF_FFFF == Bits(p) & 0x0FFF_FFFF
    ensures Offset(r) as int == p as int % PosLimit
    ensures r as int == w as int - w as int % PosLimit + p as int % PosLimit
  {
    Splice(w, Bits(p), r);
    ModOfMod(p as int);
  }

  lemma SameOffset(a: bv32, b: bv32)
    requires a & 0x0FFF_FFFF == b & 0x0FFF_FFFF
    ensures Offset(a) == Offset(b)
  {
  }

  lemma DirValue(w: bv32, fw: bool, nibble: bv32, r: bv32)
    requires nibble == if fw then 0 else 0xF000_0000
    requires r & 0xF000_0000 == nibble && r & 0x0FFF_FFFF == w & 0x0FFF_FFFF
    ensures r as int == w as int % PosLimit + (if fw then 0 else 15 * PosLimit)
  {
    SameOffsetField(r, w);
    HighBits(r);
    NibbleValues();
  }

  lemma DirForward(fw: bool, nibble: bv32, r: bv32)
    requires nibble == if fw then 0 else 0xF000_0000
    requires r & 0xF000_0000 == nibble
    ensures Forward(r) == fw
  {
  }

  // ---------------------------------------------------------------------------
  // The word `_pos` as a value.

  /** `getPos`: the offset stored in the low 28 bits. */
  function Offset(w: bv32): (p: int32)
    ensures 0 <= p && p as int < PosLimit
    ensures p as int == w as int % PosLimit
  {
    LowBits(w);
    (w & 0x0FFF_FFFF) as int as int32
  }

  /** `isFw`: forward exactly when the whole strand nibble is clear, that is
      when the word is below 2^28. */
  function Forward(w: bv32): (b: bool)
    ensures b <==> w as int < PosLimit
  {
    NibbleClear(w);
    NibbleValue(w);
    WordRoundTrip(w >> 28);
    w & 0xF000_0000 == 0
  }

  /** `setPos`: replace the offset field with the low 28 bits of `p`. */
  function WithPos(w: bv32, p: int32): (r: bv32)
    ensures Offset(r) as int == p as int % PosLimit
    ensures r & 0xF000_0000 == w & 0xF000_0000 && Forward(r) == Forward(w)
    ensures r as int == w as int - w as int % PosLimit + p as int % PosLimit
  {
    var r := (w & 0xF000_0000) | (Bits(p) & 0x0FFF_FFFF);
    assert r & 0xF000_0000 == w & 0xF000_0000 && r & 0x0FFF_FFFF == Bits(p) & 0x0FFF_FFFF;
    SameForward(w, r);
    PosValue(w, p, r);
    r
  }

  /** `setDir`: fill the strand nibble with zeros for forward, ones for reverse. */
  function WithDir(w: bv32, fw: bool): (r: bv32)
    ensures Forward(r) == fw
    ensures r & 0x0FFF_FFFF == w & 0x0FFF_FFFF && Offset(r) == Offset(w)
    ensures r as int == w as int % PosLimit + (if fw then 0 else 15 * PosLimit)
  {
    var nibble: bv32 := if fw then 0 else 0xF000_0000;
    var r := (w & 0x0FFF_FFFF) | nibble;
    assert r & 0xF000_0000 == nibble && r & 0x0FFF_FFFF == w & 0x0FFF_FFFF;
    SameOffset(w, r);
    DirValue(w, fw, nibble, r);
    DirForward(fw, nibble, r);
    r
  }

  /** The word built by the two-argument constructor, which does not depend on
      whatever `_pos` held before. */
  function Packed(p: int32, fw: bool): (r: bv32)
    ensures r as int == p as int % PosLimit + (if fw then 0 else 15 * PosLimit)
  {
    WithDir(WithPos(0, p), fw)
  }

  /** `getDist`: how many k-mer positions lie between this one and the end of
      the contig in the direction a query on strand `fw` is moving: towards the
      far end when the query agrees with the stored strand, towards offset 0
      otherwise. Signed overflow in `contig_length - 1 - getPos()` is undefined
      behaviour in C++, so it is excluded. */
  function Dist(len: int32, w: bv32, fw: bool): (d: int32)
    requires Forward(w) == fw ==> MinInt32 <= len as int - 1 - Offset(w) as int
    ensures 0 <= Offset(w) < len ==> 0 <= d < len
  {
    if Forward(w) == fw then (len as int - 1 - Offset(w) as int) as int32
    else Offset(w)
  }

  // ---------------------------------------------------------------------------
  // Properties of the packing.

  /** Pack then unpack gives back an in-range offset and the strand. */
  lemma PackRoundTrip(p: int32, fw: bool)
    requires 0 <= p as int < PosLimit
    ensures Offset(Packed(p, fw)) == p && Forward(Packed(p, fw)) == fw
  {
  }

  /** Offsets outside [0, 2^28) are silently reduced modulo 2^28: 2^28 reads
      back as 0, and -1 as the sentinel's offset 2^28 - 1. */
  lemma WithPosTruncates(w: bv32)
    ensures Offset(WithPos(w, PosLimit as int32)) == 0
    ensures Offset(WithPos(w, -1)) as int == PosLimit - 1
  {
  }

  /** The constructor's word depends only on its arguments, not on the
      uninitialised `_pos` that `setPos` reads. */
  lemma ConstructionForgetsGarbage(g: bv32, p: int32, fw: bool)
    ensures WithDir(WithPos(g, p), fw) == Packed(p, fw)
  {
  }

  lemma WithPosIdempotent(w: bv32, p: int32)
    ensures WithPos(WithPos(w, p), p) == WithPos(w, p)
  {
  }

  /** A second `setPos` overrides the first completely. */
  lemma WithPosLastWins(w: bv32, p: int32, q: int32)
    ensures WithPos(WithPos(w, p), q) == WithPos(w, q)
  {
  }

  lemma WithDirIdempotent(w: bv32, fw: bool)
    ensures WithDir(WithDir(w, fw), fw) == WithDir(w, fw)
  {
  }

  /** `setPos` and `setDir` touch disjoint bits, so their order is irrelevant. */
  lemma PosDirCommute(w: bv32, p: int32, fw: bool)
    ensures WithDir(WithPos(w, p), fw) == WithPos(WithDir(w, fw), p)
  {
  }

  /** The two directions partition the contig: for an offset inside the contig
      the forward and reverse distances add up to `contig_length - 1`. */
  lemma DistancesSum(len: int32, w: bv32)
    requires 0 <= Offset(w) < len
    ensures Dist(len, w, true) as int + Dist(len, w, false) as int == len as int - 1
  {
  }

  /** For a k-mer stored forward at offset `p`, the forward distance is what
      remains after `p` and the reverse distance is `p` itself. */
  lemma DistanceOfForwardEntry(len: int32, p: int32)
    requires 0 <= p < len && p as int < PosLimit
    ensures Dist(len, Packed(p, true), true) as int + p as int == len as int - 1
    ensures Dist(len, Packed(p, true), false) == p
  {
    PackRoundTrip(p, true);
  }

  /** Flipping the stored strand is the same as flipping the query strand. */
  lemma DistanceStrandFlip(len: int32, w: bv32, fw: bool)
    requires Forward(w) != fw ==> MinInt32 <= len as int - 1 - Offset(w) as int
    ensures Dist(len, WithDir(w, !Forward(w)), fw) == Dist(len, w, !fw)
  {
  }

  // ---------------------------------------------------------------------------
  // The record itself.

  class KmerEntry {
    /** Id of the contig, -1 for a k-mer that is not in the index. */
    var contig: int32
    /** Offset (low 28 bits) and strand nibble (high 4 bits). */
    var pos: bv32
    /** Length of the contig in k-mers. */
    var contigLength: int32

    /** The default entry: "k-mer not in the index". */
    constructor Sentinel()
      ensures contig == -1 && contigLength == 0 && pos == SentinelWord
      ensures GetPos() as int == PosLimit - 1 && IsFw()
      ensures GetDist(true) as int == -PosLimit && GetDist(false) as int == PosLimit - 1
    {
      contig, pos, contigLength := -1, SentinelWord, 0;
    }

    /** An entry for offset `p` on contig `id`; `pos` is not initialised before
        the two setters run, so after `new` it is an arbitrary word here. */
    constructor (id: int32, length: int32, p: int32, isFw: bool)
      ensures contig == id && contigLength == length
      ensures pos == Packed(p, isFw)
      ensures GetPos() as int == p as int % PosLimit && IsFw() == isFw
    {
      contig, contigLength := id, length;
      new;
      ghost var garbage := pos;
      SetPos(p);
      SetDir(isFw);
      ConstructionForgetsGarbage(garbage, p, isFw);
    }

    function GetPos(): (r: int32)
      reads this
      ensures 0 <= r && r as int < PosLimit
      ensures r as int == pos as int % PosLimit
    {
      Offset(pos)
    }

    function IsFw(): (b: bool)
      reads this
      ensures b <==> pos as int < PosLimit
    {
      Forward(pos)
    }

    method SetPos(p: int32)
      modifies this`pos
      ensures pos == WithPos(old(pos), p)
      ensures GetPos() as int == p as int % PosLimit
      ensures IsFw() == old(IsFw()) && pos & 0xF000_0000 == old(pos) & 0xF000_0000
    {
      pos := WithPos(pos, p);
    }

    method SetDir(fw: bool)
      modifies this`pos
      ensures pos == WithDir(old(pos), fw)
      ensures IsFw() == fw
      ensures GetPos() == old(GetPos()) && pos & 0x0FFF_FFFF == old(pos) & 0x0FFF_FFFF
    {
      pos := WithDir(pos, fw);
    }

    function GetDist(fw: bool): (d: int32)
      reads this
      requires IsFw() == fw ==> MinInt32 <= contigLength as int - 1 - GetPos() as int
      ensures IsFw() == fw ==> d as int == contigLength as int - 1 - GetPos() as int
      ensures IsFw() != fw ==> d == GetPos()
      ensures 0 <= GetPos() < contigLength ==> 0 <= d < contigLength
    {
      Dist(contigLength, pos, fw)
    }
  }
}
