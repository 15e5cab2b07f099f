/** The compact configuration word: six fields (filter length N, derivative set D,
    hull order Q, baseline order K, timescale range [M, U)) packed into disjoint
    bit ranges of one 64-bit word. */
module Types {
  import opened Bits

  type Word = bv64

  /** A field selector; selectors are unsigned shorts. */
  type FieldId = i: int | 0 <= i < 0x1_0000

  const FieldN: FieldId := 0x0000
  const FieldD: FieldId := 0x0001
  const FieldQ: FieldId := 0x0002
  const FieldK: FieldId := 0x0004
  const FieldM: FieldId := 0x0008
  const FieldU: FieldId := 0x0010

  const MaskN: Word := 0x0000_0000_0000_FFFF
  const MaskD: Word := 0x0000_0000_FFFF_0000
  const MaskQ: Word := 0x0000_000F_0000_0000
  const MaskK: Word := 0x0000_00F0_0000_0000
  const MaskM: Word := 0x0000_0F00_0000_0000
  const MaskU: Word := 0x0000_F000_0000_0000

  /** What decoding or encoding an unknown selector yields. */
  const Invalid: Word := 0

  predicate IsField(id: FieldId)
  {
    id == FieldN || id == FieldD || id == FieldQ || id == FieldK || id == FieldM || id == FieldU
  }

  /** The bit range a selector owns; unknown selectors own nothing. */
  function Mask(id: FieldId): Word
  {
    if id == FieldN then MaskN else if id == FieldD then MaskD
    else if id == FieldQ then MaskQ else if id == FieldK then MaskK
    else if id == FieldM then MaskM else if id == FieldU then MaskU
    else 0
  }

  /** The largest value a field can hold, `mask >> shift`: 16 bits for N and D,
      4 bits for the others. */
  function Bound(id: FieldId): Word
  {
    if id == FieldN || id == FieldD then 0xFFFF else if IsField(id) then 0xF else 0
  }

  /** `decode<id>(w)`: the field's bits, shifted down; `Invalid` for any other
      selector. */
  function Decode(id: FieldId, w: Word): (r: Word)
    ensures IsField(id) ==> r <= Bound(id)
    ensures !IsField(id) ==> r == Invalid
  {
    if id == FieldN then DecodeN(w) else if id == FieldD then DecodeD(w)
    else if id == FieldQ then DecodeQ(w) else if id == FieldK then DecodeK(w)
    else if id == FieldM then DecodeM(w) else if id == FieldU then DecodeU(w)
    else Invalid
  }

  /** `encode<id>(v)`: the value shifted into the field's range. The source asserts
      that the value fits the field; an unknown selector encodes to `Invalid`. */
  function Encode(id: FieldId, v: Word): (r: Word)
    requires IsField(id) ==> v <= Bound(id)
    ensures IsField(id) ==> Decode(id, r) == v
    ensures !IsField(id) ==> r == Invalid
  {
    if id == FieldN then EncodeN(v) else if id == FieldD then EncodeD(v)
    else if id == FieldQ then EncodeQ(v) else if id == FieldK then EncodeK(v)
    else if id == FieldM then EncodeM(v) else if id == FieldU then EncodeU(v)
    else Invalid
  }

  // The six specialisations of `decode<id>` and `encode<id>`, one pair per field.

  function DecodeN(w: Word): (r: Word)
    ensures r <= 0xFFFF
  {
    (w & MaskN) >> 0
  }

  function DecodeD(w: Word): (r: Word)
    ensures r <= 0xFFFF
  {
    (w & MaskD) >> 16
  }

  function DecodeQ(w: Word): (r: Word)
    ensures r <= 0xF
  {
    (w & MaskQ) >> 32
  }

  function DecodeK(w: Word): (r: Word)
    ensures r <= 0xF
  {
    (w & MaskK) >> 36
  }

  function DecodeM(w: Word): (r: Word)
    ensures r <= 0xF
  {
    (w & MaskM) >> 40
  }

  function DecodeU(w: Word): (r: Word)
    ensures r <= 0xF
  {
    (w & MaskU) >> 44
  }

  function EncodeN(v: Word): (r: Word)
    requires v <= 0xFFFF
    ensures DecodeN(r) == v && r & !MaskN == 0
  {
    v << 0
  }

  function EncodeD(v: Word): (r: Word)
    requires v <= 0xFFFF
    ensures DecodeD(r) == v && r & !MaskD == 0
  {
    v << 16
  }

  function EncodeQ(v: Word): (r: Word)
    requires v <= 0xF
    ensures DecodeQ(r) == v && r & !MaskQ == 0
  {
    v << 32
  }

  function EncodeK(v: Word): (r: Word)
    requires v <= 0xF
    ensures DecodeK(r) == v && r & !MaskK == 0
  {
    v << 36
  }

  function EncodeM(v: Word): (r: Word)
    requires v <= 0xF
    ensures DecodeM(r) == v && r & !MaskM == 0
  {
    v << 40
  }

  function EncodeU(v: Word): (r: Word)
    requires v <= 0xF
    ensures DecodeU(r) == v && r & !MaskU == 0
  {
    v << 44
  }

  /** The bound of each field is its mask shifted down, and the six masks own
      pairwise disjoint bit ranges. */
  lemma MasksDisjoint(a: FieldId, b: FieldId)
    requires IsField(a) && IsField(b)
    ensures a != b ==> Mask(a) & Mask(b) == 0
    ensures a == b ==> Mask(a) & Mask(b) == Mask(a)
    ensures Decode(a, Mask(a)) == Bound(a)
  {
  }

  /** The bits of the six fields together. */
  const FieldBits: Word := MaskN | MaskD | MaskQ | MaskK | MaskM | MaskU

  /** The converse of the round trip: a word with no bits outside the six fields is
      the packing of its own decoded fields, so packing is a bijection between
      in-range field values and such words. */
  lemma RepackFields(w: Word)
    requires w & !FieldBits == 0
    ensures EncodeConfig(DecodeN(w) as bv16, DecodeD(w) as bv16, DecodeQ(w) as bv16,
                         DecodeK(w) as bv16, DecodeM(w) as bv16, DecodeU(w) as bv16) == w
  {
    var n, d, q := DecodeN(w) as bv16, DecodeD(w) as bv16, DecodeQ(w) as bv16;
    var k, m, u := DecodeK(w) as bv16, DecodeM(w) as bv16, DecodeU(w) as bv16;
    WidenNarrowed(DecodeN(w));
    WidenNarrowed(DecodeD(w));
    WidenNarrowed(DecodeQ(w));
    WidenNarrowed(DecodeK(w));
    WidenNarrowed(DecodeM(w));
    WidenNarrowed(DecodeU(w));
    PackedWord(n, d, q, k, m, u);
    FieldsCover(w);
  }

  /** A value of at most 16 bits survives narrowing to 16 bits and widening back. */
  lemma WidenNarrowed(x: Word)
    requires x <= 0xFFFF
    ensures (x as bv16) as Word == x
  {
  }

  /** The packed word is the OR of the six placed fields. */
  lemma PackedWord(n: bv16, d: bv16, q: bv16, k: bv16, m: bv16, u: bv16)
    requires q <= 0xF && k <= 0xF && m <= 0xF && u <= 0xF
    ensures EncodeConfig(n, d, q, k, m, u)
      == EncodeN(n as Word) | EncodeD(d as Word) | EncodeQ(q as Word)
       | EncodeK(k as Word) | EncodeM(m as Word) | EncodeU(u as Word)
  {
  }

  /** Re-encoding each decoded field gives back the field's bits, and the six of them
      together give back a word without stray bits. */
  lemma FieldsCover(w: Word)
    requires w & !FieldBits == 0
    ensures EncodeN(DecodeN(w)) | EncodeD(DecodeD(w)) | EncodeQ(DecodeQ(w))
      | EncodeK(DecodeK(w)) | EncodeM(DecodeM(w)) | EncodeU(DecodeU(w)) == w
  {
    ReencodeN(w);
    ReencodeD(w);
    ReencodeQ(w);
    ReencodeK(w);
    ReencodeM(w);
    ReencodeU(w);
    SplitByFields(w);
  }

  // Re-encoding one decoded field keeps exactly that field's bits.

  lemma ReencodeN(w: Word)
    ensures EncodeN(DecodeN(w)) == w & MaskN
  {
  }

  lemma ReencodeD(w: Word)
    ensures EncodeD(DecodeD(w)) == w & MaskD
  {
  }

  lemma ReencodeQ(w: Word)
    ensures EncodeQ(DecodeQ(w)) == w & MaskQ
  {
  }

  lemma ReencodeK(w: Word)
    ensures EncodeK(DecodeK(w)) == w & MaskK
  {
  }

  lemma ReencodeM(w: Word)
    ensures EncodeM(DecodeM(w)) == w & MaskM
  {
  }

  lemma ReencodeU(w: Word)
    ensures EncodeU(DecodeU(w)) == w & MaskU
  {
  }

  /** A word without stray bits is the OR of its six fields' bits. */
  lemma SplitByFields(w: Word)
    requires w & !FieldBits == 0
    ensures (w & MaskN) | (w & MaskD) | (w & MaskQ) | (w & MaskK) | (w & MaskM) | (w & MaskU) == w
  {
  }

  /** The packed six-field configuration word. */
  function EncodeConfig(n: bv16, d: bv16, q: bv16, k: bv16, m: bv16, u: bv16): (w: Word)
    requires q <= 0xF && k <= 0xF && m <= 0xF && u <= 0xF
    ensures Decode(FieldN, w) == n as Word
    ensures Decode(FieldD, w) == d as Word
    ensures Decode(FieldQ, w) == q as Word
    ensures Decode(FieldK, w) == k as Word
    ensures Decode(FieldM, w) == m as Word
    ensures Decode(FieldU, w) == u as Word
  {
    var (n', d', q', k', m', u') := (n as Word, d as Word, q as Word, k as Word, m as Word, u as Word);
    assert n' <= 0xFFFF && d' <= 0xFFFF && q' <= 0xF && k' <= 0xF && m' <= 0xF && u' <= 0xF;
    PackedFields(n', d', q', k', m', u');
    EncodeN(n') | EncodeD(d') | EncodeQ(q') | EncodeK(k') | EncodeM(m') | EncodeU(u')
  }

  /** Each field of an OR of six placed values decodes to its own value: the
      round trip of the packing, one field per lemma so that each proof stays small. */
  lemma PackedFields(n: Word, d: Word, q: Word, k: Word, m: Word, u: Word)
    requires n <= 0xFFFF && d <= 0xFFFF && q <= 0xF && k <= 0xF && m <= 0xF && u <= 0xF
    ensures var w := EncodeN(n) | EncodeD(d) | EncodeQ(q) | EncodeK(k) | EncodeM(m) | EncodeU(u);
      && DecodeN(w) == n && DecodeD(w) == d && DecodeQ(w) == q
      && DecodeK(w) == k && DecodeM(w) == m && DecodeU(w) == u
  {
    PackedN(n, d, q, k, m, u);
    PackedD(n, d, q, k, m, u);
    PackedQ(n, d, q, k, m, u);
    PackedK(n, d, q, k, m, u);
    PackedM(n, d, q, k, m, u);
    PackedU(n, d, q, k, m, u);
  }

  lemma PackedN(n: Word, d: Word, q: Word, k: Word, m: Word, u: Word)
    requires n <= 0xFFFF && d <= 0xFFFF && q <= 0xF && k <= 0xF && m <= 0xF && u <= 0xF
    ensures DecodeN(EncodeN(n) | EncodeD(d) | EncodeQ(q) | EncodeK(k) | EncodeM(m) | EncodeU(u)) == n
  {
  }

  lemma PackedD(n: Word, d: Word, q: Word, k: Word, m: Word, u: Word)
    requires n <= 0xFFFF && d <= 0xFFFF && q <= 0xF && k <= 0xF && m <= 0xF && u <= 0xF
    ensures DecodeD(EncodeN(n) | EncodeD(d) | EncodeQ(q) | EncodeK(k) | EncodeM(m) | EncodeU(u)) == d
  {
  }

  lemma PackedQ(n: Word, d: Word, q: Word, k: Word, m: Word, u: Word)
    requires n <= 0xFFFF && d <= 0xFFFF && q <= 0xF && k <= 0xF && m <= 0xF && u <= 0xF
    ensures DecodeQ(EncodeN(n) | EncodeD(d) | EncodeQ(q) | EncodeK(k) | EncodeM(m) | EncodeU(u)) == q
  {
  }

  lemma PackedK(n: Word, d: Word, q: Word, k: Word, m: Word, u: Word)
    requires n <= 0xFFFF && d <= 0xFFFF && q <= 0xF && k <= 0xF && m <= 0xF && u <= 0xF
    ensures DecodeK(EncodeN(n) | EncodeD(d) | EncodeQ(q) | EncodeK(k) | EncodeM(m) | EncodeU(u)) == k
  {
  }

  lemma PackedM(n: Word, d: Word, q: Word, k: Word, m: Word, u: Word)
    requires n <= 0xFFFF && d <= 0xFFFF && q <= 0xF && k <= 0xF && m <= 0xF && u <= 0xF
    ensures DecodeM(EncodeN(n) | EncodeD(d) | EncodeQ(q) | EncodeK(k) | EncodeM(m) | EncodeU(u)) == m
  {
  }

  lemma PackedU(n: Word, d: Word, q: Word, k: Word, m: Word, u: Word)
    requires n <= 0xFFFF && d <= 0xFFFF && q <= 0xF && k <= 0xF && m <= 0xF && u <= 0xF
    ensures DecodeU(EncodeN(n) | EncodeD(d) | EncodeQ(q) | EncodeK(k) | EncodeM(m) | EncodeU(u)) == u
  {
  }

  /** The fold `(1 << ds[0]) | (1 << ds[1]) | ...` that turns a list of derivative
      orders into the D field. Bit i of the result is set iff i is listed. */
  function DerivativeBits(ds: seq<nat>): (r: bv16)
    requires forall j :: 0 <= j < |ds| ==> ds[j] < 16
    ensures forall i: nat :: i < 16 ==> (Bit(r, i) <==> i in ds)
  {
    if |ds| == 0 then
      assert forall i: nat :: i < 16 ==> !Bit(0, i);
      0
    else
      var init := ds[..|ds| - 1];
      var last := ds[|ds| - 1];
      var r := DerivativeBits(init) | (1 << last);
      assert ds == init + [last];
      assert forall i: nat :: i < 16 ==> (Bit(r, i) <==> i in ds) by {
        forall i: nat | i < 16
          ensures Bit(r, i) <==> i in init + [last]
        {
          OrderBit(DerivativeBits(init), init, last, i);
        }
      }
      r
  }

  /** Adding order `last` to a list sets bit `last` and leaves the others as they were. */
  lemma OrderBit(prev: bv16, init: seq<nat>, last: nat, i: nat)
    requires last < 16 && i < 16 && (Bit(prev, i) <==> i in init)
    ensures Bit(prev | (1 << last), i) <==> i in init + [last]
  {
    BitOfOr(prev, 1 << last, i);
    BitOfShift(last, i);
  }

  /** The derivative-list form of the D field: popcount is the number of distinct
      listed orders. */
  lemma DerivativeBitsCount(ds: seq<nat>)
    requires forall j :: 0 <= j < |ds| ==> ds[j] < 16
    ensures BitSet(DerivativeBits(ds)) == set j | 0 <= j < |ds| :: ds[j]
    ensures Popcount(DerivativeBits(ds)) == |set j | 0 <= j < |ds| :: ds[j]|
  {
    var r := DerivativeBits(ds);
    forall i | i in BitSet(r)
      ensures i in set j | 0 <= j < |ds| :: ds[j]
    {
      var j :| 0 <= j < |ds| && ds[j] == i;
    }
  }

  /** The packed configuration word with the D field given as a list of orders: the
      D field holds the bit set of the listed orders (see `DerivativeBits`). */
  function EncodeConfigWithDerivatives(n: bv16, ds: seq<nat>, q: bv16, k: bv16, m: bv16, u: bv16): (w: Word)
    requires forall j :: 0 <= j < |ds| ==> ds[j] < 16
    requires q <= 0xF && k <= 0xF && m <= 0xF && u <= 0xF
    ensures Decode(FieldN, w) == n as Word
    ensures Decode(FieldD, w) == DerivativeBits(ds) as Word
    ensures Decode(FieldQ, w) == q as Word
    ensures Decode(FieldK, w) == k as Word
    ensures Decode(FieldM, w) == m as Word
    ensures Decode(FieldU, w) == u as Word
  {
    EncodeConfig(n, DerivativeBits(ds), q, k, m, u)
  }
}
