/** The bookkeeping the filter's constructor derives from its packed configuration
    word: the derivative orders, the number of timescales, the channel layout of the
    coefficient bank, the delay of a minimal filter, and the normalisation of each
    channel: zero sum for order > 0; for order 0, unit DC gain when `q == 0` and the
    minimal kernel's sum when `q > 0`. The minimal and hull kernels themselves are
    inputs. */
module Builder {
  import opened Bits
  import opened Types
  import opened Blas
  import opened Arith

  /** The decoded configuration fields: filter length, derivative bit mask, hull order
      `q`, `kappa`, and the smallest and the exclusive largest timescale, each at the
      width of its field. */
  datatype Config = Config(n: bv16, d: bv16, q: bv4, kappa: bv4, muMin: bv4, muMax: bv4)

  /** The six `decode<k>` calls of the constructor. */
  function ConfigOf(w: Word): (c: Config)
    ensures c.n as Word == Decode(FieldN, w) && c.d as Word == Decode(FieldD, w)
    ensures c.q as Word == Decode(FieldQ, w) && c.kappa as Word == Decode(FieldK, w)
    ensures c.muMin as Word == Decode(FieldM, w) && c.muMax as Word == Decode(FieldU, w)
  {
    Config(DecodeN(w) as bv16, DecodeD(w) as bv16, DecodeQ(w) as bv4,
           DecodeK(w) as bv4, DecodeM(w) as bv4, DecodeU(w) as bv4)
  }

  /** Decoding a word produced by the six-field encoder gives back the six fields. */
  lemma ConfigRoundTrip(n: bv16, d: bv16, q: bv16, k: bv16, m: bv16, u: bv16)
    requires q <= 0xF && k <= 0xF && m <= 0xF && u <= 0xF
    ensures ConfigOf(EncodeConfig(n, d, q, k, m, u))
      == Config(n, d, q as bv4, k as bv4, m as bv4, u as bv4)
  {
    var w := EncodeConfig(n, d, q, k, m, u);
    assert DecodeN(w) == n as Word && DecodeD(w) == d as Word;
    assert DecodeQ(w) == q as Word && DecodeK(w) == k as Word;
    assert DecodeM(w) == m as Word && DecodeU(w) == u as Word;
    DecodedFields(w, n, d, q, k, m, u);
  }

  /** Any word whose six fields decode to the given values yields that configuration. */
  lemma DecodedFields(w: Word, n: bv16, d: bv16, q: bv16, k: bv16, m: bv16, u: bv16)
    requires DecodeN(w) == n as Word && DecodeD(w) == d as Word
    requires DecodeQ(w) == q as Word && DecodeK(w) == k as Word
    requires DecodeM(w) == m as Word && DecodeU(w) == u as Word
    ensures ConfigOf(w) == Config(n, d, q as bv4, k as bv4, m as bv4, u as bv4)
  {
  }

  /** The number of timescales, an `unsigned short` difference: it wraps modulo 2^16
      when the largest timescale is below the smallest. */
  function NumMu(c: Config): (r: bv16)
    ensures r + c.muMin as bv16 == c.muMax as bv16
    ensures c.muMin <= c.muMax ==> r <= 0xF
    ensures c.muMin > c.muMax ==> r >= 0xFFF1
  {
    c.muMax as bv16 - c.muMin as bv16
  }

  function NumDerivatives(c: Config): nat
  {
    Popcount(c.d)
  }

  /** The delay of a minimal filter of derivative order `n`, as a fraction of its length. */
  function Delay(n: nat, kappa: nat, mu: nat): (r: real)
    ensures 0.0 < r < 1.0
  {
    (kappa + n + 1) as real / (mu + kappa + 2 * (n + 1)) as real
  }

  /** The delay in samples of the lowest-order minimal filter, truncated toward zero. */
  function KDelay(len: nat, d0: nat, kappa: nat, mu: nat): (r: int)
    ensures 0 <= r && (len >= 1 ==> r < len) && (len == 0 ==> r == 0)
  {
    var f := len as real * Delay(d0, kappa, mu);
    assert 0.0 <= f;
    assert len >= 1 ==> f < len as real by {
      if len >= 1 {
        ScaleBelow(len as real, Delay(d0, kappa, mu));
      }
    }
    f.Floor
  }

  lemma ScaleBelow(a: real, b: real)
    requires a > 0.0 && 0.0 < b < 1.0
    ensures a * b < a
  {
  }

  /** Truncating the real-valued delay agrees with integer division of the exact ratio. */
  lemma KDelayIsQuotient(len: nat, d0: nat, kappa: nat, mu: nat)
    ensures KDelay(len, d0, kappa, mu) == (len * (kappa + d0 + 1)) / (mu + kappa + 2 * (d0 + 1))
  {
    var y := kappa + d0 + 1;
    var a := len * y;
    var b := mu + kappa + 2 * (d0 + 1);
    var q, rem := a / b, a % b;
    assert a == q * b + rem && 0 <= rem < b;
    assert Delay(d0, kappa, mu) == y as real / b as real;
    CastProduct(len, y);
    MulDiv(len as real, y as real, b as real);
    assert len as real * Delay(d0, kappa, mu) == a as real / b as real;
    FloorOfQuotient(a, b, q, rem);
  }

  lemma CastProduct(x: int, y: int)
    ensures (x * y) as real == x as real * y as real
  {
  }

  lemma MulDiv(x: real, y: real, z: real)
    requires z > 0.0
    ensures x * (y / z) == (x * y) / z
  {
  }

  lemma FloorOfQuotient(a: int, b: int, q: int, rem: int)
    requires b > 0 && a == q * b + rem && 0 <= rem < b
    ensures (a as real / b as real).Floor == q
  {
    var qa := a as real / b as real;
    assert qa == q as real + rem as real / b as real;
    assert 0.0 <= rem as real / b as real < 1.0;
  }

  /** The derivative orders of a nonzero mask, found as the constructor does: the
      lowest set bit first, then every set bit up to the bit length, ascending. */
  method DerivativeOrders(d: bv16) returns (derivs: seq<nat>)
    requires d != 0
    ensures |derivs| == Popcount(d)
    ensures |derivs| >= 1 && derivs[0] == CountrZero(d)
    ensures forall i, j :: 0 <= i < j < |derivs| ==> derivs[i] < derivs[j]
    ensures forall k: nat :: k in derivs <==> k < 16 && Bit(d, k)
  {
    var d0 := CountrZero(d);
    var de := BitLength(d);
    derivs := [d0];
    var dx := d0 + 1;
    ScanStart(d);
    while dx < de
      invariant d0 + 1 <= dx <= de
      invariant |derivs| >= 1 && derivs[0] == d0
      invariant ScannedBelow(d, derivs, dx)
    {
      ScanStep(d, derivs, dx);
      if Bit(d, dx) {
        derivs := derivs + [dx];
      }
      dx := dx + 1;
    }
    ScanComplete(d, derivs, dx);
  }

  /** `derivs` lists, ascending, exactly the set bits of `d` below `dx`. */
  ghost predicate ScannedBelow(d: bv16, derivs: seq<nat>, dx: nat)
  {
    && (forall i, j :: 0 <= i < j < |derivs| ==> derivs[i] < derivs[j])
    && (forall i :: 0 <= i < |derivs| ==> derivs[i] < dx)
    && (forall k: nat :: k in derivs <==> k < dx && k < 16 && Bit(d, k))
  }

  /** The scan starts just above the lowest set bit, which lies below the bit length. */
  lemma ScanStart(d: bv16)
    requires d != 0
    ensures CountrZero(d) < BitLength(d)
    ensures ScannedBelow(d, [CountrZero(d)], CountrZero(d) + 1)
  {
    var d0 := CountrZero(d);
    forall k: nat
      ensures k in [d0] <==> k < d0 + 1 && k < 16 && Bit(d, k)
    {
      if k < d0 { assert !Bit(d, k); }
    }
  }

  /** Scanning one more bit keeps the list ascending and complete. */
  lemma ScanStep(d: bv16, derivs: seq<nat>, dx: nat)
    requires dx < 16 && ScannedBelow(d, derivs, dx)
    ensures ScannedBelow(d, if Bit(d, dx) then derivs + [dx] else derivs, dx + 1)
  {
  }

  /** Past the bit length every set bit has been listed, each once. */
  lemma ScanComplete(d: bv16, derivs: seq<nat>, dx: nat)
    requires dx == BitLength(d) && ScannedBelow(d, derivs, dx)
    ensures |derivs| == Popcount(d)
    ensures forall i, j :: 0 <= i < j < |derivs| ==> derivs[i] < derivs[j]
    ensures forall k: nat :: k in derivs <==> k < 16 && Bit(d, k)
  {
    assert BitSet(d) == Elems(derivs);
    AscendingCard(derivs);
  }

  /** The values a sequence holds. */
  function Elems(s: seq<nat>): set<nat>
  {
    set k | k in s
  }

  /** A strictly ascending sequence has as many elements as its set of values. */
  lemma {:induction false} AscendingCard(s: seq<nat>)
    requires forall i, j :: 0 <= i < j < |s| ==> s[i] < s[j]
    ensures |Elems(s)| == |s|
  {
    if |s| == 0 {
      assert Elems(s) == {};
    } else {
      var init := s[..|s| - 1];
      var last := s[|s| - 1];
      AscendingCard(init);
      assert s == init + [last];
      assert Elems(s) == Elems(init) + {last};
      assert last !in Elems(init);
    }
  }

  /** The channel that derivative index `nj` and timescale index `mj` write. */
  function Channel(nj: nat, mj: nat, nM: nat): (fx: nat)
    requires mj < nM
    ensures fx / nM == nj && fx % nM == mj
  {
    ChannelDivMod(nj, mj, nM);
    mj + nM * nj
  }

  lemma ChannelDivMod(nj: nat, mj: nat, nM: nat)
    requires mj < nM
    ensures (mj + nM * nj) / nM == nj && (mj + nM * nj) % nM == mj
  {
    DivModUnique(mj + nM * nj, nM, nj, mj);
  }

  /** Every (derivative, timescale) pair lands inside the bank. */
  lemma ChannelInRange(nj: nat, mj: nat, nD: nat, nM: nat)
    requires nj < nD && mj < nM
    ensures Channel(nj, mj, nM) < nD * nM
  {
    MulMonotone(nj + 1, nD, nM);
  }

  /** Every channel of the bank is reached from exactly one pair. */
  lemma ChannelOnto(fx: nat, nD: nat, nM: nat)
    requires fx < nD * nM
    ensures nM > 0 && fx / nM < nD
    ensures Channel(fx / nM, fx % nM, nM) == fx
  {
    if fx / nM >= nD {
      MulMonotone(nD, fx / nM, nM);
    }
  }

  lemma ChannelInjective(nj: nat, mj: nat, nj': nat, mj': nat, nM: nat)
    requires mj < nM && mj' < nM
    ensures Channel(nj, mj, nM) == Channel(nj', mj', nM) <==> nj == nj' && mj == mj'
  {
  }

  /** The `n` coefficients of channel `f` in a bank stored channel after channel. */
  function Row(fir: seq<real>, n: nat, f: nat): (row: seq<real>)
    requires Blocks(n, f + 1) <= |fir|
    ensures |row| == n
  {
    fir[Blocks(n, f)..Blocks(n, f) + n]
  }

  /** Row f is the stretch `[n*f, n*f + n)` of the bank. */
  lemma RowIsSlice(fir: seq<real>, n: nat, f: nat)
    requires Blocks(n, f + 1) <= |fir|
    ensures n * f + n <= |fir| && Row(fir, n, f) == fir[n * f..n * f + n]
  {
    BlocksIsProduct(n, f);
  }

  /** Distinct channels own disjoint stretches `[n*f, n*f + n)` of a bank of
      `n*channels` coefficients, and every coefficient p belongs to channel p / n. */
  lemma RowsPartition(n: nat, channels: nat, p: nat, f: nat, g: nat)
    requires n >= 1 && p < Blocks(n, channels) && f < channels && g < channels
    ensures Blocks(n, channels) == n * channels
    ensures p / n < channels && n * (p / n) <= p < n * (p / n) + n
    ensures f != g ==> n * f + n <= n * g || n * g + n <= n * f
  {
    BlockOf(p, n, channels);
    BlocksDisjoint(n, f, g);
    BlocksIsProduct(n, channels);
    BlocksIsProduct(n, p / n);
    BlocksIsProduct(n, f);
    BlocksIsProduct(n, g);
  }

  lemma BlockOf(p: nat, n: nat, channels: nat)
    requires n >= 1 && p < Blocks(n, channels)
    ensures p / n < channels && Blocks(n, p / n) <= p < Blocks(n, p / n) + n
  {
    var k := p / n;
    QuotientBlock(p, n);
    if k >= channels {
      BlocksMonotone(n, channels, k);
    }
  }

  lemma BlocksDisjoint(n: nat, f: nat, g: nat)
    ensures f != g ==> Blocks(n, f) + n <= Blocks(n, g) || Blocks(n, g) + n <= Blocks(n, f)
  {
    if f < g {
      BlocksMonotone(n, f + 1, g);
    } else if g < f {
      BlocksMonotone(n, g + 1, f);
    }
  }

  /** Entry p lies in block p / n. */
  lemma QuotientBlock(p: nat, n: nat)
    requires n >= 1
    ensures Blocks(n, p / n) <= p < Blocks(n, p / n) + n
  {
    BlocksIsProduct(n, p / n);
  }

  /** The mean of a kernel: its dot product with ones divided by the length. */
  function Mean(v: seq<real>): real
    requires |v| > 0
  {
    Dot(v, Ones(|v|)) / |v| as real
  }

  /** A kernel with its mean removed; it sums to zero. */
  function Centred(v: seq<real>): (r: seq<real>)
    requires |v| > 0
    ensures |r| == |v| && Sum(r) == 0.0
    ensures forall i :: 0 <= i < |v| ==> r[i] == v[i] - Mean(v)
  {
    DotOnes(v);
    SumSubScalar(v, Mean(v));
    SubScalar(v, Mean(v))
  }

  /** What a derivative filter of order `order` is normalised from: the mean-removed
      kernel for order > 0, the kernel itself for order 0. */
  function Shape(order: nat, v: seq<real>): seq<real>
    requires |v| > 0
  {
    if order > 0 then Centred(v) else v
  }

  /** The normalising term: the sum of magnitudes of the mean-removed kernel for
      order > 0, the plain sum for order 0. */
  function NormTerm(order: nat, v: seq<real>): (r: real)
    requires |v| > 0
    ensures order > 0 ==> r == Sum(AbsAll(Centred(v))) && r >= 0.0
    ensures order == 0 ==> r == Sum(v)
  {
    if order > 0 then
      DotOnes(AbsAll(Centred(v)));
      SumAbsNonnegative(Centred(v));
      Dot(AbsAll(Centred(v)), Ones(|v|))
    else
      DotOnes(v);
      Dot(v, Ones(|v|))
  }

  /** The normalising term the channel divides by is nonzero: the minimal kernel's
      for `q == 0`, the hull's for `q > 0`. With `q > 0` the minimal kernel's term is
      only a numerator and may be zero. */
  predicate Normalizable(order: nat, q: nat, h: seq<real>, hull: seq<real>)
  {
    |h| > 0 && |hull| == |h|
    && (q == 0 ==> NormTerm(order, h) != 0.0)
    && (q > 0 ==> NormTerm(order, hull) != 0.0)
  }

  /** The coefficients of one channel. With `q == 0` the minimal kernel `h`, centred
      for order > 0, is divided by its own normalising term. With `q > 0` the hull
      kernel, centred for order > 0, is scaled by the ratio of the minimal kernel's
      normalising term to the hull's. */
  function NormalizeChannel(order: nat, q: nat, h: seq<real>, hull: seq<real>): (fir: seq<real>)
    requires Normalizable(order, q, h, hull)
    ensures |fir| == |h|
    ensures order == 0 && q == 0 ==> Sum(fir) == 1.0
    ensures order == 0 && q > 0 ==> Sum(fir) == Sum(h)
    ensures order > 0 ==> Sum(fir) == 0.0
    ensures order > 0 && q == 0 ==> Sum(AbsAll(fir)) == 1.0
    ensures order > 0 && q > 0 ==> Sum(AbsAll(fir)) == Sum(AbsAll(Centred(h)))
  {
    ScaledShapeSums(order, q, h, hull);
    Scale(Shape(order, Source(q, h, hull)), Gain(order, q, h, hull))
  }

  /** The kernel a channel is built from: the minimal one, or the hull when `q > 0`. */
  function Source(q: nat, h: seq<real>, hull: seq<real>): seq<real>
  {
    if q == 0 then h else hull
  }

  /** The factor the constructor multiplies the shape by: the reciprocal of the
      normalising term, or for `q > 0` the minimal kernel's term over the hull's. */
  function Gain(order: nat, q: nat, h: seq<real>, hull: seq<real>): real
    requires Normalizable(order, q, h, hull)
  {
    if q == 0 then 1.0 / NormTerm(order, h) else NormTerm(order, h) / NormTerm(order, hull)
  }

  lemma ScaledShapeSums(order: nat, q: nat, h: seq<real>, hull: seq<real>)
    requires Normalizable(order, q, h, hull)
    ensures var fir := Scale(Shape(order, Source(q, h, hull)), Gain(order, q, h, hull));
      && (order == 0 && q == 0 ==> Sum(fir) == 1.0)
      && (order == 0 && q > 0 ==> Sum(fir) == Sum(h))
      && (order > 0 ==> Sum(fir) == 0.0)
      && (order > 0 && q == 0 ==> Sum(AbsAll(fir)) == 1.0)
      && (order > 0 && q > 0 ==> Sum(AbsAll(fir)) == Sum(AbsAll(Centred(h))))
  {
    if order == 0 {
      PlainSums(q, h, hull);
    } else {
      DerivativeSums(order, q, h, hull);
    }
  }

  /** Order 0: the scaled kernel sums to one, or to the minimal kernel's sum. */
  lemma PlainSums(q: nat, h: seq<real>, hull: seq<real>)
    requires Normalizable(0, q, h, hull)
    ensures Sum(Scale(Source(q, h, hull), Gain(0, q, h, hull))) == if q == 0 then 1.0 else Sum(h)
  {
    var src := Source(q, h, hull);
    var gain := Gain(0, q, h, hull);
    SumScale(src, gain);
    RatioSum(Sum(h), Sum(src), gain, q == 0);
  }

  /** Order > 0: the scaled centred kernel sums to zero, and its magnitudes sum to one
      or to those of the centred minimal kernel. */
  lemma DerivativeSums(order: nat, q: nat, h: seq<real>, hull: seq<real>)
    requires order > 0 && Normalizable(order, q, h, hull)
    ensures var fir := Scale(Centred(Source(q, h, hull)), Gain(order, q, h, hull));
      && Sum(fir) == 0.0
      && Sum(AbsAll(fir)) == if q == 0 then 1.0 else Sum(AbsAll(Centred(h)))
  {
    var src := Source(q, h, hull);
    var gain := Gain(order, q, h, hull);
    var top, bottom := NormTerm(order, h), NormTerm(order, src);
    assert top >= 0.0;
    assert bottom > 0.0;
    assert gain == if q == 0 then 1.0 / bottom else top / bottom;
    ScaledCentredSums(src, gain);
    assert Sum(AbsAll(Scale(Centred(src), gain))) == bottom * Abs(gain);
    GainMagnitude(q == 0, top, bottom, gain, Sum(AbsAll(Scale(Centred(src), gain))));
  }

  /** The magnitude sum of the scaled shape: one for a reciprocal gain, the minimal
      kernel's term for the ratio gain. */
  lemma GainMagnitude(unit: bool, top: real, bottom: real, gain: real, s: real)
    requires top >= 0.0 && bottom > 0.0
    requires gain == if unit then 1.0 / bottom else top / bottom
    requires s == bottom * Abs(gain)
    ensures s == if unit then 1.0 else top
  {
    RatioMagnitude(top, bottom, gain);
  }

  /** A scaled mean-removed kernel still sums to zero, and its magnitudes scale. */
  lemma ScaledCentredSums(v: seq<real>, gain: real)
    requires |v| > 0
    ensures Sum(Scale(Centred(v), gain)) == 0.0
    ensures Sum(AbsAll(Scale(Centred(v), gain))) == Sum(AbsAll(Centred(v))) * Abs(gain)
  {
    SumScale(Centred(v), gain);
    SumAbsScale(Centred(v), gain);
  }

  /** Scaling a positive magnitude by a nonnegative ratio. */
  lemma RatioMagnitude(top: real, bottom: real, gain: real)
    requires top >= 0.0 && bottom > 0.0
    requires gain == 1.0 / bottom || gain == top / bottom
    ensures gain == 1.0 / bottom ==> bottom * Abs(gain) == 1.0
    ensures gain == top / bottom ==> bottom * Abs(gain) == top
  {
  }

  lemma RatioSum(top: real, bottom: real, gain: real, unit: bool)
    requires bottom != 0.0
    requires gain == (if unit then 1.0 / bottom else top / bottom)
    ensures bottom * gain == (if unit then 1.0 else top)
  {
  }

  /** A flat bank holding the given rows one after another. */
  function Concat(rows: seq<seq<real>>): seq<real>
  {
    if |rows| == 0 then [] else rows[0] + Concat(rows[1..])
  }

  lemma {:induction false} ConcatLength(rows: seq<seq<real>>, n: nat)
    requires forall j :: 0 <= j < |rows| ==> |rows[j]| == n
    ensures |Concat(rows)| == Blocks(n, |rows|)
  {
    if |rows| > 0 {
      ConcatLength(rows[1..], n);
    }
  }

  /** Row `j` of a concatenation of rows of length `n` is the j-th row. */
  lemma {:induction false} ConcatRow(rows: seq<seq<real>>, n: nat, j: nat)
    requires forall k :: 0 <= k < |rows| ==> |rows[k]| == n
    requires j < |rows|
    ensures |Concat(rows)| == Blocks(n, |rows|)
    ensures Blocks(n, j + 1) <= |Concat(rows)| && Row(Concat(rows), n, j) == rows[j]
  {
    ConcatLength(rows, n);
    BlocksMonotone(n, j + 1, |rows|);
    var tail := Concat(rows[1..]);
    assert Concat(rows) == rows[0] + tail;
    if j == 0 {
      assert (rows[0] + tail)[..n] == rows[0];
    } else {
      ConcatRow(rows[1..], n, j - 1);
      SliceAfter(rows[0], tail, Blocks(n, j), Blocks(n, j) + n);
    }
  }

  lemma SliceAfter(a: seq<real>, b: seq<real>, lo: nat, hi: nat)
    requires |a| <= lo <= hi <= |a| + |b|
    ensures (a + b)[lo..hi] == b[lo - |a|..hi - |a|]
  {
  }

  /** The two kernels one channel is built from. */
  datatype Kernel = Kernel(minimal: seq<real>, hull: seq<real>)

  predicate KernelFits(n: nat, q: nat, order: nat, k: Kernel)
  {
    |k.minimal| == n && Normalizable(order, q, k.minimal, k.hull)
  }

  /** The kernels a bank is built from, per derivative order and per timescale. */
  predicate Kernels(n: nat, q: nat, orders: seq<nat>, nM: nat, kernels: seq<seq<Kernel>>)
  {
    |kernels| == |orders|
    && (forall nj :: 0 <= nj < |orders| ==> |kernels[nj]| == nM)
    && forall nj, mj :: 0 <= nj < |orders| && 0 <= mj < nM ==>
         KernelFits(n, q, orders[nj], kernels[nj][mj])
  }

  /** The filter of channel `fx`, from the pair of indices the channel decodes to. */
  function ChannelFilter(n: nat, q: nat, orders: seq<nat>, nM: nat, kernels: seq<seq<Kernel>>,
                         fx: nat): (r: seq<real>)
    requires Kernels(n, q, orders, nM, kernels) && fx < |orders| * nM
    ensures |r| == n
  {
    ChannelOnto(fx, |orders|, nM);
    var k := kernels[fx / nM][fx % nM];
    assert KernelFits(n, q, orders[fx / nM], k);
    NormalizeChannel(orders[fx / nM], q, k.minimal, k.hull)
  }

  /** The filters of all channels, in channel order. */
  function ChannelFilters(n: nat, q: nat, orders: seq<nat>, nM: nat, kernels: seq<seq<Kernel>>): (rows: seq<seq<real>>)
    requires Kernels(n, q, orders, nM, kernels)
    ensures |rows| == |orders| * nM
    ensures forall fx :: 0 <= fx < |rows| ==> rows[fx] == ChannelFilter(n, q, orders, nM, kernels, fx)
  {
    seq(|orders| * nM, fx requires 0 <= fx < |orders| * nM => ChannelFilter(n, q, orders, nM, kernels, fx))
  }

  /** The whole coefficient bank, channel after channel (see `BankChannel`). */
  function BuildBank(n: nat, q: nat, orders: seq<nat>, nM: nat, kernels: seq<seq<Kernel>>): (fir: seq<real>)
    requires Kernels(n, q, orders, nM, kernels)
    ensures |fir| == Blocks(n, |orders| * nM)
  {
    var rows := ChannelFilters(n, q, orders, nM, kernels);
    ConcatLength(rows, n);
    Concat(rows)
  }

  /** The stretch of a built bank that holds channel `fx`. */
  function BankRow(n: nat, q: nat, orders: seq<nat>, nM: nat, kernels: seq<seq<Kernel>>, fx: nat): (row: seq<real>)
    requires Kernels(n, q, orders, nM, kernels) && fx < |orders| * nM
    ensures |row| == n
  {
    var fir := BuildBank(n, q, orders, nM, kernels);
    BlocksMonotone(n, fx + 1, |orders| * nM);
    Row(fir, n, fx)
  }

  /** Channel `Channel(nj, mj, nM)` of a built bank is the normalised filter for
      derivative order `orders[nj]` at timescale index `mj`. */
  lemma BankChannel(n: nat, q: nat, orders: seq<nat>, nM: nat, kernels: seq<seq<Kernel>>,
                    nj: nat, mj: nat)
    requires Kernels(n, q, orders, nM, kernels)
    requires nj < |orders| && mj < nM
    ensures Channel(nj, mj, nM) < |orders| * nM
    ensures KernelFits(n, q, orders[nj], kernels[nj][mj])
    ensures BankRow(n, q, orders, nM, kernels, Channel(nj, mj, nM))
      == NormalizeChannel(orders[nj], q, kernels[nj][mj].minimal, kernels[nj][mj].hull)
  {
    ChannelInRange(nj, mj, |orders|, nM);
    var fx := Channel(nj, mj, nM);
    assert fx / nM == nj && fx % nM == mj;
    var rows := ChannelFilters(n, q, orders, nM, kernels);
    ConcatRow(rows, n, fx);
    assert rows[fx] == ChannelFilter(n, q, orders, nM, kernels, fx);
  }

  /** Every channel of a built bank has unit DC gain (order 0 with a minimal kernel)
      or sums to zero (order > 0). */
  lemma BankChannelGain(n: nat, q: nat, orders: seq<nat>, nM: nat, kernels: seq<seq<Kernel>>,
                        nj: nat, mj: nat)
    requires Kernels(n, q, orders, nM, kernels)
    requires nj < |orders| && mj < nM
    ensures Channel(nj, mj, nM) < |orders| * nM
    ensures var row := BankRow(n, q, orders, nM, kernels, Channel(nj, mj, nM));
      && (orders[nj] == 0 && q == 0 ==> Sum(row) == 1.0)
      && (orders[nj] > 0 ==> Sum(row) == 0.0)
  {
    BankChannel(n, q, orders, nM, kernels, nj, mj);
  }
}
