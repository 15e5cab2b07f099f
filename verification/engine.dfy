/** The streaming filter: a ring buffer of the last `n` samples with a head index, a
    bank of `channels` coefficient rows of length `n`, and the latest output of every
    channel. Each update overwrites the oldest sample and recomputes every output as
    two partial dot products that together cover the chronological window. */
module Engine {
  import opened Blas
  import opened Builder
  import opened Arith
  import Ring

  datatype Filter = Filter(n: nat, channels: nat, x: seq<real>, fir: seq<real>,
                           filtered: seq<real>, hx: nat)

  predicate Valid(e: Filter)
  {
    e.n >= 1 && |e.x| == e.n && |e.fir| == Blocks(e.n, e.channels)
    && |e.filtered| == e.channels && e.hx < e.n
  }

  /** The samples of the ring buffer oldest first, when the oldest sits at `h`. */
  function Window(x: seq<real>, h: nat): (w: seq<real>)
    requires h <= |x|
    ensures |w| == |x|
  {
    x[h..] + x[..h]
  }

  /** Element i of the window is the sample i places after the head, around the ring. */
  lemma WindowIndex(x: seq<real>, h: nat)
    requires h <= |x|
    ensures forall i :: 0 <= i < |x| ==> Window(x, h)[i] == x[(h + i) % |x|]
  {
    forall i | 0 <= i < |x|
      ensures (x[h..] + x[..h])[i] == x[(h + i) % |x|]
    {
      if h + i < |x| {
        DivModUnique(h + i, |x|, 0, h + i);
      } else {
        DivModUnique(h + i, |x|, 1, h + i - |x|);
      }
    }
  }

  /** The head after one step: `(h + 1) % n`, written without the division. */
  function Advance(h: nat, n: nat): nat
    requires h < n
  {
    if h + 1 < n then h + 1 else 0
  }

  lemma AdvanceWraps(h: nat, n: nat)
    requires h < n
    ensures Advance(h, n) == (h + 1) % n
  {
    if h + 1 < n {
      DivModUnique(h + 1, n, 0, h + 1);
    } else {
      DivModUnique(h + 1, n, 1, 0);
    }
  }

  /** Every output is the dot product of its channel's row with the window. */
  predicate Consistent(e: Filter)
    requires Valid(e)
  {
    forall f :: 0 <= f < e.channels ==> ChannelConsistent(e, f)
  }

  /** Output f is the dot product of row f with the window. */
  predicate ChannelConsistent(e: Filter, f: nat)
    requires Valid(e) && f < e.channels
  {
    RowFits(e.n, e.channels, f);
    e.filtered[f] == Dot(Row(e.fir, e.n, f), Window(e.x, e.hx))
  }

  lemma RowFits(n: nat, channels: nat, f: nat)
    requires f < channels
    ensures Blocks(n, f + 1) <= Blocks(n, channels)
  {
    BlocksMonotone(n, f + 1, channels);
  }

  /** The filter right after construction: head at zero, outputs from the seed. */
  function Init(n: nat, channels: nat, seed: seq<real>, fir: seq<real>): (e: Filter)
    requires n >= 1 && |seed| == n && |fir| == Blocks(n, channels)
    ensures Valid(e) && Consistent(e)
    ensures e.n == n && e.channels == channels && e.x == seed && e.fir == fir && e.hx == 0
  {
    InitOutputs(n, channels, seed, fir);
    Filter(n, channels, seed, fir, GemvT(fir, 0, n, n, channels, seed), 0)
  }

  lemma InitOutputs(n: nat, channels: nat, seed: seq<real>, fir: seq<real>)
    requires n >= 1 && |seed| == n && |fir| == Blocks(n, channels)
    ensures Consistent(Filter(n, channels, seed, fir, GemvT(fir, 0, n, n, channels, seed), 0))
  {
    var e := Filter(n, channels, seed, fir, GemvT(fir, 0, n, n, channels, seed), 0);
    assert Window(seed, 0) == seed;
    forall f | 0 <= f < e.channels
      ensures ChannelConsistent(e, f)
    {
      InitChannel(n, channels, seed, fir, f);
    }
  }

  lemma InitChannel(n: nat, channels: nat, seed: seq<real>, fir: seq<real>, f: nat)
    requires n >= 1 && |seed| == n && |fir| == Blocks(n, channels) && f < channels
    ensures Blocks(n, f + 1) <= |fir|
    ensures GemvT(fir, 0, n, n, channels, seed)[f] == Dot(Row(fir, n, f), seed)
  {
    RowFits(n, channels, f);
    var y := GemvT(fir, 0, n, n, channels, seed);
    GemvTColumns(fir, 0, n, n, channels, seed);
    assert y[f] == Dot(fir[0 + Blocks(n, f)..0 + Blocks(n, f) + n], seed[..n]);
    assert seed[..n] == seed;
  }

  /** The filter constructor: the coefficient bank from the kernels, then the outputs
      for the seed samples. */
  function Construct(n: nat, q: nat, orders: seq<nat>, nM: nat, kernels: seq<seq<Kernel>>,
                     seed: seq<real>): (e: Filter)
    requires n >= 1 && |seed| == n && Kernels(n, q, orders, nM, kernels)
    ensures Valid(e) && Consistent(e) && e.hx == 0 && e.x == seed
    ensures e.channels == |orders| * nM && e.fir == BuildBank(n, q, orders, nM, kernels)
  {
    Init(n, |orders| * nM, seed, BuildBank(n, q, orders, nM, kernels))
  }

  /** One sample in: it overwrites the oldest sample, the head advances, and every
      output is recomputed from the part of its row that meets the samples after the
      head and, unless the head reached the end, the part that meets those before. */
  function Update(e: Filter, v: real): (r: Filter)
    requires Valid(e)
    ensures Valid(r) && Consistent(r)
    ensures r.n == e.n && r.channels == e.channels && r.fir == e.fir
    ensures r.x == e.x[e.hx := v]
    ensures r.hx == Advance(e.hx, e.n)
  {
    var x := e.x[e.hx := v];
    var h := e.hx + 1;
    UpdateOutputs(e, v);
    Filter(e.n, e.channels, x, e.fir, Combined(e.fir, e.n, e.channels, x, h), Advance(e.hx, e.n))
  }

  /** The two `sgemv` calls of an update: the last `h` coefficients of every row
      against the first `h` samples, plus, when `h < n`, the first `n - h` coefficients
      against the samples from `h` on. */
  function Combined(fir: seq<real>, n: nat, channels: nat, x: seq<real>, h: nat): (y: seq<real>)
    requires 1 <= h <= n && |x| == n && |fir| == Blocks(n, channels)
    ensures |y| == channels
  {
    var head := GemvT(fir, n - h, n, h, channels, x);
    if h < n then Add(head, GemvT(fir, 0, n, n - h, channels, x[h..])) else head
  }

  lemma UpdateOutputs(e: Filter, v: real)
    requires Valid(e)
    ensures var x := e.x[e.hx := v];
      Consistent(Filter(e.n, e.channels, x, e.fir, Combined(e.fir, e.n, e.channels, x, e.hx + 1), Advance(e.hx, e.n)))
  {
    var x := e.x[e.hx := v];
    var h := e.hx + 1;
    var r := Filter(e.n, e.channels, x, e.fir, Combined(e.fir, e.n, e.channels, x, h), Advance(e.hx, e.n));
    forall f | 0 <= f < r.channels
      ensures ChannelConsistent(r, f)
    {
      RowFits(e.n, e.channels, f);
      ChannelUpdate(e.fir, e.n, e.channels, x, h, f);
    }
  }

  /** One channel of an update: the two partial products add up to the full product
      of the row with the window that starts at the new head. */
  lemma ChannelUpdate(fir: seq<real>, n: nat, channels: nat, x: seq<real>, h: nat, f: nat)
    requires 1 <= h <= n && |x| == n && |fir| == Blocks(n, channels) && f < channels
    requires Blocks(n, f + 1) <= Blocks(n, channels)
    ensures Combined(fir, n, channels, x, h)[f] == Dot(Row(fir, n, f), Window(x, Advance(h - 1, n)))
  {
    var row := Row(fir, n, f);
    CombinedAt(fir, n, channels, x, h, f);
    if h < n {
      SplitWindow(x, row, h);
    } else {
      FullWindow(x, row, h);
    }
  }

  /** Output f of an update is the sum of the two partial products of row f. */
  lemma CombinedAt(fir: seq<real>, n: nat, channels: nat, x: seq<real>, h: nat, f: nat)
    requires 1 <= h <= n && |x| == n && |fir| == Blocks(n, channels) && f < channels
    requires Blocks(n, f + 1) <= Blocks(n, channels)
    ensures Combined(fir, n, channels, x, h)[f]
      == Dot(Row(fir, n, f)[n - h..], x[..h]) + if h < n then Dot(Row(fir, n, f)[..n - h], x[h..]) else 0.0
  {
    var head := GemvT(fir, n - h, n, h, channels, x);
    HeadPart(fir, n, channels, x, h, f);
    if h < n {
      var tail := GemvT(fir, 0, n, n - h, channels, x[h..]);
      assert Combined(fir, n, channels, x, h)[f] == head[f] + tail[f];
      TailPart(fir, n, channels, x, h, f);
    }
  }

  /** Column f of the first `sgemv` is the last h coefficients of row f against the
      first h samples. */
  lemma HeadPart(fir: seq<real>, n: nat, channels: nat, x: seq<real>, h: nat, f: nat)
    requires 1 <= h <= n && |x| == n && |fir| == Blocks(n, channels) && f < channels
    requires Blocks(n, f + 1) <= Blocks(n, channels)
    ensures GemvT(fir, n - h, n, h, channels, x)[f] == Dot(Row(fir, n, f)[n - h..], x[..h])
  {
    var b := Blocks(n, f);
    assert Blocks(n, f + 1) == b + n;
    assert Row(fir, n, f)[n - h..] == fir[n - h + b..n - h + b + h];
    assert x[..h] == x[..h][..h];
    GemvTColumns(fir, n - h, n, h, channels, x);
    var y := GemvT(fir, n - h, n, h, channels, x);
    assert y[f] == Dot(fir[n - h + b..n - h + b + h], x[..h]);
  }

  /** Column f of the second `sgemv` is the first n - h coefficients of row f against
      the samples from h on. */
  lemma TailPart(fir: seq<real>, n: nat, channels: nat, x: seq<real>, h: nat, f: nat)
    requires 1 <= h < n && |x| == n && |fir| == Blocks(n, channels) && f < channels
    requires Blocks(n, f + 1) <= Blocks(n, channels)
    ensures GemvT(fir, 0, n, n - h, channels, x[h..])[f] == Dot(Row(fir, n, f)[..n - h], x[h..])
  {
    var b := Blocks(n, f);
    assert Blocks(n, f + 1) == b + n;
    assert Row(fir, n, f)[..n - h] == fir[b..b + (n - h)];
    assert x[h..][..n - h] == x[h..];
    var y := GemvT(fir, 0, n, n - h, channels, x[h..]);
    GemvTColumns(fir, 0, n, n - h, channels, x[h..]);
    assert y[f] == Dot(fir[0 + b..0 + b + (n - h)], x[h..][..n - h]);
  }

  /** With the head inside the buffer the two partial products cover the window. */
  lemma SplitWindow(x: seq<real>, row: seq<real>, h: nat)
    requires 1 <= h < |x| && |row| == |x|
    ensures Dot(row[..|x| - h], x[h..]) + Dot(row[|x| - h..], x[..h]) == Dot(row, Window(x, Advance(h - 1, |x|)))
  {
    assert row == row[..|x| - h] + row[|x| - h..];
    DotAppend(row[..|x| - h], row[|x| - h..], x[h..], x[..h]);
  }

  /** With the head at the end the first product alone covers the window. */
  lemma FullWindow(x: seq<real>, row: seq<real>, h: nat)
    requires h == |x| >= 1 && |row| == |x|
    ensures Dot(row[|x| - h..], x[..h]) == Dot(row, Window(x, Advance(h - 1, |x|)))
  {
    assert Window(x, 0) == x;
    assert row[|x| - h..] == row && x[..h] == x;
  }

  /** An update drops the oldest sample from the window and appends the new one. */
  lemma UpdateSlidesWindow(e: Filter, v: real)
    requires Valid(e)
    ensures var r := Update(e, v);
      Window(r.x, r.hx) == Window(e.x, e.hx)[1..] + [v]
  {
    Overwrite(e.x, e.hx, v);
  }

  /** Overwriting the oldest sample of a ring and advancing the head slides the
      chronological window by one. */
  lemma Overwrite(x: seq<real>, h: nat, v: real)
    requires h < |x|
    ensures Window(x[h := v], Advance(h, |x|)) == Window(x, h)[1..] + [v]
  {
    var y := x[h := v];
    assert x == x[..h] + [x[h]] + x[h + 1..];
    assert y == x[..h] + [v] + x[h + 1..];
    if h + 1 < |x| {
      assert y[h + 1..] == x[h + 1..] && y[..h + 1] == x[..h] + [v];
    } else {
      assert x[h + 1..] == [] && y == x[..h] + [v];
    }
  }

  /** The filter after a stream of samples. */
  function Run(e: Filter, xs: seq<real>): (r: Filter)
    requires Valid(e)
    ensures Valid(r) && r.n == e.n && r.channels == e.channels && r.fir == e.fir
    ensures |xs| > 0 || Consistent(e) ==> Consistent(r)
    decreases |xs|
  {
    if |xs| == 0 then e else Run(Update(e, xs[0]), xs[1..])
  }

  /** After a stream of samples the window is the old window slid along the stream:
      the last `n` samples of the old window followed by the stream. */
  lemma RunWindow(e: Filter, xs: seq<real>)
    requires Valid(e)
    ensures Window(Run(e, xs).x, Run(e, xs).hx) == Slide(Window(e.x, e.hx), xs)
    ensures Window(Run(e, xs).x, Run(e, xs).hx) == (Window(e.x, e.hx) + xs)[|xs|..]
  {
    RunSlides(e, xs);
    SlideIsSuffix(Window(e.x, e.hx), xs);
  }

  lemma {:induction false} RunSlides(e: Filter, xs: seq<real>)
    requires Valid(e)
    ensures Window(Run(e, xs).x, Run(e, xs).hx) == Slide(Window(e.x, e.hx), xs)
    decreases |xs|
  {
    if |xs| > 0 {
      var e' := Update(e, xs[0]);
      assert Run(e, xs) == Run(e', xs[1..]);
      RunSlides(e', xs[1..]);
      UpdateSlidesWindow(e, xs[0]);
    }
  }

  lemma SlideSuffix(w: seq<real>, xs: seq<real>)
    requires |w| >= 1 && |xs| >= 1
    ensures ((w[1..] + [xs[0]]) + xs[1..])[|xs| - 1..] == (w + xs)[|xs|..]
  {
    assert (w[1..] + [xs[0]]) + xs[1..] == (w + xs)[1..];
  }

  /** The outputs after each sample of a stream. */
  function Outputs(e: Filter, xs: seq<real>): (ys: seq<seq<real>>)
    requires Valid(e)
    ensures |ys| == |xs|
    decreases |xs|
  {
    if |xs| == 0 then [] else [Update(e, xs[0]).filtered] + Outputs(Update(e, xs[0]), xs[1..])
  }

  lemma {:induction false} OutputIsRunPrefix(e: Filter, xs: seq<real>, t: nat)
    requires Valid(e) && t < |xs|
    ensures Outputs(e, xs)[t] == Run(e, xs[..t + 1]).filtered
    decreases t
  {
    var e' := Update(e, xs[0]);
    var p := xs[..t + 1];
    PrefixTail(xs, t);
    assert Run(e, p) == Run(e', p[1..]);
    if t > 0 {
      ShiftOutputs(e, xs, t);
      OutputIsRunPrefix(e', xs[1..], t - 1);
    }
  }

  /** The first t + 1 samples of a stream are its first sample followed by the first
      t samples of the rest. */
  lemma PrefixTail(xs: seq<real>, t: nat)
    requires t < |xs|
    ensures xs[..t + 1][0] == xs[0] && xs[..t + 1][1..] == xs[1..][..t]
  {
  }

  /** A window slid along a stream: each sample drops the oldest entry and appends
      itself. */
  function Slide(w: seq<real>, xs: seq<real>): (r: seq<real>)
    requires |w| >= 1
    ensures |r| == |w|
    decreases |xs|
  {
    if |xs| == 0 then w else Slide(w[1..] + [xs[0]], xs[1..])
  }

  /** Sliding a window along a stream leaves the last |w| entries of the window
      followed by the stream. */
  lemma {:induction false} SlideIsSuffix(w: seq<real>, xs: seq<real>)
    requires |w| >= 1
    ensures Slide(w, xs) == (w + xs)[|xs|..]
    decreases |xs|
  {
    if |xs| == 0 {
      assert (w + xs)[|xs|..] == w;
    } else {
      SlideIsSuffix(w[1..] + [xs[0]], xs[1..]);
      SlideSuffix(w, xs);
    }
  }

  /** The streaming filter computes the naive sliding-window convolution: output `t`
      of channel `f` is the channel's row against the window slid along the first
      t + 1 samples of the stream. */
  lemma SlidingConvolution(e: Filter, xs: seq<real>, t: nat, f: nat)
    requires Valid(e) && t < |xs| && f < e.channels
    ensures Blocks(e.n, f + 1) <= |e.fir| && |Outputs(e, xs)[t]| == e.channels
    ensures Outputs(e, xs)[t][f] == Dot(Row(e.fir, e.n, f), Slide(Window(e.x, e.hx), xs[..t + 1]))
  {
    var r := Run(e, xs[..t + 1]);
    OutputIsRunPrefix(e, xs, t);
    ConsistentAt(r, f);
    RunSlides(e, xs[..t + 1]);
  }

  /** Later outputs of a stream are the outputs of the rest of the stream after its
      first sample. */
  lemma ShiftOutputs(e: Filter, xs: seq<real>, t: nat)
    requires Valid(e) && 0 < t < |xs|
    ensures Outputs(e, xs)[t] == Outputs(Update(e, xs[0]), xs[1..])[t - 1]
  {
  }

  /** Output f right after a sample is its row against the window slid by that sample. */
  lemma UpdateOutput(e: Filter, v: real, f: nat)
    requires Valid(e) && f < e.channels
    ensures Blocks(e.n, f + 1) <= |e.fir| && |Update(e, v).filtered| == e.channels
    ensures Update(e, v).filtered[f] == Dot(Row(e.fir, e.n, f), Window(e.x, e.hx)[1..] + [v])
  {
    var r := Update(e, v);
    ConsistentAt(r, f);
    UpdateSlidesWindow(e, v);
  }

  lemma ConsistentAt(e: Filter, f: nat)
    requires Valid(e) && Consistent(e) && f < e.channels
    ensures Blocks(e.n, f + 1) <= |e.fir| && e.filtered[f] == Dot(Row(e.fir, e.n, f), Window(e.x, e.hx))
  {
    RowFits(e.n, e.channels, f);
    assert ChannelConsistent(e, f);
  }

  /** Output t of channel f is the channel's row against the n consecutive samples of
      the old window followed by the stream that end with sample t. */
  lemma SlidingConvolutionSuffix(e: Filter, xs: seq<real>, t: nat, f: nat)
    requires Valid(e) && t < |xs| && f < e.channels
    ensures Blocks(e.n, f + 1) <= |e.fir| && |Outputs(e, xs)[t]| == e.channels
    ensures Outputs(e, xs)[t][f]
      == Dot(Row(e.fir, e.n, f), (Window(e.x, e.hx) + xs)[t + 1..t + 1 + e.n])
  {
    var w := Window(e.x, e.hx);
    var p := xs[..t + 1];
    assert Slide(w, p) == (w + xs)[t + 1..t + 1 + e.n] by {
      SlideIsSuffix(w, p);
      PrefixWindow(w, xs, p, t, e.n);
    }
    SlidingConvolution(e, xs, t, f);
  }

  lemma PrefixWindow(w: seq<real>, xs: seq<real>, prefix: seq<real>, t: nat, n: nat)
    requires t < |xs| && prefix == xs[..t + 1] && n == |w|
    ensures (w + prefix)[|prefix|..] == (w + xs)[t + 1..t + 1 + n]
  {
  }

  /** The realignment `write` performs before persisting the samples: the buffer is
      rotated so that the oldest sample comes first and the head returns to zero. */
  function Realign(e: Filter): (r: Filter)
    requires Valid(e)
    ensures Valid(r) && r.hx == 0
    ensures r.n == e.n && r.channels == e.channels && r.fir == e.fir && r.filtered == e.filtered
    ensures r.x == Window(e.x, e.hx)
    ensures Window(r.x, r.hx) == Window(e.x, e.hx)
  {
    RealignedSamples(e.x, e.hx);
    e.(x := if e.hx > 0 then Ring.RectifyAsWritten(e.x, 1, e.n, e.hx, e.hx) else e.x, hx := 0)
  }

  lemma RealignedSamples(x: seq<real>, h: nat)
    requires h < |x|
    ensures var y := if h > 0 then Ring.RectifyAsWritten(x, 1, |x|, h, h) else x;
      y == Window(x, h) && Window(y, 0) == y
  {
    if h > 0 {
      Ring.RectifyRotates(x, h);
    } else {
      assert Window(x, 0) == x;
    }
    assert Window(Window(x, h), 0) == Window(x, h);
  }

  /** Realignment leaves every output consistent with the window. */
  lemma RealignKeepsOutputs(e: Filter)
    requires Valid(e) && Consistent(e)
    ensures Consistent(Realign(e))
  {
    var r := Realign(e);
    forall f | 0 <= f < e.channels
      ensures ChannelConsistent(r, f)
    {
      assert ChannelConsistent(e, f);
    }
  }

  /** Persisting the samples does not change what the filter computes next. */
  lemma RealignThenUpdate(e: Filter, v: real)
    requires Valid(e)
    ensures Update(Realign(e), v).filtered == Update(e, v).filtered
  {
    UpdateSlidesWindow(e, v);
    UpdateSlidesWindow(Realign(e), v);
    SameWindowSameOutputs(Update(Realign(e), v), Update(e, v));
  }

  /** The outputs of a consistent filter depend only on its bank and its window, not
      on where the head sits in the ring. */
  lemma SameWindowSameOutputs(a: Filter, b: Filter)
    requires Valid(a) && Valid(b) && Consistent(a) && Consistent(b)
    requires a.n == b.n && a.channels == b.channels && a.fir == b.fir
    requires Window(a.x, a.hx) == Window(b.x, b.hx)
    ensures a.filtered == b.filtered
  {
    forall f | 0 <= f < a.channels
      ensures a.filtered[f] == b.filtered[f]
    {
      ConsistentAt(a, f);
      ConsistentAt(b, f);
    }
  }
}
