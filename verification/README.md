# zdf — a Dafny model of the zero-delay FIR-derivative filter

`zdf` is a header-only C++ library. It computes the derivatives of a sampled signal
at several timescales, using a bank of finite-impulse-response filters. A 64-bit
configuration word fixes the bank at compile time. The word packs six fields:
- the filter length `N`;
- a 16-bit set `D` of derivative orders;
- the hull order `Q`;
- the baseline order `K`;
- the timescale range `[M, U)`.

The constructor builds one coefficient row of length `N` per derivative order and
timescale ("channel"). Each row is a minimal kernel, or for `Q > 0` a hull kernel.
Rows of order > 0 are normalised to zero sum. Rows of order 0 get unit DC gain when
`Q = 0`; for `Q > 0` they sum to the minimal kernel's sum instead. The constructor
then computes the outputs of a seed window. Each `update` writes one sample into a
ring buffer of `N` samples and recomputes every channel. It does this with two
transposed matrix-vector products that together cover the samples in chronological
order. `write` first rotates the ring so that the oldest sample comes first.

The model is written over exact arithmetic: samples and coefficients are `real`, and
the BLAS/VML calls are explicit sums and element-wise maps. Its modules:

- `Types` (types.dfy): the field masks, `decode`/`encode` per field, the six-field
  encoder, and the derivative-list encoder, over `bv64`.
- `Bits` (bits.dfy): bits, popcount, count of trailing zeros, and bit length of the
  16-bit derivative set.
- `Util` (util.dfy): `nCr` in 32-bit unsigned arithmetic, `nchar`, and both `join`
  overloads. The path join is a method that mirrors the backwards digit loop.
- `Ring` (rectify.dfy): `rectify` on a column-major `U×L` ring. It is modelled with
  `memmove`/`memcpy` as sequence updates, once corrected and once as written.
- `Blas` (blas.dfy): `sdot`, transposed `sgemv`, `vsSubI`, `vsAbs`, `vsMulI`.
- `Builder` (builder.dfy): the constructor's bookkeeping. This covers the decoded
  configuration, the derivative orders, the channel index, `delay`/`kDelay`, the
  normalisation of a channel, and the layout of the bank.
- `Engine` (engine.dfy): the filter state, construction, `update`, a stream of
  updates, and the realignment in `write`.
- `Arith` (arith.dfy): small integer facts. `Blocks(n, k)` is `n*k` written as
  repeated addition, so that row offsets stay linear.

The central results are in `Engine`. `Update` keeps every output equal to its row
against the chronological window. Over a stream, output `t` of channel `f` is the
naive sliding-window convolution: the row against the `N` samples of seed-then-stream
that end at sample `t` (`SlidingConvolutionSuffix`).

## Model

| member | source | states |
|---|---|---|
| Types.Decode | src/types.h:53-67 | For one of the six selectors the decoded value is at most the field's bound (65535 for N and D, 15 for Q, K, M, U); any other selector decodes to `kInvalid`, 0 |
| Types.DecodeN | src/types.h:57 | The N field decodes to at most 65535 |
| Types.DecodeD | src/types.h:59 | The D field decodes to at most 65535 |
| Types.DecodeQ | src/types.h:61 | The Q field decodes to at most 15 |
| Types.DecodeK | src/types.h:63 | The K field decodes to at most 15 |
| Types.DecodeM | src/types.h:65 | The M field decodes to at most 15 |
| Types.DecodeU | src/types.h:67 | The U field decodes to at most 15 |
| Types.Encode | src/types.h:69-112 | Under the asserted bound, decoding an encoded value with the same selector gives the value back; an unknown selector encodes to `kInvalid` |
| Types.EncodeN | src/types.h:72-77 | A value up to 65535 is placed inside the N mask only and decodes back to itself |
| Types.EncodeD | src/types.h:78-83 | A value up to 65535 is placed inside the D mask only and decodes back to itself |
| Types.EncodeQ | src/types.h:89-94 | A value up to 15 is placed inside the Q mask only and decodes back to itself |
| Types.EncodeK | src/types.h:95-100 | A value up to 15 is placed inside the K mask only and decodes back to itself |
| Types.EncodeM | src/types.h:101-106 | A value up to 15 is placed inside the M mask only and decodes back to itself |
| Types.EncodeU | src/types.h:107-112 | A value up to 15 is placed inside the U mask only and decodes back to itself |
| Types.MasksDisjoint | src/types.h:24-46 | The six masks are pairwise disjoint, and each field's bound is its mask shifted down |
| Types.EncodeConfig | src/types.h:114-117 | Every one of the six fields of the packed word decodes to the value given for it |
| Types.RepackFields | src/types.h:114-117 | Conversely, a word with no bits outside the six masks is the packing of its own decoded fields, so packing is a bijection onto such words |
| Types.PackedFields | src/types.h:116 | Round trip of the OR of six placed values: each field decodes to its own value, the other five do not disturb it |
| Types.DerivativeBits | src/types.h:84-88 | Bit i of the folded `1 << d` set is set iff order i is listed |
| Types.DerivativeBitsCount | src/types.h:84-88 | The set bits are exactly the listed orders, so the popcount is the number of distinct orders |
| Types.EncodeConfigWithDerivatives | src/types.h:119-123 | The D field decodes to the bit set of the listed orders; the other five fields decode to their values |
| Bits.CountrZero | src/zdf.h:50 | `countr_zero` of a nonzero set: a set position with no set position below it |
| Bits.BitLength | src/zdf.h:98 | `64 - countl_zero`: no set bit at or above it, and the bit just below it is set when it is positive |
| Builder.ConfigRoundTrip | src/zdf.h:47-49 | The constructor's decoded configuration of a word packed from six in-range fields is those six fields |
| Builder.NumMu | src/zdf.h:49 | `nM` is the unsigned-short difference U - M: it is at most 15 when M <= U and wraps to at least 65521 when M > U |
| Builder.Delay | src/zdf.h:57-59 | `delay(n, kappa, mu)` lies strictly between 0 and 1 for all naturals |
| Builder.KDelay | src/zdf.h:74 | `kDelay` is nonnegative and below N for N >= 1 (zero for N = 0) |
| Builder.KDelayIsQuotient | src/zdf.h:74 | Truncating `N * delay` equals the integer quotient N(kappa + d0 + 1) div (mu + kappa + 2(d0 + 1)) |
| Builder.DerivativeOrders | src/zdf.h:97-103 | For D != 0 the orders number `popcount(D)`, start at `countr_zero(D)`, are strictly ascending, and contain d iff bit d of D is set |
| Builder.Channel | src/zdf.h:109 | `fx = mj + nM*nj` decodes back to nj (quotient by nM) and mj (remainder) |
| Builder.ChannelInRange | src/zdf.h:105-109 | Every pair with nj < nD and mj < nM gets a channel below `kF = nD*nM` |
| Builder.ChannelOnto | src/zdf.h:105-109 | Every channel below `kF` comes from a pair in range |
| Builder.ChannelInjective | src/zdf.h:109 | Two pairs share a channel iff they are the same pair |
| Builder.RowIsSlice | src/zdf.h:112 | Row fx of the bank is `_fir[N*fx .. N*fx + N)` |
| Builder.RowsPartition | src/zdf.h:112 | A bank of `kF` channels holds `N*kF` coefficients; the rows `[N*fx, N*fx + N)` of distinct channels are disjoint; every coefficient p lies in the row of channel p div N |
| Builder.Centred | src/zdf.h:117-118 | Removing the mean (dot product with ones over N) leaves a kernel that sums to zero, each entry shifted by the mean |
| Builder.NormTerm | src/zdf.h:116-123 | The normalising term is the magnitude sum of the centred kernel for order > 0 (nonnegative) and the plain sum for order 0 |
| Builder.NormalizeChannel | src/zdf.h:116-156 | When the term divided by is nonzero (the minimal kernel's for q = 0, the hull's for q > 0): q = 0 and order 0 sums to 1; order > 0 sums to 0; q = 0 and order > 0 has magnitudes summing to 1; q > 0 keeps the minimal kernel's sum (order 0) or centred magnitude sum (order > 0) |
| Builder.BankChannel | src/zdf.h:105-156 | Row `fx = mj + nM*nj` of the built bank is the normalised filter for derivative order `orders[nj]` at timescale index mj |
| Builder.BankChannelGain | src/zdf.h:154-156 | Every built row of order 0 with q = 0 sums to 1, and every row of order > 0 sums to 0 |
| Blas.GemvTColumns | src/zdf.h:168 | Entry j of a transposed `sgemv` is column j of the matrix against the vector |
| Engine.Init | src/zdf.h:160 | After construction the head is 0, the samples are the seed, and every output is its row against the seed |
| Engine.Construct | src/zdf.h:78-161 | The constructed filter holds the built bank, has `nD*nM` channels and head 0, and its outputs are consistent with the seed window |
| Engine.Update | src/zdf.h:166-175 | `update` writes the sample at the old head, keeps the bank, moves the head to its successor mod N, and leaves every output equal to its row against the new chronological window |
| Engine.AdvanceWraps | src/zdf.h:173 | The head after an update is `(hx + 1) % N` |
| Engine.WindowIndex | src/zdf.h:168-172 | Entry i of the window is the sample i places after the head, around the ring |
| Engine.CombinedAt | src/zdf.h:168-172 | Output f of the two `sgemv` calls is the last h coefficients against the first h samples, plus, when h < N only, the first N - h coefficients against the rest |
| Engine.HeadPart | src/zdf.h:168 | The first `sgemv` gives, per channel, the last h coefficients of its row against `X[0..h)` |
| Engine.TailPart | src/zdf.h:169-172 | The second `sgemv` gives, per channel, the first N - h coefficients of its row against `X[h..N)` |
| Engine.ChannelUpdate | src/zdf.h:168-173 | The two partial products add up to the row against the window that starts at the new head |
| Engine.UpdateSlidesWindow | src/zdf.h:167-173 | An update drops the oldest sample from the window and appends the new one |
| Engine.UpdateOutput | src/zdf.h:166-175 | Output f after an update is row f against the old window without its oldest sample, followed by the new sample |
| Engine.Run | src/zdf.h:183-185 | A stream of updates keeps the filter well formed, with the same bank, and makes the outputs consistent |
| Engine.RunWindow | src/zdf.h:183-185 | After a stream the window is the last N samples of the old window followed by the stream |
| Engine.OutputIsRunPrefix | src/zdf.h:183-186 | The t-th cached output vector is the state after the first t + 1 samples |
| Engine.SlidingConvolution | src/zdf.h:166-175 | Output t of channel f is the row against the window slid along samples 0..t |
| Engine.SlidingConvolutionSuffix | src/zdf.h:166-175 | Output t of channel f is the naive convolution: the row against the N consecutive samples of seed-then-stream that end at sample t |
| Engine.SameWindowSameOutputs | src/zdf.h:166-175 | Consistent outputs depend only on the bank and the window, not on where the head sits |
| Engine.Realign | src/zdf.h:201 | `write`'s realignment, with `rectify` as written, puts the window in storage order with head 0 and keeps bank and outputs |
| Engine.RealignedSamples | src/zdf.h:201 | `rectify<1, N>(X, hx, hx)` as written, for hx > 0, stores exactly the chronological window |
| Engine.RealignKeepsOutputs | src/zdf.h:200-205 | Realignment keeps every output consistent with the window |
| Engine.RealignThenUpdate | src/zdf.h:200-205 | Persisting the samples does not change the outputs of the next update |
| Ring.Rectify | src/util.h:76-90 | Corrected `rectify`. Unwrapped (hx > tx): the hx - tx columns from tx move to the front and the rest stays. Wrapped: columns tx..L-1 then 0..hx-1 come first and the rest stays |
| Ring.MoveHeadFirst | src/util.h:80-82 | The `2*tx >= L + hx` branch produces the wrapped layout |
| Ring.FirstMoveSpares | src/util.h:80-82 | In that branch the first move's target ends at or before column tx, where the second move's source begins, and the `memcpy` ranges do not overlap |
| Ring.StageHead | src/util.h:83-89 | The staged-buffer branch produces the wrapped layout |
| Ring.PullOneColumn | src/util.h:79 | The as-written unwrapped branch copies column tx over column 0 and keeps every other entry |
| Ring.RectifyAsWritten | src/util.h:78-79 | As written, the unwrapped branch moves only column tx to column 0 and leaves every other entry; the wrapped branches agree with `Ring.Rectify` |
| Ring.RectifyAsWrittenMovesOneColumn | src/util.h:79 | On a one-row, four-column ring with hx = 3 and tx = 1, the code as written differs from the corrected version |
| Ring.RectifyAtZeroTail | src/util.h:78-89 | With tx = 0 both versions leave the buffer unchanged in every branch |
| Ring.RectifyRotates | src/util.h:80-88 | With one row and hx = tx = h, both versions rotate the ring left by h |
| Util.NCr | src/util.h:19-24 | Within 32 bits. For r > n the loop is empty and the result is 1. For r <= n without intermediate overflow the result is C(n, r) = C(n, n - r) |
| Util.WrappingStep | src/util.h:22 | One step `x *= f; x /= ix` in uint32: the result is below 2^32 and is exact when the product fits and divides |
| Util.ExactStep | src/util.h:22 | After step ix the accumulator is C(big + ix, ix); the product does not overflow and the division is exact |
| Util.BinomialSymmetric | src/util.h:21 | C(n, r) = C(n, n - r), which justifies choosing the larger of r and n - r |
| Util.NChar | src/util.h:26-31 | `nchar<T>` is 0 iff T = 0, and otherwise d with 10^(d-1) <= T < 10^d |
| Util.Decimal | src/util.h:62 | The written digits number `nchar<T>`, are decimal, have no leading zero, and read back as T |
| Util.Join | src/util.h:37-46 | The variadic join has length the sum of the sizes minus the count plus one, and ends in a NUL |
| Util.JoinPlacesEachInput | src/util.h:44 | Character i of input k lands right after the stripped inputs before it: every input appears whole and in order |
| Util.JoinAppend | src/util.h:44 | Joining a concatenated list is the stripped first part followed by the join of the second |
| Util.WriteDigits | src/util.h:61-62 | The backwards digit loop writes the digits of T into the slot, most significant first, and touches nothing else |
| Util.JoinPath | src/util.h:53-65 | The path join is prefix without NUL, the digits of T, postfix without NUL, then NUL; its length is L + U + nchar<T> - 1; it is the variadic join of the three parts |

## Left out

- `d2N` (src/zdf.h:70-73): a floating-point heuristic built on `log` and `pow`. It is advisory only.
- The minimal-kernel generator `h` (src/zdf.h:209-222): float `vsPowx`/`vsMul`/`saxpy` numerics. Its output enters the model as the opaque `Kernel.minimal` vector.
- The hull construction for `Q > 0` (src/zdf.h:126-143): the Gram matrix, the `sgesv` solve and the hull sum. The hull kernel is an opaque input (`Kernel.hull`).
- The work arrays of the constructor (`working`, the `tau` ramp and the ones vector): the ones vector appears as `Blas.Ones`, the ramp only feeds `h`.
- The file-driven batch `update<P, M>` and `write`'s file output (src/zdf.h:179-194, 202-204), and all of src/proto.h: pure I/O. The seed, the stream and the persisted samples are plain sequences. `Engine.Outputs` stands for the cached outputs, without the fixed-size cache and its missing bound check.
- src/zdf.cpp (command line, thread setup) and src/constants.h (BLAS flags and the `d2N` coefficients): process plumbing.
- IEEE single-precision rounding throughout: samples, coefficients, `delay` and `kDelay` are exact reals, and `kDelay` is truncated from the exact product.
- Builder.NormalizeChannel: requires the term the source divides by to be nonzero (`Builder.Normalizable`): the minimal kernel's term for q = 0, the hull's term for q > 0. A zero divisor gives inf/NaN coefficients in single precision, which exact reals cannot represent. A zero minimal-kernel term with q > 0 is only a numerator and is modelled: it yields an all-zero row.
- Builder.NumDerivatives: `nD` is stated only through `Builder.DerivativeOrders`, whose length is the popcount.
- Builder.DerivativeOrders: requires D != 0. With D = 0 the source writes `derivs[0]` into an array of length zero.
- Builder.BuildBank: its own contract states only the bank's length. The row contents are stated per channel by `Builder.BankChannel`.
- Builder.ConfigOf: the configuration word and the constructor are not wired together. `Engine.Construct` takes the derivative orders, nM and the kernels as arguments. `Builder.ConfigOf`, `Builder.DerivativeOrders` and `Builder.NumMu` state how the source derives them.
- Engine.Init: N = 0 is excluded (a zero-length ring has no head). The source's `_hx %= N` would divide by zero there.
- Types.Encode: the fact that the encoded value lies inside the field's mask is stated per field, by `Types.EncodeN` … `Types.EncodeU`, not on the generic `Encode`.
- Types.DerivativeBits: requires every listed order to be below 16. A larger order fails the source's assertion in `encode<kD>`, or shifts past the width of `int`.
- Util.NCr: the binomial value is promised only when the largest intermediate product fits in 32 bits (`Util.NoOverflow`). Otherwise only the uint32 wrap-around is modelled.
- Util.Join: the array size is an `unsigned short` in the source and would wrap for joins longer than 65535 characters. The model's lengths are unbounded.
- The combined result of the two `sgemv` calls is stated per channel (`Engine.ChannelUpdate`), not as one vector identity.

## Findings

| source | as written | input that shows it | evidently intended | confidence | as-written member | corrected member |
|---|---|---|---|---|---|---|
| src/util.h:79 | the unwrapped branch of `rectify` moves `(hx > tx)*U` floats, which is one column | U = 1, L = 4, hx = 3, tx = 1: only column 1 reaches column 0, and column 2 stays behind at column 2 instead of moving to column 1 | move `(hx - tx)*U` floats, so that all live columns are pulled back to start at column 0, as the function's own description says | high; not executed | Ring.RectifyAsWritten, Ring.RectifyAsWrittenMovesOneColumn | Ring.Rectify |

The only caller in the filter, `write`, always passes `hx == tx`, so it takes a wrapped branch and is not affected. `Engine.Realign` uses `rectify` as written, and `Engine.RealignedSamples` proves the result is the chronological window.
