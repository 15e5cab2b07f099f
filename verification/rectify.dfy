/** Realignment of a ring buffer stored as a column-major matrix of `u` rows and
    `l` columns: column c occupies the flat range [u*c, u*c + u). The oldest column
    (the tail) is moved to column 0 so that the buffer can be saved in order. */
module Ring {
  import opened Arith

  /** Overwrites `buf[dst..dst + |data|]` with `data`, leaving the rest alone. */
  function Blit(buf: seq<real>, dst: nat, data: seq<real>): (r: seq<real>)
    requires dst + |data| <= |buf|
    ensures |r| == |buf|
    ensures r[dst..dst + |data|] == data
    ensures r[..dst] == buf[..dst] && r[dst + |data|..] == buf[dst + |data|..]
  {
    buf[..dst] + data + buf[dst + |data|..]
  }

  /** `std::memmove` of `len` floats: the source is read in full before the
      destination is written, so the ranges may overlap. */
  function MemMove(buf: seq<real>, dst: nat, src: nat, len: nat): seq<real>
    requires src + len <= |buf| && dst + len <= |buf|
  {
    Blit(buf, dst, buf[src..src + len])
  }

  /** `std::memcpy` of `len` floats, which is defined only for disjoint ranges. */
  function MemCpy(buf: seq<real>, dst: nat, src: nat, len: nat): seq<real>
    requires src + len <= |buf| && dst + len <= |buf|
    requires src + len <= dst || dst + len <= src
  {
    Blit(buf, dst, buf[src..src + len])
  }

  /** The flat offsets of the column boundaries the realignment uses. */
  lemma ColumnOffsets(u: nat, l: nat, hx: nat, tx: nat)
    requires hx <= l && tx <= l
    ensures u * tx <= u * l && u * hx <= u * l
    ensures u * (l - tx) == u * l - u * tx
    ensures hx <= tx ==> u * (l - tx + hx) == u * l - u * tx + u * hx && u * hx <= u * tx
    ensures tx < hx ==> u * (hx - tx) == u * hx - u * tx && u * tx + u <= u * l
  {
    MulMonotone(tx, l, u);
    MulMonotone(hx, l, u);
    if hx <= tx {
      MulMonotone(hx, tx, u);
    }
    if tx < hx {
      MulMonotone(tx + 1, l, u);
    }
  }

  /** In the branch `2*tx >= l + hx`, the first move's target columns
      [l - tx, l - tx + hx) end at or before column tx, where the second move's source
      [tx, l) begins: the first move never clobbers what the second reads. The
      second move's target [0, l - tx) also ends at or before column tx, so that
      copy never overlaps its own source. */
  lemma FirstMoveSpares(u: nat, l: nat, hx: nat, tx: nat)
    requires hx <= tx <= l && 2 * tx >= l + hx
    ensures u * (l - tx) + u * hx <= u * tx
    ensures u * (l - tx) <= u * tx
  {
    ColumnOffsets(u, l, hx, tx);
    MulMonotone(l - tx + hx, tx, u);
    MulMonotone(l - tx, tx, u);
  }

  /** The layout a wrapped buffer (`hx <= tx`) is realigned into: the columns from
      the tail to the end come first, then the `hx` columns written since the buffer
      wrapped; the columns after those keep their old contents. */
  ghost predicate WrappedLayout(circ: seq<real>, r: seq<real>, u: nat, l: nat, hx: nat, tx: nat)
    requires |circ| == u * l && hx <= tx <= l
  {
    ColumnOffsets(u, l, hx, tx);
    && |r| == |circ|
    && r[..u * (l - tx)] == circ[u * tx..]
    && r[u * (l - tx)..u * (l - tx + hx)] == circ[..u * hx]
    && r[u * (l - tx + hx)..] == circ[u * (l - tx + hx)..]
  }

  /** The branch `2*tx >= l + hx`: the head piece is the smaller one, so it is moved
      right first, behind where the tail piece will end, and the tail piece is then
      copied to the front. */
  function MoveHeadFirst(circ: seq<real>, u: nat, l: nat, hx: nat, tx: nat): (r: seq<real>)
    requires |circ| == u * l && hx <= tx <= l && 2 * tx >= l + hx
    ensures WrappedLayout(circ, r, u, l, hx, tx)
  {
    ColumnOffsets(u, l, hx, tx);
    FirstMoveSpares(u, l, hx, tx);
    var moved := MemMove(circ, u * (l - tx), 0, u * hx);
    assert moved[u * tx..] == circ[u * tx..];
    MemCpy(moved, 0, u * tx, u * (l - tx))
  }

  /** The other wrapped branch: the head piece is staged in a scratch buffer, the
      tail piece is shifted to the front, and the staged piece is copied behind it. */
  function StageHead(circ: seq<real>, u: nat, l: nat, hx: nat, tx: nat): (r: seq<real>)
    requires |circ| == u * l && hx <= tx <= l
    ensures WrappedLayout(circ, r, u, l, hx, tx)
  {
    ColumnOffsets(u, l, hx, tx);
    var staged := circ[..u * hx];
    var shifted := MemMove(circ, 0, u * tx, u * (l - tx));
    Blit(shifted, u * (l - tx), staged)
  }

  /** The two branches for a wrapped buffer; whichever piece is smaller is moved out
      of the way first. */
  function RealignWrapped(circ: seq<real>, u: nat, l: nat, hx: nat, tx: nat): (r: seq<real>)
    requires |circ| == u * l && hx <= tx <= l
    ensures WrappedLayout(circ, r, u, l, hx, tx)
  {
    if 2 * tx >= l + hx then MoveHeadFirst(circ, u, l, hx, tx) else StageHead(circ, u, l, hx, tx)
  }

  /** The unwrapped branch (`hx > tx`): `cols` columns starting at the tail are moved
      to the front; everything after them keeps its old contents. */
  function PullBack(circ: seq<real>, u: nat, l: nat, tx: nat, cols: nat): (r: seq<real>)
    requires |circ| == u * l && tx + cols <= l
    ensures ColumnsPulled(circ, r, u, l, tx, cols)
  {
    PulledColumns(u, l, tx, cols);
    MemMove(circ, 0, u * tx, u * cols)
  }

  /** `r` is `circ` with the `cols` columns from column tx on copied to the front and
      every later entry kept. */
  ghost predicate ColumnsPulled(circ: seq<real>, r: seq<real>, u: nat, l: nat, tx: nat, cols: nat)
    requires |circ| == u * l && tx + cols <= l
  {
    PulledColumns(u, l, tx, cols);
    && |r| == |circ|
    && r[..u * cols] == circ[u * tx..u * (tx + cols)]
    && r[u * cols..] == circ[u * cols..]
  }

  lemma PulledColumns(u: nat, l: nat, tx: nat, cols: nat)
    requires tx + cols <= l
    ensures 0 <= u * tx && 0 <= u * cols
    ensures u * tx + u * cols == u * (tx + cols) <= u * l
  {
    Distribute(u, tx, cols);
    MulMonotone(tx + cols, l, u);
    MulMonotone(0, tx, u);
    MulMonotone(0, cols, u);
  }

  /** `rectify<U, L>(circ, hx, tx)` with the first branch repaired: when the buffer
      has not wrapped (`hx > tx`) the `hx - tx` live columns from the tail on move to
      the front. In every branch the live data, read from the tail and wrapping, now
      starts at column 0. */
  function Rectify(circ: seq<real>, u: nat, l: nat, hx: nat, tx: nat): (r: seq<real>)
    requires |circ| == u * l && hx <= l && tx <= l
    ensures |r| == |circ|
    ensures hx > tx ==> r[..u * (hx - tx)] == circ[u * tx..u * hx]
    ensures hx > tx ==> r[u * (hx - tx)..] == circ[u * (hx - tx)..]
    ensures hx <= tx ==> WrappedLayout(circ, r, u, l, hx, tx)
  {
    if hx > tx then
      var r := PullBack(circ, u, l, tx, hx - tx);
      assert tx + (hx - tx) == hx;
      r
    else
      RealignWrapped(circ, u, l, hx, tx)
  }

  /** `rectify<U, L>(circ, hx, tx)` as written: the first branch moves
      `(hx > tx) * U` floats, which is one column, so only column tx reaches column 0.
      The wrapped branches are those of `Rectify`. */
  function RectifyAsWritten(circ: seq<real>, u: nat, l: nat, hx: nat, tx: nat): (r: seq<real>)
    requires |circ| == u * l && hx <= l && tx <= l
    ensures |r| == |circ|
    ensures hx > tx ==> OneColumnMoved(circ, r, u, l, tx)
    ensures hx <= tx ==> r == Rectify(circ, u, l, hx, tx)
  {
    if hx > tx then
      PullOneColumn(circ, u, l, tx)
    else
      var r := RealignWrapped(circ, u, l, hx, tx);
      assert r == Rectify(circ, u, l, hx, tx);
      r
  }

  /** `r` is `circ` with column tx copied over column 0 and every other entry kept. */
  ghost predicate OneColumnMoved(circ: seq<real>, r: seq<real>, u: nat, l: nat, tx: nat)
    requires |circ| == u * l && tx < l
  {
    PulledColumns(u, l, tx, 1);
    assert u * 1 == u;
    && |r| == |circ|
    && r[..u] == circ[u * tx..u * (tx + 1)]
    && r[u..] == circ[u..]
  }

  /** The unwrapped branch as written: `(hx > tx) * U` floats, one column, move from
      column tx to column 0. */
  function PullOneColumn(circ: seq<real>, u: nat, l: nat, tx: nat): (r: seq<real>)
    requires |circ| == u * l && tx < l
    ensures OneColumnMoved(circ, r, u, l, tx)
  {
    assert u * 1 == u;
    PullBack(circ, u, l, tx, 1)
  }

  /** With the tail at column 0 there is nothing to pull back: both versions leave
      the buffer unchanged, whichever branch runs. */
  lemma RectifyAtZeroTail(circ: seq<real>, u: nat, l: nat, hx: nat)
    requires |circ| == u * l && hx <= l
    ensures Rectify(circ, u, l, hx, 0) == circ
    ensures RectifyAsWritten(circ, u, l, hx, 0) == circ
  {
    var r := Rectify(circ, u, l, hx, 0);
    if hx > 0 {
      assert r == r[..u * hx] + r[u * hx..];
      assert circ == circ[..u * hx] + circ[u * hx..];
    } else {
      assert r == r[..u * l] + r[u * l..u * l] + r[u * l..];
    }
  }

  /** The realignment a single-row ring buffer gets when head and tail coincide: a
      left rotation by the head, i.e. the buffer read from the head and wrapping. */
  lemma RectifyRotates(x: seq<real>, h: nat)
    requires h <= |x|
    ensures Rectify(x, 1, |x|, h, h) == x[h..] + x[..h]
    ensures RectifyAsWritten(x, 1, |x|, h, h) == x[h..] + x[..h]
  {
    var r := Rectify(x, 1, |x|, h, h);
    var n := |x|;
    assert r[..n - h] == x[h..];
    assert r[n - h..n] == x[..h];
    assert r == r[..n - h] + r[n - h..n];
  }

  /** The first branch as written stops after one column: a four-column, one-row
      buffer with live columns 1 and 2 gets only column 1 moved, so column 1 of the
      result still holds the old column 1 instead of the old column 2. */
  lemma RectifyAsWrittenMovesOneColumn()
    ensures RectifyAsWritten([0.0, 1.0, 2.0, 3.0], 1, 4, 3, 1) == [1.0, 1.0, 2.0, 3.0]
    ensures Rectify([0.0, 1.0, 2.0, 3.0], 1, 4, 3, 1) == [1.0, 2.0, 2.0, 3.0]
  {
    var c := [0.0, 1.0, 2.0, 3.0];
    var a := RectifyAsWritten(c, 1, 4, 3, 1);
    assert a[..1] == [1.0] && a[1..] == [1.0, 2.0, 3.0];
    assert a == a[..1] + a[1..];
    var r := Rectify(c, 1, 4, 3, 1);
    assert r[..2] == [1.0, 2.0] && r[2..] == [2.0, 3.0];
    assert r == r[..2] + r[2..];
  }
}
