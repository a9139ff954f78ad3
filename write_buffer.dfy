/**
 * The NFC write buffer: NUM_BUFS frames of DATA_LEN bytes each, where the first
 * PREFIX_LEN + 1 bytes of every frame (the prefix and the address byte) are reserved.
 * `Append` streams a fragment's bytes into the frames through a cursor that skips the
 * reserved bytes; `GetData` picks the frames to transmit.
 *
 * A cursor value c stands for byte c % DATA_LEN of frame c / DATA_LEN.
 */
module WriteBuffers {
  import opened Bytes

  /** The three const generics of `WriteBuffer<DATA_LEN, NUM_BUFS, PREFIX_LEN>`. */
  datatype Layout = Layout(dataLen: nat, numBufs: nat, prefixLen: nat)
  {
    /** The instantiations the buffer is meant for: at least one frame, and room for data after the reserved bytes. */
    predicate Valid() {
      numBufs >= 1 && prefixLen + 1 < dataLen
    }

    function Capacity(): nat {
      dataLen * numBufs
    }

    /** The frame cursor position `pos` is in. */
    function Frame(pos: nat): nat
      requires Valid()
    {
      pos / dataLen
    }

    /** The offset of cursor position `pos` in its frame. */
    function Offset(pos: nat): (r: nat)
      requires Valid()
      ensures r < dataLen
    {
      pos % dataLen
    }
  }

  /** `rows` has the buffer's shape. */
  predicate Shaped(g: Layout, rows: seq<seq<u8>>) {
    |rows| == g.numBufs && forall i :: 0 <= i < |rows| ==> |rows[i]| == g.dataLen
  }

  /** A cursor between appends: it points past the reserved bytes of its frame. */
  predicate Settled(g: Layout, c: nat)
    requires g.Valid()
  {
    c % g.dataLen > g.prefixLen && c <= g.Capacity() + g.prefixLen + 1
  }

  /** The jump at a frame boundary over the next frame's prefix and address byte. */
  function Settle(g: Layout, c: nat): nat
    requires g.Valid()
  {
    if c % g.dataLen == 0 then c + g.prefixLen + 1 else c
  }

  /** The cursor after writing one byte at `c`. */
  function NextCursor(g: Layout, c: nat): nat
    requires g.Valid()
  {
    Settle(g, c + 1)
  }

  /** Cursor position `pos` lies inside one of the frames. */
  predicate InFrames(g: Layout, pos: nat)
    requires g.Valid()
  {
    g.Frame(pos) < g.numBufs
  }

  /** The byte at cursor position `pos`. */
  function Cell(g: Layout, rows: seq<seq<u8>>, pos: nat): u8
    requires g.Valid() && Shaped(g, rows) && InFrames(g, pos)
  {
    rows[g.Frame(pos)][g.Offset(pos)]
  }

  /** `rows` with byte `b` stored at cursor position `c`. */
  function Put(g: Layout, rows: seq<seq<u8>>, c: nat, b: u8): (r: seq<seq<u8>>)
    requires g.Valid() && Shaped(g, rows) && InFrames(g, c)
    ensures Shaped(g, r)
  {
    var row := g.Frame(c);
    rows[row := rows[row][g.Offset(c) := b]]
  }

  /** `Put` changes the byte at `c` and no other. */
  lemma PutCell(g: Layout, rows: seq<seq<u8>>, c: nat, b: u8, pos: nat)
    requires g.Valid() && Shaped(g, rows) && InFrames(g, c) && InFrames(g, pos)
    ensures Cell(g, Put(g, rows, c, b), pos) == if pos == c then b else Cell(g, rows, pos)
  {
    if pos == c {
      PutCellHere(g, rows, c, b);
    } else {
      PutCellElsewhere(g, rows, c, b, pos);
    }
  }

  lemma PutCellHere(g: Layout, rows: seq<seq<u8>>, c: nat, b: u8)
    requires g.Valid() && Shaped(g, rows) && InFrames(g, c)
    ensures Cell(g, Put(g, rows, c, b), c) == b
  {
    var d := g.dataLen;
    var i, j := g.Frame(c), g.Offset(c);
    assert Put(g, rows, c, b)[i] == rows[i][j := b];
  }

  lemma PutCellElsewhere(g: Layout, rows: seq<seq<u8>>, c: nat, b: u8, pos: nat)
    requires g.Valid() && Shaped(g, rows) && InFrames(g, c) && InFrames(g, pos) && pos != c
    ensures Cell(g, Put(g, rows, c, b), pos) == Cell(g, rows, pos)
  {
    var d := g.dataLen;
    var i, j, pi, pj := g.Frame(c), g.Offset(c), g.Frame(pos), g.Offset(pos);
    DistinctPositions(pos, c, d);
    var put := Put(g, rows, c, b);
    if pi == i {
      assert put[i] == rows[i][j := b];
    } else {
      assert put[pi] == rows[pi];
    }
  }

  /** Distinct positions differ in frame or in offset; an offset is below the frame length. */
  lemma DistinctPositions(x: nat, y: nat, d: nat)
    requires d > 0 && x != y
    ensures x / d != y / d || x % d != y % d
    ensures x % d < d && y % d < d
  {
    DivModSplit(x, d);
    DivModSplit(y, d);
  }

  /**
   * What `append` does to the frames and the cursor: each byte in turn is stored at the
   * cursor, which then moves on; once the cursor is past the last frame the rest is dropped.
   */
  function AppendSpec(g: Layout, rows: seq<seq<u8>>, c: nat, data: seq<u8>): (r: (seq<seq<u8>>, nat))
    requires g.Valid() && Shaped(g, rows) && Settled(g, c)
    ensures Shaped(g, r.0) && Settled(g, r.1) && c <= r.1
    decreases |data|
  {
    if data == [] || c >= g.Capacity() then (rows, c)
    else
      CapacityBound(g, c);
      NextCursorSettles(g, c);
      AppendSpec(g, Put(g, rows, c, data[0]), NextCursor(g, c), data[1..])
  }

  /** The cursor position the `k`-th byte written from cursor `c` lands at. */
  function Landing(g: Layout, c: nat, k: nat): nat
    requires g.Valid()
    decreases k
  {
    if k == 0 then c else Landing(g, NextCursor(g, c), k - 1)
  }

  // ---------------------------------------------------------------------------
  // Arithmetic helpers

  lemma DivModSplit(x: nat, d: nat)
    requires d > 0
    ensures x == (x / d) * d + x % d && 0 <= x % d < d
  {
  }

  /** A position in frame `i` has quotient `i` and remainder its offset in the frame. */
  lemma InFrame(x: nat, i: nat, d: nat)
    requires d > 0 && i * d <= x < i * d + d
    ensures x / d == i && x % d == x - i * d
  {
    DivModSplit(x, d);
    var q := x / d;
    if q < i {
      assert q * d + d <= i * d by { MulLe(q + 1, i, d); }
    } else if q > i {
      assert (i + 1) * d <= q * d by { MulLe(i + 1, q, d); }
    }
  }

  lemma MulLe(a: nat, b: nat, d: nat)
    requires a <= b
    ensures a * d <= b * d
  {
  }

  /** A position below the capacity lies inside the frames. */
  lemma CapacityBound(g: Layout, pos: nat)
    requires g.Valid() && pos < g.Capacity()
    ensures InFrames(g, pos)
  {
    DivModSplit(pos, g.dataLen);
    if pos / g.dataLen >= g.numBufs {
      MulLe(g.numBufs, pos / g.dataLen, g.dataLen);
    }
  }

  /** A position inside the frames lies below the capacity. */
  lemma FrameBound(g: Layout, pos: nat)
    requires g.Valid() && InFrames(g, pos)
    ensures pos < g.Capacity()
  {
    DivModSplit(pos, g.dataLen);
    MulLe(pos / g.dataLen + 1, g.numBufs, g.dataLen);
  }

  /** Jumping from a frame boundary lands on the first data byte of the next frame. */
  lemma BoundaryJump(g: Layout, x: nat)
    requires g.Valid() && x % g.dataLen == 0
    ensures (x + g.prefixLen + 1) % g.dataLen == g.prefixLen + 1
    ensures (x + g.prefixLen + 1) / g.dataLen == x / g.dataLen
  {
    var d := g.dataLen;
    DivModSplit(x, d);
    InFrame(x + g.prefixLen + 1, x / d, d);
  }

  /** Writing one byte keeps the cursor off the reserved bytes and moves it forward by one, or over the next frame's reserved bytes. */
  lemma NextOffset(g: Layout, c: nat)
    requires g.Valid() && c % g.dataLen > g.prefixLen
    ensures NextCursor(g, c) % g.dataLen > g.prefixLen
    ensures NextCursor(g, c) == c + 1 || NextCursor(g, c) == c + 1 + g.prefixLen + 1
  {
    var d := g.dataLen;
    var q, r := c / d, c % d;
    DivModSplit(c, d);
    if r + 1 < d {
      InFrame(c + 1, q, d);
    } else {
      InFrame(c + 1, q + 1, d);
      BoundaryJump(g, c + 1);
    }
  }

  /** One byte written from a settled cursor below capacity leaves the cursor settled and moves it forward. */
  lemma NextCursorSettles(g: Layout, c: nat)
    requires g.Valid() && Settled(g, c) && c < g.Capacity()
    ensures Settled(g, NextCursor(g, c)) && c < NextCursor(g, c)
  {
    NextOffset(g, c);
  }

  // ---------------------------------------------------------------------------
  // Where `append` writes

  /** Landings never fall on a frame's prefix or address byte. */
  lemma {:induction false} LandingAvoidsPrefix(g: Layout, c: nat, k: nat)
    requires g.Valid() && c % g.dataLen > g.prefixLen
    ensures Landing(g, c, k) % g.dataLen > g.prefixLen
    decreases k
  {
    if k > 0 {
      NextOffset(g, c);
      LandingAvoidsPrefix(g, NextCursor(g, c), k - 1);
    }
  }

  /** Bytes land in the order they are written, each at a distinct position. */
  lemma {:induction false} LandingIncreasing(g: Layout, c: nat, k1: nat, k2: nat)
    requires g.Valid() && k1 < k2
    ensures Landing(g, c, k1) < Landing(g, c, k2)
    decreases k2
  {
    if k1 == 0 {
      if k2 > 1 {
        LandingIncreasing(g, NextCursor(g, c), 0, k2 - 1);
      }
    } else {
      LandingIncreasing(g, NextCursor(g, c), k1 - 1, k2 - 1);
    }
  }

  /** A cell that no written byte lands on keeps its old contents. */
  lemma {:induction false} AppendKeepsOtherCells(g: Layout, rows: seq<seq<u8>>, c: nat, data: seq<u8>, pos: nat)
    requires g.Valid() && Shaped(g, rows) && Settled(g, c) && InFrames(g, pos)
    requires forall k :: 0 <= k < |data| ==> Landing(g, c, k) != pos
    ensures Cell(g, AppendSpec(g, rows, c, data).0, pos) == Cell(g, rows, pos)
    decreases |data|
  {
    if data != [] && c < g.Capacity() {
      CapacityBound(g, c);
      NextCursorSettles(g, c);
      var next := NextCursor(g, c);
      assert Landing(g, c, 0) != pos;
      forall k | 0 <= k < |data[1..]| ensures Landing(g, next, k) != pos {
        assert Landing(g, c, k + 1) == Landing(g, next, k);
      }
      AppendKeepsOtherCells(g, Put(g, rows, c, data[0]), next, data[1..], pos);
      PutCell(g, rows, c, data[0], pos);
    }
  }

  /** Every byte whose landing is inside the frames is stored there. */
  lemma {:induction false} AppendPlacesEachByte(g: Layout, rows: seq<seq<u8>>, c: nat, data: seq<u8>, k: nat)
    requires g.Valid() && Shaped(g, rows) && Settled(g, c)
    requires k < |data| && InFrames(g, Landing(g, c, k))
    ensures Cell(g, AppendSpec(g, rows, c, data).0, Landing(g, c, k)) == data[k]
    decreases |data|
  {
    FrameBound(g, Landing(g, c, k));
    if k > 0 {
      LandingIncreasing(g, c, 0, k);
    }
    CapacityBound(g, c);
    NextCursorSettles(g, c);
    var next := NextCursor(g, c);
    var rows1 := Put(g, rows, c, data[0]);
    if k == 0 {
      forall j | 0 <= j < |data[1..]| ensures Landing(g, next, j) != c {
        LandingIncreasing(g, c, 0, j + 1);
      }
      AppendKeepsOtherCells(g, rows1, next, data[1..], c);
      PutCell(g, rows, c, data[0], c);
    } else {
      AppendPlacesEachByte(g, rows1, next, data[1..], k - 1);
    }
  }

  /** Bytes are dropped only once the frames are full: a cursor left inside them has written everything. */
  lemma {:induction false} AppendCursorWhenNotFull(g: Layout, rows: seq<seq<u8>>, c: nat, data: seq<u8>)
    requires g.Valid() && Shaped(g, rows) && Settled(g, c)
    requires AppendSpec(g, rows, c, data).1 < g.Capacity()
    ensures AppendSpec(g, rows, c, data).1 == Landing(g, c, |data|)
    decreases |data|
  {
    if data != [] {
      CapacityBound(g, c);
      NextCursorSettles(g, c);
      AppendCursorWhenNotFull(g, Put(g, rows, c, data[0]), NextCursor(g, c), data[1..]);
    }
  }

  /** The reserved bytes of every frame, the prefix and the address byte, are never written. */
  lemma AppendNeverWritesPrefix(g: Layout, rows: seq<seq<u8>>, c: nat, data: seq<u8>, i: nat, j: nat)
    requires g.Valid() && Shaped(g, rows) && Settled(g, c)
    requires i < g.numBufs && j <= g.prefixLen
    ensures AppendSpec(g, rows, c, data).0[i][j] == rows[i][j]
  {
    var d := g.dataLen;
    var pos := i * d + j;
    MulLe(i + 1, g.numBufs, d);
    InFrame(pos, i, d);
    forall k | 0 <= k < |data| ensures Landing(g, c, k) != pos {
      LandingAvoidsPrefix(g, c, k);
    }
    AppendKeepsOtherCells(g, rows, c, data, pos);
  }

  // ---------------------------------------------------------------------------
  // Which frames `get_data` yields

  /** Frame `i` is sent: it is one of the first `take`, or it is the terminating last frame. */
  predicate Selected(i: nat, n: nat, take: nat) {
    i < take || i == n - 1
  }

  /** The frame indices `get_data` yields, from frame `from` on. */
  function SelectFrom(from: nat, n: nat, take: nat): (r: seq<nat>)
    requires from <= n
    ensures forall k :: 0 <= k < |r| ==> from <= r[k] < n
    ensures forall k1, k2 :: 0 <= k1 < k2 < |r| ==> r[k1] < r[k2]
    ensures forall i :: from <= i < n ==> (i in r <==> Selected(i, n, take))
    decreases n - from
  {
    if from == n then []
    else if Selected(from, n, take) then [from] + SelectFrom(from + 1, n, take)
    else SelectFrom(from + 1, n, take)
  }

  /** The number of frames `get_data` takes before the terminator: those the cursor has reached. */
  function TakeCount(g: Layout, c: nat): nat
    requires g.Valid()
  {
    g.Frame(c) + 1
  }

  /** A fresh buffer sends its first frame and the terminating last frame, and nothing else. */
  lemma FreshBufferSendsFirstAndLast(g: Layout)
    requires g.Valid()
    ensures var r := SelectFrom(0, g.numBufs, TakeCount(g, g.prefixLen + 1));
      forall i :: 0 <= i < g.numBufs ==> (i in r <==> i == 0 || i == g.numBufs - 1)
  {
    InFrame(g.prefixLen + 1, 0, g.dataLen);
  }

  /** Once the cursor has passed the last frame every frame is sent. */
  lemma FullBufferSendsEveryFrame(g: Layout, c: nat)
    requires g.Valid() && c >= g.Capacity()
    ensures forall i :: 0 <= i < g.numBufs ==> i in SelectFrom(0, g.numBufs, TakeCount(g, c))
  {
    var take := TakeCount(g, c);
    assert g.numBufs <= take by {
      if InFrames(g, c) {
        FrameBound(g, c);
      }
    }
    forall i | 0 <= i < g.numBufs
      ensures i in SelectFrom(0, g.numBufs, take)
    {
      assert Selected(i, g.numBufs, take);
    }
  }

  // ---------------------------------------------------------------------------
  // The steps of the source's nested loop

  /** A cursor that has moved forward inside frame `i` from a settled start is itself settled and inside the frames. */
  lemma InsideFrame(g: Layout, c0: nat, c: nat, i: nat)
    requires g.Valid() && Settled(g, c0)
    requires i < g.numBufs && i * g.dataLen <= c0 <= c < i * g.dataLen + g.dataLen
    ensures c < g.Capacity() && InFrames(g, c) && g.Frame(c) == i
    ensures Settled(g, c) && Settle(g, c) == c
  {
    InFrame(c0, i, g.dataLen);
    InFrame(c, i, g.dataLen);
    MulLe(i + 1, g.numBufs, g.dataLen);
  }

  /** Writing the byte at a settled cursor inside the frames is the next step of `AppendSpec`. */
  lemma AppendOne(g: Layout, rows: seq<seq<u8>>, c: nat, data: seq<u8>, pos: nat)
    requires g.Valid() && Shaped(g, rows) && Settled(g, c) && c < g.Capacity() && pos < |data|
    ensures InFrames(g, c) && Settled(g, Settle(g, c + 1))
    ensures AppendSpec(g, rows, c, data[pos..])
      == AppendSpec(g, Put(g, rows, c, data[pos]), Settle(g, c + 1), data[pos + 1..])
  {
    CapacityBound(g, c);
    NextCursorSettles(g, c);
    assert data[pos..][0] == data[pos] && data[pos..][1..] == data[pos + 1..];
  }

  /**
   * After the inner loop of frame `i` the boundary jump leaves a settled cursor, and a
   * cursor at or past frame `i + 1` whenever the loop ran its full count.
   */
  lemma FrameDone(g: Layout, c0: nat, c: nat, taken: nat, left: nat, i: nat)
    requires g.Valid() && Settled(g, c0) && i < g.numBufs
    requires left == if g.dataLen * (i + 1) > c0 then g.dataLen * (i + 1) - c0 else 0
    requires c == c0 + taken && taken <= left
    requires taken > 0 ==> i * g.dataLen <= c0
    ensures Settled(g, Settle(g, c))
    ensures taken == left ==> (i + 1) * g.dataLen <= Settle(g, c)
  {
    var d := g.dataLen;
    var lo := i * d;
    assert d * (i + 1) == lo + d && (i + 1) * d == lo + d;
    assert lo + d <= g.Capacity() by { MulLe(i + 1, g.numBufs, d); }
    if taken == 0 {
      assert Settle(g, c) == c;
    } else {
      InFrame(c0, i, d);
      if c < lo + d {
        InFrame(c, i, d);
      } else {
        InFrame(c, i + 1, d);
        BoundaryJump(g, c);
      }
    }
  }

  /** After the last frame's pass nothing is left to write: the data ran out or the frames are full. */
  lemma AppendDone(g: Layout, rows: seq<seq<u8>>, c: nat, rest: seq<u8>)
    requires g.Valid() && Shaped(g, rows) && Settled(g, c)
    requires rest != [] ==> g.numBufs * g.dataLen <= c
    ensures AppendSpec(g, rows, c, rest) == (rows, c)
  {
  }

  // ---------------------------------------------------------------------------
  // The buffer object

  class WriteBuffer {
    const layout: Layout
    var prefix: seq<u8>
    const buffer: array2<u8>
    var cursor: nat

    ghost predicate Valid()
      reads this
    {
      && layout.Valid()
      && buffer.Length0 == layout.numBufs
      && buffer.Length1 == layout.dataLen
      && |prefix| == layout.prefixLen
      && Settled(layout, cursor)
    }

    /** Frame `i` as a sequence of bytes. */
    function Row(i: nat): (r: seq<u8>)
      reads buffer
      requires i < buffer.Length0
      ensures |r| == buffer.Length1
      ensures forall j :: 0 <= j < buffer.Length1 ==> r[j] == buffer[i, j]
    {
      seq(buffer.Length1, j requires 0 <= j < buffer.Length1 reads buffer => buffer[i, j])
    }

    /** All frames. */
    ghost function Rows(): (r: seq<seq<u8>>)
      reads buffer
      ensures |r| == buffer.Length0
      ensures forall i :: 0 <= i < buffer.Length0 ==> r[i] == Row(i)
    {
      seq(buffer.Length0, i requires 0 <= i < buffer.Length0 reads buffer => Row(i))
    }

    /** `init_fields`: the given frames, a zero prefix, the cursor just past the first frame's reserved bytes. */
    constructor InitFields(layout: Layout, buffer: array2<u8>)
      requires layout.Valid()
      requires buffer.Length0 == layout.numBufs && buffer.Length1 == layout.dataLen
      ensures Valid()
      ensures this.layout == layout && this.buffer == buffer
      ensures prefix == seq(layout.prefixLen, _ => 0)
      ensures cursor == 1 + layout.prefixLen
    {
      this.layout := layout;
      this.buffer := buffer;
      prefix := seq(layout.prefixLen, _ => 0);
      cursor := 1 + layout.prefixLen;
      InFrame(1 + layout.prefixLen, 0, layout.dataLen);
    }

    /** `append`: the fragment's filled bytes, frame by frame as the source loops. */
    method Append(data: seq<u8>)
      requires Valid()
      modifies this`cursor, buffer
      ensures Valid()
      ensures (Rows(), cursor) == AppendSpec(layout, old(Rows()), old(cursor), data)
    {
      ghost var target := AppendSpec(layout, Rows(), cursor, data);
      var pos := 0;
      for i := 0 to layout.numBufs
        invariant Valid() && pos <= |data|
        invariant pos < |data| ==> i * layout.dataLen <= cursor
        invariant AppendSpec(layout, Rows(), cursor, data[pos..]) == target
      {
        pos := FillFrame(i, data, pos);
      }
      AppendDone(layout, Rows(), cursor, data[pos..]);
    }

    /**
     * One pass of `append`'s outer loop: up to the bytes left in frame `i` taken from
     * `data[pos..]`, then the jump over the next frame's reserved bytes at a boundary.
     */
    method FillFrame(i: nat, data: seq<u8>, pos: nat) returns (next: nat)
      requires Valid() && i < layout.numBufs && pos <= |data|
      requires pos < |data| ==> i * layout.dataLen <= cursor
      modifies this`cursor, buffer
      ensures Valid() && pos <= next <= |data|
      ensures next < |data| ==> (i + 1) * layout.dataLen <= cursor
      ensures AppendSpec(layout, Rows(), cursor, data[next..]) == AppendSpec(layout, old(Rows()), old(cursor), data[pos..])
    {
      var end := layout.dataLen * (i + 1);
      var left := if end > cursor then end - cursor else 0;
      var c0 := cursor;
      next := FillWithin(i, data, pos, left);
      FrameDone(layout, c0, cursor, next - pos, left, i);
      SkipReserved();
    }

    /** The inner loop: bytes of `data[pos..]` stored one by one while frame `i` has room (`left` bytes). */
    method FillWithin(i: nat, data: seq<u8>, pos: nat, left: nat) returns (next: nat)
      requires Valid() && i < layout.numBufs && pos <= |data|
      requires left == if layout.dataLen * (i + 1) > cursor then layout.dataLen * (i + 1) - cursor else 0
      requires pos < |data| ==> i * layout.dataLen <= cursor
      modifies this`cursor, buffer
      ensures pos <= next <= |data| && next - pos <= left && (next - pos == left || next == |data|)
      ensures cursor == old(cursor) + (next - pos)
      ensures Settled(layout, Settle(layout, cursor))
      ensures AppendSpec(layout, Rows(), Settle(layout, cursor), data[next..])
        == AppendSpec(layout, old(Rows()), old(cursor), data[pos..])
    {
      ghost var target := AppendSpec(layout, Rows(), cursor, data[pos..]);
      assert layout.dataLen * (i + 1) == i * layout.dataLen + layout.dataLen;
      var c0 := cursor;
      next := pos;
      var taken := 0;
      while taken < left && next < |data|
        invariant taken <= left && cursor == c0 + taken && next == pos + taken <= |data|
        invariant Shaped(layout, Rows())
        invariant Settled(layout, Settle(layout, cursor))
        invariant AppendSpec(layout, Rows(), Settle(layout, cursor), data[next..]) == target
        decreases left - taken
      {
        InsideFrame(layout, c0, cursor, i);
        StoreNext(i, data, next);
        next := next + 1;
        taken := taken + 1;
      }
    }

    /** At a frame boundary the cursor jumps over the next frame's prefix and address byte. */
    method SkipReserved()
      requires layout.Valid()
      modifies this`cursor
      ensures cursor == Settle(layout, old(cursor))
    {
      if cursor % layout.dataLen == 0 {
        cursor := cursor + layout.prefixLen + 1;
      }
    }

    /** One pass of the inner loop: `data[next]` stored at the cursor inside frame `i`, and the cursor moved on. */
    method StoreNext(i: nat, data: seq<u8>, next: nat)
      requires layout.Valid() && buffer.Length0 == layout.numBufs && buffer.Length1 == layout.dataLen
      requires Settled(layout, cursor) && cursor < layout.Capacity() && i == layout.Frame(cursor) && next < |data|
      modifies this`cursor, buffer
      ensures cursor == old(cursor) + 1 && Settled(layout, Settle(layout, cursor))
      ensures AppendSpec(layout, Rows(), Settle(layout, cursor), data[next + 1..])
        == AppendSpec(layout, old(Rows()), old(cursor), data[next..])
    {
      AppendOne(layout, Rows(), cursor, data, next);
      Store(i, cursor, data[next]);
      cursor := cursor + 1;
    }

    /** `self.buffer[i][cursor % DATA_LEN] = b`, where `i` is the frame the cursor is in. */
    method Store(i: nat, c: nat, b: u8)
      requires layout.Valid() && InFrames(layout, c) && i == layout.Frame(c)
      requires buffer.Length0 == layout.numBufs && buffer.Length1 == layout.dataLen
      modifies buffer
      ensures Rows() == Put(layout, old(Rows()), c, b)
    {
      ghost var before := Rows();
      buffer[i, layout.Offset(c)] := b;
      RowsAfterPut(before, c, b);
    }

    /** The frames after storing `b` at cursor position `c` are `Put` of the frames before. */
    lemma RowsAfterPut(before: seq<seq<u8>>, c: nat, b: u8)
      requires layout.Valid() && Shaped(layout, before) && InFrames(layout, c)
      requires buffer.Length0 == layout.numBufs && buffer.Length1 == layout.dataLen
      requires forall i, j :: 0 <= i < buffer.Length0 && 0 <= j < buffer.Length1 ==>
        buffer[i, j] == if i == layout.Frame(c) && j == layout.Offset(c) then b else before[i][j]
      ensures Rows() == Put(layout, before, c, b)
    {
      var p := Put(layout, before, c, b);
      var fi, fj := layout.Frame(c), layout.Offset(c);
      assert p == before[fi := before[fi][fj := b]];
      forall i | 0 <= i < |p| ensures Rows()[i] == p[i] {
        forall j | 0 <= j < |p[i]| ensures Row(i)[j] == p[i][j] {
        }
      }
    }

    /** `get_data`: the frames the cursor has reached, then the terminating last frame, each once and in order. */
    function GetData(): (r: seq<seq<u8>>)
      reads this, buffer
      requires Valid()
      ensures var idx := SelectFrom(0, layout.numBufs, TakeCount(layout, cursor));
        |r| == |idx| && forall k :: 0 <= k < |r| ==> r[k] == Row(idx[k])
    {
      var idx := SelectFrom(0, layout.numBufs, TakeCount(layout, cursor));
      seq(|idx|, k requires 0 <= k < |idx| reads buffer => Row(idx[k]))
    }
  }
}
