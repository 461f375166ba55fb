/** Unpacking a decoded NV12 frame: padded rows of two planes into one tight buffer. */
module Nv12 {
  import opened Bytes

  /** Rows of w bytes that start stride bytes apart, put together. */
  function Plane(src: seq<byte>, w: nat, rows: nat, stride: nat): (r: seq<byte>)
    requires w <= stride && rows * stride <= |src|
    ensures |r| == rows * w
  {
    if rows == 0 then [] else
    RowFits(|src|, w, rows, stride);
    Plane(src, w, rows - 1, stride) + src[(rows - 1) * stride..(rows - 1) * stride + w]
  }

  lemma RowFits(size: nat, w: nat, rows: nat, stride: nat)
    requires w <= stride && rows > 0 && rows * stride <= size
    ensures 0 <= (rows - 1) * stride && (rows - 1) * stride + w <= rows * stride
    ensures (rows - 1) * w + w == rows * w && 0 <= (rows - 1) * w
  {
    assert rows * stride == (rows - 1) * stride + stride;
    assert rows * w == (rows - 1) * w + w;
  }

  /** Byte j of row i is where it belongs. */
  lemma {:induction false} PlaneAt(src: seq<byte>, w: nat, rows: nat, stride: nat, i: nat, j: nat)
    requires w <= stride && rows * stride <= |src| && i < rows && j < w
    ensures 0 <= i * w + j < |Plane(src, w, rows, stride)| && i * stride + j < |src|
    ensures Plane(src, w, rows, stride)[i * w + j] == src[i * stride + j]
  {
    RowFits(|src|, w, rows, stride);
    if i < rows - 1 {
      PlaneAt(src, w, rows - 1, stride, i, j);
    }
  }

  /** Rows without padding are one block. */
  lemma {:induction false} TightPlane(src: seq<byte>, w: nat, rows: nat)
    requires rows * w <= |src|
    ensures Plane(src, w, rows, w) == src[..rows * w]
  {
    if rows > 0 {
      RowFits(|src|, w, rows, w);
      TightPlane(src, w, rows - 1);
    }
  }

  /** What the chroma rows leave of the w * h / 2 bytes kept for them. */
  function Leftover(w: nat, h: nat): int { w * h / 2 - h / 2 * w }

  /** Nothing is left over exactly for an even height, or rows of at most one byte. */
  lemma NothingLeftOver(w: nat, h: nat)
    ensures Leftover(w, h) == if h % 2 == 0 then 0 else w / 2
    ensures Leftover(w, h) == 0 <==> h % 2 == 0 || w <= 1
  {
    var m := h / 2;
    var p := m * w;
    Doubled(w, m);
    if h % 2 == 0 {
      assert h == 2 * m;
      assert w * h == 2 * p;
    } else {
      assert h == 2 * m + 1;
      assert w * h == 2 * p + w;
    }
  }

  lemma Doubled(w: nat, m: nat)
    ensures w * (2 * m) == 2 * (m * w) && w * (2 * m + 1) == 2 * (m * w) + w
  {
    assert w * (2 * m) == 2 * (w * m);
  }

  /** A vector of the wanted size: what was there stays, the rest is zero. */
  function Resized(was: seq<byte>, n: nat): (r: seq<byte>)
    ensures |r| == n
  {
    if n <= |was| then was[..n] else was + Zeros(n - |was|)
  }

  /** The end of the buffer that an odd height leaves: more chroma bytes when they lie in one block,
      whatever the buffer held before when they are copied row by row. */
  function Rest(was: seq<byte>, uv: seq<byte>, w: nat, h: nat, stride: nat): seq<byte>
    requires w <= stride && (h + 1) / 2 * stride <= |uv|
  {
    NothingLeftOver(w, h);
    ChromaFits(w, h, stride);
    if stride == w then uv[h / 2 * w..w * h / 2] else Resized(was, w * h + w * h / 2)[w * h + h / 2 * w..]
  }

  /** Byte k of what is left over: for an odd height half a row, the next chroma bytes, or what the vector held
      before, zero where it is new. */
  lemma RestAt(was: seq<byte>, uv: seq<byte>, w: nat, h: nat, stride: nat, k: nat)
    requires w <= stride && (h + 1) / 2 * stride <= |uv| && k < w / 2 && h % 2 == 1
    ensures |Rest(was, uv, w, h, stride)| == w / 2 && 0 <= h / 2 * w && 0 <= w * h && h / 2 * w + k < |uv|
    ensures var at := w * h + h / 2 * w + k;
            Rest(was, uv, w, h, stride)[k] ==
              if stride == w then uv[h / 2 * w + k] else if at < |was| then was[at] else 0
  {
    NothingLeftOver(w, h);
    ChromaFits(w, h, stride);
  }

  lemma ChromaFits(w: nat, h: nat, stride: nat)
    requires w <= stride
    ensures h / 2 * stride <= (h + 1) / 2 * stride && w * h / 2 <= (h + 1) / 2 * stride
    ensures 0 <= h / 2 * w <= w * h / 2 && 0 <= w * h
  {
    NothingLeftOver(w, h);
    var m := h / 2;
    assert m * w <= m * stride;
    if h % 2 == 1 {
      assert (h + 1) / 2 == m + 1;
      assert (m + 1) * stride == m * stride + stride;
    }
  }

  /** memcpy into the vector. */
  method CopyBlock(dest: array<byte>, at: nat, src: seq<byte>)
    requires at + |src| <= dest.Length
    modifies dest
    ensures dest[..] == old(dest[..at]) + src + old(dest[at + |src|..])
  {
    forall i | 0 <= i < |src| {
      dest[at + i] := src[i];
    }
    assert dest[..at] == old(dest[..at]) && dest[at..at + |src|] == src;
    assert dest[at + |src|..] == old(dest[at + |src|..]);
    assert dest[..] == dest[..at] + dest[at..at + |src|] + dest[at + |src|..];
  }

  /** One plane row by row: its rows one after the other, and not a byte outside them. */
  method CopyRows(dest: array<byte>, at: nat, src: seq<byte>, w: nat, rows: nat, stride: nat)
    requires w <= stride && rows * stride <= |src| && at + rows * w <= dest.Length && 0 <= rows * w
    modifies dest
    ensures dest[..] == old(dest[..at]) + Plane(src, w, rows, stride) + old(dest[at + rows * w..])
  {
    hide Plane;
    ghost var head, tail := dest[..at], dest[at..];
    var i := 0;
    var from, to := 0, at;
    PlaneGrows(src, w, 0, stride);
    ghost var plane: seq<byte> := [];
    while i < rows
      invariant 0 <= i <= rows && from == i * stride && to == at + i * w
      invariant from <= |src| && at <= to <= dest.Length
      invariant i * stride <= |src|
      invariant tail == old(dest[to..]) && dest[..] == head + plane + tail
      invariant plane == Plane(src, w, i, stride) && |plane| == i * w
    {
      NextRow(|src|, dest.Length - at, w, i, rows, stride);
      PlaneGrows(src, w, i + 1, stride);
      ghost var before := dest[..];
      CopyBlock(dest, to, src[from..from + w]);
      RowAppends(before, head, plane, tail, src[from..from + w]);
      assert tail[w..] == old(dest[to + w..]);
      plane, tail := plane + src[from..from + w], tail[w..];
      i, from, to := i + 1, from + stride, to + w;
    }
  }

  lemma PlaneGrows(src: seq<byte>, w: nat, rows: nat, stride: nat)
    requires w <= stride && rows * stride <= |src|
    ensures rows == 0 ==> Plane(src, w, rows, stride) == []
    ensures rows > 0 ==>
              && 0 <= (rows - 1) * stride && (rows - 1) * stride + w <= rows * stride
              && Plane(src, w, rows, stride)
                   == Plane(src, w, rows - 1, stride) + src[(rows - 1) * stride..(rows - 1) * stride + w]
  {
    if rows > 0 {
      RowFits(|src|, w, rows, stride);
    }
  }

  lemma NextRow(size: nat, room: nat, w: nat, i: nat, rows: nat, stride: nat)
    requires i < rows && w <= stride && rows * stride <= size && rows * w <= room
    ensures i * stride + w <= (i + 1) * stride <= size && i * w + w == (i + 1) * w <= room
  {
    assert (i + 1) * stride == i * stride + stride && (i + 1) * w == i * w + w;
    assert (i + 1) * stride <= rows * stride && (i + 1) * w <= rows * w;
  }

  lemma RowAppends(all: seq<byte>, head: seq<byte>, done: seq<byte>, tail: seq<byte>, row: seq<byte>)
    requires all == head + done + tail && |row| <= |tail|
    ensures all[..|head| + |done|] + row + all[|head| + |done| + |row|..] == head + (done + row) + tail[|row|..]
  {}

  class Decoder {
    var frameCount: nat

    /** The plane copies of ReceiveFrame on a frame of h rows of w bytes with the given line sizes. */
    method UnpackFrame(was: seq<byte>, w: nat, h: nat, y: seq<byte>, line0: nat, uv: seq<byte>, line1: nat)
      returns (yuvData: array<byte>)
      requires w <= line0 && w <= line1 && h * line0 <= |y| && (h + 1) / 2 * line1 <= |uv|
      modifies this
      ensures ChromaFitsIn(h, uv, line1)
      ensures yuvData[..] == Plane(y, w, h, line0) + Plane(uv, w, h / 2, line1) + Rest(was, uv, w, h, line1)
      ensures frameCount == old(frameCount) + 1
    {
      hide Plane;
      ChromaFits(w, h, line1);
      LumaFits(w, h, line0);
      var ySize := w * h;
      var uvSize := ySize / 2;
      var resized := Resized(was, ySize + uvSize);
      yuvData := new byte[ySize + uvSize](i requires 0 <= i < |resized| => resized[i]);
      assert yuvData[..] == resized;
      CopyLuma(yuvData, ySize, w, h, y, line0);
      CopyChroma(yuvData, ySize, uvSize, w, h, uv, line1);
      frameCount := frameCount + 1;
    }

    method CopyLuma(yuvData: array<byte>, ySize: nat, w: nat, h: nat, y: seq<byte>, line0: nat)
      requires w <= line0 && h * line0 <= |y| && ySize == h * w <= |y| && ySize <= yuvData.Length
      modifies yuvData
      ensures yuvData[..] == Plane(y, w, h, line0) + old(yuvData[ySize..])
    {
      hide Plane;
      if line0 == w {
        TightPlane(y, w, h);
        CopyBlock(yuvData, 0, y[..ySize]);
      } else {
        CopyRows(yuvData, 0, y, w, h, line0);
      }
    }

    method CopyChroma(yuvData: array<byte>, ySize: nat, uvSize: nat, w: nat, h: nat, uv: seq<byte>, line1: nat)
      requires w <= line1 && h / 2 * line1 <= |uv| && 0 <= h / 2 * w <= uvSize <= |uv|
      requires yuvData.Length == ySize + uvSize
      modifies yuvData
      ensures yuvData[..] == old(yuvData[..ySize]) + Plane(uv, w, h / 2, line1)
                + if line1 == w then uv[h / 2 * w..uvSize] else old(yuvData[ySize + h / 2 * w..])
    {
      hide Plane;
      if line1 == w {
        TightPlane(uv, w, h / 2);
        CopyBlock(yuvData, ySize, uv[..uvSize]);
        assert uv[..uvSize] == uv[..h / 2 * w] + uv[h / 2 * w..uvSize];
      } else {
        CopyRows(yuvData, ySize, uv, w, h / 2, line1);
      }
    }
  }

  predicate ChromaFitsIn(h: nat, uv: seq<byte>, stride: nat) { h / 2 * stride <= |uv| }

  lemma LumaFits(w: nat, h: nat, stride: nat)
    requires w <= stride
    ensures h * w == w * h <= h * stride
  {}
}
