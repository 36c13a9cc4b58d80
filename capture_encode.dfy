/**
 * The encoding shells of capture.c: the in-memory PNG sink
 * (`struct mem_encode` and `my_png_write_data`) and the row loops of
 * `getpng` and `getjpg`, which hand an RGB frame to the encoder one row of
 * `3 * w` bytes at a time.
 *
 * The encoders themselves are foreign: what libpng passes to the write
 * callback, and what libjpeg leaves in its memory destination, are given to
 * the model as data. The rows the shells hand over are returned so that the
 * contracts can say which bytes of the frame were read.
 */
module CaptureEncode {
  import opened Common

  /** Bytes per pixel of the RGB frames (`PNG_COLOR_TYPE_RGB`, `input_components = 3`). */
  const BYTES_PER_PIXEL: nat := 3

  // ---------------------------------------------------------------------
  // Rows of a frame

  /** Where row `k` starts: the row pointer, advanced by `stride` once per row (`row += w`). */
  function Offset(stride: nat, k: nat): nat
  {
    if k == 0 then 0 else Offset(stride, k - 1) + stride
  }

  /** Advancing `k` times by `stride` reaches byte `stride * k`. */
  lemma {:induction false} OffsetIsProduct(stride: nat, k: nat)
    ensures Offset(stride, k) == stride * k
  {
    if k > 0 {
      OffsetIsProduct(stride, k - 1);
      assert stride * (k - 1) + stride == stride * k;
    }
  }

  /** Rows further down start further on. */
  lemma {:induction false} OffsetMonotone(stride: nat, i: nat, j: nat)
    requires i <= j
    ensures Offset(stride, i) <= Offset(stride, j)
    decreases j
  {
    if i < j {
      OffsetMonotone(stride, i, j - 1);
    }
  }

  /** The first `h` rows of `stride` bytes each of `d`, top to bottom. */
  function Rows(d: seq<byte>, stride: nat, h: nat): (rs: seq<seq<byte>>)
    requires Offset(stride, h) <= |d|
    ensures |rs| == h
    decreases h
  {
    if h == 0 then []
    else Rows(d, stride, h - 1) + [d[Offset(stride, h - 1)..Offset(stride, h)]]
  }

  /** Row `k` is the `stride` bytes that start where the pointer is after `k` rows. */
  lemma {:induction false} RowAt(d: seq<byte>, stride: nat, h: nat, k: nat)
    requires Offset(stride, h) <= |d|
    requires k < h
    ensures Offset(stride, k) + stride <= |d|
    ensures Rows(d, stride, h)[k] == d[Offset(stride, k)..Offset(stride, k) + stride]
    decreases h
  {
    if k < h - 1 {
      RowAt(d, stride, h - 1, k);
    }
  }

  /** The rows, one after another, are exactly the bytes up to the pointer after the last row. */
  lemma {:induction false} RowsCover(d: seq<byte>, stride: nat, h: nat)
    requires Offset(stride, h) <= |d|
    ensures Flatten(Rows(d, stride, h)) == d[..Offset(stride, h)]
    decreases h
  {
    if h > 0 {
      var rs := Rows(d, stride, h);
      assert rs[..h - 1] == Rows(d, stride, h - 1);
      RowsCover(d, stride, h - 1);
      assert d[..Offset(stride, h)] == d[..Offset(stride, h - 1)] + d[Offset(stride, h - 1)..Offset(stride, h)];
    }
  }

  /** One more row extends the rows read so far. */
  lemma NextRow(d: seq<byte>, stride: nat, h: nat, k: nat)
    requires Offset(stride, h) <= |d|
    requires k < h
    ensures Offset(stride, k + 1) <= |d|
    ensures Rows(d, stride, k + 1) == Rows(d, stride, k) + [d[Offset(stride, k)..Offset(stride, k) + stride]]
  {
    OffsetMonotone(stride, k + 1, h);
  }

  /**
   * `rows` are the rows of a frame `d` of stride `stride`: `h` of them, row
   * `k` the `stride` bytes from where the pointer is after `k` rows (byte
   * `stride * k`, by `OffsetIsProduct`), together the bytes up to the
   * pointer after the last row.
   */
  predicate FrameRows(rows: seq<seq<byte>>, d: seq<byte>, stride: nat, h: nat)
  {
    && Offset(stride, h) <= |d|
    && |rows| == h
    && (forall k :: 0 <= k < h ==> Offset(stride, k) + stride <= |d| && rows[k] == d[Offset(stride, k)..Offset(stride, k) + stride])
    && Flatten(rows) == d[..Offset(stride, h)]
  }

  /** `Rows` cuts a frame into its rows. */
  lemma RowsOfFrame(d: seq<byte>, stride: nat, h: nat)
    requires Offset(stride, h) <= |d|
    ensures FrameRows(Rows(d, stride, h), d, stride, h)
  {
    forall k | 0 <= k < h
      ensures Offset(stride, k) + stride <= |d| && Rows(d, stride, h)[k] == d[Offset(stride, k)..Offset(stride, k) + stride]
    {
      RowAt(d, stride, h, k);
    }
    RowsCover(d, stride, h);
  }

  // ---------------------------------------------------------------------
  // The in-memory PNG sink

  /** `struct mem_encode`: the bytes libpng has written so far. */
  class MemEncode {
    /** `buffer`, reallocated to exactly `size` bytes on every write. */
    var buffer: array<byte>
    /** `size`. */
    var size: nat

    ghost predicate Valid()
      reads this
    {
      buffer.Length == size
    }

    /** The sink as `getpng` sets it up: no buffer, size 0. */
    constructor ()
      ensures Valid() && fresh(buffer) && size == 0 && buffer[..] == []
    {
      buffer := new byte[0];
      size := 0;
    }

    /**
     * `my_png_write_data(png_ptr, data, length)`: the buffer grows to
     * `size + length` bytes and `data` is appended after the old contents.
     */
    method WriteData(data: seq<byte>)
      requires Valid()
      modifies this
      ensures Valid() && fresh(buffer)
      ensures size == old(size) + |data|
      ensures buffer[..] == old(buffer[..]) + data
    {
      var grown := new byte[size + |data|];
      forall i | 0 <= i < size {
        grown[i] := buffer[i];
      }
      forall i | 0 <= i < |data| {
        grown[size + i] := data[i];
      }
      assert grown[..] == buffer[..] + data;
      buffer, size := grown, size + |data|;
    }
  }

  // ---------------------------------------------------------------------
  // getpng

  /** What the libpng calls of `getpng` do. */
  datatype PngLib = PngLib(
    writeStructOk: bool,          // png_create_write_struct returns non-NULL
    infoStructOk: bool,           // png_create_info_struct returns non-NULL
    chunks: seq<seq<byte>>,       // the data of each call of the write callback, in order
    outAllocOk: bool)             // malloc(state.size) returns non-NULL

  /** The encoded image in the sink once the encoder has written every chunk. */
  function Encoded(lib: PngLib): seq<byte>
  {
    Flatten(lib.chunks)
  }

  /**
   * The encoder calling the write callback once per chunk, in order: the
   * sink ends up holding the chunks after what it held before.
   */
  method WriteChunks(state: MemEncode, chunks: seq<seq<byte>>)
    requires state.Valid()
    modifies state
    ensures state.Valid()
    ensures state.buffer[..] == old(state.buffer[..]) + Flatten(chunks)
  {
    ghost var before := state.buffer[..];
    var j := 0;
    while j < |chunks|
      invariant 0 <= j <= |chunks|
      invariant state.Valid() && state.buffer[..] == before + Flatten(chunks[..j])
    {
      assert chunks[..j + 1] == chunks[..j] + [chunks[j]];
      FlattenAppend(chunks[..j], chunks[j]);
      state.WriteData(chunks[j]);
      j := j + 1;
    }
    assert chunks[..j] == chunks;
  }

  /**
   * The row loop of `getpng`: the row pointer starts at the frame and moves
   * on by `stride` bytes while `h` counts down; each row is handed to
   * `png_write_row`.
   */
  method WriteRows(data: array<byte>, stride: nat, h: nat) returns (rows: seq<seq<byte>>)
    requires Offset(stride, h) <= data.Length
    ensures rows == Rows(data[..], stride, h)
  {
    var row, hh := 0, h;
    ghost var k := 0;  // rows written so far
    rows := [];
    while hh > 0
      invariant 0 <= hh <= h && k == h - hh
      invariant row == Offset(stride, k) <= data.Length
      invariant rows == Rows(data[..], stride, k)
    {
      NextRow(data[..], stride, h, k);
      rows := rows + [data[row..row + stride]];
      row, hh, k := row + stride, hh - 1, k + 1;
    }
  }

  /**
   * `getpng(&size, w, h, data)`: the PNG image as a fresh copy of the sink's
   * bytes, the value stored in `*size`, and the rows handed to
   * `png_write_row` — exactly `h` of them, row `k` from byte `3 * w * k`, so
   * that the frame is read exactly up to byte `3 * w * h`.
   */
  method GetPng(w: int, h: int, data: array<byte>, lib: PngLib) returns (out: Option<seq<byte>>, size: nat, rows: seq<seq<byte>>)
    requires 0 < w && 0 < h && BYTES_PER_PIXEL * w * h <= data.Length
    ensures !lib.writeStructOk || !lib.infoStructOk ==> out == None && size == 0 && rows == []
    ensures lib.writeStructOk && lib.infoStructOk ==>
      && FrameRows(rows, data[..], BYTES_PER_PIXEL * w, h)
      && size == |Encoded(lib)|
      && out == (if lib.outAllocOk then Some(Encoded(lib)) else None)
  {
    var state := new MemEncode();
    out, size, rows := None, 0, [];
    if !lib.writeStructOk {
      return;
    }
    if !lib.infoStructOk {
      return;
    }
    var stride := BYTES_PER_PIXEL * w;
    OffsetIsProduct(stride, h);
    rows := WriteRows(data, stride, h);
    RowsOfFrame(data[..], stride, h);
    WriteChunks(state, lib.chunks);
    assert state.buffer[..] == Encoded(lib);
    size := state.size;
    if lib.outAllocOk {
      out := Some(state.buffer[..]);
    }
  }

  // ---------------------------------------------------------------------
  // getjpg

  /**
   * `getjpg(&size, w, h, data)`, libjpeg's memory destination holding
   * `encoded` once `jpeg_finish_compress` returns: the image, the value
   * stored in `*size`, and the rows handed to `jpeg_write_scanlines` — the
   * same rows as `getpng` hands over.
   */
  method GetJpg(w: int, h: int, data: array<byte>, encoded: seq<byte>) returns (out: seq<byte>, size: nat, rows: seq<seq<byte>>)
    requires 0 < w && 0 < h && BYTES_PER_PIXEL * w * h <= data.Length
    ensures FrameRows(rows, data[..], BYTES_PER_PIXEL * w, h)
    ensures out == encoded && size == |encoded|
  {
    var stride := BYTES_PER_PIXEL * w;
    OffsetIsProduct(stride, h);
    var row, H := 0, 0;
    rows := [];
    while H < h
      invariant 0 <= H <= h
      invariant row == Offset(stride, H) <= data.Length
      invariant rows == Rows(data[..], stride, H)
    {
      NextRow(data[..], stride, h, H);
      rows := rows + [data[row..row + stride]];
      row, H := row + stride, H + 1;
    }
    RowsOfFrame(data[..], stride, h);
    out, size := encoded, |encoded|;
  }
}
