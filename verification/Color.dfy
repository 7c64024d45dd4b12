/** BGRA to NV12 (host/src/encode/color.cpp): two planes written in place into one buffer. */
module Color {
  import opened Bytes

  function ClipByte(v: int): byte {
    if v < 0 then 0 else if v > 255 then 255 else v
  }

  /** Where row y of a picture begins. */
  function RowStart(y: nat, pitch: nat): nat {
    y * pitch
  }

  /** The fixed-point formulas before clipping; `/` floors, as the arithmetic shift does. */
  function LumaSum(b: int, g: int, r: int): int {
    (66 * r + 129 * g + 25 * b + 128) / 256 + 16
  }

  function USum(bs: int, gs: int, rs: int): int {
    128 + (112 * bs - 74 * gs - 38 * rs + 512) / 1024
  }

  function VSum(bs: int, gs: int, rs: int): int {
    128 + (112 * rs - 94 * gs - 18 * bs + 512) / 1024
  }

  /** Channel c (0 blue, 1 green, 2 red) of pixel (x, y) in rows of `pitch` bytes. */
  function Pixel(src: seq<byte>, pitch: nat, x: nat, y: nat, c: nat): (v: int)
    ensures 0 <= v < 256
  {
    var i := RowStart(y, pitch) + 4 * x + c;
    if 0 <= i < |src| then src[i] else 0
  }

  function LumaAt(src: seq<byte>, pitch: nat, x: nat, y: nat): byte {
    ClipByte(LumaSum(Pixel(src, pitch, x, y, 0), Pixel(src, pitch, x, y, 1), Pixel(src, pitch, x, y, 2)))
  }

  /** The sum of a channel over the 2x2 box whose corner is (2*cx, 2*cy). */
  function BoxSum(src: seq<byte>, pitch: nat, cx: nat, cy: nat, c: nat): (v: int)
    ensures 0 <= v <= 1020
  {
    Pixel(src, pitch, 2 * cx, 2 * cy, c) + Pixel(src, pitch, 2 * cx + 1, 2 * cy, c)
    + Pixel(src, pitch, 2 * cx, 2 * cy + 1, c) + Pixel(src, pitch, 2 * cx + 1, 2 * cy + 1, c)
  }

  function UAt(src: seq<byte>, pitch: nat, cx: nat, cy: nat): byte {
    ClipByte(USum(BoxSum(src, pitch, cx, cy, 0), BoxSum(src, pitch, cx, cy, 1), BoxSum(src, pitch, cx, cy, 2)))
  }

  function VAt(src: seq<byte>, pitch: nat, cx: nat, cy: nat): byte {
    ClipByte(VSum(BoxSum(src, pitch, cx, cy, 0), BoxSum(src, pitch, cx, cy, 1), BoxSum(src, pitch, cx, cy, 2)))
  }

  datatype Job = Job(src: seq<byte>, srcPitch: nat, was: seq<byte>, pitch: nat, w: nat, h: nat)

  /** Columns of an output row: chroma comes in pairs, so at an odd width it has one more. */
  function Columns(j: Job, row: nat): nat {
    if row < j.h then j.w else j.w + j.w % 2
  }

  /** Rows are long enough and the buffers hold them. At an odd width the last box of a row takes
      in the pixel after the row's last, which must be there for the last pair of rows too. */
  ghost predicate Fits(j: Job) {
    && 4 * j.w <= j.srcPitch && j.w + j.w % 2 <= j.pitch
    && RowStart(j.h, j.srcPitch) <= |j.src|
    && RowStart(j.h + j.h / 2, j.pitch) <= |j.was|
    && (j.w % 2 == 1 && j.h >= 2 ==> RowStart(j.h / 2 * 2 - 1, j.srcPitch) + 4 * j.w + 4 <= |j.src|)
  }

  /** Row `row`, column `col` of the output, seen as rows of `pitch` bytes: `h` rows of luma, then
      `h / 2` rows of U and V in turn. */
  function Cell(j: Job, row: nat, col: nat): byte {
    if row < j.h then LumaAt(j.src, j.srcPitch, col, row)
    else if col % 2 == 0 then UAt(j.src, j.srcPitch, col / 2, row - j.h)
    else VAt(j.src, j.srcPitch, col / 2, row - j.h)
  }

  /** Byte i of the output: a cell where the picture is, the old byte in padding and beyond. */
  function Converted(j: Job, i: nat): byte
    requires i < |j.was|
  {
    if j.pitch == 0 || i / j.pitch >= j.h + j.h / 2 || i % j.pitch >= Columns(j, i / j.pitch) then j.was[i]
    else Cell(j, i / j.pitch, i % j.pitch)
  }

  /** The buffer after a conversion. */
  function Output(j: Job): (out: seq<byte>)
    ensures |out| == |j.was|
  {
    seq(|j.was|, i requires 0 <= i < |j.was| => Converted(j, i))
  }

  // ------------------------------------------------------------ row and column of an index

  lemma RowStartNext(y: nat, pitch: nat)
    ensures RowStart(y + 1, pitch) == RowStart(y, pitch) + pitch
    ensures RowStart(0, pitch) == 0
  {
  }

  lemma RowStartSum(y: nat, z: nat, pitch: nat)
    ensures RowStart(y + z, pitch) == RowStart(y, pitch) + RowStart(z, pitch)
  {
  }

  lemma MulMono(a: nat, b: nat, q: nat)
    requires a <= b
    ensures a * q <= b * q
  {
  }

  lemma RowCol(q: nat, row: nat, col: nat)
    requires col < q
    ensures (row * q + col) / q == row && (row * q + col) % q == col
  {
    var i := row * q + col;
    var d, m := i / q, i % q;
    assert i == d * q + m;
    if d < row {
      MulMono(d + 1, row, q);
    } else if d > row {
      MulMono(row + 1, d, q);
    }
  }

  /** The bytes up to `frontier` are converted, the rest untouched. */
  ghost predicate Progress(j: Job, now: seq<byte>, frontier: nat) {
    && |now| == |j.was|
    && forall i :: 0 <= i < |now| ==> now[i] == if i < frontier then Converted(j, i) else j.was[i]
  }

  lemma NoProgress(j: Job)
    ensures Progress(j, j.was, 0)
  {
  }

  lemma OneMore(j: Job, now: seq<byte>, row: nat, col: nat, v: byte)
    requires col < Columns(j, row) <= j.pitch && row < j.h + j.h / 2 && RowStart(row, j.pitch) + col < |now|
    requires Progress(j, now, RowStart(row, j.pitch) + col)
    requires v == Cell(j, row, col)
    ensures Progress(j, now[RowStart(row, j.pitch) + col := v], RowStart(row, j.pitch) + col + 1)
  {
    hide Cell;
    RowCol(j.pitch, row, col);
  }

  /** The padding after a row's last column stays as it was. */
  lemma NextRow(j: Job, now: seq<byte>, row: nat)
    requires Columns(j, row) <= j.pitch
    requires Progress(j, now, RowStart(row, j.pitch) + Columns(j, row))
    ensures Progress(j, now, RowStart(row, j.pitch) + j.pitch)
  {
    var q := j.pitch;
    forall i | row * q + Columns(j, row) <= i < row * q + q && i < |now| ensures Converted(j, i) == j.was[i] {
      RowCol(q, row, i - row * q);
    }
  }

  lemma DivAtLeast(i: nat, n: nat, q: nat)
    requires q > 0 && RowStart(n, q) <= i
    ensures i / q >= n
  {
    var d := i / q;
    assert i == d * q + i % q;
    if d < n {
      MulMono(d + 1, n, q);
    }
  }

  lemma RestUntouched(j: Job, now: seq<byte>)
    requires Progress(j, now, RowStart(j.h + j.h / 2, j.pitch))
    ensures now == Output(j)
  {
    hide Cell;
    forall i | RowStart(j.h + j.h / 2, j.pitch) <= i < |now| ensures Converted(j, i) == j.was[i] {
      if j.pitch > 0 {
        DivAtLeast(i, j.h + j.h / 2, j.pitch);
      }
    }
  }

  lemma InRow(x: nat, row: nat, rows: nat, pitch: nat)
    requires x < pitch && row < rows
    ensures RowStart(row, pitch) + x < RowStart(rows, pitch)
  {
    MulMono(row + 1, rows, pitch);
  }

  lemma PixelInside(src: seq<byte>, pitch: nat, x: nat, y: nat, w: nat, rows: nat)
    requires x < w && 4 * w <= pitch && y < rows && RowStart(rows, pitch) <= |src|
    ensures RowStart(y, pitch) + 4 * x + 3 < |src|
    ensures forall c :: 0 <= c < 3 ==> Pixel(src, pitch, x, y, c) == src[RowStart(y, pitch) + 4 * x + c]
  {
    InRow(4 * x + 3, y, rows, pitch);
  }

  lemma LumaCell(j: Job, y: nat, x: nat)
    requires Fits(j) && y < j.h && x < j.w
    ensures var i := RowStart(y, j.srcPitch) + 4 * x;
            && i + 3 < |j.src|
            && Cell(j, y, x) == ClipByte(LumaSum(j.src[i], j.src[i + 1], j.src[i + 2]))
  {
    hide LumaSum, Pixel;
    PixelInside(j.src, j.srcPitch, x, y, j.w, j.h);
    var i := RowStart(y, j.srcPitch) + 4 * x;
    assert Pixel(j.src, j.srcPitch, x, y, 0) == j.src[i + 0];
    assert Pixel(j.src, j.srcPitch, x, y, 1) == j.src[i + 1];
    assert Pixel(j.src, j.srcPitch, x, y, 2) == j.src[i + 2];
  }

  lemma SameLength(j: Job, now: seq<byte>, frontier: nat)
    requires Progress(j, now, frontier)
    ensures |now| == |j.was|
  {
  }

  /** Writes one cell of the output in place. */
  method PutCell(nv12: array<byte>, i: nat, v: byte, ghost j: Job, ghost row: nat, ghost col: nat)
    requires Fits(j) && row < j.h + j.h / 2 && col < Columns(j, row)
    requires i == RowStart(row, j.pitch) + col
    requires Progress(j, nv12[..], i)
    requires v == Cell(j, row, col)
    modifies nv12
    ensures Progress(j, nv12[..], i + 1)
  {
    hide Cell, Progress, RowStart;
    ghost var now := nv12[..];
    InRow(col, row, j.h + j.h / 2, j.pitch);
    SameLength(j, now, i);
    OneMore(j, now, row, col, v);
    nv12[i] := v;
    assert nv12[..] == now[i := v];
  }

  /** One pixel of luma; `src` and `dst` are the offsets of the pixel and of its output byte. */
  method LumaPixel(bgra: array<byte>, nv12: array<byte>, src: nat, dst: nat, ghost j: Job, ghost x: nat, ghost y: nat)
    requires bgra != nv12 && Fits(j) && y < j.h && x < j.w
    requires bgra[..] == j.src && src == RowStart(y, j.srcPitch) + 4 * x && dst == RowStart(y, j.pitch) + x
    requires Progress(j, nv12[..], dst)
    modifies nv12
    ensures Progress(j, nv12[..], dst + 1)
  {
    hide Progress, Cell, Fits, RowStart;
    LumaCell(j, y, x);
    var b: int, g: int, r: int := bgra[src], bgra[src + 1], bgra[src + 2];
    var v := ClipByte((66 * r + 129 * g + 25 * b + 128) / 256 + 16);
    PutCell(nv12, dst, v, j, y, x);
  }

  lemma BoxCells(j: Job, cy: nat, cx: nat)
    requires Fits(j) && cy < j.h / 2 && 2 * cx < j.w
    ensures var p00 := RowStart(2 * cy, j.srcPitch) + 8 * cx; var p10 := p00 + j.srcPitch;
            && p10 + 7 < |j.src| && p00 + 7 < |j.src|
            && (forall c :: 0 <= c < 3 ==>
                  BoxSum(j.src, j.srcPitch, cx, cy, c)
                  == j.src[p00 + c] + j.src[p00 + 4 + c] as int + j.src[p10 + c] as int + j.src[p10 + 4 + c] as int)
  {
    hide Pixel, RowStart;
    BoxPixel(j, 2 * cx, 2 * cy);
    BoxPixel(j, 2 * cx + 1, 2 * cy);
    BoxPixel(j, 2 * cx, 2 * cy + 1);
    BoxPixel(j, 2 * cx + 1, 2 * cy + 1);
    RowStartNext(2 * cy, j.srcPitch);
  }

  /** A pixel of a box, the one after an odd row's last included, is in the source. */
  lemma BoxPixel(j: Job, x: nat, y: nat)
    requires Fits(j) && x < j.w + j.w % 2 && y < j.h / 2 * 2
    ensures RowStart(y, j.srcPitch) + 4 * x + 3 < |j.src|
    ensures forall c :: 0 <= c < 3 ==> Pixel(j.src, j.srcPitch, x, y, c) == j.src[RowStart(y, j.srcPitch) + 4 * x + c]
  {
    if x < j.w {
      PixelInside(j.src, j.srcPitch, x, y, j.w, j.h);
    } else {
      MulMono(y, j.h / 2 * 2 - 1, j.srcPitch);
    }
  }

  /** One 2x2 box of chroma: its U and its V. */
  method ChromaBox(bgra: array<byte>, nv12: array<byte>, p00: nat, p10: nat, dst: nat, ghost j: Job, ghost cx: nat, ghost cy: nat)
    requires bgra != nv12 && Fits(j) && cy < j.h / 2 && 2 * cx < j.w
    requires bgra[..] == j.src && p00 == RowStart(2 * cy, j.srcPitch) + 8 * cx && p10 == p00 + j.srcPitch
    requires dst == RowStart(j.h + cy, j.pitch) + 2 * cx
    requires Progress(j, nv12[..], dst)
    modifies nv12
    ensures Progress(j, nv12[..], dst + 2)
  {
    hide Progress, Cell, Fits, BoxSum, RowStart, UAt, VAt;
    BoxCells(j, cy, cx);
    ChromaCells(j, cy, cx);
    ChromaValues(j, cy, cx);
    var p01, p11 := p00 + 4, p10 + 4;
    var rs := bgra[p00 + 2] as int + bgra[p01 + 2] as int + bgra[p10 + 2] as int + bgra[p11 + 2] as int;
    var gs := bgra[p00 + 1] as int + bgra[p01 + 1] as int + bgra[p10 + 1] as int + bgra[p11 + 1] as int;
    var bs := bgra[p00] as int + bgra[p01] as int + bgra[p10] as int + bgra[p11] as int;
    assert bs == BoxSum(j.src, j.srcPitch, cx, cy, 0);
    assert gs == BoxSum(j.src, j.srcPitch, cx, cy, 1);
    assert rs == BoxSum(j.src, j.srcPitch, cx, cy, 2);
    var u := ClipByte(128 + (112 * bs - 74 * gs - 38 * rs + 512) / 1024);
    var v := ClipByte(128 + (112 * rs - 94 * gs - 18 * bs + 512) / 1024);
    PutCell(nv12, dst, u, j, j.h + cy, 2 * cx);
    PutCell(nv12, dst + 1, v, j, j.h + cy, 2 * cx + 1);
  }

  lemma ChromaValues(j: Job, cy: nat, cx: nat)
    ensures var bs, gs, rs := BoxSum(j.src, j.srcPitch, cx, cy, 0), BoxSum(j.src, j.srcPitch, cx, cy, 1), BoxSum(j.src, j.srcPitch, cx, cy, 2);
            && UAt(j.src, j.srcPitch, cx, cy) == ClipByte(128 + (112 * bs - 74 * gs - 38 * rs + 512) / 1024)
            && VAt(j.src, j.srcPitch, cx, cy) == ClipByte(128 + (112 * rs - 94 * gs - 18 * bs + 512) / 1024)
  {
    hide BoxSum, ClipByte;
  }

  lemma ChromaCells(j: Job, cy: nat, cx: nat)
    ensures Cell(j, j.h + cy, 2 * cx) == UAt(j.src, j.srcPitch, cx, cy)
    ensures Cell(j, j.h + cy, 2 * cx + 1) == VAt(j.src, j.srcPitch, cx, cy)
  {
    hide UAt, VAt;
  }

  /** The inner loop over one row of luma. */
  method LumaRow(bgra: array<byte>, nv12: array<byte>, src: nat, dstY: nat, w: nat, ghost j: Job, ghost y: nat)
    requires bgra != nv12 && Fits(j) && y < j.h && w == j.w
    requires bgra[..] == j.src && src == RowStart(y, j.srcPitch) && dstY == RowStart(y, j.pitch)
    requires Progress(j, nv12[..], dstY)
    modifies nv12
    ensures Progress(j, nv12[..], dstY + j.pitch)
  {
    hide Progress, RowStart;
    for x := 0 to w
      invariant Progress(j, nv12[..], dstY + x)
    {
      LumaPixel(bgra, nv12, src + 4 * x, dstY + x, j, x, y);
    }
    NextRow(j, nv12[..], y);
  }

  /** The inner loop over one row of chroma: columns in pairs. */
  method ChromaRow(bgra: array<byte>, nv12: array<byte>, r0: nat, bgraPitch: nat, uv: nat, w: nat, ghost j: Job, ghost y: nat)
    requires bgra != nv12 && Fits(j) && y < j.h / 2 && w == j.w && bgraPitch == j.srcPitch
    requires bgra[..] == j.src && r0 == RowStart(2 * y, j.srcPitch) && uv == RowStart(j.h + y, j.pitch)
    requires Progress(j, nv12[..], uv)
    modifies nv12
    ensures Progress(j, nv12[..], uv + j.pitch)
  {
    hide Progress, RowStart;
    var r1 := r0 + bgraPitch;
    var x := 0;
    while x < w
      invariant x % 2 == 0 && x <= w + w % 2
      invariant Progress(j, nv12[..], uv + x)
    {
      ChromaBox(bgra, nv12, r0 + 4 * x, r1 + 4 * x, uv + 2 * (x / 2), j, x / 2, y);
      x := x + 2;
    }
    NextRow(j, nv12[..], j.h + y);
  }

  /** The whole conversion, into the old contents of `nv12`: every byte of the picture is set to
      its formula, every other byte is left as it was, and no access leaves either buffer. */
  method BgraToNv12(bgra: array<byte>, bgraPitch: nat, nv12: array<byte>, nv12Pitch: nat, w: nat, h: nat)
    requires bgra != nv12
    requires Fits(Job(bgra[..], bgraPitch, nv12[..], nv12Pitch, w, h))
    modifies nv12
    ensures var j := Job(bgra[..], bgraPitch, old(nv12[..]), nv12Pitch, w, h);
            nv12[..] == Output(j)
  {
    hide Progress, Cell, Converted, RowStart;
    ghost var j := Job(bgra[..], bgraPitch, nv12[..], nv12Pitch, w, h);
    NoProgress(j);
    RowStartNext(0, nv12Pitch);
    for y := 0 to h
      invariant Progress(j, nv12[..], RowStart(y, nv12Pitch))
    {
      LumaRow(bgra, nv12, RowStart(y, bgraPitch), RowStart(y, nv12Pitch), w, j, y);
      RowStartNext(y, nv12Pitch);
    }
    var h2, dstUv := h / 2, RowStart(h, nv12Pitch);
    for y := 0 to h2
      invariant Progress(j, nv12[..], RowStart(h + y, nv12Pitch))
    {
      RowStartSum(h, y, nv12Pitch);
      ChromaRow(bgra, nv12, RowStart(2 * y, bgraPitch), bgraPitch, dstUv + RowStart(y, nv12Pitch), w, j, y);
      RowStartNext(h + y, nv12Pitch);
    }
    RestUntouched(j, nv12[..]);
  }

  // ------------------------------------------------------------- what the output means

  lemma CellOf(j: Job, row: nat, col: nat)
    requires Fits(j) && row < j.h + j.h / 2 && col < Columns(j, row)
    ensures var i := RowStart(row, j.pitch) + col;
            i < |j.was| && Converted(j, i) == Cell(j, row, col)
  {
    hide Cell;
    InRow(col, row, j.h + j.h / 2, j.pitch);
    RowCol(j.pitch, row, col);
  }

  /** Every luma sample stands in its place in the first plane. */
  lemma LumaPlane(j: Job, x: nat, y: nat)
    requires Fits(j) && x < j.w && y < j.h
    ensures var i := RowStart(y, j.pitch) + x;
            && i < RowStart(j.h, j.pitch) <= |j.was|
            && Output(j)[i] == LumaAt(j.src, j.srcPitch, x, y)
  {
    hide LumaAt, UAt, VAt;
    CellOf(j, y, x);
    InRow(x, y, j.h, j.pitch);
    RowStartSum(j.h, j.h / 2, j.pitch);
  }

  /** Both samples of every 2x2 box stand in their places in the second plane, after the first. */
  lemma ChromaPlane(j: Job, cx: nat, cy: nat)
    requires Fits(j) && 2 * cx < j.w && cy < j.h / 2
    ensures var i := RowStart(j.h + cy, j.pitch) + 2 * cx;
            && RowStart(j.h, j.pitch) <= i && i + 1 < |j.was|
            && Output(j)[i] == UAt(j.src, j.srcPitch, cx, cy)
            && Output(j)[i + 1] == VAt(j.src, j.srcPitch, cx, cy)
  {
    hide Cell;
    CellOf(j, j.h + cy, 2 * cx);
    CellOf(j, j.h + cy, 2 * cx + 1);
    ChromaCells(j, cy, cx);
    RowStartSum(j.h, cy, j.pitch);
  }

  lemma RowColOf(i: nat, q: nat)
    requires q > 0
    ensures i == RowStart(i / q, q) + i % q
  {
  }

  ghost predicate IsCell(j: Job, i: int, row: nat, col: nat) {
    row < j.h + j.h / 2 && col < Columns(j, row) && i == RowStart(row, j.pitch) + col
  }

  /** Every byte that is no sample of either plane, row padding included, is left as it was. */
  lemma OutsideUnchanged(j: Job, i: nat)
    requires Fits(j) && i < |j.was|
    requires forall row, col :: !IsCell(j, i, row, col)
    ensures Output(j)[i] == j.was[i]
  {
    hide Cell, RowStart;
    if j.pitch > 0 {
      RowColOf(i, j.pitch);
      assert !IsCell(j, i, i / j.pitch, i % j.pitch);
    }
  }

  /** No sample is ever clipped: luma stays in 16..235 and chroma in 16..240, the nominal ranges
      of the standard's 8-bit encoding, and both ends are reached. */
  lemma NominalRanges(b: int, g: int, r: int, bs: int, gs: int, rs: int)
    requires 0 <= b < 256 && 0 <= g < 256 && 0 <= r < 256
    requires 0 <= bs <= 1020 && 0 <= gs <= 1020 && 0 <= rs <= 1020
    ensures 16 <= LumaSum(b, g, r) <= 235 && ClipByte(LumaSum(b, g, r)) == LumaSum(b, g, r)
    ensures 16 <= USum(bs, gs, rs) <= 240 && ClipByte(USum(bs, gs, rs)) == USum(bs, gs, rs)
    ensures 16 <= VSum(bs, gs, rs) <= 240 && ClipByte(VSum(bs, gs, rs)) == VSum(bs, gs, rs)
    ensures LumaSum(0, 0, 0) == 16 && LumaSum(255, 255, 255) == 235
    ensures USum(1020, 0, 0) == 240 && USum(0, 1020, 1020) == 16
    ensures VSum(0, 0, 1020) == 240 && VSum(1020, 1020, 0) == 16
  {
  }

  /** A grey box has neutral chroma, and the luma formula orders greys as their levels. */
  lemma GreyIsNeutral(v: int, v': int, s: int)
    requires 0 <= v < v' < 256 && 0 <= s <= 1020
    ensures USum(s, s, s) == 128 && VSum(s, s, s) == 128
    ensures LumaSum(v, v, v) <= LumaSum(v', v', v')
  {
  }

  /** The exact quantities of Recommendation ITU-R BT.601, section 2.5, for 8-bit R, G, B: luma
      from the weights 0.299, 0.587, 0.114, and the two scaled colour differences. */
  function Luma601(b: real, g: real, r: real): real {
    16.0 + (219.0 / 255.0) * (0.299 * r + 0.587 * g + 0.114 * b)
  }

  function Cb601(b: real, g: real, r: real): real {
    128.0 + (224.0 / 255.0) * ((b - (0.299 * r + 0.587 * g + 0.114 * b)) / 1.772)
  }

  function Cr601(b: real, g: real, r: real): real {
    128.0 + (224.0 / 255.0) * ((r - (0.299 * r + 0.587 * g + 0.114 * b)) / 1.402)
  }

  /** The fixed-point formulas stay within one quantisation step of the standard's values, for
      every pixel, and for every 2x2 box taken at its mean colour. */
  lemma WithinOneStepOf601(b: int, g: int, r: int, bs: int, gs: int, rs: int)
    requires 0 <= b < 256 && 0 <= g < 256 && 0 <= r < 256
    requires 0 <= bs <= 1020 && 0 <= gs <= 1020 && 0 <= rs <= 1020
    ensures -1.0 < LumaSum(b, g, r) as real - Luma601(b as real, g as real, r as real) < 1.0
    ensures -1.0 < USum(bs, gs, rs) as real - Cb601(bs as real / 4.0, gs as real / 4.0, rs as real / 4.0) < 1.0
    ensures -1.0 < VSum(bs, gs, rs) as real - Cr601(bs as real / 4.0, gs as real / 4.0, rs as real / 4.0) < 1.0
  {
  }

  /** So every luma byte the conversion writes is within one step of the standard's luma for its
      pixel, in nominal range, with nothing clipped on the way. */
  lemma LumaMeets601(j: Job, x: nat, y: nat)
    requires Fits(j) && x < j.w && y < j.h
    ensures var i := RowStart(y, j.pitch) + x;
            var b, g, r := Pixel(j.src, j.srcPitch, x, y, 0), Pixel(j.src, j.srcPitch, x, y, 1), Pixel(j.src, j.srcPitch, x, y, 2);
            && i < |j.was|
            && var v := Output(j)[i];
            && 16 <= v <= 235
            && -1.0 < v as real - Luma601(b as real, g as real, r as real) < 1.0
  {
    LumaPlane(j, x, y);
    hide Pixel, Luma601, LumaSum, Output, RowStart;
    var b, g, r := Pixel(j.src, j.srcPitch, x, y, 0), Pixel(j.src, j.srcPitch, x, y, 1), Pixel(j.src, j.srcPitch, x, y, 2);
    NominalRanges(b, g, r, 0, 0, 0);
    WithinOneStepOf601(b, g, r, 0, 0, 0);
  }

  /** And so is every chroma byte, for the mean colour of its 2x2 box. */
  lemma ChromaMeets601(j: Job, cx: nat, cy: nat)
    requires Fits(j) && 2 * cx < j.w && cy < j.h / 2
    ensures var i := RowStart(j.h + cy, j.pitch) + 2 * cx;
            var b := BoxSum(j.src, j.srcPitch, cx, cy, 0) as real / 4.0;
            var g := BoxSum(j.src, j.srcPitch, cx, cy, 1) as real / 4.0;
            var r := BoxSum(j.src, j.srcPitch, cx, cy, 2) as real / 4.0;
            && i + 1 < |j.was|
            && var u, v := Output(j)[i], Output(j)[i + 1];
            && 16 <= u <= 240 && 16 <= v <= 240
            && -1.0 < u as real - Cb601(b, g, r) < 1.0
            && -1.0 < v as real - Cr601(b, g, r) < 1.0
  {
    ChromaPlane(j, cx, cy);
    hide Pixel, BoxSum, Cb601, Cr601, USum, VSum, Output, RowStart;
    var bs, gs, rs := BoxSum(j.src, j.srcPitch, cx, cy, 0), BoxSum(j.src, j.srcPitch, cx, cy, 1), BoxSum(j.src, j.srcPitch, cx, cy, 2);
    NominalRanges(0, 0, 0, bs, gs, rs);
    WithinOneStepOf601(0, 0, 0, bs, gs, rs);
  }

  // --------------------------------------------------------- from bytes to bytes, exactly

  /** Rows are `pitch` bytes apart. */
  lemma RowStartIs(y: nat, pitch: nat)
    ensures RowStart(y, pitch) == y * pitch
  {
  }

  lemma PixelIs(j: Job, x: nat, y: nat)
    requires Fits(j) && x < j.w && y < j.h
    ensures var p := RowStart(y, j.srcPitch) + 4 * x;
            && p + 3 < |j.src|
            && Pixel(j.src, j.srcPitch, x, y, 0) == j.src[p]
            && Pixel(j.src, j.srcPitch, x, y, 1) == j.src[p + 1]
            && Pixel(j.src, j.srcPitch, x, y, 2) == j.src[p + 2]
  {
    hide RowStart, Pixel;
    PixelInside(j.src, j.srcPitch, x, y, j.w, j.h);
    var i := RowStart(y, j.srcPitch) + 4 * x;
    assert j.src[i + 0] == Pixel(j.src, j.srcPitch, x, y, 0);
    assert j.src[i + 1] == Pixel(j.src, j.srcPitch, x, y, 1);
    assert j.src[i + 2] == Pixel(j.src, j.srcPitch, x, y, 2);
  }

  /** v is 16 more than (66 r + 129 g + 25 b) / 256 to the nearest integer, halves up. */
  ghost predicate LumaOf(v: int, b: int, g: int, r: int) {
    -128 <= 66 * r + 129 * g + 25 * b - 256 * (v - 16) < 128
  }

  /** Every luma byte, from the blue, green and red bytes of its pixel. */
  lemma LumaFromBytes(j: Job, x: nat, y: nat)
    requires Fits(j) && x < j.w && y < j.h
    ensures var p, i := RowStart(y, j.srcPitch) + 4 * x, RowStart(y, j.pitch) + x;
            p + 2 < |j.src| && i < |j.was| && LumaOf(Output(j)[i], j.src[p], j.src[p + 1], j.src[p + 2])
  {
    LumaPlane(j, x, y);
    PixelIs(j, x, y);
    hide Pixel, Output, RowStart;
    var b, g, r := Pixel(j.src, j.srcPitch, x, y, 0), Pixel(j.src, j.srcPitch, x, y, 1), Pixel(j.src, j.srcPitch, x, y, 2);
    NominalRanges(b, g, r, 0, 0, 0);
    LumaRounds(b, g, r);
  }

  lemma LumaRounds(b: int, g: int, r: int)
    ensures LumaOf(LumaSum(b, g, r), b, g, r)
  {
  }

  /** The sum of channel c over the four pixels at p00, after it, and in the row below. */
  function Four(src: seq<byte>, p00: nat, pitch: nat, c: nat): int
    requires p00 + pitch + 4 + c < |src|
  {
    src[p00 + c] as int + src[p00 + 4 + c] as int + src[p00 + pitch + c] as int + src[p00 + pitch + 4 + c] as int
  }

  /** v is 128 more than (c1 x - c2 y - c3 z) / 1024 to the nearest integer, halves up. */
  ghost predicate ChromaOf(v: int, weighted: int) {
    -512 <= weighted - 1024 * (v - 128) < 512
  }

  /** Every U and V byte, from the sums of blue, green and red over the box's four pixels. */
  lemma ChromaFromBytes(j: Job, cx: nat, cy: nat)
    requires Fits(j) && 2 * cx < j.w && cy < j.h / 2
    ensures var p, i := RowStart(2 * cy, j.srcPitch) + 8 * cx, RowStart(j.h + cy, j.pitch) + 2 * cx;
            && p + j.srcPitch + 6 < |j.src| && i + 1 < |j.was|
            && var bs, gs, rs := Four(j.src, p, j.srcPitch, 0), Four(j.src, p, j.srcPitch, 1), Four(j.src, p, j.srcPitch, 2);
            && ChromaOf(Output(j)[i], 112 * bs - 74 * gs - 38 * rs)
            && ChromaOf(Output(j)[i + 1], 112 * rs - 94 * gs - 18 * bs)
  {
    ChromaPlane(j, cx, cy);
    BoxIsFour(j, cx, cy);
    hide BoxSum, Output, RowStart, Four;
    var bs, gs, rs := BoxSum(j.src, j.srcPitch, cx, cy, 0), BoxSum(j.src, j.srcPitch, cx, cy, 1), BoxSum(j.src, j.srcPitch, cx, cy, 2);
    NominalRanges(0, 0, 0, bs, gs, rs);
    ChromaRounds(bs, gs, rs);
  }

  lemma ChromaRounds(bs: int, gs: int, rs: int)
    ensures ChromaOf(USum(bs, gs, rs), 112 * bs - 74 * gs - 38 * rs)
    ensures ChromaOf(VSum(bs, gs, rs), 112 * rs - 94 * gs - 18 * bs)
  {
  }

  lemma BoxIsFour(j: Job, cx: nat, cy: nat)
    requires Fits(j) && 2 * cx < j.w && cy < j.h / 2
    ensures var p := RowStart(2 * cy, j.srcPitch) + 8 * cx;
            && p + j.srcPitch + 6 < |j.src|
            && forall c :: 0 <= c < 3 ==> BoxSum(j.src, j.srcPitch, cx, cy, c) == Four(j.src, p, j.srcPitch, c)
  {
    BoxCells(j, cy, cx);
    hide BoxSum, RowStart;
  }
}
