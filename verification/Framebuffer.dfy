/**
 * The two display flushes (src/hal.cpp:52-60 and 251-262): the panel copies a row at a time into
 * the mapped frame buffer, the simulator a pixel at a time into a 480x480 array.
 */
module Framebuffer {
  import opened Basics
  import opened Arithmetic

  const WIDTH := 480
  const HEIGHT := 480

  /** `n * d`, by steps of `d`. */
  function Times(n: nat, d: nat): nat {
    if n == 0 then 0 else Times(n - 1, d) + d
  }

  lemma {:induction false} TimesIs(n: nat, d: nat)
    ensures Times(n, d) == n * d
  {
    if n > 0 {
      TimesIs(n - 1, d);
    }
  }

  lemma {:induction false} TimesApart(d: nat, m: nat, n: nat)
    requires m < n
    ensures Times(m, d) + d <= Times(n, d)
  {
    if m < n - 1 {
      TimesApart(d, m, n - 1);
    }
  }

  /** A pixel in ARGB8888; in memory its lowest byte comes first. */
  type Color = x: int | 0 <= x < 0x1_0000_0000

  datatype Area = Area(x1: nat, y1: nat, x2: nat, y2: nat)

  predicate OnScreen(a: Area) {
    a.x1 <= a.x2 < WIDTH && a.y1 <= a.y2 < HEIGHT
  }

  predicate Inside(a: Area, x: int, y: int) {
    a.x1 <= x <= a.x2 && a.y1 <= y <= a.y2
  }

  /** The pixels of a row of the area. */
  function RowPixels(a: Area): nat
    requires OnScreen(a)
  {
    a.x2 - a.x1 + 1
  }

  /** The pixels of the first `rows` rows of the area. */
  function RowsBefore(a: Area, rows: nat): nat
    requires OnScreen(a)
  {
    Times(rows, RowPixels(a))
  }

  predicate Covers(a: Area, colors: seq<Color>) {
    OnScreen(a) && |colors| >= RowsBefore(a, a.y2 - a.y1 + 1)
  }

  /** Where the pixel of (x, y) stands among the colors of the area. */
  function Index(a: Area, x: nat, y: nat): nat
    requires OnScreen(a) && Inside(a, x, y)
  {
    RowsBefore(a, y - a.y1) + (x - a.x1)
  }

  lemma IndexInRange(a: Area, x: nat, y: nat)
    requires OnScreen(a) && Inside(a, x, y)
    ensures Index(a, x, y) < RowsBefore(a, y - a.y1) + RowPixels(a)
    ensures RowsBefore(a, y - a.y1) + RowPixels(a) == RowsBefore(a, y - a.y1 + 1)
    ensures RowsBefore(a, y - a.y1 + 1) <= RowsBefore(a, a.y2 - a.y1 + 1)
  {
    RowsGrow(a, y - a.y1);
    RowsOrdered(a, y - a.y1 + 1, a.y2 - a.y1 + 1);
  }

  lemma RowsGrow(a: Area, rows: nat)
    requires OnScreen(a)
    ensures RowsBefore(a, rows + 1) == RowsBefore(a, rows) + RowPixels(a)
  {}

  lemma RowsOrdered(a: Area, r: nat, s: nat)
    requires OnScreen(a) && r <= s
    ensures RowsBefore(a, r) <= RowsBefore(a, s)
  {
    if r < s {
      TimesApart(RowPixels(a), r, s);
    }
  }

  // ---------------------------------------------------------------- the frame buffer

  /** What the device reports about its memory. */
  datatype Geometry = Geometry(xOffset: nat, yOffset: nat, lineLength: nat)

  function Location(g: Geometry, x: nat, y: nat): nat {
    (x + g.xOffset) * 4 + Times(y + g.yOffset, g.lineLength)
  }

  /** A line holds a row of the screen, and the memory holds the last one. */
  predicate Fits(g: Geometry, size: nat) {
    WIDTH * 4 <= g.lineLength && Location(g, WIDTH, HEIGHT - 1) <= size
  }

  lemma LocationInRange(g: Geometry, size: nat, x: nat, y: nat)
    requires Fits(g, size) && x <= WIDTH && y < HEIGHT
    ensures Location(g, x, y) <= Location(g, WIDTH, y) <= size
  {
    if y < HEIGHT - 1 {
      TimesApart(g.lineLength, y + g.yOffset, HEIGHT - 1 + g.yOffset);
    }
  }

  /** Rows of the screen do not overlap in memory. */
  lemma RowsApart(g: Geometry, y: nat, z: nat)
    requires WIDTH * 4 <= g.lineLength && y < z
    ensures Location(g, WIDTH, y) <= Location(g, 0, z)
  {
    TimesApart(g.lineLength, y + g.yOffset, z + g.yOffset);
  }

  lemma AlongRow(g: Geometry, x: nat, y: nat, d: nat)
    ensures Location(g, x + d, y) == Location(g, x, y) + 4 * d
  {}

  lemma PixelFits(g: Geometry, size: nat, x: nat, y: nat)
    requires Fits(g, size) && x < WIDTH && y < HEIGHT
    ensures Location(g, x, y) + 4 <= size
  {
    LocationInRange(g, size, x + 1, y);
    AlongRow(g, x, y, 1);
  }

  /** Where a pixel of the area lies relative to row `z`, which is not before its own. */
  lemma PixelAndRow(g: Geometry, a: Area, x: nat, y: nat, z: nat)
    requires WIDTH * 4 <= g.lineLength && OnScreen(a) && Inside(a, x, y) && y <= z
    ensures y < z ==> Location(g, x, y) + 4 <= Location(g, a.x1, z)
    ensures y == z ==> Location(g, x, y) == Location(g, a.x1, z) + 4 * (x - a.x1)
  {
    AlongRow(g, a.x1, y, x - a.x1);
    if y < z {
      AlongRow(g, x, y, WIDTH - x);
      RowsApart(g, y, z);
      AlongRow(g, 0, z, a.x1);
    }
  }

  /** The low `8 * count` bits of `n`, least significant byte first. */
  function LittleEndian(n: nat, count: nat): (bytes: Bytes)
    ensures |bytes| == count
    decreases count, n
  {
    if count == 0 then [] else [n % 256] + LittleEndian(n / 256, count - 1)
  }

  function FromLittleEndian(bytes: Bytes): nat {
    if bytes == [] then 0 else bytes[0] + 256 * FromLittleEndian(bytes[1..])
  }

  lemma {:induction false} LittleEndianReadsBack(n: nat, count: nat)
    requires n < Power256(count)
    ensures FromLittleEndian(LittleEndian(n, count)) == n
  {
    if count > 0 {
      LittleEndianReadsBack(n / 256, count - 1);
      assert LittleEndian(n, count)[1..] == LittleEndian(n / 256, count - 1);
    }
  }

  function InMemory(c: Color): (bytes: Bytes)
    ensures |bytes| == 4
  {
    LittleEndian(c, 4)
  }

  function InMemoryAll(colors: seq<Color>): (bytes: Bytes)
    ensures |bytes| == 4 * |colors|
  {
    if colors == [] then []
    else InMemoryAll(colors[..|colors| - 1]) + InMemory(colors[|colors| - 1])
  }

  lemma {:induction false} InMemoryAt(colors: seq<Color>, i: nat, k: nat)
    requires i < |colors| && k < 4
    ensures InMemoryAll(colors)[4 * i + k] == InMemory(colors[i])[k]
  {
    if i < |colors| - 1 {
      InMemoryAt(colors[..|colors| - 1], i, k);
    }
  }

  lemma MemoryReadsBack(c: Color)
    ensures FromLittleEndian(InMemory(c)) == c
  {
    assert Power256(2) == 65536;
    assert Power256(4) == 0x1_0000_0000;
    LittleEndianReadsBack(c, 4);
  }

  /** What the screen shows at (x, y). */
  function Shown(fb: Bytes, g: Geometry, x: nat, y: nat): nat
    requires Fits(g, |fb|) && x < WIDTH && y < HEIGHT
  {
    PixelFits(g, |fb|, x, y);
    var at := Location(g, x, y);
    FromLittleEndian([fb[at], fb[at + 1], fb[at + 2], fb[at + 3]])
  }

  /** The memory after `bytes` are copied to `at`. */
  function Splice(fb: Bytes, at: nat, bytes: Bytes): (r: Bytes)
    requires at + |bytes| <= |fb|
    ensures |r| == |fb|
  {
    if bytes == [] then fb
    else
      var last := |bytes| - 1;
      Splice(fb, at, bytes[..last])[at + last := bytes[last]]
  }

  lemma {:induction false} SpliceAt(fb: Bytes, at: nat, bytes: Bytes, i: nat)
    requires at + |bytes| <= |fb| && i < |fb|
    ensures Splice(fb, at, bytes)[i] == if at <= i < at + |bytes| then bytes[i - at] else fb[i]
  {
    if bytes != [] {
      SpliceAt(fb, at, bytes[..|bytes| - 1], i);
    }
  }

  /** The colors of row `r` of the area. */
  function RowColors(a: Area, colors: seq<Color>, r: nat): (row: seq<Color>)
    requires Covers(a, colors) && r <= a.y2 - a.y1
    ensures |row| == RowPixels(a)
  {
    IndexInRange(a, a.x1, a.y1 + r);
    colors[RowsBefore(a, r)..RowsBefore(a, r) + RowPixels(a)]
  }

  lemma RowFits(g: Geometry, size: nat, a: Area, y: nat)
    requires Fits(g, size) && OnScreen(a) && y < HEIGHT
    ensures Location(g, a.x1, y) + 4 * RowPixels(a) == Location(g, a.x2 + 1, y)
    ensures Location(g, a.x2 + 1, y) <= Location(g, WIDTH, y) <= size
  {
    AlongRow(g, a.x1, y, RowPixels(a));
    LocationInRange(g, size, a.x2 + 1, y);
  }

  /** The frame buffer after row `r` of the area is copied. */
  function WithRow(fb: Bytes, g: Geometry, a: Area, colors: seq<Color>, r: nat): (after: Bytes)
    requires Covers(a, colors) && Fits(g, |fb|) && r <= a.y2 - a.y1
    ensures |after| == |fb|
  {
    RowFits(g, |fb|, a, a.y1 + r);
    Splice(fb, Location(g, a.x1, a.y1 + r), InMemoryAll(RowColors(a, colors, r)))
  }

  lemma WithRowAt(fb: Bytes, g: Geometry, a: Area, colors: seq<Color>, r: nat, i: nat)
    requires Covers(a, colors) && Fits(g, |fb|) && r <= a.y2 - a.y1 && i < |fb|
    ensures
      var start := Location(g, a.x1, a.y1 + r);
      WithRow(fb, g, a, colors, r)[i] ==
      if start <= i < start + 4 * RowPixels(a) then InMemoryAll(RowColors(a, colors, r))[i - start]
      else fb[i]
  {
    RowFits(g, |fb|, a, a.y1 + r);
    SpliceAt(fb, Location(g, a.x1, a.y1 + r), InMemoryAll(RowColors(a, colors, r)), i);
  }

  /** The frame buffer once the first `rows` rows of the area are written. */
  function Flushed(fb: Bytes, g: Geometry, a: Area, colors: seq<Color>, rows: nat): (r: Bytes)
    requires Covers(a, colors) && Fits(g, |fb|) && rows <= a.y2 - a.y1 + 1
    ensures |r| == |fb|
  {
    if rows == 0 then fb else WithRow(Flushed(fb, g, a, colors, rows - 1), g, a, colors, rows - 1)
  }

  method CopyMemory(fb: array<Byte>, at: nat, bytes: Bytes)
    requires at + |bytes| <= fb.Length
    modifies fb
    ensures fb[..] == Splice(old(fb[..]), at, bytes)
  {
    assert bytes[..0] == [];
    for i := 0 to |bytes|
      invariant fb[..] == Splice(old(fb[..]), at, bytes[..i])
    {
      assert bytes[..i + 1][..i] == bytes[..i];
      fb[at + i] := bytes[i];
    }
    assert bytes[..|bytes|] == bytes;
  }

  /** One turn of the row loop. */
  method CopyRow(fb: array<Byte>, g: Geometry, a: Area, colors: seq<Color>, y: nat, position: nat)
    requires Covers(a, colors) && Fits(g, fb.Length) && a.y1 <= y <= a.y2
    requires position == RowsBefore(a, y - a.y1)
    modifies fb
    ensures fb[..] == WithRow(old(fb[..]), g, a, colors, y - a.y1)
  {
    var bytesPerPixel := 32 / 8;
    var rowPixels := a.x2 - a.x1 + 1;
    var location := (a.x1 + g.xOffset) * bytesPerPixel + (y + g.yOffset) * g.lineLength;
    TimesIs(y + g.yOffset, g.lineLength);
    RowFits(g, fb.Length, a, y);
    IndexInRange(a, a.x1, y);
    var row := colors[position..position + rowPixels];
    assert row == RowColors(a, colors, y - a.y1);
    CopyMemory(fb, location, InMemoryAll(row));
  }

  method Flush(fb: array<Byte>, g: Geometry, a: Area, colors: seq<Color>)
    requires Covers(a, colors) && Fits(g, fb.Length)
    modifies fb
    ensures fb[..] == Flushed(old(fb[..]), g, a, colors, a.y2 - a.y1 + 1)
  {
    var rowPixels := a.x2 - a.x1 + 1;
    var position := 0;
    ghost var start := fb[..];
    for y := a.y1 to a.y2 + 1
      invariant position == RowsBefore(a, y - a.y1)
      invariant fb[..] == Flushed(start, g, a, colors, y - a.y1)
    {
      CopyRow(fb, g, a, colors, y, position);
      RowsGrow(a, y - a.y1);
      position := position + rowPixels;
    }
  }

  // ---------------------------------------------------------------- the simulator

  /** The simulator's picture once everything before row `y`, column `x` is drawn. */
  function Cell(picture: seq<Color>, a: Area, colors: seq<Color>, y: nat, x: nat, i: nat): Color
    requires |picture| == WIDTH * HEIGHT && Covers(a, colors) && i < |picture|
  {
    if Inside(a, i % WIDTH, i / WIDTH) && (i / WIDTH < y || (i / WIDTH == y && i % WIDTH < x)) then
      IndexInRange(a, i % WIDTH, i / WIDTH);
      colors[Index(a, i % WIDTH, i / WIDTH)]
    else picture[i]
  }

  function Drawn(picture: seq<Color>, a: Area, colors: seq<Color>): (r: seq<Color>)
    requires |picture| == WIDTH * HEIGHT && Covers(a, colors)
    ensures |r| == |picture|
  {
    seq(|picture|, i requires 0 <= i < |picture| => Cell(picture, a, colors, HEIGHT, 0, i))
  }

  method Draw(picture: array<Color>, a: Area, colors: seq<Color>)
    requires picture.Length == WIDTH * HEIGHT && Covers(a, colors)
    modifies picture
    ensures picture[..] == Drawn(old(picture[..]), a, colors)
  {
    var position := 0;
    ghost var before := picture[..];
    for y := a.y1 to a.y2 + 1
      invariant position == RowsBefore(a, y - a.y1)
      invariant forall i :: 0 <= i < picture.Length ==> picture[i] == Cell(before, a, colors, y, 0, i)
    {
      for x := a.x1 to a.x2 + 1
        invariant position == RowsBefore(a, y - a.y1) + (x - a.x1)
        invariant forall i :: 0 <= i < picture.Length ==> picture[i] == Cell(before, a, colors, y, x, i)
      {
        IndexInRange(a, x, y);
        assert (y * WIDTH + x) / WIDTH == y && (y * WIDTH + x) % WIDTH == x;
        picture[y * WIDTH + x] := colors[position];
        position := position + 1;
      }
      RowsGrow(a, y - a.y1);
    }
  }

  // ---------------------------------------------------------------- what is shown

  /** Byte `i` of the memory belongs to one of the first `rows` rows of the area. */
  predicate InRows(g: Geometry, a: Area, rows: nat, i: nat) {
    rows > 0 &&
    (Location(g, a.x1, a.y1 + rows - 1) <= i < Location(g, a.x2 + 1, a.y1 + rows - 1) ||
     InRows(g, a, rows - 1, i))
  }

  lemma WithRowPixel(
      fb: Bytes, g: Geometry, a: Area, colors: seq<Color>, r: nat, x: nat, y: nat, k: nat)
    requires Covers(a, colors) && Fits(g, |fb|) && r <= a.y2 - a.y1
    requires Inside(a, x, y) && y <= a.y1 + r && k < 4
    ensures Index(a, x, y) < |colors| && Location(g, x, y) + 4 <= |fb|
    ensures WithRow(fb, g, a, colors, r)[Location(g, x, y) + k]
         == if y < a.y1 + r then fb[Location(g, x, y) + k] else InMemory(colors[Index(a, x, y)])[k]
  {
    ByteOfRow(a, colors, x, y, k);
    PixelFits(g, |fb|, x, y);
    PixelAndRow(g, a, x, y, a.y1 + r);
    WithRowAt(fb, g, a, colors, r, Location(g, x, y) + k);
    assert y == a.y1 + r ==> r == y - a.y1;
  }

  /** Every byte outside the area's rows is unchanged. */
  lemma {:induction false} OthersUnchanged(
      fb: Bytes, g: Geometry, a: Area, colors: seq<Color>, rows: nat, i: nat)
    requires Covers(a, colors) && Fits(g, |fb|) && rows <= a.y2 - a.y1 + 1
    requires i < |fb| && !InRows(g, a, rows, i)
    ensures Flushed(fb, g, a, colors, rows)[i] == fb[i]
  {
    if rows > 0 {
      var y := a.y1 + rows - 1;
      RowFits(g, |fb|, a, y);
      OthersUnchanged(fb, g, a, colors, rows - 1, i);
      WithRowAt(Flushed(fb, g, a, colors, rows - 1), g, a, colors, rows - 1, i);
      assert !(Location(g, a.x1, y) <= i < Location(g, a.x2 + 1, y));
    }
  }

  lemma ByteOfRow(a: Area, colors: seq<Color>, x: nat, y: nat, k: nat)
    requires Covers(a, colors) && Inside(a, x, y) && k < 4
    ensures Index(a, x, y) < |colors|
    ensures InMemoryAll(RowColors(a, colors, y - a.y1))[4 * (x - a.x1) + k]
         == InMemory(colors[Index(a, x, y)])[k]
  {
    IndexInRange(a, x, y);
    InMemoryAt(RowColors(a, colors, y - a.y1), x - a.x1, k);
  }

  /** The four bytes of a pixel of the area are those of its color, in row-major order. */
  lemma {:induction false} PixelWritten(
      fb: Bytes, g: Geometry, a: Area, colors: seq<Color>, rows: nat, x: nat, y: nat, k: nat)
    requires Covers(a, colors) && Fits(g, |fb|) && rows <= a.y2 - a.y1 + 1
    requires Inside(a, x, y) && y < a.y1 + rows && k < 4
    ensures Index(a, x, y) < |colors| && Location(g, x, y) + 4 <= |fb|
    ensures Flushed(fb, g, a, colors, rows)[Location(g, x, y) + k]
         == InMemory(colors[Index(a, x, y)])[k]
  {
    WithRowPixel(Flushed(fb, g, a, colors, rows - 1), g, a, colors, rows - 1, x, y, k);
    if y < a.y1 + rows - 1 {
      PixelWritten(fb, g, a, colors, rows - 1, x, y, k);
    }
  }

  /** A pixel of the screen outside the area is outside its rows. */
  lemma {:induction false} OutsideRows(
      g: Geometry, size: nat, a: Area, rows: nat, x: nat, y: nat, k: nat)
    requires Fits(g, size) && OnScreen(a) && rows <= a.y2 - a.y1 + 1
    requires x < WIDTH && y < HEIGHT && !Inside(a, x, y) && k < 4
    ensures !InRows(g, a, rows, Location(g, x, y) + k)
  {
    if rows > 0 {
      OutsideRows(g, size, a, rows - 1, x, y, k);
      var z := a.y1 + rows - 1;
      AlongRow(g, 0, y, x);
      AlongRow(g, x, y, WIDTH - x);
      AlongRow(g, 0, z, a.x1);
      AlongRow(g, a.x2 + 1, z, WIDTH - a.x2 - 1);
      if z < y {
        RowsApart(g, z, y);
      } else if y < z {
        RowsApart(g, y, z);
      } else if x < a.x1 {
        AlongRow(g, x, y, a.x1 - x);
      } else {
        AlongRow(g, a.x2 + 1, y, x - a.x2 - 1);
      }
    }
  }

  lemma OutsideUnchanged(fb: Bytes, g: Geometry, a: Area, colors: seq<Color>, x: nat, y: nat, k: nat)
    requires Covers(a, colors) && Fits(g, |fb|) && x < WIDTH && y < HEIGHT && k < 4
    requires !Inside(a, x, y)
    ensures Location(g, x, y) + 4 <= |fb|
    ensures Flushed(fb, g, a, colors, a.y2 - a.y1 + 1)[Location(g, x, y) + k]
         == fb[Location(g, x, y) + k]
  {
    PixelFits(g, |fb|, x, y);
    OutsideRows(g, |fb|, a, a.y2 - a.y1 + 1, x, y, k);
    OthersUnchanged(fb, g, a, colors, a.y2 - a.y1 + 1, Location(g, x, y) + k);
  }

  /** What the panel shows after a flush: the area's colors in the area, the old picture
      everywhere else. */
  lemma FlushShows(fb: Bytes, g: Geometry, a: Area, colors: seq<Color>, x: nat, y: nat)
    requires Covers(a, colors) && Fits(g, |fb|) && x < WIDTH && y < HEIGHT
    ensures Inside(a, x, y) ==> Index(a, x, y) < |colors|
    ensures Shown(Flushed(fb, g, a, colors, a.y2 - a.y1 + 1), g, x, y)
         == if Inside(a, x, y) then colors[Index(a, x, y)] else Shown(fb, g, x, y)
  {
    var rows := a.y2 - a.y1 + 1;
    PixelFits(g, |fb|, x, y);
    if Inside(a, x, y) {
      PixelWritten(fb, g, a, colors, rows, x, y, 0);
      PixelWritten(fb, g, a, colors, rows, x, y, 1);
      PixelWritten(fb, g, a, colors, rows, x, y, 2);
      PixelWritten(fb, g, a, colors, rows, x, y, 3);
      var c := InMemory(colors[Index(a, x, y)]);
      assert [c[0], c[1], c[2], c[3]] == c;
      MemoryReadsBack(colors[Index(a, x, y)]);
    } else {
      OutsideUnchanged(fb, g, a, colors, x, y, 0);
      OutsideUnchanged(fb, g, a, colors, x, y, 1);
      OutsideUnchanged(fb, g, a, colors, x, y, 2);
      OutsideUnchanged(fb, g, a, colors, x, y, 3);
    }
  }

  /** The frame buffer and the simulator's array hold the same picture. */
  ghost predicate SamePicture(fb: Bytes, g: Geometry, picture: seq<Color>) {
    Fits(g, |fb|) && |picture| == WIDTH * HEIGHT &&
    forall x: nat, y: nat :: x < WIDTH && y < HEIGHT ==> Shown(fb, g, x, y) == At(picture, x, y)
  }

  function At(picture: seq<Color>, x: nat, y: nat): Color
    requires |picture| == WIDTH * HEIGHT && x < WIDTH && y < HEIGHT
  {
    picture[y * WIDTH + x]
  }

  lemma DrawnAt(picture: seq<Color>, a: Area, colors: seq<Color>, x: nat, y: nat)
    requires |picture| == WIDTH * HEIGHT && Covers(a, colors) && x < WIDTH && y < HEIGHT
    ensures Inside(a, x, y) ==> Index(a, x, y) < |colors|
    ensures At(Drawn(picture, a, colors), x, y)
         == if Inside(a, x, y) then colors[Index(a, x, y)] else At(picture, x, y)
  {
    var i := y * WIDTH + x;
    assert i / WIDTH == y && i % WIDTH == x;
    if Inside(a, x, y) {
      IndexInRange(a, x, y);
    }
  }

  datatype Update = Update(area: Area, colors: seq<Color>)

  ghost predicate AllCover(updates: seq<Update>) {
    forall u :: u in updates ==> Covers(u.area, u.colors)
  }

  /** The frame buffer after a run of flushes. */
  function FlushAll(fb: Bytes, g: Geometry, updates: seq<Update>): (r: Bytes)
    requires Fits(g, |fb|) && AllCover(updates)
    ensures |r| == |fb|
    decreases |updates|
  {
    if updates == [] then fb
    else
      var u := updates[0];
      FlushAll(Flushed(fb, g, u.area, u.colors, u.area.y2 - u.area.y1 + 1), g, updates[1..])
  }

  /** The simulator's picture after a run of flushes. */
  function DrawAll(picture: seq<Color>, updates: seq<Update>): (r: seq<Color>)
    requires |picture| == WIDTH * HEIGHT && AllCover(updates)
    ensures |r| == |picture|
    decreases |updates|
  {
    if updates == [] then picture
    else DrawAll(Drawn(picture, updates[0].area, updates[0].colors), updates[1..])
  }

  /** Panel and simulator that start with the same picture keep showing the same picture. */
  lemma {:induction false} PanelAgreesWithSimulator(
      fb: Bytes, g: Geometry, picture: seq<Color>, updates: seq<Update>)
    requires SamePicture(fb, g, picture) && AllCover(updates)
    ensures SamePicture(FlushAll(fb, g, updates), g, DrawAll(picture, updates))
    decreases |updates|
  {
    if updates != [] {
      var a, colors := updates[0].area, updates[0].colors;
      var after := Flushed(fb, g, a, colors, a.y2 - a.y1 + 1);
      forall x: nat, y: nat | x < WIDTH && y < HEIGHT
        ensures Shown(after, g, x, y) == At(Drawn(picture, a, colors), x, y)
      {
        FlushShows(fb, g, a, colors, x, y);
        DrawnAt(picture, a, colors, x, y);
      }
      PanelAgreesWithSimulator(after, g, Drawn(picture, a, colors), updates[1..]);
    }
  }

  // ---------------------------------------------------------------- in numbers

  lemma AddressIs(g: Geometry, x: nat, y: nat)
    ensures Location(g, x, y) == 4 * (x + g.xOffset) + (y + g.yOffset) * g.lineLength
  {
    TimesIs(y + g.yOffset, g.lineLength);
  }

  lemma PositionIs(a: Area, x: nat, y: nat)
    requires OnScreen(a) && Inside(a, x, y)
    ensures Index(a, x, y) == (y - a.y1) * (a.x2 - a.x1 + 1) + (x - a.x1)
  {
    TimesIs(y - a.y1, RowPixels(a));
  }

  /** The byte order: blue, green, red, alpha. */
  lemma FourBytes(a: Byte, b: Byte, c: Byte, d: Byte)
    ensures FromLittleEndian([a, b, c, d]) == a as int + 256 * b as int + 65536 * c as int + 16777216 * d as int
  {
    assert [a, b, c, d][1..] == [b, c, d] && [b, c, d][1..] == [c, d] && [c, d][1..] == [d] && [d][1..] == [];
    assert FromLittleEndian([d]) == d;
    assert FromLittleEndian([c, d]) == c as int + 256 * d as int;
    assert FromLittleEndian([b, c, d]) == b as int + 256 * FromLittleEndian([c, d]);
  }

  /** What the screen shows at (x, y), in numbers: the four bytes there, 4 to a pixel. */
  lemma ShownMeans(fb: Bytes, g: Geometry, x: nat, y: nat, at: nat)
    requires Fits(g, |fb|) && x < 480 && y < 480
    requires at == 4 * (x + g.xOffset) + (y + g.yOffset) * g.lineLength
    ensures at + 4 <= |fb|
    ensures Shown(fb, g, x, y) ==
            fb[at] as int + 256 * fb[at + 1] as int + 65536 * fb[at + 2] as int + 16777216 * fb[at + 3] as int
  {
    AddressIs(g, x, y);
    PixelFits(g, |fb|, x, y);
    FourBytes(fb[at], fb[at + 1], fb[at + 2], fb[at + 3]);
  }

  /** After a flush: at the address of each pixel of the area are the four bytes of its color, which
      stand in row-major order among the colors. */
  lemma FlushedPixel(
      fb: Bytes, g: Geometry, a: Area, colors: seq<Color>, flushed: Bytes, x: nat, y: nat, at: nat, position: nat)
    requires Covers(a, colors) && Fits(g, |fb|) && flushed == Flushed(fb, g, a, colors, a.y2 - a.y1 + 1)
    requires a.x1 <= x <= a.x2 && a.y1 <= y <= a.y2
    requires at == 4 * (x + g.xOffset) + (y + g.yOffset) * g.lineLength
    requires position == (y - a.y1) * (a.x2 - a.x1 + 1) + (x - a.x1)
    ensures at + 4 <= |fb| && position < |colors|
    ensures flushed[at] as int + 256 * flushed[at + 1] as int + 65536 * flushed[at + 2] as int +
            16777216 * flushed[at + 3] as int == colors[position]
  {
    PositionIs(a, x, y);
    FlushShows(fb, g, a, colors, x, y);
    ShownMeans(flushed, g, x, y, at);
  }

  /** ... and at the address of each other pixel of the 480x480 screen the bytes that were there. */
  lemma OtherPixel(fb: Bytes, g: Geometry, a: Area, colors: seq<Color>, x: nat, y: nat, at: nat)
    requires Covers(a, colors) && Fits(g, |fb|) && x < 480 && y < 480
    requires !(a.x1 <= x <= a.x2 && a.y1 <= y <= a.y2)
    requires at == 4 * (x + g.xOffset) + (y + g.yOffset) * g.lineLength
    ensures at + 4 <= |fb|
    ensures
      var flushed := Flushed(fb, g, a, colors, a.y2 - a.y1 + 1);
      flushed[at] == fb[at] && flushed[at + 1] == fb[at + 1] && flushed[at + 2] == fb[at + 2] &&
      flushed[at + 3] == fb[at + 3]
  {
    AddressIs(g, x, y);
    OtherAt(fb, g, a, colors, x, y, at);
  }

  predicate SameFour(a: Bytes, i: nat, b: Bytes, j: nat)
    requires i + 4 <= |a| && j + 4 <= |b|
  {
    a[i] == b[j] && a[i + 1] == b[j + 1] && a[i + 2] == b[j + 2] && a[i + 3] == b[j + 3]
  }

  lemma OtherAt(fb: Bytes, g: Geometry, a: Area, colors: seq<Color>, x: nat, y: nat, at: nat)
    requires Covers(a, colors) && Fits(g, |fb|) && x < WIDTH && y < HEIGHT
    requires !Inside(a, x, y) && at == Location(g, x, y)
    ensures at + 4 <= |fb|
    ensures SameFour(Flushed(fb, g, a, colors, a.y2 - a.y1 + 1), at, fb, at)
  {
    PixelFits(g, |fb|, x, y);
    OutsideUnchanged(fb, g, a, colors, x, y, 0);
    OutsideUnchanged(fb, g, a, colors, x, y, 1);
    OutsideUnchanged(fb, g, a, colors, x, y, 2);
    OutsideUnchanged(fb, g, a, colors, x, y, 3);
  }

  lemma {:induction false} RowOfByte(g: Geometry, a: Area, rows: nat, i: nat) returns (y: nat)
    requires OnScreen(a) && InRows(g, a, rows, i)
    ensures a.y1 <= y < a.y1 + rows && Location(g, a.x1, y) <= i < Location(g, a.x2 + 1, y)
  {
    y := a.y1 + rows - 1;
    if !(Location(g, a.x1, y) <= i < Location(g, a.x2 + 1, y)) {
      y := RowOfByte(g, a, rows - 1, i);
    }
  }

  /** A byte that a flush changes belongs to a pixel of the area. */
  lemma ChangedByte(fb: Bytes, g: Geometry, a: Area, colors: seq<Color>, i: nat) returns (x: nat, y: nat, k: nat)
    requires Covers(a, colors) && Fits(g, |fb|) && i < |fb|
    requires Flushed(fb, g, a, colors, a.y2 - a.y1 + 1)[i] != fb[i]
    ensures a.x1 <= x <= a.x2 && a.y1 <= y <= a.y2 && k < 4
    ensures i == 4 * (x + g.xOffset) + (y + g.yOffset) * g.lineLength + k
  {
    var rows := a.y2 - a.y1 + 1;
    if !InRows(g, a, rows, i) {
      OthersUnchanged(fb, g, a, colors, rows, i);
      assert false;
    }
    y := RowOfByte(g, a, rows, i);
    var into := i - Location(g, a.x1, y);
    AlongRow(g, a.x1, y, RowPixels(a));
    x, k := a.x1 + into / 4, into % 4;
    AlongRow(g, a.x1, y, into / 4);
    AddressIs(g, x, y);
  }

  /** The simulator's picture after a flush, pixel by pixel, in rows of 480. */
  lemma DrawnPicture(picture: seq<Color>, a: Area, colors: seq<Color>, x: nat, y: nat, position: int)
    requires |picture| == WIDTH * HEIGHT && Covers(a, colors) && x < 480 && y < 480
    requires position == (y - a.y1) * (a.x2 - a.x1 + 1) + (x - a.x1)
    ensures
      var drawn := Drawn(picture, a, colors);
      480 * y + x < |picture| &&
      if a.x1 <= x <= a.x2 && a.y1 <= y <= a.y2
      then 0 <= position < |colors| && drawn[480 * y + x] == colors[position]
      else drawn[480 * y + x] == picture[480 * y + x]
  {
    DrawnAt(picture, a, colors, x, y);
    if Inside(a, x, y) {
      PositionIs(a, x, y);
    }
  }
}
