/** The boot splash: each boot stage paints its own columns of a strip of icons into the frame buffer. */
module BootSplash {

  newtype byte = x: int | 0 <= x < 256

  /** The frame buffer's measures; its bytes are an array of rows, each `bytes_per_row` long. */
  datatype Info = Info(width: nat, height: nat, depth: nat)

  const ICONS_WIDTH: nat := 308
  const ICONS_HEIGHT: nat := 80
  const LOGO_HEIGHT: nat := 96
  const PLACEMENT_X: nat := 50
  const PLACEMENT_Y: nat := 50
  const STAGE_MAX: nat := 7

  function Min(a: nat, b: nat): nat {
    if a < b then a else b
  }

  predicate KnownDepth(depth: nat) {
    depth == 8 || depth == 15 || depth == 16 || depth == 24 || depth == 32
  }

  /** Bytes of a pixel on the screen. */
  function PixelSize(depth: nat): (n: nat)
    ensures 1 <= n <= 4
  {
    match depth
    case 8 => 1
    case 15 => 2
    case 16 => 2
    case 24 => 3
    case _ => 4
  }

  /** Bytes of a pixel in the icons: an index at 8 bits, else blue, green and red. */
  function SourceSize(depth: nat): (n: nat)
    ensures 1 <= n <= 3
  {
    if depth == 8 then 1 else 3
  }

  /** A 16-bit number as it lies in memory. */
  function LittleEndian(n: nat): seq<byte>
    requires n < 0x1_0000
  {
    [(n % 256) as byte, (n / 256) as byte]
  }

  /** A pixel of the icons as the screen has it. */
  function Converted(depth: nat, src: seq<byte>): (p: seq<byte>)
    requires |src| == SourceSize(depth)
    ensures |p| == PixelSize(depth)
  {
    match depth
    case 8 => src
    case 15 => LittleEndian(src[2] as int / 8 * 1024 + src[1] as int / 8 * 32 + src[0] as int / 8)
    case 16 => LittleEndian(src[2] as int / 8 * 2048 + src[1] as int / 4 * 32 + src[0] as int / 8)
    case 24 => src
    case _ => src + [0]
  }

  lemma {:induction false} SixteenBits(n: nat)
    requires n < 0x1_0000
    ensures LittleEndian(n)[0] as int + 256 * LittleEndian(n)[1] as int == n
  {
  }

  /** Numbers side by side in one. */
  lemma {:induction false} FiveBitsEach(low: nat, middle: nat, high: nat)
    requires low < 32 && middle < 32
    ensures var n := high * 1024 + middle * 32 + low;
            n % 32 == low && n / 32 % 32 == middle && n / 1024 == high
  {
    assert high * 1024 + middle * 32 + low == (high * 32 + middle) * 32 + low;
  }

  lemma {:induction false} SixBitsBetween(low: nat, middle: nat, high: nat)
    requires low < 32 && middle < 64
    ensures var n := high * 2048 + middle * 32 + low;
            n % 32 == low && n / 32 % 64 == middle && n / 2048 == high
  {
    assert high * 2048 + middle * 32 + low == (high * 64 + middle) * 32 + low;
  }

  /** A pixel in 15 or 16 bits has the upper bits of its three colours side by side; in more bits it has all of them. */
  lemma {:induction false} ColoursAreKept(depth: nat, src: seq<byte>)
    requires |src| == SourceSize(depth)
    ensures var p := Converted(depth, src);
            && (depth == 8 || depth == 24 ==> p == src)
            && (depth == 32 ==> p == [src[0], src[1], src[2], 0])
            && (depth == 15 || depth == 16 ==>
                  var n := p[0] as int + 256 * p[1] as int;
                  && n % 32 == src[0] as int / 8
                  && n / 32 % (if depth == 15 then 32 else 64) == src[1] as int / (if depth == 15 then 8 else 4)
                  && n / (if depth == 15 then 1024 else 2048) == src[2] as int / 8)
  {
    if depth == 15 || depth == 16 {
      var low, high := src[0] as int / 8, src[2] as int / 8;
      var middle := src[1] as int / (if depth == 15 then 8 else 4);
      if depth == 15 {
        FiveBitsEach(low, middle, high);
      } else {
        SixBitsBetween(low, middle, high);
      }
      SixteenBits(high * (if depth == 15 then 1024 else 2048) + middle * 32 + low);
    }
  }

  // ----- where the stages are -----

  function StripWidth(info: Info): nat {
    Min(ICONS_WIDTH, info.width)
  }

  function StripHeight(info: Info): nat {
    Min(ICONS_HEIGHT / 2, info.height)
  }

  function Left(info: Info): nat {
    (info.width - StripWidth(info)) * PLACEMENT_X / 100
  }

  function Top(info: Info): nat {
    LOGO_HEIGHT + (info.height - Min(LOGO_HEIGHT + ICONS_HEIGHT / 2, info.height)) * PLACEMENT_Y / 100
  }

  /** The column of the strip at which a stage begins and the one before ends. */
  function Edge(info: Info, stage: nat): nat {
    StripWidth(info) * stage / STAGE_MAX
  }

  predicate InStage(info: Info, stage: nat, column: nat) {
    Edge(info, stage) <= column < Edge(info, stage + 1)
  }

  /** The stage a column of the strip belongs to, looked for from a stage on. */
  function StageOf(info: Info, column: nat, from: nat): (stage: nat)
    requires from < STAGE_MAX && Edge(info, from) <= column < StripWidth(info)
    ensures from <= stage < STAGE_MAX && InStage(info, stage, column)
    decreases STAGE_MAX - from
  {
    if column < Edge(info, from + 1) || from == STAGE_MAX - 1 then from else StageOf(info, column, from + 1)
  }

  lemma {:induction false} EdgesAscend(info: Info, s: nat, t: nat)
    requires s <= t
    ensures Edge(info, s) <= Edge(info, t)
  {
    if s < t {
      EdgesAscend(info, s, t - 1);
      var w := StripWidth(info);
      assert w * t == w * (t - 1) + w;
    }
  }

  /** The column ranges of the stages tile the strip: every column of it belongs to one stage and to no other, and
      no stage has a column outside the strip. */
  lemma {:induction false} StagesTile(info: Info, column: nat, stage: nat)
    requires stage < STAGE_MAX
    ensures InStage(info, stage, column) <==> column < StripWidth(info) && StageOf(info, column, 0) == stage
  {
    EdgesAscend(info, stage + 1, STAGE_MAX);
    if column < StripWidth(info) {
      var owner := StageOf(info, column, 0);
      if owner < stage {
        EdgesAscend(info, owner + 1, stage);
      } else if stage < owner {
        EdgesAscend(info, stage + 1, owner);
      }
    }
  }

  /** The strip lies within the columns of the screen, and within its rows exactly when the screen is at least as
      tall as the logo with half the icons; only a screen without rows is left alone otherwise. */
  lemma {:induction false} StripFits(info: Info)
    ensures Left(info) + StripWidth(info) <= info.width
    ensures Top(info) + StripHeight(info) <= info.height <==> info.height >= LOGO_HEIGHT + ICONS_HEIGHT / 2
    ensures StripHeight(info) == 0 <==> info.height == 0
  {
  }

  /** The strip is 308 by 40 pixels or as much of it as the screen has, in the middle of the columns, and, behind 96
      rows for the logo, in the middle of the rows that logo and strip leave; the stages share it evenly. */
  lemma {:induction false} StripIsCentred(info: Info, stage: nat)
    ensures var w, h := StripWidth(info), StripHeight(info);
            var rows := if info.height < 136 then 0 else info.height - 136;
            && w <= 308 && w <= info.width && (w == 308 || w == info.width)
            && h <= 40 && h <= info.height && (h == 40 || h == info.height)
            && 2 * Left(info) + w <= info.width <= 2 * Left(info) + w + 1
            && 2 * (Top(info) - 96) <= rows <= 2 * (Top(info) - 96) + 1
            && 7 * Edge(info, stage) <= w * stage < 7 * Edge(info, stage) + 7
  {
  }

  // ----- what the screen shows -----

  /** The byte of a frame buffer row that a stage paints: its pixel belongs to the stage's columns. */
  predicate Paints(info: Info, stage: nat, row: nat, column: nat) {
    && KnownDepth(info.depth) && stage < STAGE_MAX
    && Top(info) <= row < Top(info) + StripHeight(info)
    && column / PixelSize(info.depth) >= Left(info)
    && InStage(info, stage, column / PixelSize(info.depth) - Left(info))
  }

  predicate IsStrip(info: Info, icons: seq<byte>) {
    |icons| >= ICONS_WIDTH * (ICONS_HEIGHT / 2) * SourceSize(info.depth)
  }

  /** At no other depth than these anything is painted. */
  lemma {:induction false} OtherDepthsShowNothing(info: Info, icons: seq<byte>, stage: nat, row: nat, column: nat,
                                                  before: byte)
    requires IsStrip(info, icons)
    ensures info.depth !in {8, 15, 16, 24, 32} ==> Shown(info, icons, stage, row, column, before) == before
    ensures info.depth in {8, 15, 16, 24, 32} ==> KnownDepth(info.depth)
  {
  }

  predicate InStrip(info: Info, row: nat, column: nat) {
    && KnownDepth(info.depth)
    && Top(info) <= row < Top(info) + StripHeight(info)
    && Left(info) <= column / PixelSize(info.depth) < Left(info) + StripWidth(info)
  }

  /** A pixel of the icons, from its row and column. */
  function Icon(info: Info, icons: seq<byte>, y: nat, x: nat): seq<byte>
    requires IsStrip(info, icons) && y < ICONS_HEIGHT / 2 && x < ICONS_WIDTH
  {
    var n := SourceSize(info.depth);
    PixelInside(y, x, n);
    icons[(ICONS_WIDTH * y + x) * n..(ICONS_WIDTH * y + x) * n + n]
  }

  lemma {:induction false} PixelInside(y: nat, x: nat, n: nat)
    requires y < ICONS_HEIGHT / 2 && x < ICONS_WIDTH && 1 <= n <= 3
    ensures (ICONS_WIDTH * y + x) * n + n <= ICONS_WIDTH * (ICONS_HEIGHT / 2) * n
  {
  }

  /** What a byte of the strip is to show. */
  function Target(info: Info, icons: seq<byte>, row: nat, column: nat): byte
    requires IsStrip(info, icons) && InStrip(info, row, column)
  {
    var size := PixelSize(info.depth);
    Converted(info.depth, Icon(info, icons, row - Top(info), column / size - Left(info)))[column % size]
  }

  /** A byte after a stage has been painted. */
  function Shown(info: Info, icons: seq<byte>, stage: nat, row: nat, column: nat, before: byte): byte
    requires IsStrip(info, icons)
  {
    if Paints(info, stage, row, column) then
      StagesTile(info, column / PixelSize(info.depth) - Left(info), stage);
      Target(info, icons, row, column)
    else before
  }

  /** A byte after several stages. */
  function ShownAfter(info: Info, icons: seq<byte>, stages: seq<nat>, row: nat, column: nat, before: byte): byte
    requires IsStrip(info, icons)
  {
    if stages == [] then before
    else
      var last := |stages| - 1;
      Shown(info, icons, stages[last], row, column, ShownAfter(info, icons, stages[..last], row, column, before))
  }

  /** In whatever order and however often stages come, a byte shows its part of the strip exactly when the stage
      its column belongs to has come, and is as before otherwise. */
  lemma {:induction false} OrderDoesNotMatter(info: Info, icons: seq<byte>, stages: seq<nat>, row: nat, column: nat,
                                              before: byte)
    requires IsStrip(info, icons)
    ensures ShownAfter(info, icons, stages, row, column, before)
         == if InStrip(info, row, column) && StageOf(info, column / PixelSize(info.depth) - Left(info), 0) in stages
            then Target(info, icons, row, column) else before
  {
    if stages != [] {
      var last := |stages| - 1;
      OrderDoesNotMatter(info, icons, stages[..last], row, column, before);
      assert stages == stages[..last] + [stages[last]];
      if stages[last] < STAGE_MAX && column / PixelSize(info.depth) >= Left(info) {
        StagesTile(info, column / PixelSize(info.depth) - Left(info), stages[last]);
      }
    }
  }

  /** All stages together, in any order, show the whole strip and nothing else. */
  lemma {:induction false} AllStagesShowTheStrip(info: Info, icons: seq<byte>, stages: seq<nat>, row: nat, column: nat,
                                                 before: byte)
    requires IsStrip(info, icons) && forall s: nat :: s < STAGE_MAX ==> s in stages
    ensures ShownAfter(info, icons, stages, row, column, before)
         == if InStrip(info, row, column) then Target(info, icons, row, column) else before
  {
    OrderDoesNotMatter(info, icons, stages, row, column, before);
  }

  // ----- blitting -----

  /** The arguments of a cropped blit. */
  datatype Crop = Crop(depth: nat, imageLeft: nat, imageTop: nat, imageRight: nat, imageBottom: nat, imageWidth: nat,
                       left: nat, top: nat)

  predicate Fits(crop: Crop, data: seq<byte>, rows: nat, bytesPerRow: nat) {
    && KnownDepth(crop.depth) && crop.imageLeft <= crop.imageRight <= crop.imageWidth
    && crop.imageTop <= crop.imageBottom
    && crop.imageWidth * crop.imageBottom * SourceSize(crop.depth) <= |data|
    && (crop.imageTop == crop.imageBottom || crop.top + crop.imageBottom <= rows)
    && PixelSize(crop.depth) * (crop.left + crop.imageRight) <= bytesPerRow
  }

  predicate InCrop(crop: Crop, row: nat, column: nat) {
    && crop.top + crop.imageTop <= row < crop.top + crop.imageBottom
    && crop.left + crop.imageLeft <= column / PixelSize(crop.depth) < crop.left + crop.imageRight
  }

  lemma {:induction false} SourceInside(width: nat, height: nat, y: nat, x: nat, n: nat)
    requires y < height && x < width && 1 <= n <= 3
    ensures (width * y + x) * n + n <= width * height * n
  {
    RowsInside(width, height, y + 1);
    var before, all := width * y + x, width * height;
    assert before + 1 <= all;
    if n == 1 {
    } else if n == 2 {
      assert before * 2 + 2 <= all * 2;
    } else {
      assert before * 3 + 3 <= all * 3;
    }
  }

  lemma {:induction false} RowsInside(width: nat, height: nat, rows: nat)
    requires rows <= height
    ensures width * rows <= width * height && width * (rows + 1) == width * rows + width
    ensures rows > 0 ==> width * rows == width * (rows - 1) + width
  {
    if rows < height {
      RowsInside(width, height - 1, rows);
    }
  }

  function CropByte(crop: Crop, data: seq<byte>, row: nat, column: nat): byte
    requires InCrop(crop, row, column) && crop.imageRight <= crop.imageWidth
    requires crop.imageWidth * crop.imageBottom * SourceSize(crop.depth) <= |data|
  {
    var size, n := PixelSize(crop.depth), SourceSize(crop.depth);
    var y, x := row - crop.top, column / size - crop.left;
    SourceInside(crop.imageWidth, crop.imageBottom, y, x, n);
    var at := DataAt(crop, y, x);
    Converted(crop.depth, data[at..at + n])[column % size]
  }

  method WritePixel(frame: array2<byte>, row: nat, at: nat, pixel: seq<byte>)
    requires row < frame.Length0 && at + |pixel| <= frame.Length1
    modifies frame
    ensures forall r, c :: 0 <= r < frame.Length0 && 0 <= c < frame.Length1 ==>
      frame[r, c] == if r == row && at <= c < at + |pixel| then pixel[c - at] else old(frame[r, c])
  {
    forall k | 0 <= k < |pixel| {
      frame[row, at + k] := pixel[k];
    }
  }

  /** `blit8_cropped` to `blit32_cropped`, which differ in the sizes of the pixels and in their conversion. */
  method BlitCropped(crop: Crop, data: seq<byte>, frame: array2<byte>)
    requires Fits(crop, data, frame.Length0, frame.Length1)
    modifies frame
    ensures forall r, c :: 0 <= r < frame.Length0 && 0 <= c < frame.Length1 ==>
      frame[r, c] == if InCrop(crop, r, c) then CropByte(crop, data, r, c) else old(frame[r, c])
  {
    var dataAt: nat := DataAt(crop, crop.imageTop, crop.imageLeft);
    for y := crop.imageTop to crop.imageBottom
      invariant dataAt == DataAt(crop, y, crop.imageLeft)
      invariant forall r, c :: 0 <= r < frame.Length0 && 0 <= c < frame.Length1 ==>
        frame[r, c] == if InCrop(crop, r, c) && r < crop.top + y then CropByte(crop, data, r, c) else old(frame[r, c])
    {
      BlitRow(crop, data, frame, y, dataAt);
      NextRow(crop, y, crop.imageLeft);
      dataAt := dataAt + crop.imageWidth * SourceSize(crop.depth);
    }
  }

  /** Where the pixel of a row and column is in the source. */
  function DataAt(crop: Crop, y: nat, x: nat): nat {
    (crop.imageWidth * y + x) * SourceSize(crop.depth)
  }

  lemma {:induction false} NextRow(crop: Crop, y: nat, x: nat)
    ensures DataAt(crop, y + 1, x) == DataAt(crop, y, x) + crop.imageWidth * SourceSize(crop.depth)
  {
    var before, n := crop.imageWidth * y + x, SourceSize(crop.depth);
    assert crop.imageWidth * (y + 1) == crop.imageWidth * y + crop.imageWidth;
    assert (before + crop.imageWidth) * n == before * n + crop.imageWidth * n;
  }

  /** One row of a cropped blit: the inner loop. */
  method BlitRow(crop: Crop, data: seq<byte>, frame: array2<byte>, y: nat, dataAt: nat)
    requires Fits(crop, data, frame.Length0, frame.Length1) && crop.imageTop <= y < crop.imageBottom
    requires dataAt == DataAt(crop, y, crop.imageLeft)
    modifies frame
    ensures forall r, c :: 0 <= r < frame.Length0 && 0 <= c < frame.Length1 ==>
      frame[r, c] == if InCrop(crop, r, c) && r == crop.top + y then CropByte(crop, data, r, c) else old(frame[r, c])
  {
    var size, n, row := PixelSize(crop.depth), SourceSize(crop.depth), crop.top + y;
    var src, dst := dataAt, size * (crop.left + crop.imageLeft);
    for x := crop.imageLeft to crop.imageRight
      invariant src == DataAt(crop, y, x) && dst == size * (crop.left + x)
      invariant forall r, c :: 0 <= r < frame.Length0 && 0 <= c < frame.Length1 ==>
        frame[r, c] == if InCrop(crop, r, c) && r == row && c / size < crop.left + x then CropByte(crop, data, r, c)
                       else old(frame[r, c])
    {
      BlitPixel(crop, data, frame, y, x, src, dst);
      src, dst := src + n, dst + size;
    }
  }

  /** One pixel of it. */
  method BlitPixel(crop: Crop, data: seq<byte>, frame: array2<byte>, y: nat, x: nat, src: nat, dst: nat)
    requires Fits(crop, data, frame.Length0, frame.Length1)
    requires crop.imageTop <= y < crop.imageBottom && crop.imageLeft <= x < crop.imageRight
    requires src == DataAt(crop, y, x) && dst == PixelSize(crop.depth) * (crop.left + x)
    modifies frame
    ensures forall r, c :: 0 <= r < frame.Length0 && 0 <= c < frame.Length1 ==>
      frame[r, c] == if InCrop(crop, r, c) && r == crop.top + y && c / PixelSize(crop.depth) == crop.left + x
                     then CropByte(crop, data, r, c) else old(frame[r, c])
  {
    SourceInside(crop.imageWidth, crop.imageBottom, y, x, SourceSize(crop.depth));
    PixelColumns(PixelSize(crop.depth), crop.left + x);
    WritePixel(frame, crop.top + y, dst, Converted(crop.depth, data[src..src + SourceSize(crop.depth)]));
  }

  /** The columns of a pixel. */
  lemma {:induction false} PixelColumns(size: nat, pixel: nat)
    requires 1 <= size <= 4
    ensures forall c: nat :: c / size == pixel <==> size * pixel <= c < size * pixel + size
    ensures forall c: nat :: c / size == pixel ==> c % size == c - size * pixel
  {
  }

  /** The crop of a stage. */
  function StageCrop(info: Info, stage: nat): Crop {
    Crop(info.depth, Edge(info, stage), 0, Edge(info, stage + 1), StripHeight(info), ICONS_WIDTH, Left(info), Top(info))
  }

  /** The memory has all the rows of the strip; on a screen of 1 to 135 rows they are not all rows of the screen. */
  predicate RowsExist(info: Info, rows: nat) {
    StripHeight(info) == 0 || Top(info) + StripHeight(info) <= rows
  }

  lemma {:induction false} StageCropFits(info: Info, icons: seq<byte>, stage: nat, rows: nat, bytesPerRow: nat)
    requires IsStrip(info, icons) && KnownDepth(info.depth) && stage < STAGE_MAX
    requires RowsExist(info, rows) && PixelSize(info.depth) * info.width <= bytesPerRow
    ensures Fits(StageCrop(info, stage), icons, rows, bytesPerRow)
  {
    StripFits(info);
    EdgesAscend(info, stage, stage + 1);
    EdgesAscend(info, stage + 1, STAGE_MAX);
    StripRows(StripHeight(info), SourceSize(info.depth));
    PixelsInside(PixelSize(info.depth), Left(info) + Edge(info, stage + 1), info.width);
  }

  lemma {:induction false} PixelsInside(size: nat, pixels: nat, width: nat)
    requires 1 <= size <= 4 && pixels <= width
    ensures size * pixels <= size * width
  {
  }

  lemma {:induction false} StripRows(height: nat, n: nat)
    requires height <= ICONS_HEIGHT / 2 && (n == 1 || n == 3)
    ensures ICONS_WIDTH * height * n <= ICONS_WIDTH * (ICONS_HEIGHT / 2) * n
  {
  }

  /** `boot_splash_set_stage` with a frame buffer; nothing is painted for a number that is no stage or a depth the
      blits do not know.  `frame` is the memory from the start of the frame buffer on, in rows. */
  method SetStage(info: Info, icons: seq<byte>, stage: int, frame: array2<byte>)
    requires IsStrip(info, icons) && RowsExist(info, frame.Length0)
    requires PixelSize(info.depth) * info.width <= frame.Length1
    modifies frame
    ensures forall r, c :: 0 <= r < frame.Length0 && 0 <= c < frame.Length1 ==>
      frame[r, c] == if stage < 0 then old(frame[r, c]) else Shown(info, icons, stage, r, c, old(frame[r, c]))
  {
    if stage < 0 || stage >= STAGE_MAX || !KnownDepth(info.depth) {
      return;
    }
    var iconsHalfHeight := ICONS_HEIGHT / 2;
    var width := Min(ICONS_WIDTH, info.width);
    var height := Min(LOGO_HEIGHT + iconsHalfHeight, info.height);
    var x := (info.width - width) * PLACEMENT_X / 100;
    var y := LOGO_HEIGHT + (info.height - height) * PLACEMENT_Y / 100;
    var stageLeftEdge := width * stage / STAGE_MAX;
    var stageRightEdge := width * (stage + 1) / STAGE_MAX;
    height := Min(iconsHalfHeight, info.height);
    var crop := Crop(info.depth, stageLeftEdge, 0, stageRightEdge, height, ICONS_WIDTH, x, y);
    StageCropFits(info, icons, stage, frame.Length0, frame.Length1);
    BlitCropped(crop, icons, frame);
    forall r, c | 0 <= r < frame.Length0 && 0 <= c < frame.Length1
      ensures frame[r, c] == Shown(info, icons, stage, r, c, old(frame[r, c]))
    {
      StageShows(info, icons, stage, r, c, old(frame[r, c]));
    }
  }

  /** The crop of a stage is what the stage shows. */
  lemma {:induction false} StageShows(info: Info, icons: seq<byte>, stage: nat, row: nat, column: nat, before: byte)
    requires IsStrip(info, icons) && KnownDepth(info.depth) && stage < STAGE_MAX
    requires var crop := StageCrop(info, stage);
             crop.imageRight <= crop.imageWidth
             && crop.imageWidth * crop.imageBottom * SourceSize(crop.depth) <= |icons|
    ensures var crop := StageCrop(info, stage);
            Shown(info, icons, stage, row, column, before)
            == if InCrop(crop, row, column) then CropByte(crop, icons, row, column) else before
  {
  }
}
