/** Auto-crop: compare a decoded frame with the baseline frame, find the corners
    of the region that changed, and turn them into the rectangle that is encoded
    instead of the whole frame. */
module AutoCrop {
  import opened Types

  /** The colour of one pixel as QImage::pixelColor reports it, each channel as
      the fraction QColor::redF() and its siblings give. */
  datatype Pixel = Pixel(red: real, green: real, blue: real, alpha: real)

  /** Qt::transparent. */
  const Transparent: Pixel := Pixel(0.0, 0.0, 0.0, 0.0)

  function Abs(r: real): real { if r < 0.0 then -r else r }

  /** The pixel comparison of the difference scan: with a positive fuzziness
      threshold a pixel changed when some channel moved by more than the
      threshold; otherwise when the colours are not equal. */
  predicate Differs(cur: Pixel, prev: Pixel, fuzz: real) {
    if fuzz > 0.0 then
      || Abs(cur.red - prev.red) > fuzz
      || Abs(cur.green - prev.green) > fuzz
      || Abs(cur.blue - prev.blue) > fuzz
      || Abs(cur.alpha - prev.alpha) > fuzz
    else cur != prev
  }

  /** A pixel never differs from itself, and with the exact comparison it differs
      from every other colour; a larger threshold only drops changes. */
  lemma DiffersProperties(a: Pixel, b: Pixel, fuzz: real, coarser: real)
    ensures !Differs(a, a, fuzz)
    ensures fuzz <= 0.0 ==> (Differs(a, b, fuzz) <==> a != b)
    ensures 0.0 < fuzz <= coarser && Differs(a, b, coarser) ==> Differs(a, b, fuzz)
  {
  }

  /** A decoded QImage: `height` rows of `width` pixels, and the bit depth of its
      pixel format (which fixes its line stride and byte size). */
  datatype Image = Image(width: nat, height: nat, rows: seq<seq<Pixel>>, depth: nat) {
    predicate WellFormed() {
      |rows| == height && forall y :: 0 <= y < height ==> |rows[y]| == width
    }
    /** QImage::bytesPerLine: lines are padded to 32 bits. */
    function BytesPerLine(): nat { (width * depth + 31) / 32 * 4 }
    function SizeInBytes(): nat { BytesPerLine() * height }
    /** QImage::rect */
    function FullRect(): Rect { Rect(0, 0, width, height) }
  }

  predicate SameShape(a: Image, b: Image) {
    a.WellFormed() && b.WellFormed() && a.width == b.width && a.height == b.height
  }

  /** Pixel (x, y) lies in both frames and changed between them. */
  predicate Changed(cur: Image, prev: Image, fuzz: real, x: int, y: int)
  {
    && 0 <= y < |cur.rows| && 0 <= x < |cur.rows[y]| && y < |prev.rows| && x < |prev.rows[y]|
    && Differs(cur.rows[y][x], prev.rows[y][x], fuzz)
  }

  /** The pixels of rows before `h`, and of row `h` before column `w`: the part of
      the frame a row-major scan has visited. */
  predicate Visited(x: int, y: int, h: int, w: int) {
    y < h || (y == h && x < w)
  }

  /** The two corners the difference scan keeps: top-left and bottom-right. */
  datatype Corners = Corners(tlX: int, tlY: int, brX: int, brY: int)

  /** For each corner, the row (left and right corner column) or column (top and
      bottom corner row) of a changed pixel the corner sits on. */
  datatype Witnesses = Witnesses(left: int, top: int, right: int, bottom: int)

  /** The corners after meeting a changed pixel (x, y): each top-left coordinate
      becomes the smaller, each bottom-right coordinate the larger, of its value
      and the pixel's. */
  function Widen(c: Corners, x: int, y: int): (r: Corners)
    ensures r.tlX <= c.tlX && r.tlY <= c.tlY && r.brX >= c.brX && r.brY >= c.brY
    ensures r.tlX <= x <= r.brX && r.tlY <= y <= r.brY
    ensures (r.tlX == c.tlX || r.tlX == x) && (r.tlY == c.tlY || r.tlY == y)
    ensures (r.brX == c.brX || r.brX == x) && (r.brY == c.brY || r.brY == y)
  {
    Corners(if x < c.tlX then x else c.tlX, if y < c.tlY then y else c.tlY,
            if x > c.brX then x else c.brX, if y > c.brY then y else c.brY)
  }

  ghost function WidenWitnesses(c: Corners, ws: Witnesses, x: int, y: int): Witnesses {
    Witnesses(if x < c.tlX then y else ws.left, if y < c.tlY then x else ws.top,
              if x > c.brX then y else ws.right, if y > c.brY then x else ws.bottom)
  }

  /** The corners a scan holds after visiting the region up to (h, w): each
      top-left coordinate is at most its start value and each bottom-right one at
      least 0, all visited changed pixels lie between them, and a corner that moved
      off its start value sits on a changed pixel named by `ws`. */
  ghost predicate CornersOver(cur: Image, prev: Image, fuzz: real,
                              startX: int, startY: int, h: int, w: int, c: Corners, ws: Witnesses)
  {
    && c.tlX <= startX && c.tlY <= startY && 0 <= c.brX && 0 <= c.brY
    && (forall x, y :: Changed(cur, prev, fuzz, x, y) && Visited(x, y, h, w) ==>
          c.tlX <= x <= c.brX && c.tlY <= y <= c.brY)
    && (c.tlX == startX || Changed(cur, prev, fuzz, c.tlX, ws.left))
    && (c.tlY == startY || Changed(cur, prev, fuzz, ws.top, c.tlY))
    && (c.brX == 0 || Changed(cur, prev, fuzz, c.brX, ws.right))
    && (c.brY == 0 || Changed(cur, prev, fuzz, ws.bottom, c.brY))
  }

  /** The corners of the whole scan: each top-left coordinate is the least of its
      start value and the changed pixels' coordinates, each bottom-right coordinate
      the greatest of 0 and theirs. */
  ghost predicate IsScanResult(cur: Image, prev: Image, fuzz: real,
                               startX: int, startY: int, c: Corners)
  {
    && c.tlX <= startX && c.tlY <= startY && 0 <= c.brX && 0 <= c.brY
    && (forall x, y :: Changed(cur, prev, fuzz, x, y) ==> c.tlX <= x <= c.brX && c.tlY <= y <= c.brY)
    && (c.tlX == startX || exists y :: Changed(cur, prev, fuzz, c.tlX, y))
    && (c.tlY == startY || exists x :: Changed(cur, prev, fuzz, x, c.tlY))
    && (c.brX == 0 || exists y :: Changed(cur, prev, fuzz, c.brX, y))
    && (c.brY == 0 || exists x :: Changed(cur, prev, fuzz, x, c.brY))
  }

  /** Finishing row `h` is starting row `h + 1`. */
  lemma FinishRow(cur: Image, prev: Image, fuzz: real,
                  startX: int, startY: int, h: int, c: Corners, ws: Witnesses)
    requires SameShape(cur, prev)
    requires CornersOver(cur, prev, fuzz, startX, startY, h, cur.width, c, ws)
    ensures CornersOver(cur, prev, fuzz, startX, startY, h + 1, 0, c, ws)
  {
    assert forall x, y :: Changed(cur, prev, fuzz, x, y) ==> 0 <= x < cur.width;
  }

  /** Visiting one more pixel of a row adds exactly that pixel to the region. */
  lemma VisitedStep(h: int, w: int)
    ensures forall x, y :: Visited(x, y, h, w + 1) <==> Visited(x, y, h, w) || (x == w && y == h)
  {
  }

  /** A changed pixel (w, h): the widened corners cover the region up to (h, w + 1). */
  lemma VisitChanged(cur: Image, prev: Image, fuzz: real,
                     startX: int, startY: int, h: int, w: int, c: Corners, ws: Witnesses)
    requires SameShape(cur, prev) && 0 <= h < cur.height && 0 <= w < cur.width
    requires Differs(cur.rows[h][w], prev.rows[h][w], fuzz)
    requires CornersOver(cur, prev, fuzz, startX, startY, h, w, c, ws)
    ensures CornersOver(cur, prev, fuzz, startX, startY, h, w + 1, Widen(c, w, h), WidenWitnesses(c, ws, w, h))
  {
    VisitedStep(h, w);
  }

  /** An unchanged pixel (w, h): the corners already cover the region up to (h, w + 1). */
  lemma VisitUnchanged(cur: Image, prev: Image, fuzz: real,
                       startX: int, startY: int, h: int, w: int, c: Corners, ws: Witnesses)
    requires SameShape(cur, prev) && 0 <= h < cur.height && 0 <= w < cur.width
    requires !Differs(cur.rows[h][w], prev.rows[h][w], fuzz)
    requires CornersOver(cur, prev, fuzz, startX, startY, h, w, c, ws)
    ensures CornersOver(cur, prev, fuzz, startX, startY, h, w + 1, c, ws)
  {
    VisitedStep(h, w);
  }

  /** Visiting pixel (w, h): the corners widen to it when it changed and stay
      otherwise, and then cover the region up to (h, w + 1). */
  method VisitPixel(cur: Image, prev: Image, fuzz: real,
                    startX: int, startY: int, h: int, w: int, c0: Corners, ghost ws0: Witnesses)
    returns (c: Corners, ghost ws: Witnesses)
    requires SameShape(cur, prev) && 0 <= h < cur.height && 0 <= w < cur.width
    requires CornersOver(cur, prev, fuzz, startX, startY, h, w, c0, ws0)
    ensures c == if Differs(cur.rows[h][w], prev.rows[h][w], fuzz) then Widen(c0, w, h) else c0
    ensures CornersOver(cur, prev, fuzz, startX, startY, h, w + 1, c, ws)
  {
    if Differs(cur.rows[h][w], prev.rows[h][w], fuzz) {
      VisitChanged(cur, prev, fuzz, startX, startY, h, w, c0, ws0);
      c, ws := Widen(c0, w, h), WidenWitnesses(c0, ws0, w, h);
    } else {
      VisitUnchanged(cur, prev, fuzz, startX, startY, h, w, c0, ws0);
      c, ws := c0, ws0;
    }
  }

  /** One row of the difference scan: visit the pixels of row `h` left to right. */
  method ScanLine(cur: Image, prev: Image, fuzz: real, startX: int, startY: int, h: int,
                  c0: Corners, ghost ws0: Witnesses)
    returns (c: Corners, ghost ws: Witnesses)
    requires SameShape(cur, prev) && 0 <= h < cur.height
    requires CornersOver(cur, prev, fuzz, startX, startY, h, 0, c0, ws0)
    ensures CornersOver(cur, prev, fuzz, startX, startY, h + 1, 0, c, ws)
  {
    c, ws := c0, ws0;
    var w := 0;
    while w < cur.width
      invariant 0 <= w <= cur.width
      invariant CornersOver(cur, prev, fuzz, startX, startY, h, w, c, ws)
    {
      c, ws := VisitPixel(cur, prev, fuzz, startX, startY, h, w, c, ws);
      w := w + 1;
    }
    FinishRow(cur, prev, fuzz, startX, startY, h, c, ws);
  }

  /** The difference scan: visit every pixel row by row, widening the corners
      (which start at (startX, startY) and (0, 0)) to every changed pixel. */
  method DiffBounds(cur: Image, prev: Image, fuzz: real, startX: int, startY: int)
    returns (c: Corners)
    requires SameShape(cur, prev)
    ensures IsScanResult(cur, prev, fuzz, startX, startY, c)
  {
    c := Corners(startX, startY, 0, 0);
    ghost var ws := Witnesses(0, 0, 0, 0);
    var h := 0;
    while h < cur.height
      invariant 0 <= h <= cur.height
      invariant CornersOver(cur, prev, fuzz, startX, startY, h, 0, c, ws)
    {
      c, ws := ScanLine(cur, prev, fuzz, startX, startY, h, c, ws);
      h := h + 1;
    }
    assert forall x, y :: Changed(cur, prev, fuzz, x, y) ==> Visited(x, y, cur.height, 0);
  }

  /** The stand-in rectangle meaning "nothing worth cropping to". */
  const Placeholder: Rect := Rect(0, 0, 1, 1)

  /** The crop rectangle of a width x height frame from the scanned corners: the
      placeholder when the top-left corner reached the last column or row, or the
      bottom-right corner stayed in the first column or row; otherwise the box
      spanned by the two corners. */
  function CropRect(width: int, height: int, c: Corners): Rect
  {
    if c.tlX >= width - 1 || c.tlY >= height - 1 || c.brX < 1 || c.brY < 1 then Placeholder
    else Rect(c.tlX, c.tlY, c.brX - c.tlX + 1, c.brY - c.tlY + 1)
  }

  /** Wherever the scan started, a crop rectangle that is not the placeholder has
      at least one column and one row: its bottom-right corner moved onto a
      changed pixel, which the top-left corner does not pass. */
  lemma CropRectIsNonEmpty(cur: Image, prev: Image, fuzz: real, startX: int, startY: int, c: Corners)
    requires IsScanResult(cur, prev, fuzz, startX, startY, c)
    requires CropRect(cur.width, cur.height, c) != Placeholder
    ensures CropRect(cur.width, cur.height, c).width >= 1 && CropRect(cur.width, cur.height, c).height >= 1
  {
    var yr :| Changed(cur, prev, fuzz, c.brX, yr);
    var xb :| Changed(cur, prev, fuzz, xb, c.brY);
  }

  /** For a scan started at the frame's bottom-right pixel, the crop rectangle is
      the placeholder exactly when every changed pixel lies on one edge of the
      frame: all in the first column, all in the first row, all in the last column
      or all in the last row (which includes no change at all). */
  lemma {:induction false} PlaceholderIffChangesOnOneEdge(
    cur: Image, prev: Image, fuzz: real, c: Corners)
    requires SameShape(cur, prev) && cur.width >= 1 && cur.height >= 1
    requires IsScanResult(cur, prev, fuzz, cur.width - 1, cur.height - 1, c)
    ensures CropRect(cur.width, cur.height, c) == Placeholder <==>
      || (forall x, y :: Changed(cur, prev, fuzz, x, y) ==> x == 0)
      || (forall x, y :: Changed(cur, prev, fuzz, x, y) ==> y == 0)
      || (forall x, y :: Changed(cur, prev, fuzz, x, y) ==> x == cur.width - 1)
      || (forall x, y :: Changed(cur, prev, fuzz, x, y) ==> y == cur.height - 1)
  {
    var W, H := cur.width, cur.height;
    if CropRect(W, H, c) == Placeholder {
      if c.tlX >= W - 1 {
        assert forall x, y :: Changed(cur, prev, fuzz, x, y) ==> x == W - 1;
      } else if c.tlY >= H - 1 {
        assert forall x, y :: Changed(cur, prev, fuzz, x, y) ==> y == H - 1;
      } else if c.brX < 1 {
        assert forall x, y :: Changed(cur, prev, fuzz, x, y) ==> x == 0;
      } else if c.brY < 1 {
        assert forall x, y :: Changed(cur, prev, fuzz, x, y) ==> y == 0;
      } else {
        // the box branch never yields the placeholder
        assert false;
      }
    } else {
      var yr :| Changed(cur, prev, fuzz, c.brX, yr);
      var xb :| Changed(cur, prev, fuzz, xb, c.brY);
      var yl :| Changed(cur, prev, fuzz, c.tlX, yl);
      var xt :| Changed(cur, prev, fuzz, xt, c.tlY);
      assert c.brX != 0 && c.brY != 0 && c.tlX != W - 1 && c.tlY != H - 1;
    }
  }

  /** When the crop rectangle is not the placeholder it lies inside the frame,
      contains every changed pixel, and each of its four edges passes through a
      changed pixel: it is the smallest box around the change. */
  lemma {:induction false} CropIsTightBox(
    cur: Image, prev: Image, fuzz: real, c: Corners)
    requires SameShape(cur, prev) && cur.width >= 1 && cur.height >= 1
    requires IsScanResult(cur, prev, fuzz, cur.width - 1, cur.height - 1, c)
    requires CropRect(cur.width, cur.height, c) != Placeholder
    ensures var r := CropRect(cur.width, cur.height, c);
      && 0 <= r.x && 0 <= r.y && 1 <= r.width && 1 <= r.height
      && r.x + r.width <= cur.width && r.y + r.height <= cur.height
      && (forall x, y :: Changed(cur, prev, fuzz, x, y) ==> r.x <= x <= r.Right() && r.y <= y <= r.Bottom())
      && (exists y :: Changed(cur, prev, fuzz, r.x, y))
      && (exists y :: Changed(cur, prev, fuzz, r.Right(), y))
      && (exists x :: Changed(cur, prev, fuzz, x, r.y))
      && (exists x :: Changed(cur, prev, fuzz, x, r.Bottom()))
  {
    var yl :| Changed(cur, prev, fuzz, c.tlX, yl);
    var xt :| Changed(cur, prev, fuzz, xt, c.tlY);
    var yr :| Changed(cur, prev, fuzz, c.brX, yr);
    var xb :| Changed(cur, prev, fuzz, xb, c.brY);
  }

  /** Frames that differ from the baseline in one pixel away from the frame's edges
      are cropped to exactly that pixel. */
  lemma SinglePixelChange(
    cur: Image, prev: Image, fuzz: real, px: int, py: int,
    c: Corners)
    requires SameShape(cur, prev)
    requires 0 < px < cur.width - 1 && 0 < py < cur.height - 1
    requires forall x, y :: Changed(cur, prev, fuzz, x, y) <==> x == px && y == py
    requires IsScanResult(cur, prev, fuzz, cur.width - 1, cur.height - 1, c)
    ensures CropRect(cur.width, cur.height, c) == Rect(px, py, 1, 1)
  {
    assert Changed(cur, prev, fuzz, px, py);
  }

  /** A frame identical to the baseline yields the placeholder. */
  lemma IdenticalFrameGivesPlaceholder(cur: Image, fuzz: real, c: Corners)
    requires SameShape(cur, cur) && cur.width >= 1 && cur.height >= 1
    requires IsScanResult(cur, cur, fuzz, cur.width - 1, cur.height - 1, c)
    ensures CropRect(cur.width, cur.height, c) == Placeholder
  {
    forall x, y | 0 <= y < |cur.rows| && 0 <= x < |cur.rows[y]|
      ensures !Changed(cur, cur, fuzz, x, y)
    {
      DiffersProperties(cur.rows[y][x], cur.rows[y][x], fuzz, fuzz);
    }
    PlaceholderIffChangesOnOneEdge(cur, cur, fuzz, c);
  }

  /** A change confined to the first row, however wide, yields the placeholder. */
  lemma FirstRowChangeGivesPlaceholder(
    cur: Image, prev: Image, fuzz: real, c: Corners)
    requires SameShape(cur, prev) && cur.width >= 1 && cur.height >= 1
    requires forall x, y :: Changed(cur, prev, fuzz, x, y) ==> y == 0
    requires IsScanResult(cur, prev, fuzz, cur.width - 1, cur.height - 1, c)
    ensures CropRect(cur.width, cur.height, c) == Placeholder
  {
    PlaceholderIffChangesOnOneEdge(cur, prev, fuzz, c);
  }

  /** The crop rectangle covers the whole frame exactly when the changes reach all
      four edges of a frame at least two pixels wide and high, or when the frame is
      a single pixel (whose rectangle is the placeholder itself). */
  lemma {:induction false} FullFrameCrop(
    cur: Image, prev: Image, fuzz: real, c: Corners)
    requires SameShape(cur, prev) && cur.width >= 1 && cur.height >= 1
    requires IsScanResult(cur, prev, fuzz, cur.width - 1, cur.height - 1, c)
    ensures CropRect(cur.width, cur.height, c) == cur.FullRect() <==>
      || (cur.width == 1 && cur.height == 1)
      || (cur.width >= 2 && cur.height >= 2 && c.tlX == 0 && c.tlY == 0 && c.brX == cur.width - 1 && c.brY == cur.height - 1)
  {
  }

  /** QImage::copy(r): the pixels of `r`, with pixels outside the image set to 0. */
  function Copy(img: Image, r: Rect): (c: Image)
    requires img.WellFormed() && r.width >= 0 && r.height >= 0
    ensures c.WellFormed() && c.width == r.width && c.height == r.height && c.depth == img.depth
    ensures forall y, x :: 0 <= y < c.height && 0 <= x < c.width ==>
              c.rows[y][x] == (if 0 <= r.y + y < img.height && 0 <= r.x + x < img.width
                               then img.rows[r.y + y][r.x + x] else Transparent)
  {
    var rows := seq(r.height, y requires 0 <= y < r.height =>
                  seq(r.width, x requires 0 <= x < r.width =>
                    if 0 <= r.y + y < img.height && 0 <= r.x + x < img.width
                    then img.rows[r.y + y][r.x + x] else Transparent));
    Image(r.width, r.height, rows, img.depth)
  }

  /** The frame encoded in place of a decoded frame whose crop rectangle is not the
      full frame, and where it goes: a real crop is the changed region, placed at
      the frame's origin plus the region's offset; the placeholder becomes a single
      transparent pixel one step up and left of the frame's origin. */
  function CropFrame(cur: Image, frameRect: Rect, crop: Rect): (res: (Image, Rect))
    requires cur.WellFormed() && crop.width >= 0 && crop.height >= 0
    ensures res.0.WellFormed() && res.0.depth == cur.depth
    ensures crop == Placeholder ==>
              res.0.width == 1 && res.0.height == 1 && res.0.rows[0][0] == Transparent
              && res.1 == Rect(frameRect.x - 1, frameRect.y - 1, 1, 1)
    ensures crop != Placeholder ==>
              res.0.width == crop.width && res.0.height == crop.height
              && res.1 == Rect(frameRect.x + crop.x, frameRect.y + crop.y, crop.width, crop.height)
  {
    if crop != Placeholder then
      var c := Copy(cur, crop);
      (c, Rect(frameRect.x + crop.x, frameRect.y + crop.y, c.width, c.height))
    else
      var c := Image(1, 1, [[Transparent]], cur.depth);
      (c, Rect(frameRect.x - 1, frameRect.y - 1, 1, 1))
  }
}
