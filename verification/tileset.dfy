/**
 * The tile set and its adjacency relation (src/wfc.rs, imported by the grid as
 * `crate::tileset`).
 *
 * A source image is cut into one `tileWidth x tileHeight` window per pixel
 * offset, wrapping around the image edges; no two windows are merged. Then,
 * for every ordered pair of tiles and each of the four directions, the second
 * tile is recorded as a neighbour of the first when the overlapping bands of
 * their pixels agree.
 *
 * Pixels are stored column by column (`dx` outer, `dy` inner, offset
 * `dx * tileHeight + dy`) but compared row by row (offset `xa + ya * tileWidth`).
 * The model keeps both layouts as they are.
 */
module Tileset {
  import opened IndexMath

  type byte = b: int | 0 <= b < 256

  /** The four directions, numbered as their discriminants (wfc.rs:13-18). */
  datatype Direction = North | East | South | West {
    function Index(): (k: nat)
      ensures k < 4
    {
      match this
      case North => 0
      case East => 1
      case South => 2
      case West => 3
    }
  }

  /** `Direction::VALUES`: the order in which every loop over directions visits them. */
  const Values: seq<Direction> := [North, East, South, West]

  /** The direction that leads back. */
  function Opposite(d: Direction): Direction {
    match d
    case North => South
    case East => West
    case South => North
    case West => East
  }

  lemma ValuesIndex(k: nat)
    requires k < 4
    ensures Values[k].Index() == k
  {
  }

  lemma IndexValues(d: Direction)
    ensures Values[d.Index()] == d
  {
  }

  // ---------------------------------------------------------------------------
  // Pixels and the source image

  datatype Rgb = Rgb(r: byte, g: byte, b: byte)

  /** A decoded RGB raster: row-major, `width * height` pixels. */
  datatype Image = Image(width: nat, height: nat, pixels: seq<Rgb>)

  predicate WellFormed(img: Image) {
    |img.pixels| == img.width * img.height
  }

  /** `256^n`, the number of values `n` bytes can hold. */
  function Pow256(n: nat): nat {
    if n == 0 then 1 else 256 * Pow256(n - 1)
  }

  /**
   * `u32::from_le_bytes` (wfc.rs:43): the first byte is the least significant
   * one. The value fits in the bytes given, and remainder and division by 256
   * give back the first byte and the value of the rest.
   */
  function FromLeBytes(bytes: seq<byte>): (v: nat)
    ensures v < Pow256(|bytes|)
    ensures bytes != [] ==> v % 256 == bytes[0] && v / 256 == FromLeBytes(bytes[1..])
  {
    if bytes == [] then 0
    else
      var rest := FromLeBytes(bytes[1..]);
      DivModIdx(bytes[0], rest, 256);
      bytes[0] + 256 * rest
  }

  /**
   * One packed pixel: the bytes `[r, g, b, 0]` read little-endian. Byte 0 is
   * red, byte 1 green, byte 2 blue, and the alpha byte is zero.
   */
  function PackPixel(p: Rgb): (v: nat)
    ensures v < 0x100_0000
    ensures v % 256 == p.r
    ensures v / 256 % 256 == p.g
    ensures v / 256 / 256 == p.b
  {
    var v := FromLeBytes([p.r, p.g, p.b, 0]);
    assert FromLeBytes([0]) == 0 by { assert [0][1..] == []; }
    assert FromLeBytes([p.b, 0]) == p.b by { assert [p.b, 0][1..] == [0]; }
    assert FromLeBytes([p.g, p.b, 0]) == p.g + 256 * p.b by { assert [p.g, p.b, 0][1..] == [p.b, 0]; }
    assert v == p.r + 256 * (p.g + 256 * p.b) by { assert [p.r, p.g, p.b, 0][1..] == [p.g, p.b, 0]; }
    DivModIdx(p.r, p.g + 256 * p.b, 256);
    DivModIdx(p.g, p.b, 256);
    v
  }

  /** Packing is injective: distinct colours give distinct packed pixels. */
  lemma PackPixelInjective(p: Rgb, q: Rgb)
    ensures PackPixel(p) == PackPixel(q) <==> p == q
  {
  }

  /** The image as packed pixels, in the image's own row-major order (wfc.rs:38-45). */
  function PackImage(img: Image): (packed: seq<nat>)
    ensures |packed| == |img.pixels|
    ensures forall i | 0 <= i < |packed| :: packed[i] == PackPixel(img.pixels[i])
    ensures forall i | 0 <= i < |packed| :: packed[i] < 0x100_0000 && packed[i] % 256 == img.pixels[i].r
  {
    seq(|img.pixels|, i requires 0 <= i < |img.pixels| => PackPixel(img.pixels[i]))
  }

  // ---------------------------------------------------------------------------
  // Tiles

  /**
   * A tile: its pixels, one neighbour set per direction (indexed by
   * `Direction.Index`) and a frequency that nothing reads.
   */
  datatype Tile = Tile(pixels: seq<nat>, neighbors: seq<set<nat>>, frequency: nat)

  predicate Shaped(t: Tile, tw: nat, th: nat) {
    |t.pixels| == tw * th && |t.neighbors| == 4
  }

  /** `Tile::new`: the pixels as given, no neighbours yet, frequency 1 (wfc.rs:146-152). */
  function NewTile(pixels: seq<nat>, tw: nat, th: nat): (t: Tile)
    requires |pixels| == tw * th
    ensures Shaped(t, tw, th) && t.pixels == pixels
    ensures t.frequency == 1
    ensures forall k | 0 <= k < 4 :: t.neighbors[k] == {}
  {
    Tile(pixels, [{}, {}, {}, {}], 1)
  }

  /** `PartialEq for Tile`: two tiles are equal when their pixels are (wfc.rs:239-246). */
  predicate SamePattern(a: Tile, b: Tile): (r: bool)
    ensures r <==> |a.pixels| == |b.pixels| && forall i | 0 <= i < |a.pixels| :: a.pixels[i] == b.pixels[i]
  {
    a.pixels == b.pixels
  }

  // ---------------------------------------------------------------------------
  // Windows cut out of the image

  /** Pixel `(dx, dy)` of the window at offset `(x, y)`, wrapping around the image on both axes. */
  function WindowPixel(img: seq<nat>, w: nat, h: nat, x: nat, y: nat, dx: nat, dy: nat): nat
    requires w > 0 && h > 0 && |img| == w * h
  {
    img[Idx((x + dx) % w, (y + dy) % h, w, h)]
  }

  /** The pixels pushed for the window at `(x, y)` once its first `n` columns are done: `dx` outer, `dy` inner. */
  function WindowPrefix(img: seq<nat>, w: nat, h: nat, x: nat, y: nat, th: nat, n: nat): (p: seq<nat>)
    requires w > 0 && h > 0 && |img| == w * h
    ensures |p| == n * th
  {
    if n == 0 then [] else WindowPrefix(img, w, h, x, y, th, n - 1) + Column(img, w, h, x, y, n - 1, th)
  }

  /** The first `m` pixels of column `dx` of the window at `(x, y)`. */
  function Column(img: seq<nat>, w: nat, h: nat, x: nat, y: nat, dx: nat, m: nat): (c: seq<nat>)
    requires w > 0 && h > 0 && |img| == w * h
    ensures |c| == m
    ensures forall dy | 0 <= dy < m :: c[dy] == WindowPixel(img, w, h, x, y, dx, dy)
  {
    if m == 0 then [] else Column(img, w, h, x, y, dx, m - 1) + [WindowPixel(img, w, h, x, y, dx, m - 1)]
  }

  /** The pixels of the tile cut at offset `(x, y)` (wfc.rs:51-59). */
  function Window(img: seq<nat>, w: nat, h: nat, x: nat, y: nat, tw: nat, th: nat): (p: seq<nat>)
    requires w > 0 && h > 0 && |img| == w * h
    ensures |p| == tw * th
  {
    WindowPrefix(img, w, h, x, y, th, tw)
  }

  lemma {:induction false} WindowPrefixAt(img: seq<nat>, w: nat, h: nat, x: nat, y: nat, th: nat, n: nat, dx: nat, dy: nat)
    requires w > 0 && h > 0 && |img| == w * h
    requires dx < n && dy < th
    ensures dx * th + dy < n * th
    ensures WindowPrefix(img, w, h, x, y, th, n)[dx * th + dy] == WindowPixel(img, w, h, x, y, dx, dy)
  {
    IdxBound(dy, dx, th, n);
    if dx < n - 1 {
      WindowPrefixAt(img, w, h, x, y, th, n - 1, dx, dy);
    }
  }

  /**
   * The stored layout: pixel `dx * th + dy` of the window at `(x, y)` is the
   * image pixel at column `(x + dx) % w`, row `(y + dy) % h`.
   */
  lemma WindowAt(img: seq<nat>, w: nat, h: nat, x: nat, y: nat, tw: nat, th: nat, dx: nat, dy: nat)
    requires w > 0 && h > 0 && |img| == w * h
    requires dx < tw && dy < th
    ensures dx * th + dy < |Window(img, w, h, x, y, tw, th)|
    ensures Window(img, w, h, x, y, tw, th)[dx * th + dy] == img[Idx((x + dx) % w, (y + dy) % h, w, h)]
  {
    WindowPrefixAt(img, w, h, x, y, th, tw, dx, dy);
  }

  /**
   * The read layout does not match the stored one: on a square tile, the pixel
   * that the adjacency tests read at column `xa`, row `ya` came from image
   * column `x + ya` and row `y + xa`, so the comparison sees the window transposed.
   */
  lemma ReadIsTransposed(img: seq<nat>, w: nat, h: nat, x: nat, y: nat, s: nat, xa: nat, ya: nat)
    requires w > 0 && h > 0 && |img| == w * h
    requires xa < s && ya < s
    ensures Idx(xa, ya, s, s) < |Window(img, w, h, x, y, s, s)|
    ensures Window(img, w, h, x, y, s, s)[Idx(xa, ya, s, s)] == img[Idx((x + ya) % w, (y + xa) % h, w, h)]
  {
    WindowAt(img, w, h, x, y, s, s, ya, xa);
    assert Idx(xa, ya, s, s) == ya * s + xa;
  }

  /** The tiles pushed once the first `n` values of `x` are done: `x` outer, `y` inner. */
  function TilesPrefix(img: seq<nat>, w: nat, h: nat, tw: nat, th: nat, n: nat): (ts: seq<Tile>)
    requires w > 0 && h > 0 && |img| == w * h
    ensures |ts| == n * h
  {
    if n == 0 then [] else TilesPrefix(img, w, h, tw, th, n - 1) + TileColumn(img, w, h, tw, th, n - 1, h)
  }

  /** The tiles of the first `m` offsets `(x, 0) .. (x, m - 1)`. */
  function TileColumn(img: seq<nat>, w: nat, h: nat, tw: nat, th: nat, x: nat, m: nat): (ts: seq<Tile>)
    requires w > 0 && h > 0 && |img| == w * h
    ensures |ts| == m
    ensures forall y | 0 <= y < m :: ts[y] == NewTile(Window(img, w, h, x, y, tw, th), tw, th)
  {
    if m == 0 then [] else TileColumn(img, w, h, tw, th, x, m - 1) + [NewTile(Window(img, w, h, x, m - 1, tw, th), tw, th)]
  }

  /** Every window of the image, one tile per pixel offset, duplicates included (wfc.rs:49-76). */
  function Extracted(img: seq<nat>, w: nat, h: nat, tw: nat, th: nat): (ts: seq<Tile>)
    requires w > 0 && h > 0 && |img| == w * h
    ensures |ts| == w * h
  {
    TilesPrefix(img, w, h, tw, th, w)
  }

  lemma {:induction false} TilesPrefixAt(img: seq<nat>, w: nat, h: nat, tw: nat, th: nat, n: nat, x: nat, y: nat)
    requires w > 0 && h > 0 && |img| == w * h
    requires x < n && y < h
    ensures x * h + y < n * h
    ensures TilesPrefix(img, w, h, tw, th, n)[x * h + y] == NewTile(Window(img, w, h, x, y, tw, th), tw, th)
  {
    IdxBound(y, x, h, n);
    if x < n - 1 {
      TilesPrefixAt(img, w, h, tw, th, n - 1, x, y);
    }
  }

  /** The tile at index `x * h + y` is the window at offset `(x, y)`, freshly made by `Tile::new`. */
  lemma ExtractedAt(img: seq<nat>, w: nat, h: nat, tw: nat, th: nat, x: nat, y: nat)
    requires w > 0 && h > 0 && |img| == w * h
    requires x < w && y < h
    ensures x * h + y < |Extracted(img, w, h, tw, th)|
    ensures Extracted(img, w, h, tw, th)[x * h + y] == NewTile(Window(img, w, h, x, y, tw, th), tw, th)
  {
    TilesPrefixAt(img, w, h, tw, th, w, x, y);
  }

  lemma ColumnStep(img: seq<nat>, w: nat, h: nat, x: nat, y: nat, dx: nat, m: nat)
    requires w > 0 && h > 0 && |img| == w * h
    ensures Column(img, w, h, x, y, dx, m + 1) == Column(img, w, h, x, y, dx, m) + [WindowPixel(img, w, h, x, y, dx, m)]
  {
  }

  lemma WindowPrefixStep(img: seq<nat>, w: nat, h: nat, x: nat, y: nat, th: nat, n: nat)
    requires w > 0 && h > 0 && |img| == w * h
    ensures WindowPrefix(img, w, h, x, y, th, n + 1) == WindowPrefix(img, w, h, x, y, th, n) + Column(img, w, h, x, y, n, th)
  {
  }

  /**
   * The two inner loops of `TileSet::new` (wfc.rs:51-59): the pixels pushed
   * for offset `(x, y)` are exactly the window there (see `WindowAt` for
   * where each one comes from).
   */
  method ExtractWindow(img: seq<nat>, w: nat, h: nat, x: nat, y: nat, tw: nat, th: nat) returns (pixels: seq<nat>)
    requires w > 0 && h > 0 && |img| == w * h
    ensures pixels == Window(img, w, h, x, y, tw, th)
    ensures |pixels| == tw * th
  {
    pixels := [];
    for dx := 0 to tw
      invariant pixels == WindowPrefix(img, w, h, x, y, th, dx)
    {
      for dy := 0 to th
        invariant pixels == WindowPrefix(img, w, h, x, y, th, dx) + Column(img, w, h, x, y, dx, dy)
      {
        var px := (x + dx) % w;
        var py := (y + dy) % h;
        var index := Idx(px, py, w, h);
        pixels := pixels + [img[index]];
        ColumnStep(img, w, h, x, y, dx, dy);
      }
      WindowPrefixStep(img, w, h, x, y, th, dx);
    }
  }

  lemma TileColumnStep(img: seq<nat>, w: nat, h: nat, tw: nat, th: nat, x: nat, m: nat)
    requires w > 0 && h > 0 && |img| == w * h
    ensures TileColumn(img, w, h, tw, th, x, m + 1)
            == TileColumn(img, w, h, tw, th, x, m) + [NewTile(Window(img, w, h, x, m, tw, th), tw, th)]
  {
  }

  lemma TilesPrefixStep(img: seq<nat>, w: nat, h: nat, tw: nat, th: nat, n: nat)
    requires w > 0 && h > 0 && |img| == w * h
    ensures TilesPrefix(img, w, h, tw, th, n + 1) == TilesPrefix(img, w, h, tw, th, n) + TileColumn(img, w, h, tw, th, n, h)
  {
  }

  /** The two outer loops of `TileSet::new`: one tile per offset, `x` outer and `y` inner (wfc.rs:48-76). */
  method ExtractTiles(img: seq<nat>, w: nat, h: nat, tw: nat, th: nat) returns (tiles: seq<Tile>)
    requires w > 0 && h > 0 && |img| == w * h
    ensures tiles == Extracted(img, w, h, tw, th)
    ensures |tiles| == w * h
    ensures forall i | 0 <= i < |tiles| ::
              Shaped(tiles[i], tw, th) && tiles[i].frequency == 1 && forall k | 0 <= k < 4 :: tiles[i].neighbors[k] == {}
  {
    tiles := [];
    for x := 0 to w
      invariant tiles == TilesPrefix(img, w, h, tw, th, x)
    {
      for y := 0 to h
        invariant tiles == TilesPrefix(img, w, h, tw, th, x) + TileColumn(img, w, h, tw, th, x, y)
      {
        var pixels := ExtractWindow(img, w, h, x, y, tw, th);
        // The commented-out search for an equal tile is replaced by `exists = false`:
        // every window becomes a tile of its own.
        var exists_ := false;
        if !exists_ {
          tiles := tiles + [NewTile(pixels, tw, th)];
        }
        TileColumnStep(img, w, h, tw, th, x, y);
      }
      TilesPrefixStep(img, w, h, tw, th, x);
    }
    TilesShaped(img, w, h, tw, th, w);
  }

  lemma {:induction false} TilesShaped(img: seq<nat>, w: nat, h: nat, tw: nat, th: nat, n: nat)
    requires w > 0 && h > 0 && |img| == w * h
    ensures forall i | 0 <= i < |TilesPrefix(img, w, h, tw, th, n)| ::
              Shaped(TilesPrefix(img, w, h, tw, th, n)[i], tw, th) && TilesPrefix(img, w, h, tw, th, n)[i].frequency == 1
              && forall k | 0 <= k < 4 :: TilesPrefix(img, w, h, tw, th, n)[i].neighbors[k] == {}
  {
    if n > 0 {
      TilesShaped(img, w, h, tw, th, n - 1);
    }
  }

  // ---------------------------------------------------------------------------
  // Adjacency of two tiles' pixels, read row-major as `xa + ya * tw`

  /** `adjacent_north`: row `ya` of `a` equals row `ya + 1` of `b`, for every row but the last of `a`. */
  predicate NorthOverlap(a: seq<nat>, b: seq<nat>, tw: nat, th: nat)
    requires |a| == tw * th && |b| == tw * th
  {
    forall xa, ya | 0 <= xa < tw && 0 <= ya < th - 1 :: a[Idx(xa, ya, tw, th)] == b[Idx(xa, ya + 1, tw, th)]
  }

  /** `adjacent_south`: row `ya` of `a` equals row `ya - 1` of `b`, for every row but the first of `a`. */
  predicate SouthOverlap(a: seq<nat>, b: seq<nat>, tw: nat, th: nat)
    requires |a| == tw * th && |b| == tw * th
  {
    forall xa, ya | 0 <= xa < tw && 1 <= ya < th :: a[Idx(xa, ya, tw, th)] == b[Idx(xa, ya - 1, tw, th)]
  }

  /** `ajacetn_east`: column `xa` of `a` equals column `xa - 1` of `b`, for every column but the first of `a`. */
  predicate EastOverlap(a: seq<nat>, b: seq<nat>, tw: nat, th: nat)
    requires |a| == tw * th && |b| == tw * th
  {
    forall xa, ya | 1 <= xa < tw && 0 <= ya < th :: a[Idx(xa, ya, tw, th)] == b[Idx(xa - 1, ya, tw, th)]
  }

  /** `adjacent_west`: column `xa` of `a` equals column `xa + 1` of `b`, for every column but the last of `a`. */
  predicate WestOverlap(a: seq<nat>, b: seq<nat>, tw: nat, th: nat)
    requires |a| == tw * th && |b| == tw * th
  {
    forall xa, ya | 0 <= xa < tw - 1 && 0 <= ya < th :: a[Idx(xa, ya, tw, th)] == b[Idx(xa + 1, ya, tw, th)]
  }

  /** `cmp_adjacent`: may a tile with pixels `b` sit next to one with pixels `a` in direction `d`? */
  predicate Compatible(a: seq<nat>, b: seq<nat>, d: Direction, tw: nat, th: nat)
    requires |a| == tw * th && |b| == tw * th
  {
    match d
    case North => NorthOverlap(a, b, tw, th)
    case East => EastOverlap(a, b, tw, th)
    case South => SouthOverlap(a, b, tw, th)
    case West => WestOverlap(a, b, tw, th)
  }

  /** The north and south tests are mirror images: `b` fits north of `a` exactly when `a` fits south of `b`. */
  lemma NorthSouthDual(a: seq<nat>, b: seq<nat>, tw: nat, th: nat)
    requires |a| == tw * th && |b| == tw * th
    ensures NorthOverlap(a, b, tw, th) <==> SouthOverlap(b, a, tw, th)
  {
    if NorthOverlap(a, b, tw, th) {
      forall xa, ya | 0 <= xa < tw && 1 <= ya < th
        ensures b[Idx(xa, ya, tw, th)] == a[Idx(xa, ya - 1, tw, th)]
      {
        assert a[Idx(xa, ya - 1, tw, th)] == b[Idx(xa, (ya - 1) + 1, tw, th)];
      }
    }
    if SouthOverlap(b, a, tw, th) {
      forall xa, ya | 0 <= xa < tw && 0 <= ya < th - 1
        ensures a[Idx(xa, ya, tw, th)] == b[Idx(xa, ya + 1, tw, th)]
      {
        assert b[Idx(xa, ya + 1, tw, th)] == a[Idx(xa, (ya + 1) - 1, tw, th)];
      }
    }
  }

  /** The east and west tests are mirror images: `b` fits east of `a` exactly when `a` fits west of `b`. */
  lemma EastWestDual(a: seq<nat>, b: seq<nat>, tw: nat, th: nat)
    requires |a| == tw * th && |b| == tw * th
    ensures EastOverlap(a, b, tw, th) <==> WestOverlap(b, a, tw, th)
  {
    if EastOverlap(a, b, tw, th) {
      forall xa, ya | 0 <= xa < tw - 1 && 0 <= ya < th
        ensures b[Idx(xa, ya, tw, th)] == a[Idx(xa + 1, ya, tw, th)]
      {
        assert a[Idx(xa + 1, ya, tw, th)] == b[Idx((xa + 1) - 1, ya, tw, th)];
      }
    }
    if WestOverlap(b, a, tw, th) {
      forall xa, ya | 1 <= xa < tw && 0 <= ya < th
        ensures a[Idx(xa, ya, tw, th)] == b[Idx(xa - 1, ya, tw, th)]
      {
        assert b[Idx(xa - 1, ya, tw, th)] == a[Idx((xa - 1) + 1, ya, tw, th)];
      }
    }
  }

  /** `b` may sit in direction `d` of `a` exactly when `a` may sit in the opposite direction of `b`. */
  lemma CompatibleDual(a: seq<nat>, b: seq<nat>, d: Direction, tw: nat, th: nat)
    requires |a| == tw * th && |b| == tw * th
    ensures Compatible(a, b, d, tw, th) <==> Compatible(b, a, Opposite(d), tw, th)
  {
    match d
    case North => NorthSouthDual(a, b, tw, th);
    case South => NorthSouthDual(b, a, tw, th);
    case East => EastWestDual(a, b, tw, th);
    case West => EastWestDual(b, a, tw, th);
  }

  /** The loop of `adjacent_north`, returning at the first mismatch (wfc.rs:154-167). */
  method AdjacentNorth(a: seq<nat>, b: seq<nat>, tw: nat, th: nat) returns (r: bool)
    requires |a| == tw * th && |b| == tw * th
    requires tw >= 1 ==> th >= 1
    ensures r == NorthOverlap(a, b, tw, th)
  {
    for xa := 0 to tw
      invariant forall x, y | 0 <= x < xa && 0 <= y < th - 1 :: a[Idx(x, y, tw, th)] == b[Idx(x, y + 1, tw, th)]
    {
      for ya := 0 to th - 1
        invariant forall x, y | 0 <= x < xa && 0 <= y < th - 1 :: a[Idx(x, y, tw, th)] == b[Idx(x, y + 1, tw, th)]
        invariant forall y | 0 <= y < ya :: a[Idx(xa, y, tw, th)] == b[Idx(xa, y + 1, tw, th)]
      {
        var xb, yb := xa, ya + 1;
        if a[Idx(xa, ya, tw, th)] != b[Idx(xb, yb, tw, th)] {
          return false;
        }
      }
    }
    return true;
  }

  /** The loop of `adjacent_south`, returning at the first mismatch (wfc.rs:169-182). */
  method AdjacentSouth(a: seq<nat>, b: seq<nat>, tw: nat, th: nat) returns (r: bool)
    requires |a| == tw * th && |b| == tw * th
    ensures r == SouthOverlap(a, b, tw, th)
  {
    for xa := 0 to tw
      invariant forall x, y | 0 <= x < xa && 1 <= y < th :: a[Idx(x, y, tw, th)] == b[Idx(x, y - 1, tw, th)]
    {
      var ya := 1;
      while ya < th
        invariant 1 <= ya && (th >= 1 ==> ya <= th)
        invariant forall x, y | 0 <= x < xa && 1 <= y < th :: a[Idx(x, y, tw, th)] == b[Idx(x, y - 1, tw, th)]
        invariant forall y | 1 <= y < ya && y < th :: a[Idx(xa, y, tw, th)] == b[Idx(xa, y - 1, tw, th)]
      {
        var xb, yb := xa, ya - 1;
        if a[Idx(xa, ya, tw, th)] != b[Idx(xb, yb, tw, th)] {
          return false;
        }
        ya := ya + 1;
      }
    }
    return true;
  }

  /** The loop of `ajacetn_east`, returning at the first mismatch (wfc.rs:184-197). */
  method AdjacentEast(a: seq<nat>, b: seq<nat>, tw: nat, th: nat) returns (r: bool)
    requires |a| == tw * th && |b| == tw * th
    ensures r == EastOverlap(a, b, tw, th)
  {
    var xa := 1;
    while xa < tw
      invariant 1 <= xa && (tw >= 1 ==> xa <= tw)
      invariant forall x, y | 1 <= x < xa && x < tw && 0 <= y < th :: a[Idx(x, y, tw, th)] == b[Idx(x - 1, y, tw, th)]
    {
      for ya := 0 to th
        invariant forall x, y | 1 <= x < xa && x < tw && 0 <= y < th :: a[Idx(x, y, tw, th)] == b[Idx(x - 1, y, tw, th)]
        invariant forall y | 0 <= y < ya :: a[Idx(xa, y, tw, th)] == b[Idx(xa - 1, y, tw, th)]
      {
        var xb, yb := xa - 1, ya;
        if a[Idx(xa, ya, tw, th)] != b[Idx(xb, yb, tw, th)] {
          return false;
        }
      }
      xa := xa + 1;
    }
    return true;
  }

  /** The loop of `adjacent_west`, returning at the first mismatch (wfc.rs:199-212). */
  method AdjacentWest(a: seq<nat>, b: seq<nat>, tw: nat, th: nat) returns (r: bool)
    requires |a| == tw * th && |b| == tw * th
    requires tw >= 1
    ensures r == WestOverlap(a, b, tw, th)
  {
    for xa := 0 to tw - 1
      invariant forall x, y | 0 <= x < xa && 0 <= y < th :: a[Idx(x, y, tw, th)] == b[Idx(x + 1, y, tw, th)]
    {
      for ya := 0 to th
        invariant forall x, y | 0 <= x < xa && 0 <= y < th :: a[Idx(x, y, tw, th)] == b[Idx(x + 1, y, tw, th)]
        invariant forall y | 0 <= y < ya :: a[Idx(xa, y, tw, th)] == b[Idx(xa + 1, y, tw, th)]
      {
        var xb, yb := xa + 1, ya;
        if a[Idx(xa, ya, tw, th)] != b[Idx(xb, yb, tw, th)] {
          return false;
        }
      }
    }
    return true;
  }

  /** `cmp_adjacent`: dispatch on the direction (wfc.rs:214-221). */
  method CmpAdjacent(a: seq<nat>, b: seq<nat>, d: Direction, tw: nat, th: nat) returns (r: bool)
    requires |a| == tw * th && |b| == tw * th
    requires d == North ==> (tw >= 1 ==> th >= 1)
    requires d == West ==> tw >= 1
    ensures r == Compatible(a, b, d, tw, th)
  {
    match d
    case North => r := AdjacentNorth(a, b, tw, th);
    case East => r := AdjacentEast(a, b, tw, th);
    case South => r := AdjacentSouth(a, b, tw, th);
    case West => r := AdjacentWest(a, b, tw, th);
  }

  // ---------------------------------------------------------------------------
  // Neighbour sets

  predicate AllShaped(tiles: seq<Tile>, tw: nat, th: nat) {
    forall i | 0 <= i < |tiles| :: Shaped(tiles[i], tw, th)
  }

  /** The indices below `m` of the tiles that may sit in direction `d` of tile `ia`. */
  function CompatibleBelow(tiles: seq<Tile>, tw: nat, th: nat, ia: nat, d: Direction, m: nat): set<nat>
    requires AllShaped(tiles, tw, th) && ia < |tiles| && m <= |tiles|
  {
    set ib: nat | ib < m && Compatible(tiles[ia].pixels, tiles[ib].pixels, d, tw, th)
  }

  /** What `generate_neighbors` stores for tile `ia` and direction `d`: every compatible tile index. */
  function CompatibleWith(tiles: seq<Tile>, tw: nat, th: nat, ia: nat, d: Direction): set<nat>
    requires AllShaped(tiles, tw, th) && ia < |tiles|
  {
    CompatibleBelow(tiles, tw, th, ia, d, |tiles|)
  }

  /** The neighbour sets are exactly the compatibility relation. */
  ghost predicate NeighborsGenerated(tiles: seq<Tile>, tw: nat, th: nat)
    requires AllShaped(tiles, tw, th)
  {
    forall ia, k | 0 <= ia < |tiles| && 0 <= k < 4 :: tiles[ia].neighbors[k] == CompatibleWith(tiles, tw, th, ia, Values[k])
  }

  /**
   * After `generate_neighbors` the relation is symmetric: `ib` is a `d`-neighbour
   * of `ia` exactly when `ia` is an opposite-neighbour of `ib`; in particular
   * `ib` is in `ia`'s north set exactly when `ia` is in `ib`'s south set.
   */
  lemma NeighborSymmetry(tiles: seq<Tile>, tw: nat, th: nat, ia: nat, ib: nat, d: Direction)
    requires AllShaped(tiles, tw, th) && NeighborsGenerated(tiles, tw, th)
    requires ia < |tiles| && ib < |tiles|
    ensures ib in tiles[ia].neighbors[d.Index()] <==> ia in tiles[ib].neighbors[Opposite(d).Index()]
  {
    IndexValues(d);
    IndexValues(Opposite(d));
    CompatibleDual(tiles[ia].pixels, tiles[ib].pixels, d, tw, th);
  }

  /** Every stored neighbour is a valid tile index. */
  lemma NeighborsInRange(tiles: seq<Tile>, tw: nat, th: nat, ia: nat, k: nat, ib: nat)
    requires AllShaped(tiles, tw, th) && NeighborsGenerated(tiles, tw, th)
    requires ia < |tiles| && k < 4 && ib in tiles[ia].neighbors[k]
    ensures ib < |tiles|
  {
    assert ib in CompatibleWith(tiles, tw, th, ia, Values[k]);
  }

  /**
   * Tiles that are equal under `PartialEq` cannot be told apart by the
   * adjacency relation: they have the same neighbour sets and appear in the
   * same neighbour sets. This is why the duplicates that extraction keeps only
   * change how often a pattern is drawn, not which patterns fit where.
   */
  lemma DuplicatesIndistinguishable(tiles: seq<Tile>, tw: nat, th: nat, i: nat, j: nat)
    requires AllShaped(tiles, tw, th) && NeighborsGenerated(tiles, tw, th)
    requires i < |tiles| && j < |tiles| && SamePattern(tiles[i], tiles[j])
    ensures tiles[i].neighbors == tiles[j].neighbors
    ensures forall ia, k | 0 <= ia < |tiles| && 0 <= k < 4 :: i in tiles[ia].neighbors[k] <==> j in tiles[ia].neighbors[k]
  {
    forall k | 0 <= k < 4
      ensures tiles[i].neighbors[k] == tiles[j].neighbors[k]
    {
      assert CompatibleWith(tiles, tw, th, i, Values[k]) == CompatibleWith(tiles, tw, th, j, Values[k]);
    }
    forall ia, k | 0 <= ia < |tiles| && 0 <= k < 4
      ensures i in tiles[ia].neighbors[k] <==> j in tiles[ia].neighbors[k]
    {
      assert tiles[ia].neighbors[k] == CompatibleWith(tiles, tw, th, ia, Values[k]);
    }
  }

  /** The tile set: one tile per offset of the source image, with their neighbour sets. */
  class TileSet {
    const tileWidth: nat
    const tileHeight: nat
    var tiles: seq<Tile>

    ghost predicate Valid()
      reads this
    {
      && tileWidth >= 1 && tileHeight >= 1
      && AllShaped(tiles, tileWidth, tileHeight)
      && NeighborsGenerated(tiles, tileWidth, tileHeight)
    }

    /**
     * `TileSet::new` (wfc.rs:35-80). The source panics unless the image is
     * strictly wider and taller than a tile (the `usize` subtraction or the
     * assertion at wfc.rs:46-47), and `generate_neighbors` underflows
     * `TILE_HEIGHT - 1` or `TILE_WIDTH - 1` when a tile dimension is zero.
     */
    constructor (image: Image, tileWidth: nat, tileHeight: nat)
      requires WellFormed(image)
      requires 1 <= tileWidth < image.width && 1 <= tileHeight < image.height
      ensures Valid()
      ensures this.tileWidth == tileWidth && this.tileHeight == tileHeight
      ensures |tiles| == image.width * image.height
      ensures forall i | 0 <= i < |tiles| ::
                tiles[i].pixels == Extracted(PackImage(image), image.width, image.height, tileWidth, tileHeight)[i].pixels
                && tiles[i].frequency == 1
    {
      this.tileWidth := tileWidth;
      this.tileHeight := tileHeight;
      var width, height := image.width, image.height;
      var packed := PackImage(image);
      var extracted := ExtractTiles(packed, width, height, tileWidth, tileHeight);
      tiles := extracted;
      new;
      GenerateNeighbors();
    }

    /**
     * `generate_neighbors` (wfc.rs:82-95): for every ordered pair `(ia, ib)` and
     * every direction, insert `ib` into the neighbour set of `ia` when the
     * pixel bands agree. Only neighbour sets change.
     */
    method GenerateNeighbors()
      requires tileWidth >= 1 && tileHeight >= 1
      requires AllShaped(tiles, tileWidth, tileHeight)
      modifies this
      ensures AllShaped(tiles, tileWidth, tileHeight)
      ensures |tiles| == |old(tiles)|
      ensures forall i | 0 <= i < |tiles| ::
                tiles[i].pixels == old(tiles[i].pixels) && tiles[i].frequency == old(tiles[i].frequency)
      ensures forall ia, k | 0 <= ia < |tiles| && 0 <= k < 4 ::
                tiles[ia].neighbors[k] == old(tiles[ia].neighbors[k]) + CompatibleWith(old(tiles), tileWidth, tileHeight, ia, Values[k])
    {
      ghost var orig := tiles;
      var n := |tiles|;
      for ia := 0 to n
        invariant |tiles| == n && AllShaped(tiles, tileWidth, tileHeight)
        invariant forall i | 0 <= i < n :: tiles[i].pixels == orig[i].pixels && tiles[i].frequency == orig[i].frequency
        invariant forall i, k | 0 <= i < ia && 0 <= k < 4 ::
                    tiles[i].neighbors[k] == orig[i].neighbors[k] + CompatibleWith(orig, tileWidth, tileHeight, i, Values[k])
        invariant forall i | ia <= i < n :: tiles[i] == orig[i]
      {
        // `tile_a` is the mutable borrow `&mut self.tiles[ia]`: only this tile changes while `ib`
        // runs, and the pixels read for `tile_b` are never written, so the borrow is held here
        // for the whole inner loop and written back after it.
        var tileA := tiles[ia];
        ghost var current := tiles;
        for ib := 0 to n
          invariant tiles == current
          invariant TileProgress(orig, tileWidth, tileHeight, ia, tileA, ib)
        {
          var tileB := NewTile(tiles[ib].pixels, tileWidth, tileHeight);
          for k := 0 to 4
            invariant tiles == current
            invariant PairProgress(orig, tileWidth, tileHeight, ia, tileA, ib, k)
          {
            var direction := Values[k];
            ValuesIndex(k);
            var adjacent := CmpAdjacent(tileA.pixels, tileB.pixels, direction, tileWidth, tileHeight);
            PairStep(orig, tileWidth, tileHeight, ia, tileA, ib, k, adjacent);
            if adjacent {
              var nb := tileA.neighbors;
              tileA := tileA.(neighbors := nb[direction.Index() := nb[direction.Index()] + {ib}]);
            }
          }
          PairDone(orig, tileWidth, tileHeight, ia, tileA, ib);
        }
        tiles := tiles[ia := tileA];
      }
    }

    /** `len`: the number of tiles; every neighbour index stored is below it (wfc.rs:97-99). */
    function Len(): (n: nat)
      requires Valid()
      reads this
      ensures forall ia, k, ib | 0 <= ia < |tiles| && 0 <= k < 4 && ib in tiles[ia].neighbors[k] :: ib < n
    {
      forall ia, k, ib | 0 <= ia < |tiles| && 0 <= k < 4 && ib in tiles[ia].neighbors[k]
        ensures ib < |tiles|
      {
        NeighborsInRange(tiles, tileWidth, tileHeight, ia, k, ib);
      }
      |tiles|
    }
  }

  /**
   * The borrowed tile `a` in `generate_neighbors` once the pairs `(ia, ib)`
   * with `ib < m` are done: each neighbour set has gained exactly the
   * compatible tiles below `m`.
   */
  ghost predicate TileProgress(orig: seq<Tile>, tw: nat, th: nat, ia: nat, a: Tile, m: nat)
    requires AllShaped(orig, tw, th) && ia < |orig|
  {
    && m <= |orig|
    && a.pixels == orig[ia].pixels && a.frequency == orig[ia].frequency && |a.neighbors| == 4
    && forall j | 0 <= j < 4 ::
         a.neighbors[j] == orig[ia].neighbors[j] + CompatibleBelow(orig, tw, th, ia, Values[j], m)
  }

  /** As `TileProgress` for `ib`, with the first `k` directions of pair `(ia, ib)` also done. */
  ghost predicate PairProgress(orig: seq<Tile>, tw: nat, th: nat, ia: nat, a: Tile, ib: nat, k: nat)
    requires AllShaped(orig, tw, th) && ia < |orig|
  {
    && ib < |orig| && k <= 4
    && a.pixels == orig[ia].pixels && a.frequency == orig[ia].frequency && |a.neighbors| == 4
    && forall j | 0 <= j < 4 ::
         a.neighbors[j] == orig[ia].neighbors[j] + CompatibleBelow(orig, tw, th, ia, Values[j], if j < k then ib + 1 else ib)
  }

  /** One direction of pair `(ia, ib)`: `ib` joins neighbour set `k` exactly when compatible. */
  lemma PairStep(orig: seq<Tile>, tw: nat, th: nat, ia: nat, a: Tile, ib: nat, k: nat, adjacent: bool)
    requires AllShaped(orig, tw, th) && ia < |orig| && k < 4
    requires PairProgress(orig, tw, th, ia, a, ib, k)
    requires adjacent == Compatible(orig[ia].pixels, orig[ib].pixels, Values[k], tw, th)
    ensures PairProgress(orig, tw, th, ia, if adjacent then a.(neighbors := a.neighbors[k := a.neighbors[k] + {ib}]) else a, ib, k + 1)
  {
    CompatibleBelowStep(orig, tw, th, ia, Values[k], ib);
  }

  /** Finishing all four directions of pair `(ia, ib)` completes `ib`. */
  lemma PairDone(orig: seq<Tile>, tw: nat, th: nat, ia: nat, a: Tile, ib: nat)
    requires AllShaped(orig, tw, th) && ia < |orig|
    requires PairProgress(orig, tw, th, ia, a, ib, 4)
    ensures TileProgress(orig, tw, th, ia, a, ib + 1)
  {
  }

  lemma CompatibleBelowStep(tiles: seq<Tile>, tw: nat, th: nat, ia: nat, d: Direction, m: nat)
    requires AllShaped(tiles, tw, th) && ia < |tiles| && m < |tiles|
    ensures CompatibleBelow(tiles, tw, th, ia, d, m + 1)
            == CompatibleBelow(tiles, tw, th, ia, d, m)
               + (if Compatible(tiles[ia].pixels, tiles[m].pixels, d, tw, th) then {m} else {})
  {
  }
}
