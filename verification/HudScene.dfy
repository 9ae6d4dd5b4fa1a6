/** The picture the HUD is meant to show: widgets painted in index order over
    black, and the 16 by 16 tile grid laid over the screen. */
module HudScene {
  import opened Bits
  import opened Sequences

  type Color = nat
  const BLACK: Color := 0

  /** The fixed part of a widget: its rectangle and visibility selector. */
  datatype Widget = Widget(x: int, y: int, w: nat, h: nat, visGroup: nat, visMask: nat)

  /** Per-widget data private to the painter. */
  datatype LData = LData(lastVersion: nat, dirtyMask: nat, ty1: nat, ty2: nat, visible: bool)

  /** How widget `i` at a given version changes the colour of one pixel. */
  type Painter = (nat, nat, int, int, Color) -> Color

  predicate IsVisible(w: Widget, visibility: nat) {
    w.visGroup == And(visibility, w.visMask)
  }

  predicate InRect(x: int, y: int, w: int, h: int, px: int, py: int) {
    x <= px < x + w && y <= py < y + h
  }

  predicate Inside(w: Widget, px: int, py: int) {
    InRect(w.x, w.y, w.w, w.h, px, py)
  }

  /** C division: truncates toward zero. */
  function CDiv(a: int, b: int): int
    requires b > 0
  {
    if a >= 0 then a / b else -((-a) / b)
  }

  /** Tile row or column of a coordinate, clamped to the grid. */
  function TilePos(val: int, size: nat): (t: nat)
    requires size > 0
    ensures t <= 15
  {
    var t := CDiv(val, size);
    if t < 0 then 0 else if t > 15 then 15 else t
  }

  /** `version - 1` in 32 bits. */
  function PreviousVersion(version: nat): nat {
    (version + 0xFFFF_FFFF) % 0x1_0000_0000
  }

  predicate Covers(w: Widget, sx: nat, sy: nat, tx: int, ty: int)
    requires sx > 0 && sy > 0
  {
    && TilePos(w.x, sx) <= tx <= TilePos(w.x + w.w, sx)
    && TilePos(w.y, sy) <= ty <= TilePos(w.y + w.h, sy)
  }

  /** The tile ranges recorded for a widget. */
  predicate GeometryOk(w: Widget, ld: LData, sx: nat, sy: nat)
    requires sx > 0 && sy > 0
  {
    && ld.dirtyMask == 2 * Pow2(TilePos(w.x + w.w, sx)) - Pow2(TilePos(w.x, sx))
    && ld.ty1 == TilePos(w.y, sy)
    && ld.ty2 == TilePos(w.y + w.h, sy)
  }

  /** Private data of a freshly loaded widget: its visible flag is left alone. */
  function LoadedData(w: Widget, ld: LData, version: nat, sx: nat, sy: nat): (r: LData)
    requires sx > 0 && sy > 0
    ensures GeometryOk(w, r, sx, sy)
  {
    var tx1, tx2 := TilePos(w.x, sx), TilePos(w.x + w.w, sx);
    TilePosMonotone(w.x, w.w, sx);
    Pow2Monotone(tx1, tx2);
    LData(PreviousVersion(version), 2 * Pow2(tx2) - Pow2(tx1), TilePos(w.y, sy), TilePos(w.y + w.h, sy), ld.visible)
  }

  function LoadedPrefix(ws: seq<Widget>, data: seq<LData>, versions: seq<nat>, n: nat, sx: nat, sy: nat): (r: seq<LData>)
    requires n <= |ws| == |versions| <= |data| && sx > 0 && sy > 0
    ensures |r| == |data|
    ensures forall k :: 0 <= k < |data| ==> r[k] == if k < n then LoadedData(ws[k], data[k], versions[k], sx, sy) else data[k]
  {
    seq(|data|, k requires 0 <= k < |data| => if k < n then LoadedData(ws[k], data[k], versions[k], sx, sy) else data[k])
  }

  /** A widget needs repainting: visible at a new version, or its visibility flipped. */
  predicate Triggered(w: Widget, ld: LData, current: nat, visibility: nat, version: nat) {
    || (IsVisible(w, visibility) && version != ld.lastVersion)
    || IsVisible(w, current) != IsVisible(w, visibility)
  }

  function Refreshed(w: Widget, ld: LData, current: nat, visibility: nat, version: nat): LData {
    if Triggered(w, ld, current, visibility, version)
    then ld.(visible := IsVisible(w, visibility), lastVersion := version) else ld
  }

  function RefreshedPrefix(ws: seq<Widget>, data: seq<LData>, current: nat, visibility: nat, versions: seq<nat>, n: nat): (r: seq<LData>)
    requires n <= |ws| == |versions| <= |data|
    ensures |r| == |data|
    ensures forall k :: 0 <= k < |data| ==>
              r[k] == if k < n then Refreshed(ws[k], data[k], current, visibility, versions[k]) else data[k]
  {
    seq(|data|, k requires 0 <= k < |data| =>
      if k < n then Refreshed(ws[k], data[k], current, visibility, versions[k]) else data[k])
  }

  /** One of the first `n` widgets needs repainting and touches tile (tx, ty). */
  predicate Touched(ws: seq<Widget>, data: seq<LData>, current: nat, visibility: nat, versions: seq<nat>, n: nat, sx: nat, sy: nat, tx: nat, ty: nat)
    requires n <= |ws| == |versions| <= |data| && sx > 0 && sy > 0
  {
    n > 0 &&
    (Touched(ws, data, current, visibility, versions, n - 1, sx, sy, tx, ty)
     || (Triggered(ws[n - 1], data[n - 1], current, visibility, versions[n - 1]) && Covers(ws[n - 1], sx, sy, tx, ty)))
  }

  lemma {:induction false} TouchedBy(ws: seq<Widget>, data: seq<LData>, current: nat, visibility: nat, versions: seq<nat>, n: nat, sx: nat, sy: nat, tx: nat, ty: nat, i: nat)
    requires n <= |ws| == |versions| <= |data| && sx > 0 && sy > 0 && i < n
    requires Triggered(ws[i], data[i], current, visibility, versions[i]) && Covers(ws[i], sx, sy, tx, ty)
    ensures Touched(ws, data, current, visibility, versions, n, sx, sy, tx, ty)
  {
    if i < n - 1 {
      TouchedBy(ws, data, current, visibility, versions, n - 1, sx, sy, tx, ty, i);
    }
  }

  /** The widgets among the first `n` that touch tile (tx, ty), in index order. */
  function CoverList(ws: seq<Widget>, n: nat, sx: nat, sy: nat, tx: int, ty: int): (r: seq<nat>)
    requires n <= |ws| && sx > 0 && sy > 0
    ensures forall i: nat :: i in r <==> i < n && Covers(ws[i], sx, sy, tx, ty)
  {
    if n == 0 then []
    else
      CoverList(ws, n - 1, sx, sy, tx, ty) + (if Covers(ws[n - 1], sx, sy, tx, ty) then [n - 1] else [])
  }

  function First32(s: seq<nat>): seq<nat> {
    if |s| <= 32 then s else s[..32]
  }

  /** The list of tile number t = 16 * ty + tx once the first `n` widgets are loaded. */
  function TileCover(ws: seq<Widget>, n: nat, sx: nat, sy: nat, t: nat): seq<nat>
    requires n <= |ws| && sx > 0 && sy > 0
  {
    First32(CoverList(ws, n, sx, sy, t % 16, t / 16))
  }

  lemma TileCoverStep(ws: seq<Widget>, i: nat, sx: nat, sy: nat, t: nat)
    requires i < |ws| && sx > 0 && sy > 0
    ensures TileCover(ws, i + 1, sx, sy, t) ==
            if Covers(ws[i], sx, sy, t % 16, t / 16)
            then First32(TileCover(ws, i, sx, sy, t) + [i])
            else TileCover(ws, i, sx, sy, t)
  {
  }

  /** Tiles below `t0` list widget `i` where it touches them; the others do not know it yet. */
  predicate ListedBelow(lists: seq<seq<nat>>, ws: seq<Widget>, i: nat, sx: nat, sy: nat, t0: nat)
    requires i < |ws| && sx > 0 && sy > 0
  {
    forall t :: 0 <= t < |lists| ==> lists[t] == TileCover(ws, if t < t0 then i + 1 else i, sx, sy, t)
  }

  /** No more widgets touch the tile than its list has room for. */
  predicate FitsTile(ws: seq<Widget>, sx: nat, sy: nat, t: nat)
    requires sx > 0 && sy > 0
  {
    |CoverList(ws, |ws|, sx, sy, t % 16, t / 16)| <= 32
  }

  /** Every tile list holds the first `n` widgets that touch the tile. */
  predicate AllListed(lists: seq<seq<nat>>, ws: seq<Widget>, n: nat, sx: nat, sy: nat)
    requires n <= |ws| && sx > 0 && sy > 0
  {
    forall t :: 0 <= t < |lists| ==> lists[t] == TileCover(ws, n, sx, sy, t)
  }

  lemma NothingListed(lists: seq<seq<nat>>, ws: seq<Widget>, sx: nat, sy: nat)
    requires sx > 0 && sy > 0 && forall t :: 0 <= t < |lists| ==> lists[t] == []
    ensures AllListed(lists, ws, 0, sx, sy)
  {
  }

  lemma StartWidget(lists: seq<seq<nat>>, ws: seq<Widget>, i: nat, sx: nat, sy: nat)
    requires i < |ws| && sx > 0 && sy > 0
    requires AllListed(lists, ws, i, sx, sy)
    ensures ListedBelow(lists, ws, i, sx, sy, 0)
  {
  }

  lemma FinishWidget(lists: seq<seq<nat>>, ws: seq<Widget>, i: nat, sx: nat, sy: nat)
    requires i < |ws| && sx > 0 && sy > 0
    requires ListedBelow(lists, ws, i, sx, sy, |lists|)
    ensures AllListed(lists, ws, i + 1, sx, sy)
  {
  }

  lemma SkipTiles(lists: seq<seq<nat>>, ws: seq<Widget>, i: nat, sx: nat, sy: nat, a: nat, b: nat)
    requires i < |ws| && sx > 0 && sy > 0 && a <= b
    requires ListedBelow(lists, ws, i, sx, sy, a)
    requires forall t :: a <= t < b ==> !Covers(ws[i], sx, sy, t % 16, t / 16)
    ensures ListedBelow(lists, ws, i, sx, sy, b)
  {
    forall t | 0 <= t < |lists| && a <= t < b
      ensures lists[t] == TileCover(ws, i + 1, sx, sy, t)
    {
      TileCoverStep(ws, i, sx, sy, t);
    }
  }

  lemma TileCoords(tx: nat, ty: nat)
    requires tx < 16
    ensures (16 * ty + tx) % 16 == tx && (16 * ty + tx) / 16 == ty
  {
  }

  /** Columns `a` to `b` of row `ty` lie left or right of widget `i`. */
  lemma SkipColumns(lists: seq<seq<nat>>, ws: seq<Widget>, i: nat, sx: nat, sy: nat, ty: nat, a: nat, b: nat)
    requires i < |ws| && sx > 0 && sy > 0 && a <= b <= 16
    requires b <= TilePos(ws[i].x, sx) || TilePos(ws[i].x + ws[i].w, sx) < a
    requires ListedBelow(lists, ws, i, sx, sy, 16 * ty + a)
    ensures ListedBelow(lists, ws, i, sx, sy, 16 * ty + b)
  {
    forall t | 16 * ty + a <= t < 16 * ty + b
      ensures !Covers(ws[i], sx, sy, t % 16, t / 16)
    {
      TileCoords(t - 16 * ty, ty);
    }
    SkipTiles(lists, ws, i, sx, sy, 16 * ty + a, 16 * ty + b);
  }

  /** Rows `a` to `b` lie above or below widget `i`. */
  lemma SkipRows(lists: seq<seq<nat>>, ws: seq<Widget>, i: nat, sx: nat, sy: nat, a: nat, b: nat)
    requires i < |ws| && sx > 0 && sy > 0 && a <= b <= 16
    requires b <= TilePos(ws[i].y, sy) || TilePos(ws[i].y + ws[i].h, sy) < a
    requires ListedBelow(lists, ws, i, sx, sy, 16 * a)
    ensures ListedBelow(lists, ws, i, sx, sy, 16 * b)
  {
    SkipTiles(lists, ws, i, sx, sy, 16 * a, 16 * b);
  }

  lemma AddTile(lists: seq<seq<nat>>, ws: seq<Widget>, i: nat, sx: nat, sy: nat, tx: nat, ty: nat)
    requires i < |ws| && sx > 0 && sy > 0 && tx < 16 && 16 * ty + tx < |lists|
    requires ListedBelow(lists, ws, i, sx, sy, 16 * ty + tx)
    requires Covers(ws[i], sx, sy, tx, ty)
    ensures ListedBelow(lists[16 * ty + tx := First32(lists[16 * ty + tx] + [i])], ws, i, sx, sy, 16 * ty + tx + 1)
  {
    TileCoords(tx, ty);
    AddAt(lists, ws, i, sx, sy, 16 * ty + tx);
  }

  lemma AddAt(lists: seq<seq<nat>>, ws: seq<Widget>, i: nat, sx: nat, sy: nat, t: nat)
    requires i < |ws| && sx > 0 && sy > 0 && t < |lists|
    requires ListedBelow(lists, ws, i, sx, sy, t) && Covers(ws[i], sx, sy, t % 16, t / 16)
    ensures ListedBelow(lists[t := First32(lists[t] + [i])], ws, i, sx, sy, t + 1)
  {
    TileCoverStep(ws, i, sx, sy, t);
  }

  /** Painter's algorithm over the first `n` widgets, as recorded in `ld`. */
  function Composite(ws: seq<Widget>, ld: seq<LData>, paint: Painter, n: nat, px: int, py: int): Color
    requires n <= |ws| == |ld|
  {
    if n == 0 then BLACK
    else
      var below := Composite(ws, ld, paint, n - 1, px, py);
      if ld[n - 1].visible && Inside(ws[n - 1], px, py)
      then paint(n - 1, ld[n - 1].lastVersion, px, py, below) else below
  }

  /** The full redraw: every widget selected by `visibility` at its current version. */
  function FullRedraw(ws: seq<Widget>, versions: seq<nat>, visibility: nat, paint: Painter, n: nat, px: int, py: int): Color
    requires n <= |ws| == |versions|
  {
    if n == 0 then BLACK
    else
      var below := FullRedraw(ws, versions, visibility, paint, n - 1, px, py);
      if IsVisible(ws[n - 1], visibility) && Inside(ws[n - 1], px, py)
      then paint(n - 1, versions[n - 1], px, py, below) else below
  }

  /** Painting only the widgets of `list`, in list order. */
  function PaintList(ws: seq<Widget>, versions: seq<nat>, paint: Painter, list: seq<nat>, n: nat, px: int, py: int): Color
    requires n <= |list| && |ws| == |versions|
    requires forall k :: 0 <= k < |list| ==> list[k] < |ws|
  {
    if n == 0 then BLACK
    else
      var below := PaintList(ws, versions, paint, list, n - 1, px, py);
      if Inside(ws[list[n - 1]], px, py)
      then paint(list[n - 1], versions[list[n - 1]], px, py, below) else below
  }

  // ---- tile geometry ----------------------------------------------------

  lemma DivRange(p: nat, size: nat, a: nat)
    requires size > 0
    ensures a * size <= p <==> a <= p / size
  {
    var q := p / size;
    assert p == size * q + p % size;
    if a <= q { MulMonotone(size, a, q); } else { MulMonotone(size, q, a); }
    assert a * size == size * a;
  }

  lemma DivMonotone(a: nat, b: nat, size: nat)
    requires size > 0 && a <= b
    ensures a / size <= b / size
  {
    DivRange(b, size, a / size);
    assert a == size * (a / size) + a % size;
  }

  lemma ClampDiv(a: int, p: nat, size: nat)
    requires size > 0 && p / size <= 15
    ensures a <= p ==> TilePos(a, size) <= p / size
    ensures p <= a ==> p / size <= TilePos(a, size)
  {
    if 0 <= a <= p { DivMonotone(a, p, size); }
    if p <= a { DivMonotone(p, a, size); }
  }

  lemma SpanCovers(start: int, length: nat, size: nat, p: nat)
    requires size > 0 && start <= p < start + length && p / size <= 15
    ensures TilePos(start, size) <= p / size <= TilePos(start + length, size)
  {
    ClampDiv(start, p, size);
    ClampDiv(start + length, p, size);
  }

  lemma TilePosMonotone(start: int, length: nat, size: nat)
    requires size > 0
    ensures TilePos(start, size) <= TilePos(start + length, size)
  {
    if start >= 0 { DivMonotone(start, start + length, size); }
  }

  lemma AllDirty(tx: nat)
    requires tx < 16
    ensures Bit(0xFFFF, tx) && Pow2(16) == 0x1_0000
  {
    assert Pow2(0) == 1;
    assert Pow2(15) == 0x8000 && Pow2(16) == 0x1_0000;
    RangeMaskBit(0, 15, tx);
  }

  /** A widget touches the tile of every pixel inside its rectangle. */
  lemma InsideCovers(w: Widget, sx: nat, sy: nat, px: nat, py: nat)
    requires sx > 0 && sy > 0
    requires Inside(w, px, py) && px / sx <= 15 && py / sy <= 15
    ensures Covers(w, sx, sy, px / sx, py / sy)
  {
    SpanCovers(w.x, w.w, sx, px);
    SpanCovers(w.y, w.h, sy, py);
  }

  // ---- paint lists --------------------------------------------------------

  predicate Below(s: seq<nat>, n: nat) {
    forall k :: 0 <= k < |s| ==> s[k] < n
  }

  lemma {:induction false} SortedBound(s: seq<nat>, n: nat)
    requires StrictlySorted(s) && Below(s, n)
    ensures |s| <= n
  {
    if |s| > 0 {
      var last := |s| - 1;
      SortedBound(s[..last], s[last]);
    }
  }

  /** Inserting before the first larger element keeps the list strictly sorted. */
  lemma InsertSorted(s: seq<nat>, j: nat, w: nat, n: nat)
    requires StrictlySorted(s) && j <= |s| && Below(s, n) && w < n
    requires forall i :: 0 <= i < j ==> s[i] < w
    requires j < |s| ==> w < s[j]
    ensures StrictlySorted(InsertedAt(s, j, w)) && Below(InsertedAt(s, j, w), n)
    ensures |s| < n
  {
    var r := InsertedAt(s, j, w);
    assert forall i :: 0 <= i < |r| ==> r[i] == if i < j then s[i] else if i == j then w else s[i - 1];
    SortedBound(r, n);
  }

  lemma InsertMembers(s: seq<nat>, j: nat, w: nat)
    requires j <= |s|
    ensures forall v: nat :: v in InsertedAt(s, j, w) <==> v in s || v == w
  {
    assert s == s[..j] + s[j..];
  }

  /** A strictly sorted list of painted widgets that misses no visible widget
      over the pixel gives the pixel the colour of the whole composition. */
  lemma {:induction false} PaintListIsComposite(
      ws: seq<Widget>, ld: seq<LData>, versions: seq<nat>, paint: Painter, list: seq<nat>, m: nat, n: nat, px: int, py: int)
    requires n <= |ws| == |ld| == |versions| && m <= |list|
    requires StrictlySorted(list) && forall k :: 0 <= k < |list| ==> list[k] < |ws|
    requires forall k :: 0 <= k < m ==> list[k] < n
    requires forall k :: m <= k < |list| ==> n <= list[k]
    requires forall k :: 0 <= k < |list| ==> ld[list[k]].visible && ld[list[k]].lastVersion == versions[list[k]]
    requires forall i: nat :: i < n && ld[i].visible && Inside(ws[i], px, py) ==> i in list
    ensures PaintList(ws, versions, paint, list, m, px, py) == Composite(ws, ld, paint, n, px, py)
    decreases n, m
  {
    if n > 0 {
      if m > 0 && list[m - 1] == n - 1 {
        PaintListIsComposite(ws, ld, versions, paint, list, m - 1, n - 1, px, py);
      } else {
        assert forall k :: 0 <= k < m ==> list[k] <= list[m - 1];
        assert forall k :: 0 <= k < |list| ==> list[k] != n - 1;
        assert n - 1 !in list;
        PaintListIsComposite(ws, ld, versions, paint, list, m, n - 1, px, py);
      }
    }
  }

  /** If no visible widget over the pixel changed, neither did its colour. */
  lemma {:induction false} CompositeUnchanged(
      ws: seq<Widget>, a: seq<LData>, b: seq<LData>, paint: Painter, n: nat, px: int, py: int)
    requires n <= |ws| == |a| == |b|
    requires forall i :: 0 <= i < n && Inside(ws[i], px, py) ==>
               a[i].visible == b[i].visible && (a[i].visible ==> a[i].lastVersion == b[i].lastVersion)
    ensures Composite(ws, a, paint, n, px, py) == Composite(ws, b, paint, n, px, py)
  {
    if n > 0 {
      CompositeUnchanged(ws, a, b, paint, n - 1, px, py);
    }
  }

  // ---- gathering a run -----------------------------------------------------

  /** `list` holds every visible widget of `tile`. */
  predicate Gathered(list: seq<nat>, tile: seq<nat>, ld: seq<LData>)
  {
    forall k :: 0 <= k < |tile| && tile[k] < |ld| && ld[tile[k]].visible ==> tile[k] in list
  }

  /** A paint list: strictly sorted, visible widgets only. */
  predicate PaintListOk(list: seq<nat>, n: nat, ld: seq<LData>)
  {
    StrictlySorted(list) && Below(list, n) && (forall k :: 0 <= k < |list| && list[k] < |ld| ==> ld[list[k]].visible)
  }

  /** `list` holds every visible widget of the tiles `a` to `b` (numbered row by row). */
  predicate RunGathered(list: seq<nat>, lists: seq<seq<nat>>, a: nat, b: nat, ld: seq<LData>)
    requires b <= |lists|
  {
    forall t :: a <= t < b ==> Gathered(list, lists[t], ld)
  }

  /** Gathering one more tile extends the run by that tile. */
  lemma ExtendRun(list: seq<nat>, more: seq<nat>, lists: seq<seq<nat>>, a: nat, b: nat, ld: seq<LData>)
    requires a <= b < |lists| && RunGathered(list, lists, a, b, ld)
    requires forall v: nat :: v in list ==> v in more
    requires Gathered(more, lists[b], ld)
    ensures RunGathered(more, lists, a, b + 1, ld)
  {
    forall t | a <= t < b ensures Gathered(more, lists[t], ld) {
      assert Gathered(list, lists[t], ld);
    }
  }

  /** The scan over a row's tiles: before tile `ctx`, `s` starts the open run of
      dirty tiles if tile `ctx` is dirty, and is `ctx` otherwise. */
  predicate Scan(bits: nat, mask: nat, ctx: nat, s: nat) {
    && bits <= 0xFFFF && mask == Shr(bits, ctx) && s <= ctx <= 16
    && (mask % 2 == 0 ==> s == ctx)
    && DirtySpan(bits, s, ctx)
  }

  predicate DirtySpan(bits: nat, a: nat, b: nat) {
    forall k :: a <= k < b ==> Bit(bits, k)
  }

  /** `cx` is the left edge of tile `ctx`, and `x1` that of the open run. */
  predicate Edges(dirty: bool, ctx: nat, s: nat, cx: nat, x1: nat, size: nat) {
    cx == ctx * size && (dirty ==> x1 == s * size)
  }

  lemma ScanStart(bits: nat)
    requires bits <= 0xFFFF
    ensures Scan(bits, bits, 0, 0)
  {
  }

  lemma ScanBits(bits: nat, ctx: nat)
    requires bits <= 0xFFFF && ctx < 16
    ensures Shr(bits, ctx) / 2 == Shr(bits, ctx + 1)
    ensures (Shr(bits, ctx) % 2 == 1) == Bit(bits, ctx)
    ensures ctx == 15 ==> Shr(bits, ctx + 1) == 0
  {
    ShrStep(bits, ctx);
    AllDirty(0);
    ShrZero(bits, 16, 16);
  }

  /** One scan step: only a dirty tile before a dirty one keeps the run open. */
  lemma ScanStep(bits: nat, mask: nat, ctx: nat, s: nat)
    requires Scan(bits, mask, ctx, s) && ctx < 16
    ensures Scan(bits, mask / 2, ctx + 1, if mask % 4 == 3 then s else ctx + 1)
    ensures mask / 2 != 0 ==> ctx + 1 < 16
    ensures (mask % 2 == 1) == Bit(bits, ctx)
    ensures mask % 2 == 1 ==> DirtySpan(bits, s, ctx + 1)
  {
    ScanBits(bits, ctx);
    TwoBits(mask);
    if mask % 2 == 1 { GrowSpan(bits, s, ctx); }
  }

  /** `mask & 3` seen as this tile's bit and the next tile's bit. */
  lemma TwoBits(mask: nat)
    ensures mask % 4 == mask % 2 + 2 * (mask / 2 % 2)
  {
    ModHalves(mask, 2);
  }

  /** Everything the row loops need from one scan step over tile `ctx`. */
  lemma RowStep(bits: nat, mask: nat, ctx: nat, s: nat, cx: nat, x1: nat, size: nat)
    requires RowScan(bits, mask, ctx, s, cx, x1, size) && ctx < 16
    ensures var z := mask % 4;
            && RowScan(bits, mask / 2, ctx + 1, if z == 3 then s else ctx + 1, cx + size, if z == 2 then cx + size else x1, size)
            && (z == 1 ==> x1 == s * size && cx + size == (ctx + 1) * size)
    ensures s <= ctx && (mask % 2 == 0 ==> s == ctx && !Bit(bits, ctx)) && (mask % 2 == 1 ==> DirtySpan(bits, s, ctx + 1))
  {
    ScanStep(bits, mask, ctx, s);
    EdgeStep(mask, ctx, s, cx, x1, size);
  }

  predicate RowScan(bits: nat, mask: nat, ctx: nat, s: nat, cx: nat, x1: nat, size: nat) {
    Scan(bits, mask, ctx, s) && Edges(mask % 2 == 1, ctx, s, cx, x1, size) && (mask != 0 ==> ctx < 16)
  }

  lemma GrowSpan(bits: nat, a: nat, b: nat)
    requires DirtySpan(bits, a, b) && Bit(bits, b)
    ensures DirtySpan(bits, a, b + 1)
  {
  }

  lemma EdgeStep(mask: nat, ctx: nat, s: nat, cx: nat, x1: nat, size: nat)
    requires Edges(mask % 2 == 1, ctx, s, cx, x1, size)
    ensures cx + size == (ctx + 1) * size
    ensures var z := mask % 4;
            Edges(mask / 2 % 2 == 1, ctx + 1, if z == 3 then s else ctx + 1, cx + size, if z == 2 then cx + size else x1, size)
  {
    TwoBits(mask);
    assert (ctx + 1) * size == ctx * size + size;
  }

  lemma ScanEnd(bits: nat, ctx: nat, s: nat)
    requires Scan(bits, 0, ctx, s)
    ensures forall k: nat :: s <= k ==> !Bit(bits, k)
  {
    forall k: nat | s <= k ensures !Bit(bits, k) {
      NoBitsAbove(bits, ctx, k);
    }
  }

  lemma TileBelow(ws: seq<Widget>, sx: nat, sy: nat, t: nat)
    requires sx > 0 && sy > 0
    ensures Below(TileCover(ws, |ws|, sx, sy, t), |ws|)
  {
    var c := CoverList(ws, |ws|, sx, sy, t % 16, t / 16);
    assert forall k :: 0 <= k < |c| ==> c[k] in c;
  }

  /** A tile list that was not cut short names every widget touching the tile. */
  lemma TileNames(ws: seq<Widget>, sx: nat, sy: nat, tx: nat, ty: nat, i: nat)
    requires sx > 0 && sy > 0 && tx < 16 && i < |ws|
    requires FitsTile(ws, sx, sy, 16 * ty + tx) && Covers(ws[i], sx, sy, tx, ty)
    ensures i in TileCover(ws, |ws|, sx, sy, 16 * ty + tx)
  {
    TileCoords(tx, ty);
  }

  /** Over a pixel of the run, the paint list misses no visible widget. */
  lemma RunMissesNothing(
      ws: seq<Widget>, ld: seq<LData>, lists: seq<seq<nat>>, list: seq<nat>,
      sx: nat, sy: nat, a: nat, b: nat, px: nat, py: nat, i: nat)
    requires sx > 0 && sy > 0 && px / sx < 16 && py / sy < 16
    requires |ws| == |ld| && i < |ws| && a <= 16 * (py / sy) + px / sx < b <= |lists|
    requires AllListed(lists, ws, |ws|, sx, sy)
    requires FitsTile(ws, sx, sy, 16 * (py / sy) + px / sx)
    requires RunGathered(list, lists, a, b, ld)
    requires ld[i].visible && Inside(ws[i], px, py)
    ensures i in list
  {
    var t := 16 * (py / sy) + px / sx;
    InsideCovers(ws[i], sx, sy, px, py);
    TileNames(ws, sx, sy, px / sx, py / sy, i);
    assert lists[t] == TileCover(ws, |ws|, sx, sy, t);
    assert Gathered(list, lists[t], ld);
  }

  /** The painted run shows the composition at each of its pixels. */
  lemma RunShowsComposite(
      ws: seq<Widget>, ld: seq<LData>, versions: seq<nat>, paint: Painter, lists: seq<seq<nat>>, list: seq<nat>,
      sx: nat, sy: nat, a: nat, b: nat, px: nat, py: nat)
    requires sx > 0 && sy > 0 && px / sx < 16 && py / sy < 16
    requires |ws| == |versions| == |ld| && a <= 16 * (py / sy) + px / sx < b <= |lists|
    requires AllListed(lists, ws, |ws|, sx, sy)
    requires FitsTile(ws, sx, sy, 16 * (py / sy) + px / sx)
    requires PaintListOk(list, |ws|, ld) && RunGathered(list, lists, a, b, ld)
    requires forall i :: 0 <= i < |ws| && ld[i].visible ==> ld[i].lastVersion == versions[i]
    ensures PaintList(ws, versions, paint, list, |list|, px, py) == Composite(ws, ld, paint, |ws|, px, py)
  {
    forall i: nat | i < |ws| && ld[i].visible && Inside(ws[i], px, py)
      ensures i in list
    {
      RunMissesNothing(ws, ld, lists, list, sx, sy, a, b, px, py, i);
    }
    PaintListIsComposite(ws, ld, versions, paint, list, |list|, |ws|, px, py);
  }

  // ---- what a refresh leaves true ------------------------------------------

  /** A widget that stays unseen although it is selected: it was selected before,
      was never shown, and its version still equals the recorded one. */
  predicate Stale(w: Widget, ld: LData, current: nat, visibility: nat, version: nat) {
    !ld.visible && IsVisible(w, current) && IsVisible(w, visibility) && version == ld.lastVersion
  }

  /** After a refresh a widget is shown exactly when selected and not stale, and at its current version. */
  lemma RefreshedCurrent(w: Widget, ld: LData, current: nat, visibility: nat, version: nat)
    requires ld.visible ==> IsVisible(w, current)
    ensures var r := Refreshed(w, ld, current, visibility, version);
            && r.visible == (IsVisible(w, visibility) && !Stale(w, ld, current, visibility, version))
            && (r.visible ==> r.lastVersion == version)
  {
  }

  /** The whole refreshed table: tile ranges are kept and shown widgets are current. */
  lemma RefreshedTable(ws: seq<Widget>, data: seq<LData>, current: nat, visibility: nat, versions: seq<nat>, sx: nat, sy: nat)
    requires |ws| == |versions| <= |data| && sx > 0 && sy > 0
    requires forall i :: 0 <= i < |ws| ==> GeometryOk(ws[i], data[i], sx, sy) && (data[i].visible ==> IsVisible(ws[i], current))
    ensures var r := RefreshedPrefix(ws, data, current, visibility, versions, |ws|);
            forall i :: 0 <= i < |ws| ==>
              && GeometryOk(ws[i], r[i], sx, sy) && (r[i].visible ==> r[i].lastVersion == versions[i])
              && r[i].visible == (IsVisible(ws[i], visibility) && !Stale(ws[i], data[i], current, visibility, versions[i]))
  {
    var r := RefreshedPrefix(ws, data, current, visibility, versions, |ws|);
    forall i | 0 <= i < |ws|
      ensures && GeometryOk(ws[i], r[i], sx, sy) && (r[i].visible ==> r[i].lastVersion == versions[i])
              && r[i].visible == (IsVisible(ws[i], visibility) && !Stale(ws[i], data[i], current, visibility, versions[i]))
    {
      RefreshedCurrent(ws[i], data[i], current, visibility, versions[i]);
    }
  }

  lemma PrefixOfTable(ws: seq<Widget>, data: seq<LData>, current: nat, visibility: nat, versions: seq<nat>)
    requires |ws| == |versions| <= |data|
    ensures RefreshedPrefix(ws, data, current, visibility, versions, |ws|)[..|ws|]
         == RefreshedPrefix(ws, data[..|ws|], current, visibility, versions, |ws|)
  {
  }

  lemma {:induction false} TouchedWithin(ws: seq<Widget>, data: seq<LData>, current: nat, visibility: nat, versions: seq<nat>, n: nat, sx: nat, sy: nat, tx: nat, ty: nat)
    requires n <= |ws| == |versions| <= |data| && sx > 0 && sy > 0
    ensures Touched(ws, data, current, visibility, versions, n, sx, sy, tx, ty)
         == Touched(ws, data[..|ws|], current, visibility, versions, n, sx, sy, tx, ty)
  {
    if n > 0 { TouchedWithin(ws, data, current, visibility, versions, n - 1, sx, sy, tx, ty); }
  }

  lemma TouchedPrefix(ws: seq<Widget>, data: seq<LData>, current: nat, visibility: nat, versions: seq<nat>, sx: nat, sy: nat)
    requires |ws| == |versions| <= |data| && sx > 0 && sy > 0
    ensures forall tx: nat, ty: nat ::
              Touched(ws, data[..|ws|], current, visibility, versions, |ws|, sx, sy, tx, ty)
              ==> Touched(ws, data, current, visibility, versions, |ws|, sx, sy, tx, ty)
  {
    forall tx: nat, ty: nat | Touched(ws, data[..|ws|], current, visibility, versions, |ws|, sx, sy, tx, ty)
      ensures Touched(ws, data, current, visibility, versions, |ws|, sx, sy, tx, ty)
    {
      TouchedWithin(ws, data, current, visibility, versions, |ws|, sx, sy, tx, ty);
    }
  }

  // ---- when the picture is the full redraw ------------------------------------

  /** The shown widgets are selected ones at their current versions. */
  predicate ShownCurrent(ws: seq<Widget>, ld: seq<LData>, versions: seq<nat>, visibility: nat)
    requires |ws| == |ld| == |versions|
  {
    forall i :: 0 <= i < |ws| && ld[i].visible ==> IsVisible(ws[i], visibility) && ld[i].lastVersion == versions[i]
  }

  /** Every selected widget over the pixel is shown. */
  predicate NoneMissing(ws: seq<Widget>, ld: seq<LData>, visibility: nat, px: int, py: int)
    requires |ws| == |ld|
  {
    forall i :: 0 <= i < |ws| && IsVisible(ws[i], visibility) && Inside(ws[i], px, py) ==> ld[i].visible
  }

  lemma {:induction false} CompositeWhereNoneMissing(
      ws: seq<Widget>, ld: seq<LData>, versions: seq<nat>, visibility: nat, paint: Painter, n: nat, px: int, py: int)
    requires n <= |ws| == |ld| == |versions|
    requires ShownCurrent(ws, ld, versions, visibility) && NoneMissing(ws, ld, visibility, px, py)
    ensures Composite(ws, ld, paint, n, px, py) == FullRedraw(ws, versions, visibility, paint, n, px, py)
    decreases n
  {
    if n > 0 { CompositeWhereNoneMissing(ws, ld, versions, visibility, paint, n - 1, px, py); }
  }

  /** Only widget `m` leaves a mark. */
  function MarkOf(m: nat): Painter {
    (i, version, x, y, below) => if i == m then 1 else below
  }

  lemma {:induction false} MarkMissing(
      ws: seq<Widget>, ld: seq<LData>, versions: seq<nat>, visibility: nat, m: nat, n: nat, px: int, py: int)
    requires n <= |ws| == |ld| == |versions| && m < |ws|
    requires IsVisible(ws[m], visibility) && Inside(ws[m], px, py) && !ld[m].visible
    ensures Composite(ws, ld, MarkOf(m), n, px, py) == BLACK
    ensures FullRedraw(ws, versions, visibility, MarkOf(m), n, px, py) == if m < n then 1 else BLACK
    decreases n
  {
    if n > 0 { MarkMissing(ws, ld, versions, visibility, m, n - 1, px, py); }
  }

  /** Part of the widget lies on a screen of this size. */
  predicate Seen(w: Widget, width: nat, height: nat) {
    w.w > 0 && w.h > 0 && w.x < width && 0 < w.x + w.w && w.y < height && 0 < w.y + w.h
  }

  ghost predicate PictureRight(ws: seq<Widget>, ld: seq<LData>, versions: seq<nat>, visibility: nat, paint: Painter, width: nat, height: nat)
    requires |ws| == |ld| == |versions|
  {
    forall px, py :: 0 <= px < width && 0 <= py < height ==>
      Composite(ws, ld, paint, |ws|, px, py) == FullRedraw(ws, versions, visibility, paint, |ws|, px, py)
  }

  /** The picture is right however widgets are drawn. */
  ghost predicate AlwaysRight(ws: seq<Widget>, ld: seq<LData>, versions: seq<nat>, visibility: nat, width: nat, height: nat)
    requires |ws| == |ld| == |versions|
  {
    forall paint: Painter :: PictureRight(ws, ld, versions, visibility, paint, width, height)
  }

  /** However widgets are drawn, the screen shows the full redraw: exactly if no
      selected widget that is not shown lies on it. */
  lemma ScreenExactly(ws: seq<Widget>, ld: seq<LData>, versions: seq<nat>, visibility: nat, width: nat, height: nat)
    requires |ws| == |ld| == |versions| && ShownCurrent(ws, ld, versions, visibility) && width > 0 && height > 0
    ensures AlwaysRight(ws, ld, versions, visibility, width, height)
       <==> (forall i :: 0 <= i < |ws| && IsVisible(ws[i], visibility) && !ld[i].visible ==> !Seen(ws[i], width, height))
  {
    if forall i :: 0 <= i < |ws| && IsVisible(ws[i], visibility) && !ld[i].visible ==> !Seen(ws[i], width, height) {
      forall paint: Painter ensures PictureRight(ws, ld, versions, visibility, paint, width, height) {
        forall px, py | 0 <= px < width && 0 <= py < height
          ensures Composite(ws, ld, paint, |ws|, px, py) == FullRedraw(ws, versions, visibility, paint, |ws|, px, py)
        {
          CompositeWhereNoneMissing(ws, ld, versions, visibility, paint, |ws|, px, py);
        }
      }
    } else {
      var m :| 0 <= m < |ws| && IsVisible(ws[m], visibility) && !ld[m].visible && Seen(ws[m], width, height);
      var px := if ws[m].x < 0 then 0 else ws[m].x;
      var py := if ws[m].y < 0 then 0 else ws[m].y;
      MarkMissing(ws, ld, versions, visibility, m, |ws|, px, py);
      assert !PictureRight(ws, ld, versions, visibility, MarkOf(m), width, height);
    }
  }

  predicate NoStale(ws: seq<Widget>, data: seq<LData>, current: nat, visibility: nat, versions: seq<nat>)
    requires |ws| == |versions| <= |data|
  {
    forall i :: 0 <= i < |ws| ==> !Stale(ws[i], data[i], current, visibility, versions[i])
  }

  /** Every stale widget lies off the screen. */
  predicate NoStaleSeen(ws: seq<Widget>, data: seq<LData>, current: nat, visibility: nat, versions: seq<nat>, width: nat, height: nat)
    requires |ws| == |versions| <= |data|
  {
    forall i :: 0 <= i < |ws| && Stale(ws[i], data[i], current, visibility, versions[i]) ==> !Seen(ws[i], width, height)
  }

  /** The flags follow the visibility word. */
  predicate FlagsFollow(ws: seq<Widget>, ld: seq<LData>, visibility: nat)
    requires |ws| == |ld|
  {
    forall i :: 0 <= i < |ws| ==> ld[i].visible == IsVisible(ws[i], visibility)
  }

  /** What a pass makes of the widget data decides whether its picture is right. */
  lemma PassPicture(ws: seq<Widget>, data: seq<LData>, current: nat, visibility: nat, versions: seq<nat>, width: nat, height: nat)
    requires |ws| == |versions| <= |data| && width > 0 && height > 0
    requires forall i :: 0 <= i < |ws| && data[i].visible ==> IsVisible(ws[i], current)
    ensures var ld := RefreshedPrefix(ws, data, current, visibility, versions, |ws|)[..|ws|];
            && ShownCurrent(ws, ld, versions, visibility)
            && (FlagsFollow(ws, ld, visibility) <==> NoStale(ws, data, current, visibility, versions))
            && (AlwaysRight(ws, ld, versions, visibility, width, height)
                <==> NoStaleSeen(ws, data, current, visibility, versions, width, height))
  {
    var r := RefreshedPrefix(ws, data, current, visibility, versions, |ws|);
    var ld := r[..|ws|];
    forall i | 0 <= i < |ws|
      ensures ld[i].visible == (IsVisible(ws[i], visibility) && !Stale(ws[i], data[i], current, visibility, versions[i]))
      ensures ld[i].visible ==> ld[i].lastVersion == versions[i]
    {
      RefreshedCurrent(ws[i], data[i], current, visibility, versions[i]);
    }
    ScreenExactly(ws, ld, versions, visibility, width, height);
  }

  // ---- runs of passes ---------------------------------------------------------------

  /** What one pass finds in shared memory, and whether the refresh timer fired. */
  datatype Pass = Pass(versions: seq<nat>, visibility: nat, refresh: bool)

  function Last(passes: seq<Pass>): Pass
    requires passes != []
  {
    passes[|passes| - 1]
  }

  /** The pass finds the widget selected, at the version recorded when it was loaded. */
  predicate Skipped(w: Widget, i: nat, loadVersion: nat, pass: Pass) {
    IsVisible(w, pass.visibility) && i < |pass.versions| && pass.versions[i] == PreviousVersion(loadVersion)
  }

  /** Selected from the load on, and skipped by every pass. */
  predicate NeverShown(w: Widget, i: nat, loadVersion: nat, passes: seq<Pass>) {
    IsVisible(w, 0) && forall k :: 0 <= k < |passes| ==> Skipped(w, i, loadVersion, passes[k])
  }

  /** No widget on the screen was never shown. */
  predicate NoneNeverShown(ws: seq<Widget>, loadVersions: seq<nat>, passes: seq<Pass>, width: nat, height: nat)
    requires |ws| == |loadVersions|
  {
    forall i :: 0 <= i < |ws| && NeverShown(ws[i], i, loadVersions[i], passes) ==> !Seen(ws[i], width, height)
  }

  /** After a run of passes a widget is shown exactly when selected, unless it never was. */
  predicate EntryOk(w: Widget, i: nat, ld: LData, loadVersion: nat, passes: seq<Pass>, current: nat) {
    if NeverShown(w, i, loadVersion, passes)
    then !ld.visible && IsVisible(w, current) && ld.lastVersion == PreviousVersion(loadVersion)
    else ld.visible == IsVisible(w, current)
  }

  predicate DataOk(ws: seq<Widget>, data: seq<LData>, loadVersions: seq<nat>, passes: seq<Pass>, current: nat)
    requires |ws| == |loadVersions| <= |data|
  {
    forall i :: 0 <= i < |ws| ==> EntryOk(ws[i], i, data[i], loadVersions[i], passes, current)
  }

  lemma PassKeepsEntry(w: Widget, i: nat, ld: LData, loadVersion: nat, passes: seq<Pass>, current: nat, pass: Pass)
    requires EntryOk(w, i, ld, loadVersion, passes, current) && i < |pass.versions|
    ensures EntryOk(w, i, Refreshed(w, ld, current, pass.visibility, pass.versions[i]), loadVersion, passes + [pass], pass.visibility)
  {
    var more := passes + [pass];
    assert NeverShown(w, i, loadVersion, more) <==> NeverShown(w, i, loadVersion, passes) && Skipped(w, i, loadVersion, pass) by {
      assert more[|passes|] == pass;
      assert forall k :: 0 <= k < |passes| ==> more[k] == passes[k];
    }
  }

  lemma PassKeepsData(ws: seq<Widget>, data: seq<LData>, loadVersions: seq<nat>, passes: seq<Pass>, current: nat, pass: Pass)
    requires |ws| == |loadVersions| == |pass.versions| <= |data|
    requires DataOk(ws, data, loadVersions, passes, current)
    ensures DataOk(ws, RefreshedPrefix(ws, data, current, pass.visibility, pass.versions, |ws|), loadVersions, passes + [pass], pass.visibility)
  {
    forall i | 0 <= i < |ws|
      ensures EntryOk(ws[i], i, Refreshed(ws[i], data[i], current, pass.visibility, pass.versions[i]), loadVersions[i], passes + [pass], pass.visibility)
    {
      PassKeepsEntry(ws[i], i, data[i], loadVersions[i], passes, current, pass);
    }
  }

  /** The missing widgets are those that were never shown. */
  lemma ShownOrNever(ws: seq<Widget>, data: seq<LData>, loadVersions: seq<nat>, passes: seq<Pass>, current: nat)
    requires |ws| == |loadVersions| <= |data| && DataOk(ws, data, loadVersions, passes, current)
    ensures forall i :: 0 <= i < |ws| ==> (data[i].visible ==> IsVisible(ws[i], current))
    ensures forall i :: 0 <= i < |ws| ==>
              (IsVisible(ws[i], current) && !data[i].visible <==> NeverShown(ws[i], i, loadVersions[i], passes))
  {
    forall i | 0 <= i < |ws|
      ensures data[i].visible ==> IsVisible(ws[i], current)
      ensures IsVisible(ws[i], current) && !data[i].visible <==> NeverShown(ws[i], i, loadVersions[i], passes)
    {
      assert EntryOk(ws[i], i, data[i], loadVersions[i], passes, current);
    }
  }

  /** A widget that is always selected, loaded at version `v` and first drawn one
      turn of the version counter later, stays black. */
  lemma OneTurnLaterUnpainted(v: nat, ld: LData, sx: nat, sy: nat)
    requires sx > 0 && sy > 0 && !ld.visible
    ensures var w := Widget(0, 0, 1, 1, 0, 0);
            var drawn := PreviousVersion(v);
            var r := Refreshed(w, LoadedData(w, ld, v, sx, sy), 0, 0, drawn);
            && Composite([w], [r], MarkOf(0), 1, 0, 0) == BLACK
            && FullRedraw([w], [drawn], 0, MarkOf(0), 1, 0, 0) == 1
  {
    var w := Widget(0, 0, 1, 1, 0, 0);
    assert And(0, 0) == 0;
    var r := Refreshed(w, LoadedData(w, ld, v, sx, sy), 0, 0, PreviousVersion(v));
    MarkMissing([w], [r], [PreviousVersion(v)], 0, 0, 1, 0, 0);
  }

  /** A tile touched by no widget that needs repainting keeps its colours. */
  lemma UntouchedPixel(
      ws: seq<Widget>, data: seq<LData>, current: nat, visibility: nat, versions: seq<nat>, paint: Painter,
      sx: nat, sy: nat, px: nat, py: nat)
    requires |ws| == |data| == |versions| && sx > 0 && sy > 0 && px / sx < 16 && py / sy < 16
    requires !Touched(ws, data, current, visibility, versions, |ws|, sx, sy, px / sx, py / sy)
    ensures Composite(ws, data, paint, |ws|, px, py)
         == Composite(ws, RefreshedPrefix(ws, data, current, visibility, versions, |ws|), paint, |ws|, px, py)
  {
    var b := RefreshedPrefix(ws, data, current, visibility, versions, |ws|);
    forall i: nat | i < |ws| && Inside(ws[i], px, py)
      ensures data[i] == b[i]
    {
      if Triggered(ws[i], data[i], current, visibility, versions[i]) {
        InsideCovers(ws[i], sx, sy, px, py);
        TouchedBy(ws, data, current, visibility, versions, |ws|, sx, sy, px / sx, py / sy, i);
      }
    }
    CompositeUnchanged(ws, data, b, paint, |ws|, px, py);
  }
}
