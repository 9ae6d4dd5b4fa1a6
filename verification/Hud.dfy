/** The HUD painter: dirty tiles, per-tile widget lists, runs of dirty tiles. */
module Hud {
  import opened Bits
  import opened HudScene
  import opened Sequences

  const MAXWIDGETS: nat := 256

  type Pixels = (int, int) -> Color

  function TileIndex(tx: nat, ty: nat): (t: nat)
    requires tx < 16 && ty < 16
    ensures t < 256
  {
    16 * ty + tx
  }

  /** Shifts the tail of the list up by one and stores `w` at `j`. */
  method ShiftIn(u: array<nat>, n: nat, j: nat, w: nat)
    requires j <= n < u.Length
    modifies u
    ensures u[..n + 1] == InsertedAt(old(u[..n]), j, w)
  {
    ghost var s := u[..n];
    ghost var r := InsertedAt(s, j, w);
    var k := n;
    while k > j
      invariant j <= k <= n
      invariant forall i :: 0 <= i < k ==> u[i] == s[i]
      invariant forall i :: k < i <= n ==> u[i] == r[i]
    {
      u[k] := u[k - 1];
      k := k - 1;
    }
    u[j] := w;
    assert forall i :: 0 <= i <= n ==> u[i] == r[i];
  }

  /** Sorted insertion without duplicates into the first `n` slots of `u`. */
  method InsertWidget(u: array<nat>, n: nat, w: nat) returns (n': nat)
    requires u.Length == MAXWIDGETS && n <= MAXWIDGETS && w < MAXWIDGETS
    requires StrictlySorted(u[..n]) && Below(u[..n], MAXWIDGETS)
    modifies u
    ensures n <= n' <= MAXWIDGETS
    ensures StrictlySorted(u[..n']) && Below(u[..n'], MAXWIDGETS)
    ensures forall v: nat :: v in u[..n'] <==> v in old(u[..n]) || v == w
  {
    ghost var s := u[..n];
    var j := 0;
    while j < n
      invariant 0 <= j <= n
      invariant forall i :: 0 <= i < j ==> s[i] < w
    {
      assert u[j] == s[j];
      if w < u[j] {
        break;
      }
      if w == u[j] {
        return n;
      }
      j := j + 1;
    }
    InsertSorted(s, j, w, MAXWIDGETS);
    InsertMembers(s, j, w);
    ShiftIn(u, n, j, w);
    n' := n + 1;
  }

  /** Insertion of a visible widget keeps a paint list a paint list. */
  method InsertVisible(u: array<nat>, n: nat, w: nat, ghost ld: seq<LData>) returns (n': nat)
    requires u.Length == MAXWIDGETS && n <= MAXWIDGETS && w < |ld| <= MAXWIDGETS && ld[w].visible
    requires PaintListOk(u[..n], |ld|, ld)
    modifies u
    ensures n <= n' <= MAXWIDGETS && PaintListOk(u[..n'], |ld|, ld)
    ensures forall v: nat :: v in u[..n'] <==> v in old(u[..n]) || v == w
  {
    ghost var s := u[..n];
    n' := InsertWidget(u, n, w);
    forall k | 0 <= k < n'
      ensures u[k] < |ld| && ld[u[k]].visible
    {
      assert u[k] in u[..n'];
    }
  }

  /** The contents of an image as a function of the coordinates. */
  ghost function Snapshot(a: array2<Color>): (f: Pixels)
    reads a
    ensures forall x, y :: 0 <= x < a.Length0 && 0 <= y < a.Length1 ==> f(x, y) == a[x, y]
  {
    var s := seq(a.Length0, x requires 0 <= x < a.Length0 reads a =>
      seq(a.Length1, y requires 0 <= y < a.Length1 reads a => a[x, y]));
    (px: int, py: int) => if 0 <= px < |s| && 0 <= py < |s[px]| then s[px][py] else BLACK
  }

  class Hud {
    const screenW: nat
    const screenH: nat
    const tileX: nat
    const tileY: nat
    const ws: seq<Widget>
    const paint: Painter
    const surface: array2<Color>
    const framebuffer: array2<Color>
    const dirtyBits: array<nat>
    const tileWidgets: array<nat>
    const tileNWidgets: array<nat>
    const ldata: array<LData>
    var curVisibility: nat
    ghost var lists: seq<seq<nat>>

    /** A screen of at least 16 tiles each way, and zeroed private data. */
    constructor (screenW: nat, screenH: nat, ws: seq<Widget>, paint: Painter)
      requires 0 < 15 * ((screenW + 15) / 16) < screenW && 0 < 15 * ((screenH + 15) / 16) < screenH
      ensures Shape() && this.ws == ws && this.paint == paint && this.screenW == screenW && this.screenH == screenH
      ensures forall i :: 0 <= i < MAXWIDGETS ==> !ldata[i].visible
      ensures fresh(surface) && fresh(framebuffer) && fresh(ldata)
    {
      this.screenW, this.screenH, this.ws, this.paint := screenW, screenH, ws, paint;
      tileX, tileY := (screenW + 15) / 16, (screenH + 15) / 16;
      surface := new Color[screenW, screenH];
      framebuffer := new Color[screenW, screenH];
      dirtyBits := new nat[16];
      tileWidgets := new nat[256 * 32];
      tileNWidgets := new nat[256];
      ldata := new LData[MAXWIDGETS](_ => LData(0, 0, 0, 0, false));
      curVisibility := 0;
      lists := [];
    }

    ghost predicate Shape() {
      && tileX == (screenW + 15) / 16 && tileY == (screenH + 15) / 16
      && 0 < 15 * tileX < screenW && 0 < 15 * tileY < screenH
      && surface != framebuffer
      && surface.Length0 == framebuffer.Length0 == screenW
      && surface.Length1 == framebuffer.Length1 == screenH
      && dirtyBits.Length == 16 && tileNWidgets.Length == 256 && tileWidgets.Length == 256 * 32
      && dirtyBits != tileNWidgets && dirtyBits != tileWidgets && tileNWidgets != tileWidgets
      && ldata.Length == MAXWIDGETS
    }

    /** Tile column and row of an on-screen pixel. */
    ghost function Col(px: int): (c: nat)
      requires Shape() && 0 <= px < screenW
      ensures c < 16
    {
      DivRange(px, tileX, 16);
      px / tileX
    }

    ghost function Row(py: int): (r: nat)
      requires Shape() && 0 <= py < screenH
      ensures r < 16
    {
      DivRange(py, tileY, 16);
      py / tileY
    }

    predicate OnScreen(px: int, py: int) {
      0 <= px < screenW && 0 <= py < screenH
    }

    /** `lists` are the widget lists held in the two tile arrays. */
    ghost predicate TilesOk()
      requires Shape()
      reads this`lists, tileNWidgets, tileWidgets
    {
      && |lists| == 256
      && forall t :: 0 <= t < 256 ==>
           tileNWidgets[t] == |lists[t]| <= 32 && tileWidgets[32 * t..32 * t + tileNWidgets[t]] == lists[t]
    }

    ghost predicate Dirty(tx: int, ty: int)
      requires Shape() && 0 <= tx && 0 <= ty < 16
      reads dirtyBits
    {
      Bit(dirtyBits[ty], tx)
    }

    /** The colour the recorded widget data calls for. */
    ghost function Target(px: int, py: int): Color
      requires Shape() && |ws| <= MAXWIDGETS
      reads ldata
    {
      Composite(ws, ldata[..|ws|], paint, |ws|, px, py)
    }

    /** A loaded layout. */
    ghost predicate Loaded()
      reads this`lists, tileNWidgets, tileWidgets, ldata, dirtyBits
    {
      && Shape() && TilesOk() && |ws| <= MAXWIDGETS
      && (forall i :: 0 <= i < |ws| ==> GeometryOk(ws[i], ldata[i], tileX, tileY))
      && (AllListed(lists, ws, |ws|, tileX, tileY))
      && (forall ty :: 0 <= ty < 16 ==> dirtyBits[ty] <= 0xFFFF)
    }

    /** No tile holds more widgets than its list has room for. */
    ghost predicate FitsTiles()
      requires Shape()
    {
      forall t :: 0 <= t < 256 ==> FitsTile(ws, tileX, tileY, t)
    }

    /** Every pixel of a clean tile already shows what the widget data calls for. */
    ghost predicate CleanPixels()
      requires Shape() && |ws| <= MAXWIDGETS
      reads surface, framebuffer, dirtyBits, ldata
    {
      forall px, py :: OnScreen(px, py) && !Dirty(Col(px), Row(py)) ==>
        surface[px, py] == Target(px, py) && framebuffer[px, py] == Target(px, py)
    }

    ghost predicate Valid()
      reads this, surface, framebuffer, tileNWidgets, tileWidgets, ldata, dirtyBits
    {
      && Loaded() && FitsTiles() && CleanPixels()
      && (forall i :: 0 <= i < |ws| && ldata[i].visible ==> IsVisible(ws[i], curVisibility))
    }

    // ---- loading a layout ------------------------------------------------

    method AddToTile(tx: nat, ty: nat, i: nat)
      requires Shape() && TilesOk() && tx < 16 && ty < 16
      modifies this`lists, tileNWidgets, tileWidgets
      ensures TilesOk()
      ensures lists == old(lists)[TileIndex(tx, ty) := First32(old(lists)[TileIndex(tx, ty)] + [i])]
    {
      var t := TileIndex(tx, ty);
      var tnw := tileNWidgets[t];
      if tnw < 32 {
        tileWidgets[32 * t + tnw] := i;
        tileNWidgets[t] := tnw + 1;
        lists := lists[t := lists[t] + [i]];
      }
    }

    method AddToRow(i: nat, ty: nat, tx1: nat, tx2: nat)
      requires Shape() && TilesOk() && i < |ws| && ty < 16
      requires tx1 == TilePos(ws[i].x, tileX) <= tx2 == TilePos(ws[i].x + ws[i].w, tileX)
      requires TilePos(ws[i].y, tileY) <= ty <= TilePos(ws[i].y + ws[i].h, tileY)
      requires ListedBelow(lists, ws, i, tileX, tileY, 16 * ty)
      modifies this`lists, tileNWidgets, tileWidgets
      ensures TilesOk() && ListedBelow(lists, ws, i, tileX, tileY, 16 * ty + 16)
    {
      var tx := tx1;
      SkipColumns(lists, ws, i, tileX, tileY, ty, 0, tx1);
      while tx <= tx2
        invariant tx1 <= tx <= tx2 + 1
        invariant TilesOk() && ListedBelow(lists, ws, i, tileX, tileY, 16 * ty + tx)
      {
        AddTile(lists, ws, i, tileX, tileY, tx, ty);
        AddToTile(tx, ty, i);
        tx := tx + 1;
      }
      SkipColumns(lists, ws, i, tileX, tileY, ty, tx, 16);
    }

    method AddToTiles(i: nat, tx1: nat, tx2: nat, ty1: nat, ty2: nat)
      requires Shape() && TilesOk() && i < |ws|
      requires tx1 == TilePos(ws[i].x, tileX) <= tx2 == TilePos(ws[i].x + ws[i].w, tileX)
      requires ty1 == TilePos(ws[i].y, tileY) <= ty2 == TilePos(ws[i].y + ws[i].h, tileY)
      requires ListedBelow(lists, ws, i, tileX, tileY, 0)
      modifies this`lists, tileNWidgets, tileWidgets
      ensures TilesOk() && ListedBelow(lists, ws, i, tileX, tileY, 256)
    {
      var ty := ty1;
      SkipRows(lists, ws, i, tileX, tileY, 0, ty1);
      while ty <= ty2
        invariant ty1 <= ty <= ty2 + 1
        invariant TilesOk() && ListedBelow(lists, ws, i, tileX, tileY, 16 * ty)
      {
        AddToRow(i, ty, tx1, tx2);
        ty := ty + 1;
      }
      SkipRows(lists, ws, i, tileX, tileY, ty, 16);
    }

    method StoreData(i: nat, version: nat)
      requires Shape() && i < |ws| <= MAXWIDGETS
      modifies ldata
      ensures ldata[..] == old(ldata[..])[i := LoadedData(ws[i], old(ldata[i]), version, tileX, tileY)]
    {
      var tx1, tx2 := TilePos(ws[i].x, tileX), TilePos(ws[i].x + ws[i].w, tileX);
      var ty1, ty2 := TilePos(ws[i].y, tileY), TilePos(ws[i].y + ws[i].h, tileY);
      TilePosMonotone(ws[i].x, ws[i].w, tileX);
      var mask := ColumnMask(tx1, tx2);
      ldata[i] := LData(PreviousVersion(version), mask, ty1, ty2, ldata[i].visible);
    }

    /** The dirty bits of a range of columns. */
    method ColumnMask(tx1: nat, tx2: nat) returns (mask: nat)
      requires tx1 <= tx2 <= 15
      ensures mask == 2 * Pow2(tx2) - Pow2(tx1)
    {
      MaskBound(tx1, tx2);
      mask := 2 * Pow2(tx2) - Pow2(tx1);
    }

    method LoadWidget(i: nat, version: nat)
      requires Shape() && TilesOk() && i < |ws| <= MAXWIDGETS
      requires ListedBelow(lists, ws, i, tileX, tileY, 0)
      modifies this`lists, tileNWidgets, tileWidgets, ldata
      ensures TilesOk() && ListedBelow(lists, ws, i, tileX, tileY, 256)
      ensures ldata[..] == old(ldata[..])[i := LoadedData(ws[i], old(ldata[i]), version, tileX, tileY)]
    {
      StoreData(i, version);
      TilePosMonotone(ws[i].x, ws[i].w, tileX);
      TilePosMonotone(ws[i].y, ws[i].h, tileY);
      AddToTiles(i, TilePos(ws[i].x, tileX), TilePos(ws[i].x + ws[i].w, tileX),
        TilePos(ws[i].y, tileY), TilePos(ws[i].y + ws[i].h, tileY));
    }

    method LoadAll(versions: seq<nat>)
      requires Shape() && |versions| == |ws| <= MAXWIDGETS
      modifies this`lists, tileNWidgets, tileWidgets, ldata
      ensures TilesOk() && AllListed(lists, ws, |ws|, tileX, tileY)
      ensures forall k :: 0 <= k < |ws| ==> ldata[k] == LoadedData(ws[k], old(ldata[k]), versions[k], tileX, tileY)
    {
      ghost var data := ldata[..];
      ClearTiles();
      NothingListed(lists, ws, tileX, tileY);
      var i := 0;
      while i < |ws|
        invariant 0 <= i <= |ws|
        invariant TilesOk() && AllListed(lists, ws, i, tileX, tileY)
        invariant ldata[..] == LoadedPrefix(ws, data, versions, i, tileX, tileY)
      {
        StartWidget(lists, ws, i, tileX, tileY);
        LoadWidget(i, versions[i]);
        FinishWidget(lists, ws, i, tileX, tileY);
        i := i + 1;
      }
    }

    /** Loads a layout: tile lists, row ranges and masks; the screen becomes
        black and entirely dirty. Layouts with too many widgets are ignored. */
    method LoadWidgets(versions: seq<nat>) returns (ok: bool)
      requires Shape() && |versions| == |ws|
      modifies this, tileNWidgets, tileWidgets, ldata, dirtyBits, surface
      ensures ok == (|ws| <= MAXWIDGETS)
      ensures ok ==> Loaded() && curVisibility == 0
      ensures ok && FitsTiles() && (forall i :: 0 <= i < |ws| ==> !old(ldata[i].visible)) ==> Valid()
      ensures ok ==> forall i :: 0 <= i < |ws| ==>
                ldata[i].lastVersion == PreviousVersion(versions[i]) && ldata[i].visible == old(ldata[i].visible)
    {
      if |ws| > MAXWIDGETS {
        ClearTiles();
        return false;
      }
      LoadAll(versions);
      curVisibility := 0;
      ClearImage();
      MarkScreenDirty();
      ok := true;
    }

    method ClearTiles()
      requires Shape()
      modifies this`lists, tileNWidgets
      ensures TilesOk() && forall t :: 0 <= t < 256 ==> lists[t] == []
    {
      forall t | 0 <= t < 256 {
        tileNWidgets[t] := 0;
      }
      lists := seq(256, _ => []);
    }

    method ClearImage()
      requires Shape()
      modifies surface
      ensures forall px, py :: OnScreen(px, py) ==> surface[px, py] == BLACK
    {
      forall px, py | 0 <= px < screenW && 0 <= py < screenH {
        surface[px, py] := BLACK;
      }
    }

    method MarkScreenDirty()
      requires Shape()
      modifies dirtyBits
      ensures forall ty :: 0 <= ty < 16 ==> dirtyBits[ty] <= 0xFFFF
      ensures forall tx, ty :: 0 <= tx < 16 && 0 <= ty < 16 ==> Dirty(tx, ty)
    {
      forall ty | 0 <= ty < 16 {
        dirtyBits[ty] := 0xFFFF;
      }
      forall tx, ty | 0 <= tx < 16 && 0 <= ty < 16 ensures Dirty(tx, ty) {
        AllDirty(tx);
      }
      AllDirty(0);
    }

    // ---- marking what changed ---------------------------------------------

    method MarkRow(ty: nat, mask: nat, tx1: nat, tx2: nat)
      requires Shape() && ty < 16 && tx1 <= tx2 < 16 && mask == 2 * Pow2(tx2) - Pow2(tx1)
      requires forall y :: 0 <= y < 16 ==> dirtyBits[y] <= 0xFFFF
      modifies dirtyBits
      ensures forall y :: 0 <= y < 16 ==> dirtyBits[y] <= 0xFFFF
      ensures forall y :: 0 <= y < 16 && y != ty ==> dirtyBits[y] == old(dirtyBits[y])
      ensures forall x :: 0 <= x < 16 ==> Dirty(x, ty) == (old(Dirty(x, ty)) || tx1 <= x <= tx2)
    {
      MaskBound(tx1, tx2);
      AllDirty(0);
      OrBound(dirtyBits[ty], mask, 16);
      forall x: nat | x < 16
        ensures Bit(Or(dirtyBits[ty], mask), x) == (Bit(dirtyBits[ty], x) || tx1 <= x <= tx2)
      {
        OrBit(dirtyBits[ty], mask, x);
        RangeMaskBit(tx1, tx2, x);
      }
      dirtyBits[ty] := Or(dirtyBits[ty], mask);
    }

    ghost predicate DirtyBitsOk()
      requires Shape()
      reads dirtyBits
    {
      forall ty :: 0 <= ty < 16 ==> dirtyBits[ty] <= 0xFFFF
    }

    method MarkWidget(i: nat)
      requires Shape() && DirtyBitsOk() && i < |ws| <= MAXWIDGETS && GeometryOk(ws[i], ldata[i], tileX, tileY)
      modifies dirtyBits
      ensures DirtyBitsOk()
      ensures forall x, y :: 0 <= x < 16 && 0 <= y < 16 ==>
                Dirty(x, y) == (old(Dirty(x, y)) || Covers(ws[i], tileX, tileY, x, y))
    {
      var yy := ldata[i].ty1;
      TilePosMonotone(ws[i].x, ws[i].w, tileX);
      while yy <= ldata[i].ty2
        invariant ldata[i].ty1 <= yy
        invariant DirtyBitsOk()
        invariant forall x, y :: 0 <= x < 16 && 0 <= y < 16 ==>
                    Dirty(x, y) == (old(Dirty(x, y)) || (Covers(ws[i], tileX, tileY, x, y) && y < yy))
      {
        MarkRow(yy, ldata[i].dirtyMask, TilePos(ws[i].x, tileX), TilePos(ws[i].x + ws[i].w, tileX));
        yy := yy + 1;
      }
    }

    method RefreshWidget(i: nat, version: nat, visibility: nat)
      requires Shape() && DirtyBitsOk() && i < |ws| <= MAXWIDGETS && GeometryOk(ws[i], ldata[i], tileX, tileY)
      modifies ldata, dirtyBits
      ensures DirtyBitsOk()
      ensures ldata[..] == old(ldata[..])[i := Refreshed(ws[i], old(ldata[i]), curVisibility, visibility, version)]
      ensures forall x, y :: 0 <= x < 16 && 0 <= y < 16 ==>
                Dirty(x, y) == (old(Dirty(x, y)) ||
                  (Triggered(ws[i], old(ldata[i]), curVisibility, visibility, version) && Covers(ws[i], tileX, tileY, x, y)))
    {
      var wasVisible := IsVisible(ws[i], curVisibility);
      var nowVisible := IsVisible(ws[i], visibility);
      if (nowVisible && version != ldata[i].lastVersion) || wasVisible != nowVisible {
        MarkWidget(i);
        ldata[i] := ldata[i].(visible := nowVisible, lastVersion := version);
      }
    }

    /** The visibility pass. */
    method UpdateVisibility(versions: seq<nat>, visibility: nat)
      requires Loaded() && |versions| == |ws|
      modifies ldata, dirtyBits
      ensures DirtyBitsOk()
      ensures ldata[..] == RefreshedPrefix(ws, old(ldata[..]), curVisibility, visibility, versions, |ws|)
      ensures forall x, y :: 0 <= x < 16 && 0 <= y < 16 ==>
                Dirty(x, y) == (old(Dirty(x, y)) || Touched(ws, old(ldata[..]), curVisibility, visibility, versions, |ws|, tileX, tileY, x, y))
    {
      ghost var data := ldata[..];
      var i := 0;
      while i < |ws|
        invariant 0 <= i <= |ws|
        invariant DirtyBitsOk()
        invariant ldata[..] == RefreshedPrefix(ws, data, curVisibility, visibility, versions, i)
        invariant forall x, y :: 0 <= x < 16 && 0 <= y < 16 ==>
                    Dirty(x, y) == (old(Dirty(x, y)) || Touched(ws, data, curVisibility, visibility, versions, i, tileX, tileY, x, y))
      {
        assert ldata[..][i] == data[i];
        RefreshWidget(i, versions[i], visibility);
        i := i + 1;
      }
    }

    // ---- repainting ---------------------------------------------------------

    /** Cairo fill and draw calls under a clip: only pixels of the run that lie
        inside the widget change. */
    method PaintClipped(x: int, y: int, w: int, h: int, i: nat, version: nat)
      requires Shape() && i < |ws|
      modifies surface
      ensures forall px, py :: OnScreen(px, py) ==>
                surface[px, py] == if InRect(x, y, w, h, px, py) && Inside(ws[i], px, py)
                                   then paint(i, version, px, py, old(surface[px, py])) else old(surface[px, py])
    {
      forall px, py | 0 <= px < screenW && 0 <= py < screenH && InRect(x, y, w, h, px, py) && Inside(ws[i], px, py) {
        surface[px, py] := paint(i, version, px, py, surface[px, py]);
      }
    }

    method FillBlack(x: int, y: int, w: int, h: int)
      requires Shape()
      modifies surface
      ensures forall px, py :: OnScreen(px, py) ==>
                surface[px, py] == if InRect(x, y, w, h, px, py) then BLACK else old(surface[px, py])
    {
      forall px, py | 0 <= px < screenW && 0 <= py < screenH && InRect(x, y, w, h, px, py) {
        surface[px, py] := BLACK;
      }
    }

    /** Paints one run of dirty tiles from its paint list. */
    method PaintRun(x: int, y: int, w: int, h: int, u: array<nat>, n: nat, versions: seq<nat>)
      requires Shape() && |versions| == |ws| && n <= u.Length && Below(u[..n], |ws|)
      modifies surface
      ensures forall px, py :: OnScreen(px, py) ==>
                surface[px, py] == if InRect(x, y, w, h, px, py)
                                   then PaintList(ws, versions, paint, u[..n], n, px, py) else old(surface[px, py])
    {
      ghost var list := u[..n];
      FillBlack(x, y, w, h);
      var i := 0;
      while i < n
        invariant 0 <= i <= n
        invariant forall px, py :: OnScreen(px, py) ==>
                    surface[px, py] == if InRect(x, y, w, h, px, py)
                                       then PaintList(ws, versions, paint, list, i, px, py) else old(surface[px, py])
      {
        assert u[i] == list[i];
        PaintClipped(x, y, w, h, u[i], versions[u[i]]);
        i := i + 1;
      }
    }

    /** Adds the visible widgets of a tile to the paint list. */
    method GatherTile(tx: nat, ty: nat, u: array<nat>, n: nat) returns (n': nat)
      requires Shape() && TilesOk() && tx < 16 && ty < 16 && |ws| <= MAXWIDGETS
      requires Below(lists[TileIndex(tx, ty)], |ws|)
      requires u.Length == MAXWIDGETS && n <= MAXWIDGETS && u != tileNWidgets && u != tileWidgets && u != dirtyBits
      requires PaintListOk(u[..n], |ws|, ldata[..|ws|])
      modifies u
      ensures n' <= MAXWIDGETS && PaintListOk(u[..n'], |ws|, ldata[..|ws|])
      ensures forall v: nat :: v in old(u[..n]) ==> v in u[..n']
      ensures Gathered(u[..n'], lists[TileIndex(tx, ty)], ldata[..|ws|])
    {
      var t := TileIndex(tx, ty);
      ghost var tile := lists[t];
      ghost var ld := ldata[..|ws|];
      n' := n;
      var i := 0;
      while i < tileNWidgets[t]
        invariant 0 <= i <= |tile| == tileNWidgets[t]
        invariant n' <= MAXWIDGETS && PaintListOk(u[..n'], |ws|, ld)
        invariant forall v: nat :: v in old(u[..n]) ==> v in u[..n']
        invariant Gathered(u[..n'], tile[..i], ld)
      {
        var w := tileWidgets[32 * t + i];
        assert w == tile[i];
        if ldata[w].visible {
          n' := InsertVisible(u, n', w, ld);
        }
        i := i + 1;
      }
    }

    /** Adds a tile to the open run that started at column `s`. */
    method GatherColumn(tx: nat, ty: nat, ghost s: nat, u: array<nat>, n: nat) returns (n': nat)
      requires Shape() && TilesOk() && |ws| <= MAXWIDGETS && AllListed(lists, ws, |ws|, tileX, tileY)
      requires s <= tx < 16 && ty < 16
      requires u.Length == MAXWIDGETS && n <= MAXWIDGETS && u != tileNWidgets && u != tileWidgets && u != dirtyBits
      requires RunOpen(s, tx, ty, u, n)
      modifies u
      ensures n' <= MAXWIDGETS && RunOpen(s, tx + 1, ty, u, n')
    {
      ghost var before := u[..n];
      TileBelow(ws, tileX, tileY, TileIndex(tx, ty));
      n' := GatherTile(tx, ty, u, n);
      ExtendRun(before, u[..n'], lists, 16 * ty + s, 16 * ty + tx, ldata[..|ws|]);
    }

    /** The first `n` slots of `u` are the paint list of tiles `s` to `tx` of row `ty`. */
    ghost predicate RunOpen(s: nat, tx: nat, ty: nat, u: array<nat>, n: nat)
      requires Shape() && |lists| == 256 && |ws| <= MAXWIDGETS == u.Length && n <= MAXWIDGETS && s <= tx <= 16 && ty < 16
      reads this`lists, ldata, u
    {
      && PaintListOk(u[..n], |ws|, ldata[..|ws|])
      && RunGathered(u[..n], lists, 16 * ty + s, 16 * ty + tx, ldata[..|ws|])
    }

    lemma EmptyRun(tx: nat, ty: nat, u: array<nat>)
      requires Shape() && |lists| == 256 && |ws| <= MAXWIDGETS == u.Length && tx <= 16 && ty < 16
      ensures RunOpen(tx, tx, ty, u, 0)
    {
    }

    /** What one repaint pass assumes of the loaded layout and the refreshed data. */
    ghost predicate PaintReady(versions: seq<nat>)
      reads this`lists, tileNWidgets, tileWidgets, ldata
    {
      && Shape() && TilesOk() && |versions| == |ws| <= MAXWIDGETS
      && AllListed(lists, ws, |ws|, tileX, tileY) && FitsTiles()
      && forall i :: 0 <= i < |ws| && ldata[i].visible ==> ldata[i].lastVersion == versions[i]
    }

    /** Flushes the open run [sx * tileX, cx) of row ty, which holds tiles sx to tx. */
    method FlushRun(tx: nat, ty: nat, ghost sx: nat, x1: nat, cx: nat, cy: nat, ch: nat, u: array<nat>, n: nat, versions: seq<nat>,
        ghost before: Pixels)
      requires PaintReady(versions) && sx <= tx < 16 && ty < 16
      requires x1 == sx * tileX && cx == (tx + 1) * tileX && cy == ty * tileY
      requires ch == RowHeight(ty)
      requires n <= u.Length == MAXWIDGETS && RunOpen(sx, tx + 1, ty, u, n)
      requires RowPainted(before, ty, sx) && DirtySpan(dirtyBits[ty], sx, tx + 1)
      modifies surface
      ensures RowPainted(before, ty, tx + 1)
    {
      var x2 := if cx > screenW then screenW else cx;
      PaintRun(x1, cy, x2 - x1, ch, u, n, versions);
      forall px, py | OnScreen(px, py)
        ensures surface[px, py] == if Row(py) == ty && Col(px) < tx + 1 && Dirty(Col(px), ty) then Target(px, py) else before(px, py)
      {
        RunPixels(tx, ty, sx, px, py);
        if Row(py) == ty && sx <= Col(px) <= tx {
          RunShowsComposite(ws, ldata[..|ws|], versions, paint, lists, u[..n], tileX, tileY,
            TileIndex(sx, ty), TileIndex(tx, ty) + 1, px, py);
        }
      }
    }

    function RowHeight(ty: nat): int
    {
      if ty == 15 then screenH - ty * tileY else tileY
    }

    /** The pixel rectangle of a run is exactly the pixels of its tiles. */
    lemma RunPixels(tx: nat, ty: nat, sx: nat, px: int, py: int)
      requires Shape() && sx <= tx < 16 && ty < 16 && OnScreen(px, py)
      ensures var cx := (tx + 1) * tileX;
              var x2 := if cx > screenW then screenW else cx;
              InRect(sx * tileX, ty * tileY, x2 - sx * tileX, RowHeight(ty), px, py)
              <==> Row(py) == ty && sx <= Col(px) <= tx
    {
      DivRange(px, tileX, sx);
      DivRange(px, tileX, tx + 1);
      DivRange(py, tileY, ty);
      DivRange(py, tileY, ty + 1);
      assert (ty + 1) * tileY == ty * tileY + tileY;
    }

    /** Pixels of row `ty` in dirty columns below `s` show their target; the rest is as `before`. */
    ghost predicate RowPainted(before: Pixels, ty: nat, s: nat)
      requires Shape() && |ws| <= MAXWIDGETS && ty < 16
      reads surface, dirtyBits, ldata
    {
      forall px, py :: OnScreen(px, py) ==>
        surface[px, py] == if Row(py) == ty && Col(px) < s && Dirty(Col(px), ty) then Target(px, py) else before(px, py)
    }

    /** Clean columns extend what is painted. */
    lemma RowExtended(before: Pixels, ty: nat, s: nat, s': nat)
      requires Shape() && |ws| <= MAXWIDGETS && ty < 16 && s <= s'
      requires RowPainted(before, ty, s)
      requires forall k: nat :: s <= k < s' ==> !Dirty(k, ty)
      ensures RowPainted(before, ty, s')
    {
    }

    /** The surface as a function. */
    ghost function Shown(): (f: Pixels)
      requires Shape()
      reads surface
      ensures forall px, py :: OnScreen(px, py) ==> f(px, py) == surface[px, py]
    {
      Snapshot(surface)
    }

    /** Gathers a dirty tile, and flushes the run if this tile is its last. */
    method PaintDirtyTile(ty: nat, ctx: nat, last: bool, x1: nat, cx: nat, cy: nat, ch: nat, u: array<nat>, n: nat, versions: seq<nat>,
        ghost s: nat, ghost before: Pixels)
      returns (n': nat)
      requires PaintReady(versions) && ty < 16 && s <= ctx < 16
      requires cy == ty * tileY && ch == RowHeight(ty) && (last ==> x1 == s * tileX && cx == (ctx + 1) * tileX)
      requires u.Length == MAXWIDGETS && u != tileNWidgets && u != tileWidgets && u != dirtyBits
      requires n <= MAXWIDGETS && RunOpen(s, ctx, ty, u, n)
      requires RowPainted(before, ty, s) && DirtySpan(dirtyBits[ty], s, ctx + 1)
      modifies surface, u
      ensures last ==> n' == 0 && RowPainted(before, ty, ctx + 1)
      ensures !last ==> n' <= MAXWIDGETS && RunOpen(s, ctx + 1, ty, u, n') && RowPainted(before, ty, s)
    {
      n' := GatherColumn(ctx, ty, s, u, n);
      if last {
        FlushRun(ctx, ty, s, x1, cx, cy, ch, u, n', versions, before);
        n' := 0;
      }
    }

    /** Scans one tile: gathers it if dirty, and flushes the run it ends. */
    method PaintTile(ty: nat, mask: nat, ctx: nat, cx: nat, x1: nat, cy: nat, ch: nat, u: array<nat>, n: nat, versions: seq<nat>,
        ghost s: nat, ghost before: Pixels)
      returns (n': nat, x1': nat, ghost s': nat)
      requires PaintReady(versions) && ty < 16 && ctx < 16 && cy == ty * tileY && ch == RowHeight(ty)
      requires u.Length == MAXWIDGETS && u != tileNWidgets && u != tileWidgets && u != dirtyBits
      requires RowScan(dirtyBits[ty], mask, ctx, s, cx, x1, tileX)
      requires n <= MAXWIDGETS && RunOpen(s, ctx, ty, u, n) && (mask % 2 == 0 ==> n == 0)
      requires RowPainted(before, ty, s)
      modifies surface, u
      ensures RowScan(dirtyBits[ty], mask / 2, ctx + 1, s', cx + tileX, x1', tileX)
      ensures n' <= MAXWIDGETS && RunOpen(s', ctx + 1, ty, u, n') && (mask / 2 % 2 == 0 ==> n' == 0)
      ensures RowPainted(before, ty, s')
    {
      n', x1' := n, x1;
      var z := mask % 4;
      s' := if z == 3 then s else ctx + 1;
      TwoBits(mask);
      RowStep(dirtyBits[ty], mask, ctx, s, cx, x1, tileX);
      if mask % 2 == 1 {
        n' := PaintDirtyTile(ty, ctx, z == 1, x1, cx + tileX, cy, ch, u, n, versions, s, before);
      } else {
        RowExtended(before, ty, s, ctx + 1);
      }
      if z == 2 {
        x1' := cx + tileX;
      }
      EmptyRun(ctx + 1, ty, u);
    }

    /** Repaints the dirty tiles of one row, run by run. */
    method PaintRow(ty: nat, cy: nat, ch: nat, u: array<nat>, versions: seq<nat>, ghost before: Pixels)
      requires PaintReady(versions) && ty < 16 && cy == ty * tileY && ch == RowHeight(ty)
      requires u.Length == MAXWIDGETS && u != tileNWidgets && u != tileWidgets && u != dirtyBits
      requires dirtyBits[ty] <= 0xFFFF && RowPainted(before, ty, 0)
      modifies surface, u
      ensures RowPainted(before, ty, 16)
    {
      var mask := dirtyBits[ty];
      var n: nat := 0;
      var ctx: nat, cx: nat, x1: nat := 0, 0, 0;
      ghost var s: nat := 0;
      ScanStart(mask);
      while true
        invariant ctx < 16 && RowScan(dirtyBits[ty], mask, ctx, s, cx, x1, tileX)
        invariant n <= MAXWIDGETS && RunOpen(s, ctx, ty, u, n) && (mask % 2 == 0 ==> n == 0)
        invariant RowPainted(before, ty, s)
        decreases 16 - ctx
      {
        n, x1, s := PaintTile(ty, mask, ctx, cx, x1, cy, ch, u, n, versions, s, before);
        cx := cx + tileX;
        ctx := ctx + 1;
        mask := mask / 2;
        if mask == 0 {
          break;
        }
      }
      ScanEnd(dirtyBits[ty], ctx, s);
      RowExtended(before, ty, s, 16);
    }

    /** Pixels of dirty tiles in the first `rows` rows show their target; the rest is as `before`. */
    ghost predicate PassPainted(before: Pixels, rows: nat)
      requires Shape() && |ws| <= MAXWIDGETS
      reads surface, dirtyBits, ldata
    {
      forall px, py :: OnScreen(px, py) ==>
        surface[px, py] == if Row(py) < rows && Dirty(Col(px), Row(py)) then Target(px, py) else before(px, py)
    }

    lemma RowJoinsPass(before: Pixels, rowBefore: Pixels, ty: nat)
      requires Shape() && |ws| <= MAXWIDGETS && ty < 16
      requires RowPainted(rowBefore, ty, 16)
      requires forall px, py :: OnScreen(px, py) ==>
                 rowBefore(px, py) == if Row(py) < ty && Dirty(Col(px), Row(py)) then Target(px, py) else before(px, py)
      ensures PassPainted(before, ty + 1)
    {
    }

    /** Repaints every dirty tile and nothing else. */
    method PaintPass(versions: seq<nat>, ghost before: Pixels)
      requires PaintReady(versions) && DirtyBitsOk() && PassPainted(before, 0)
      modifies surface
      ensures PassPainted(before, 16)
    {
      var u := new nat[MAXWIDGETS];
      var ty: nat, cy: nat := 0, 0;
      while ty < 16
        invariant ty <= 16 && cy == ty * tileY
        invariant PassPainted(before, ty)
      {
        ghost var rowBefore := Shown();
        PaintRow(ty, cy, if ty == 15 then screenH - cy else tileY, u, versions, rowBefore);
        RowJoinsPass(before, rowBefore, ty);
        ty, cy := ty + 1, cy + tileY;
      }
    }

    // ---- copying to the framebuffer -------------------------------------------

    /** The blitter: the rectangle must lie on the screen. */
    method Blit(x: int, y: int, w: int, h: int)
      requires Shape()
      requires 0 <= x && 0 <= w && x + w <= screenW && 0 <= y && 0 <= h && y + h <= screenH
      modifies framebuffer
      ensures forall px, py :: OnScreen(px, py) ==>
                framebuffer[px, py] == if InRect(x, y, w, h, px, py) then surface[px, py] else old(framebuffer[px, py])
    {
      forall px, py | 0 <= px < screenW && 0 <= py < screenH && InRect(x, y, w, h, px, py) {
        framebuffer[px, py] := surface[px, py];
      }
    }

    /** Dirty tiles of the rows below `ty`, and of row `ty` below column `s`, have been copied. */
    ghost predicate Copied(before: Pixels, ty: nat, s: nat)
      requires Shape()
      reads framebuffer, surface, dirtyBits
    {
      forall px, py :: OnScreen(px, py) ==>
        framebuffer[px, py] ==
          if (Row(py) < ty || (Row(py) == ty && Col(px) < s)) && Dirty(Col(px), Row(py)) then surface[px, py] else before(px, py)
    }

    /** Run rectangles lie on the screen. */
    lemma RunOnScreen(tx: nat, ty: nat, sx: nat)
      requires Shape() && sx <= tx < 16 && ty < 16
      ensures var cx := (tx + 1) * tileX;
              var x2 := if cx > screenW then screenW else cx;
              sx * tileX <= x2 <= screenW && 0 <= RowHeight(ty) && ty * tileY + RowHeight(ty) <= screenH
    {
      MulMonotone(tileX, sx, tx + 1);
      MulMonotone(tileX, sx, 15);
      MulMonotone(tileY, ty, 15);
    }

    method FlushBlit(tx: nat, ty: nat, ghost sx: nat, x1: nat, cx: nat, cy: nat, ch: nat, ghost before: Pixels)
      requires Shape() && sx <= tx < 16 && ty < 16
      requires x1 == sx * tileX && cx == (tx + 1) * tileX && cy == ty * tileY && ch == RowHeight(ty)
      requires Copied(before, ty, sx) && DirtySpan(dirtyBits[ty], sx, tx + 1)
      modifies framebuffer
      ensures Copied(before, ty, tx + 1)
    {
      var x2 := if cx > screenW then screenW else cx;
      RunOnScreen(tx, ty, sx);
      RunRectangle(tx, ty, sx);
      Blit(x1, cy, x2 - x1, ch);
    }

    method BlitTile(ty: nat, mask: nat, ctx: nat, cx: nat, x1: nat, cy: nat, ch: nat, ghost s: nat, ghost before: Pixels)
      returns (x1': nat, ghost s': nat)
      requires Shape() && ty < 16 && ctx < 16 && cy == ty * tileY && ch == RowHeight(ty)
      requires RowScan(dirtyBits[ty], mask, ctx, s, cx, x1, tileX) && Copied(before, ty, s)
      modifies framebuffer
      ensures RowScan(dirtyBits[ty], mask / 2, ctx + 1, s', cx + tileX, x1', tileX)
      ensures Copied(before, ty, s')
    {
      x1' := x1;
      s' := if mask % 4 == 3 then s else ctx + 1;
      RowStep(dirtyBits[ty], mask, ctx, s, cx, x1, tileX);
      var z := mask % 4;
      if z == 1 {
        FlushBlit(ctx, ty, s, x1, cx + tileX, cy, ch, before);
      } else if z % 2 == 0 {
        CopiedExtended(before, ty, s);
      }
      if z == 2 {
        x1' := cx + tileX;
      }
    }

    lemma CopiedExtended(before: Pixels, ty: nat, s: nat)
      requires Shape() && ty < 16 && Copied(before, ty, s) && !Dirty(s, ty)
      ensures Copied(before, ty, s + 1)
    {
    }

    lemma RunRectangle(tx: nat, ty: nat, sx: nat)
      requires Shape() && sx <= tx < 16 && ty < 16
      ensures var cx := (tx + 1) * tileX;
              var x2 := if cx > screenW then screenW else cx;
              forall px, py :: OnScreen(px, py) ==>
                (InRect(sx * tileX, ty * tileY, x2 - sx * tileX, RowHeight(ty), px, py) <==> Row(py) == ty && sx <= Col(px) <= tx)
    {
      forall px, py | OnScreen(px, py) {
        RunPixels(tx, ty, sx, px, py);
      }
    }

    method BlitRow(ty: nat, cy: nat, ch: nat, ghost before: Pixels)
      requires Shape() && ty < 16 && cy == ty * tileY && ch == RowHeight(ty)
      requires dirtyBits[ty] <= 0xFFFF && Copied(before, ty, 0)
      modifies framebuffer
      ensures Copied(before, ty + 1, 0)
    {
      var mask := dirtyBits[ty];
      var ctx: nat, cx: nat, x1: nat := 0, 0, 0;
      ghost var s: nat := 0;
      ScanStart(mask);
      while true
        invariant ctx < 16 && RowScan(dirtyBits[ty], mask, ctx, s, cx, x1, tileX)
        invariant Copied(before, ty, s)
        decreases 16 - ctx
      {
        x1, s := BlitTile(ty, mask, ctx, cx, x1, cy, ch, s, before);
        cx := cx + tileX;
        ctx := ctx + 1;
        mask := mask / 2;
        if mask == 0 {
          break;
        }
      }
      ScanEnd(dirtyBits[ty], ctx, s);
    }

    method BlitPass(ghost before: Pixels)
      requires Shape() && DirtyBitsOk() && Copied(before, 0, 0)
      modifies framebuffer
      ensures Copied(before, 16, 0)
    {
      var ty: nat, cy: nat := 0, 0;
      while ty < 16
        invariant ty <= 16 && cy == ty * tileY
        invariant Copied(before, ty, 0)
      {
        BlitRow(ty, cy, if ty == 15 then screenH - cy else tileY, before);
        ty, cy := ty + 1, cy + tileY;
      }
    }

    // ---- one pass ------------------------------------------------------------

    /** The visible flags follow the current visibility word. */
    ghost predicate Tracked()
      requires Shape() && |ws| <= MAXWIDGETS
      reads this`curVisibility, ldata
    {
      FlagsFollow(ws, ldata[..|ws|], curVisibility)
    }

    ghost predicate ShowsFullRedraw(versions: seq<nat>)
      requires Shape() && |versions| == |ws|
      reads this`curVisibility, surface, framebuffer
    {
      forall px, py :: OnScreen(px, py) ==>
        surface[px, py] == framebuffer[px, py] == FullRedraw(ws, versions, curVisibility, paint, |ws|, px, py)
    }

    lemma StaysClean(data: seq<LData>, versions: seq<nat>, visibility: nat)
      requires Shape() && |data| == |versions| == |ws| <= MAXWIDGETS
      requires ldata[..|ws|] == RefreshedPrefix(ws, data, curVisibility, visibility, versions, |ws|)
      requires forall px, py :: OnScreen(px, py) && !Dirty(Col(px), Row(py)) ==>
                 && surface[px, py] == framebuffer[px, py] == Composite(ws, data, paint, |ws|, px, py)
                 && !Touched(ws, data, curVisibility, visibility, versions, |ws|, tileX, tileY, Col(px), Row(py))
      ensures CleanPixels()
    {
      forall px, py | OnScreen(px, py) && !Dirty(Col(px), Row(py))
        ensures surface[px, py] == Target(px, py) && framebuffer[px, py] == Target(px, py)
      {
        UntouchedPixel(ws, data, curVisibility, visibility, versions, paint, tileX, tileY, px, py);
      }
    }

    /** After the visibility pass, clean tiles still show what the new data calls for. */
    method Refresh(versions: seq<nat>, visibility: nat)
      requires Valid() && |versions| == |ws|
      modifies ldata, dirtyBits
      ensures DirtyBitsOk() && CleanPixels()
      ensures ldata[..] == RefreshedPrefix(ws, old(ldata[..]), curVisibility, visibility, versions, |ws|)
    {
      ghost var data := ldata[..];
      ghost var head := ldata[..|ws|];
      assert head == data[..|ws|];
      assert forall px, py :: OnScreen(px, py) && !Dirty(Col(px), Row(py)) ==>
               surface[px, py] == framebuffer[px, py] == Composite(ws, head, paint, |ws|, px, py);
      UpdateVisibility(versions, visibility);
      PrefixOfTable(ws, data, curVisibility, visibility, versions);
      TouchedPrefix(ws, data, curVisibility, visibility, versions, tileX, tileY);
      StaysClean(head, versions, visibility);
    }

    method ClearDirty()
      requires Shape()
      modifies dirtyBits
      ensures DirtyBitsOk() && forall tx, ty :: 0 <= tx < 16 && 0 <= ty < 16 ==> !Dirty(tx, ty)
    {
      forall ty | 0 <= ty < 16 {
        dirtyBits[ty] := 0;
      }
      forall tx, ty | 0 <= tx < 16 && 0 <= ty < 16 ensures !Dirty(tx, ty) {
        ZeroBit(tx);
      }
    }

    /** Repaints and copies every dirty tile, leaving none dirty. */
    method Repaint(versions: seq<nat>)
      requires PaintReady(versions) && DirtyBitsOk() && CleanPixels()
      modifies surface, framebuffer, dirtyBits
      ensures DirtyBitsOk() && CleanPixels()
      ensures forall tx, ty :: 0 <= tx < 16 && 0 <= ty < 16 ==> !Dirty(tx, ty)
    {
      ghost var before := Shown();
      PaintPass(versions, before);
      assert forall px, py :: OnScreen(px, py) ==> surface[px, py] == Target(px, py);
      ghost var copied := Snapshot(framebuffer);
      BlitPass(copied);
      assert forall px, py :: OnScreen(px, py) ==> framebuffer[px, py] == Target(px, py);
      ClearDirty();
    }

    /** The widget data of a loaded layout, entry by entry, after a refresh. */
    lemma TableEntries(data: seq<LData>, versions: seq<nat>, visibility: nat)
      requires Shape() && |versions| == |ws| <= MAXWIDGETS == |data|
      requires ldata[..] == RefreshedPrefix(ws, data, curVisibility, visibility, versions, |ws|)
      requires forall i :: 0 <= i < |ws| ==> GeometryOk(ws[i], data[i], tileX, tileY) && (data[i].visible ==> IsVisible(ws[i], curVisibility))
      ensures forall i :: 0 <= i < |ws| ==>
                && GeometryOk(ws[i], ldata[i], tileX, tileY) && (ldata[i].visible ==> ldata[i].lastVersion == versions[i])
                && ldata[i].visible == (IsVisible(ws[i], visibility) && !Stale(ws[i], data[i], curVisibility, visibility, versions[i]))
    {
      RefreshedTable(ws, data, curVisibility, visibility, versions, tileX, tileY);
      assert forall i :: 0 <= i < |ws| ==> ldata[i] == ldata[..][i];
    }

    method RefreshAndRepaint(versions: seq<nat>, visibility: nat)
      requires Valid() && |versions| == |ws|
      modifies ldata, dirtyBits, surface, framebuffer
      ensures DirtyBitsOk() && CleanPixels()
      ensures ldata[..] == RefreshedPrefix(ws, old(ldata[..]), curVisibility, visibility, versions, |ws|)
      ensures forall tx, ty :: 0 <= tx < 16 && 0 <= ty < 16 ==> !Dirty(tx, ty)
    {
      ghost var data := ldata[..];
      Refresh(versions, visibility);
      TableEntries(data, versions, visibility);
      Repaint(versions);
    }

    /** The picture called for is the full redraw, for this screen's way of drawing the widgets. */
    ghost predicate Right(versions: seq<nat>)
      requires Shape() && |versions| == |ws| <= MAXWIDGETS
      reads this`curVisibility, ldata
    {
      PictureRight(ws, ldata[..|ws|], versions, curVisibility, paint, screenW, screenH)
    }

    /** The same for any way of drawing the widgets. */
    ghost predicate RightHoweverDrawn(versions: seq<nat>)
      requires Shape() && |versions| == |ws| <= MAXWIDGETS
      reads this`curVisibility, ldata
    {
      AlwaysRight(ws, ldata[..|ws|], versions, curVisibility, screenW, screenH)
    }

    ghost predicate ShowsTarget()
      requires Shape() && |ws| <= MAXWIDGETS
      reads surface, framebuffer, ldata
    {
      forall px, py :: OnScreen(px, py) ==> surface[px, py] == framebuffer[px, py] == Target(px, py)
    }

    /** One pass of the painter: the screen is the full redraw, however widgets are
        drawn, exactly if no stale widget lies on it. */
    method DrawWidgets(versions: seq<nat>, visibility: nat)
      requires Valid() && |versions| == |ws|
      modifies this`curVisibility, ldata, dirtyBits, surface, framebuffer
      ensures Valid() && curVisibility == visibility
      ensures ldata[..] == RefreshedPrefix(ws, old(ldata[..]), old(curVisibility), visibility, versions, |ws|)
      ensures Tracked() <==> NoStale(ws, old(ldata[..]), old(curVisibility), visibility, versions)
      ensures ShowsTarget()
      ensures forall i :: 0 <= i < |ws| && ldata[i].visible ==> ldata[i].lastVersion == versions[i]
      ensures ShowsFullRedraw(versions) <==> Right(versions)
      ensures RightHoweverDrawn(versions) <==> NoStaleSeen(ws, old(ldata[..]), old(curVisibility), visibility, versions, screenW, screenH)
      ensures NoStaleSeen(ws, old(ldata[..]), old(curVisibility), visibility, versions, screenW, screenH) ==> ShowsFullRedraw(versions)
    {
      ghost var data, current := ldata[..], curVisibility;
      assert forall i :: 0 <= i < |ws| ==> data[i] == ldata[i];
      PaintOnce(versions, visibility);
      PassPicture(ws, data, current, visibility, versions, screenW, screenH);
      TargetIsRedraw(versions);
    }

    /** The pass itself. */
    method PaintOnce(versions: seq<nat>, visibility: nat)
      requires Valid() && |versions| == |ws|
      modifies this`curVisibility, ldata, dirtyBits, surface, framebuffer
      ensures Valid() && curVisibility == visibility && ShowsTarget()
      ensures ldata[..] == RefreshedPrefix(ws, old(ldata[..]), old(curVisibility), visibility, versions, |ws|)
      ensures ldata[..|ws|] == ldata[..][..|ws|]
      ensures forall i :: 0 <= i < |ws| && ldata[i].visible ==> ldata[i].lastVersion == versions[i]
    {
      ghost var data := ldata[..];
      RefreshAndRepaint(versions, visibility);
      TableEntries(data, versions, visibility);
      curVisibility := visibility;
    }

    /** A screen that shows what the data calls for is the full redraw exactly if the data is right. */
    lemma TargetIsRedraw(versions: seq<nat>)
      requires Shape() && |versions| == |ws| <= MAXWIDGETS && ShowsTarget()
      ensures ShowsFullRedraw(versions) <==> Right(versions)
    {
      if Right(versions) {
        forall px, py | OnScreen(px, py)
          ensures surface[px, py] == framebuffer[px, py] == FullRedraw(ws, versions, curVisibility, paint, |ws|, px, py)
        {
          assert surface[px, py] == framebuffer[px, py] == Target(px, py);
        }
      } else if ShowsFullRedraw(versions) {
        forall px, py | 0 <= px < screenW && 0 <= py < screenH
          ensures Composite(ws, ldata[..|ws|], paint, |ws|, px, py) == FullRedraw(ws, versions, curVisibility, paint, |ws|, px, py)
        {
          assert OnScreen(px, py);
        }
      }
    }

    /** After a run of passes the flags decide whether the picture is right. */
    lemma LoopResult(loadVersions: seq<nat>, passes: seq<Pass>)
      requires Shape() && |loadVersions| == |ws| <= MAXWIDGETS
      requires passes != [] && InLoop(loadVersions, passes)
      ensures |Last(passes).versions| == |ws| && ShowsTarget()
      ensures RightHoweverDrawn(Last(passes).versions) <==> NoneNeverShown(ws, loadVersions, passes, screenW, screenH)
      ensures NoneNeverShown(ws, loadVersions, passes, screenW, screenH) ==> ShowsFullRedraw(Last(passes).versions)
    {
      var ld := ldata[..|ws|];
      assert forall i :: 0 <= i < |ws| ==> ld[i] == ldata[i] == ldata[..][i];
      ShownOrNever(ws, ldata[..], loadVersions, passes, curVisibility);
      ScreenExactly(ws, ld, Last(passes).versions, curVisibility, screenW, screenH);
      TargetIsRedraw(Last(passes).versions);
      assert RightHoweverDrawn(Last(passes).versions) ==> Right(Last(passes).versions);
    }

    /** The display loop: load once, then any number of passes, each possibly
        preceded by a periodic full refresh. After every pass, however widgets are
        drawn, the screen is the full redraw of that pass's versions and visibility
        exactly if no widget on the screen was never shown. */
    method DisplayLoop(loadVersions: seq<nat>, passes: seq<Pass>)
      requires Shape() && FitsTiles() && |loadVersions| == |ws| <= MAXWIDGETS
      requires forall i :: 0 <= i < |ws| ==> !ldata[i].visible
      requires forall k :: 0 <= k < |passes| ==> |passes[k].versions| == |ws|
      modifies this, tileNWidgets, tileWidgets, ldata, dirtyBits, surface, framebuffer
      ensures Valid()
      ensures passes != [] ==> curVisibility == Last(passes).visibility && ShowsTarget()
      ensures passes != [] ==>
                (RightHoweverDrawn(Last(passes).versions) <==> NoneNeverShown(ws, loadVersions, passes, screenW, screenH))
      ensures passes != [] && NoneNeverShown(ws, loadVersions, passes, screenW, screenH) ==> ShowsFullRedraw(Last(passes).versions)
    {
      var ok := LoadWidgets(loadVersions);
      var k := 0;
      LoadedOk(loadVersions);
      assert passes[..0] == [];
      while k < |passes|
        invariant 0 <= k <= |passes|
        invariant Valid() && InLoop(loadVersions, passes[..k])
      {
        assert passes[..k] + [passes[k]] == passes[..k + 1];
        RunPass(loadVersions, passes[..k], passes[k]);
        k := k + 1;
      }
      assert passes[..k] == passes;
      if passes != [] {
        LoopResult(loadVersions, passes);
      }
    }

    /** What holds between passes. */
    ghost predicate InLoop(loadVersions: seq<nat>, passes: seq<Pass>)
      requires Shape() && |loadVersions| == |ws| <= MAXWIDGETS
      reads this`curVisibility, ldata, surface, framebuffer
    {
      && DataOk(ws, ldata[..], loadVersions, passes, curVisibility)
      && (passes != [] ==>
            var last := Last(passes);
            && |last.versions| == |ws| && curVisibility == last.visibility && ShowsTarget()
            && forall i :: 0 <= i < |ws| && ldata[i].visible ==> ldata[i].lastVersion == last.versions[i])
    }

    lemma LoadedOk(loadVersions: seq<nat>)
      requires Shape() && |loadVersions| == |ws| <= MAXWIDGETS && curVisibility == 0
      requires forall i :: 0 <= i < |ws| ==> ldata[i].lastVersion == PreviousVersion(loadVersions[i]) && !ldata[i].visible
      ensures InLoop(loadVersions, [])
    {
      assert forall i :: 0 <= i < |ws| ==> ldata[..][i] == ldata[i];
    }

    /** One turn of the display loop. */
    method RunPass(ghost loadVersions: seq<nat>, ghost past: seq<Pass>, pass: Pass)
      requires Valid() && |loadVersions| == |pass.versions| == |ws| && InLoop(loadVersions, past)
      modifies this`curVisibility, ldata, dirtyBits, surface, framebuffer
      ensures Valid() && InLoop(loadVersions, past + [pass])
    {
      ghost var data, current := ldata[..], curVisibility;
      PassKeepsData(ws, data, loadVersions, past, current, pass);
      if pass.refresh {
        RefreshScreen();
      }
      DrawWidgets(pass.versions, pass.visibility);
      assert Last(past + [pass]) == pass;
    }

    /** The periodic refresh: everything becomes dirty, nothing else changes. */
    method RefreshScreen()
      requires Valid()
      modifies dirtyBits
      ensures Valid()
    {
      MarkScreenDirty();
    }
  }
}
