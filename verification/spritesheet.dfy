/**
 A spritesheet: a texture cut into fixed-size cells, with a lazily filled cache
 from cell index to region. The first half of the module specifies the cache
 as values (one lookup, a run of lookups over `0 .. n-1`); the class
 `Spritesheet` is the in-place object, and each of its methods is proved
 against those functions.
 */
module Spritesheets {
  import opened SheetGeometry

  /** The memo table: cell index to the region computed for it. */
  type Cache = map<int, Region>

  /**
   Every cached entry is exactly the region that the row-major mapping gives
   for its key with the current texture and cell size.
   */
  predicate CacheCoherent(cache: Cache, tex: Texture, tw: int, th: int)
  {
    && (forall k :: k in cache ==> k >= 0)
    && (forall k: nat :: k in cache ==> Sliceable(tex, tw) && cache[k] == RegionFromSheet(tex, tw, th, k))
  }

  /**
   One cell lookup on a cache: the region returned and the cache afterwards.
   The cache afterwards is the old one with `index` bound to the returned
   region, so at most that one key is added and no other entry changes. On a
   hit the region is the stored one; on a miss it is computed.
   */
  function CellStep(cache: Cache, tex: Texture, tw: int, th: int, index: nat): (res: (Region, Cache))
    requires index in cache || Sliceable(tex, tw)
    ensures res.1 == cache[index := res.0]
    ensures index in cache ==> res.0 == cache[index]
    ensures index !in cache ==> res.0 == RegionFromSheet(tex, tw, th, index)
  {
    if index in cache then
      (cache[index], cache)
    else
      var r := RegionFromSheet(tex, tw, th, index);
      (r, cache[index := r])
  }

  /** A hit: the stored region comes back and the cache is unchanged. */
  lemma CellStepHit(cache: Cache, tex: Texture, tw: int, th: int, index: nat)
    requires index in cache
    ensures CellStep(cache, tex, tw, th, index) == (cache[index], cache)
  {
    var res := CellStep(cache, tex, tw, th, index);
    assert res.1.Keys == cache.Keys;
  }

  /** A second lookup of the same index returns the same region and changes nothing more. */
  lemma CellStepIdempotent(cache: Cache, tex: Texture, tw: int, th: int, index: nat)
    requires index in cache || Sliceable(tex, tw)
    ensures var (r, after) := CellStep(cache, tex, tw, th, index);
            CellStep(after, tex, tw, th, index) == (r, after)
  {
    var (r, after) := CellStep(cache, tex, tw, th, index);
    CellStepHit(after, tex, tw, th, index);
  }

  /**
   Filling the cache is order-independent: two lookups in either order leave
   the same cache, and an earlier lookup never changes what a later one returns.
   */
  lemma CellStepsCommute(cache: Cache, tex: Texture, tw: int, th: int, i: nat, j: nat)
    requires Sliceable(tex, tw)
    ensures CellStep(CellStep(cache, tex, tw, th, i).1, tex, tw, th, j).1
         == CellStep(CellStep(cache, tex, tw, th, j).1, tex, tw, th, i).1
    ensures CellStep(CellStep(cache, tex, tw, th, i).1, tex, tw, th, j).0
         == CellStep(cache, tex, tw, th, j).0
  {
    var ij := CellStep(CellStep(cache, tex, tw, th, i).1, tex, tw, th, j).1;
    var ji := CellStep(CellStep(cache, tex, tw, th, j).1, tex, tw, th, i).1;
    assert ij.Keys == ji.Keys;
    forall k | k in ij
      ensures ij[k] == ji[k]
    {
      if k !in cache {
        assert k == i || k == j;
      }
    }
  }

  /** On a coherent cache a lookup returns the computed region and keeps the cache coherent. */
  lemma CellStepCoherent(cache: Cache, tex: Texture, tw: int, th: int, index: nat)
    requires Sliceable(tex, tw) && CacheCoherent(cache, tex, tw, th)
    ensures var (r, after) := CellStep(cache, tex, tw, th, index);
            r == RegionFromSheet(tex, tw, th, index) && CacheCoherent(after, tex, tw, th)
  {
    var (r, after) := CellStep(cache, tex, tw, th, index);
    forall k | k in after
      ensures k >= 0 && after[k] == RegionFromSheet(tex, tw, th, k)
    {
      if k != index {
        assert k in cache;
      }
    }
  }

  /** The indices `0 .. n-1`. */
  function Below(n: nat): (s: set<int>)
    ensures forall k :: k in s <==> 0 <= k < n
  {
    if n == 0 then {} else Below(n - 1) + {n - 1}
  }

  /** The cache after looking up every index `0 .. n-1` in increasing order; see `PopulatedShape`. */
  function Populated(cache: Cache, tex: Texture, tw: int, th: int, n: nat): Cache
    requires n == 0 || Sliceable(tex, tw)
    decreases n
  {
    if n == 0 then cache
    else CellStep(Populated(cache, tex, tw, th, n - 1), tex, tw, th, n - 1).1
  }

  /**
   Looking up `0 .. n-1` adds exactly the indices below `n`, keeps every entry
   that was already there, and stores the computed region under each new index.
   */
  lemma {:induction false} PopulatedShape(cache: Cache, tex: Texture, tw: int, th: int, n: nat)
    requires n == 0 || Sliceable(tex, tw)
    ensures var r := Populated(cache, tex, tw, th, n);
            && r.Keys == cache.Keys + Below(n)
            && (forall k :: k in cache ==> r[k] == cache[k])
            && (forall k: nat :: k < n && k !in cache ==> r[k] == RegionFromSheet(tex, tw, th, k))
  {
    if n > 0 {
      PopulatedShape(cache, tex, tw, th, n - 1);
    }
  }

  /**
   Looking up index `n` after `0 .. n-1` have been looked up returns what the
   lookup would have returned on the original cache: earlier lookups never
   change the answer for a later index.
   */
  lemma {:induction false} PopulatedThenStep(cache: Cache, tex: Texture, tw: int, th: int, n: nat)
    requires Sliceable(tex, tw)
    ensures var next := CellStep(Populated(cache, tex, tw, th, n), tex, tw, th, n);
            next.0 == CellStep(cache, tex, tw, th, n).0 &&
            next.1 == Populated(cache, tex, tw, th, n + 1)
  {
    var before := Populated(cache, tex, tw, th, n);
    PopulatedShape(cache, tex, tw, th, n);
    if n in cache {
      assert before[n] == cache[n];
    } else {
      assert n !in before;
    }
  }

  /**
   After looking up `0 .. n-1`, each of those indices is cached, holding the
   region its own lookup returned on the cache as it was at the start.
   */
  lemma PopulatedLookups(cache: Cache, tex: Texture, tw: int, th: int, n: nat)
    requires n == 0 || Sliceable(tex, tw)
    ensures var after := Populated(cache, tex, tw, th, n);
            forall i :: 0 <= i < n ==> i in after && after[i] == CellStep(cache, tex, tw, th, i).0
  {
    var after := Populated(cache, tex, tw, th, n);
    PopulatedShape(cache, tex, tw, th, n);
    forall i | 0 <= i < n
      ensures i in after && after[i] == CellStep(cache, tex, tw, th, i).0
    {
      if i in cache {
        CellStepHit(cache, tex, tw, th, i);
      }
    }
  }

  /** A coherent cache stays coherent however many cells are filled in. */
  lemma PopulatedCoherent(cache: Cache, tex: Texture, tw: int, th: int, n: nat)
    requires Sliceable(tex, tw) && CacheCoherent(cache, tex, tw, th)
    ensures CacheCoherent(Populated(cache, tex, tw, th, n), tex, tw, th)
  {
    var r := Populated(cache, tex, tw, th, n);
    PopulatedShape(cache, tex, tw, th, n);
    forall k | k in r
      ensures k >= 0 && r[k] == RegionFromSheet(tex, tw, th, k)
    {
      if k in cache {
        assert r[k] == cache[k];
      } else {
        assert 0 <= k < n;
        var i: nat := k;
        assert r[i] == RegionFromSheet(tex, tw, th, i);
      }
    }
  }

  /** The grid has a cell only if a whole column fits, so a non-empty grid can be sliced. */
  lemma NonEmptyGridSliceable(tex: Texture, tw: int, th: int)
    requires tw > 0 && th > 0 && CellCount(tex, tw, th) > 0
    ensures Sliceable(tex, tw)
  {
  }

  /**
   A texture cut into cells of `CellWidth` by `CellHeight`, with a cache of the
   regions handed out so far. Only `Cell` changes the object, and it only adds
   to `cache`.
   */
  class Spritesheet {
    const texture: Texture
    var CellWidth: int
    var CellHeight: int
    var cache: Cache

    /**
     The cell size is positive, so the column, row and cell counts are defined.
     Not an object invariant: the cell size is exported and may be set to
     anything, so this is only a precondition of the whole-grid operations.
     */
    ghost predicate PositiveCellSize()
      reads this`CellWidth, this`CellHeight
    {
      CellWidth > 0 && CellHeight > 0
    }

    /** Every cached region matches the current texture and cell size. */
    ghost predicate Coherent()
      reads this
    {
      CacheCoherent(cache, texture, CellWidth, CellHeight)
    }

    /** A new sheet keeps the texture and cell size it is given and starts with an empty cache. */
    constructor FromTexture(texture: Texture, cellWidth: int, cellHeight: int)
      ensures this.texture == texture && CellWidth == cellWidth && CellHeight == cellHeight
      ensures cache == map[]
      ensures Coherent()
    {
      this.texture := texture;
      CellWidth, CellHeight := cellWidth, cellHeight;
      cache := map[];
    }

    /** Number of whole cells across the texture: the largest that fit. */
    function Width(): (n: nat)
      reads this`CellWidth
      requires CellWidth > 0
      ensures n * CellWidth <= texture.width < (n + 1) * CellWidth
    {
      ColumnsFit(texture, CellWidth);
      Columns(texture, CellWidth)
    }

    /** Number of whole cells down the texture: the largest that fit. */
    function Height(): (n: nat)
      reads this`CellHeight
      requires CellHeight > 0
      ensures n * CellHeight <= texture.height < (n + 1) * CellHeight
    {
      RowsFit(texture, CellHeight);
      Rows(texture, CellHeight)
    }

    /**
     Number of cells in the grid: zero exactly when a single cell does not fit
     across or down the texture. `CellInsideIff` says which indices it counts.
     */
    function CellCount(): (n: nat)
      reads this`CellWidth, this`CellHeight
      requires PositiveCellSize()
      ensures n == SheetGeometry.CellCount(texture, CellWidth, CellHeight)
      ensures n == 0 <==> texture.width < CellWidth || texture.height < CellHeight
    {
      Width() * Height()
    }

    /**
     The region of cell `index`, from the cache when it is there and computed
     and cached otherwise. A lookup that misses needs a texture at least one
     cell wide; a hit needs nothing.
     */
    method Cell(index: nat) returns (r: Region)
      requires index in cache || Sliceable(texture, CellWidth)
      modifies this`cache
      ensures (r, cache) == CellStep(old(cache), texture, CellWidth, CellHeight, index)
      ensures old(Coherent()) ==> Coherent() && r == RegionFromSheet(texture, CellWidth, CellHeight, index)
    {
      if index in cache {
        r := cache[index];
        CellStepHit(cache, texture, CellWidth, CellHeight, index);
      } else {
        cache := cache[index := RegionFromSheet(texture, CellWidth, CellHeight, index)];
        r := cache[index];
      }
      if old(Coherent()) {
        CellStepCoherent(old(cache), texture, CellWidth, CellHeight, index);
      }
    }

    /** The same lookup as `Cell`, offered where the engine expects something drawable. */
    method Drawable(index: nat) returns (d: Region)
      requires index in cache || Sliceable(texture, CellWidth)
      modifies this`cache
      ensures (d, cache) == CellStep(old(cache), texture, CellWidth, CellHeight, index)
      ensures old(Coherent()) ==> Coherent() && d == RegionFromSheet(texture, CellWidth, CellHeight, index)
    {
      d := Cell(index);
    }

    /**
     Every cell of the grid in index order, looked up through `Cell`, so that
     afterwards each of them is cached. Slot `i` holds what `Cell(i)` returned,
     which is what it would have returned on the cache as it was before.
     */
    method Cells() returns (cells: array<Region>)
      requires PositiveCellSize()
      modifies this`cache
      ensures fresh(cells) && cells.Length == CellCount()
      ensures cache == Populated(old(cache), texture, CellWidth, CellHeight, cells.Length)
      ensures forall i :: 0 <= i < cells.Length ==> i in cache && cells[i] == cache[i]
      ensures forall i :: 0 <= i < cells.Length ==>
                cells[i] == CellStep(old(cache), texture, CellWidth, CellHeight, i).0
      ensures old(Coherent()) ==>
                Coherent() &&
                forall i :: 0 <= i < cells.Length ==> cells[i] == RegionFromSheet(texture, CellWidth, CellHeight, i)
    {
      var cellsNo := CellCount();
      cells := new Region[cellsNo];
      ghost var tex, tw, th, before := texture, CellWidth, CellHeight, cache;
      if cellsNo > 0 {
        NonEmptyGridSliceable(tex, tw, th);
      }
      var i := 0;
      while i < cellsNo
        invariant 0 <= i <= cellsNo == cells.Length
        invariant cellsNo > 0 ==> Sliceable(tex, tw)
        invariant cache == Populated(before, tex, tw, th, i)
        invariant forall j :: 0 <= j < i ==> cells[j] == CellStep(before, tex, tw, th, j).0
      {
        PopulatedThenStep(before, tex, tw, th, i);
        ghost var step := CellStep(cache, tex, tw, th, i);
        var r := Cell(i);
        assert r == step.0 == CellStep(before, tex, tw, th, i).0;
        assert cache == step.1 == Populated(before, tex, tw, th, i + 1);
        cells[i] := r;
        i := i + 1;
      }
      if cellsNo > 0 {
        PopulatedLookups(before, tex, tw, th, cellsNo);
        if CacheCoherent(before, tex, tw, th) {
          PopulatedCoherent(before, tex, tw, th, cellsNo);
        }
      }
    }

    /** Every cell as a drawable, in index order; slot for slot the same as `Cells`. */
    method Drawables() returns (drawables: array<Region>)
      requires PositiveCellSize()
      modifies this`cache
      ensures fresh(drawables) && drawables.Length == CellCount()
      ensures cache == Populated(old(cache), texture, CellWidth, CellHeight, drawables.Length)
      ensures forall i :: 0 <= i < drawables.Length ==> i in cache && drawables[i] == cache[i]
      ensures forall i :: 0 <= i < drawables.Length ==>
                drawables[i] == CellStep(old(cache), texture, CellWidth, CellHeight, i).0
      ensures old(Coherent()) ==>
                Coherent() &&
                forall i :: 0 <= i < drawables.Length ==> drawables[i] == RegionFromSheet(texture, CellWidth, CellHeight, i)
    {
      drawables := new Region[CellCount()];
      ghost var tex, tw, th, before := texture, CellWidth, CellHeight, cache;
      if drawables.Length > 0 {
        NonEmptyGridSliceable(tex, tw, th);
      }
      var i := 0;
      while i < CellCount()
        invariant 0 <= i <= CellCount() == drawables.Length
        invariant drawables.Length > 0 ==> Sliceable(tex, tw)
        invariant cache == Populated(before, tex, tw, th, i)
        invariant forall j :: 0 <= j < i ==> drawables[j] == CellStep(before, tex, tw, th, j).0
      {
        PopulatedThenStep(before, tex, tw, th, i);
        ghost var step := CellStep(cache, tex, tw, th, i);
        var d := Drawable(i);
        assert d == step.0 == CellStep(before, tex, tw, th, i).0;
        assert cache == step.1 == Populated(before, tex, tw, th, i + 1);
        drawables[i] := d;
        i := i + 1;
      }
      if drawables.Length > 0 {
        PopulatedLookups(before, tex, tw, th, drawables.Length);
        if CacheCoherent(before, tex, tw, th) {
          PopulatedCoherent(before, tex, tw, th, drawables.Length);
        }
      }
    }
  }
}
