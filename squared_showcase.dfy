/**
 * The squared showcase: a grid of tiles drawn in a tilted 3D view, stacked so
 * that lower and more leftward tiles overlap the rest, with a header that shows
 * the description of the last tile hovered or focused.
 */
module SquaredShowcase {
  import Arith
  import Shadow
  import opened Options

  datatype Description = Description(title: string, text: string)

  /** One tile; `imgSrc`, `svg` and `imgAlt` only affect the markup and are not modelled. */
  datatype GridItem = GridItem(labelText: string, color: Option<string>, desc: Option<Description>)

  const DefaultCols: nat := 4
  const DefaultIdleTitle: string := "Hover or focus a square"
  const DefaultTileColor: string := "#E0E0E0"

  // ---------------------------------------------------------------------------
  // Stacking order

  /** `Math.floor(i / cols)`. */
  function Row(i: nat, cols: nat): nat
    requires cols > 0
  {
    i / cols
  }

  /** `i % cols`. */
  function Col(i: nat, cols: nat): (c: nat)
    requires cols > 0
    ensures c < cols
  {
    i % cols
  }

  /** `row * cols + (cols - 1 - col)`: the tile's `zIndex`. */
  function ZIndex(i: nat, cols: nat): (z: int)
    requires cols > 0
    ensures Row(i, cols) * cols <= z <= Row(i, cols) * cols + cols - 1
  {
    Row(i, cols) * cols + (cols - 1 - Col(i, cols))
  }

  /** The stacking index encodes the tile's row and its column counted from the right. */
  lemma ZIndexDecodes(i: nat, cols: nat)
    requires cols > 0
    ensures ZIndex(i, cols) / cols == Row(i, cols)
    ensures ZIndex(i, cols) % cols == cols - 1 - Col(i, cols)
  {
    Arith.DivMod(Row(i, cols), cols - 1 - Col(i, cols), cols);
  }

  /** Distinct tiles never share a stacking index. */
  lemma ZIndexInjective(i: nat, j: nat, cols: nat)
    requires cols > 0
    requires ZIndex(i, cols) == ZIndex(j, cols)
    ensures i == j
  {
    ZIndexDecodes(i, cols);
    ZIndexDecodes(j, cols);
    Arith.DivModSplit(i, cols);
    Arith.DivModSplit(j, cols);
  }

  /**
   * Within a row the stacking index falls from left to right, and every tile of
   * a lower row lies above every tile of a higher one.
   */
  lemma ZIndexOrder(i: nat, j: nat, cols: nat)
    requires cols > 0
    ensures Row(i, cols) == Row(j, cols) && Col(i, cols) < Col(j, cols) ==> ZIndex(i, cols) > ZIndex(j, cols)
    ensures Row(i, cols) > Row(j, cols) ==> ZIndex(i, cols) > ZIndex(j, cols)
  {
    if Row(i, cols) > Row(j, cols) {
      Arith.MulMonotone(Row(i, cols), Row(j, cols) + 1, cols);
    }
  }

  // ---------------------------------------------------------------------------
  // Header

  /**
   * `title`: the idle title when no tile is displayed, else the tile's
   * description title falling back to its label (`labelText`). `None` stands for the
   * `undefined` an index past the end of `items` would give.
   */
  function Title(items: seq<GridItem>, displayed: Option<nat>, idleTitle: string): (t: Option<string>)
    ensures displayed.None? ==> t == Some(idleTitle)
    ensures t.None? <==> displayed.Some? && displayed.value >= |items|
  {
    match displayed
    case None => Some(idleTitle)
    case Some(d) =>
      if d < |items| then
        Some(if items[d].desc.Some? then items[d].desc.value.title else items[d].labelText)
      else None
  }

  /** `text`: the displayed tile's description text, or nothing. */
  function Text(items: seq<GridItem>, displayed: Option<nat>): (t: Option<string>)
    ensures t.Some? ==> displayed.Some? && displayed.value < |items| && items[displayed.value].desc.Some?
  {
    match displayed
    case None => None
    case Some(d) =>
      if d < |items| && items[d].desc.Some? then Some(items[d].desc.value.text) else None
  }

  /** The paragraph under the title appears only for a non-empty text (`text && ...`). */
  predicate ShowsText(items: seq<GridItem>, displayed: Option<nat>) {
    var t := Text(items, displayed);
    t.Some? && t.value != ""
  }

  /** For a displayed tile the title is its description's title when it has one, else its label. */
  lemma TitleOfTile(items: seq<GridItem>, d: nat, idleTitle: string)
    requires d < |items|
    ensures items[d].desc.Some? ==> Title(items, Some(d), idleTitle) == Some(items[d].desc.value.title)
    ensures items[d].desc.None? ==> Title(items, Some(d), idleTitle) == Some(items[d].labelText)
    ensures items[d].desc.None? ==> !ShowsText(items, Some(d))
  {
  }

  // ---------------------------------------------------------------------------
  // Tile shadow

  /** The options every tile passes to `makeShadowStack`. */
  function TileOptions(): Shadow.ShadowOptions {
    Shadow.DefaultOptions().(direction := (-1.0, 1.0), steps := 12, noBlur := false,
      includeGlows := true, darkenPerStep := 0.0)
  }

  /** `item.color ?? "#E0E0E0"`. */
  function TileBase(item: GridItem): string {
    item.color.GetOr(DefaultTileColor)
  }

  /**
   * A tile's shadow has 12 hard layers and the 5 default glows, 17 in all; with
   * no darkening per step every hard layer has the colour `darkenHex(base, 0)`.
   */
  lemma TileShadowShape(base: string, darken: Shadow.Darken)
    requires Shadow.HexInput(base)
    ensures var ls := Shadow.ShadowLayers(base, TileOptions(), darken);
      |ls| == 17 &&
      (forall i :: 0 <= i < 12 ==> ls[i].Hard? && ls[i].color == darken(base, 0.0)) &&
      (forall k :: 12 <= k < 17 ==> ls[k].Soft? && ls[k].rgb == Shadow.HexToRgb(base))
  {
    var ls := Shadow.ShadowLayers(base, TileOptions(), darken);
    Shadow.ShadowLayerCount(base, TileOptions(), darken);
    forall i | 0 <= i < 12
      ensures ls[i].Hard? && ls[i].color == darken(base, 0.0)
    {
      Shadow.HardLayerShape(base, TileOptions(), darken, i);
    }
    forall k | 12 <= k < 17
      ensures ls[k].Soft? && ls[k].rgb == Shadow.HexToRgb(base)
    {
      Shadow.GlowLayerShape(base, TileOptions(), darken, k - 12);
    }
  }

  // ---------------------------------------------------------------------------
  // The component

  class Showcase {
    const items: seq<GridItem>
    const cols: nat
    const idleTitle: string
    /** The tile last hovered or focused. */
    var active: Option<nat>
    /** The tile the header shows; it follows `active` once the fade-out ends. */
    var displayedIndex: Option<nat>
    var isFadingOut: bool

    ghost predicate Valid()
      reads this
    {
      cols > 0 &&
      (active.Some? ==> active.value < |items|) &&
      (displayedIndex.Some? ==> displayedIndex.value < |items|)
    }

    constructor(items: seq<GridItem>, cols: nat, idleTitle: string)
      requires cols > 0
      ensures Valid()
      ensures this.items == items && this.cols == cols && this.idleTitle == idleTitle
      ensures active == None && displayedIndex == None && !isFadingOut
    {
      this.items := items;
      this.cols := cols;
      this.idleTitle := idleTitle;
      active := None;
      displayedIndex := None;
      isFadingOut := false;
    }

    /** `onMouseEnter` / `onFocus` on tile `i`: the tile becomes active; nothing resets it. */
    method Activate(i: nat)
      requires Valid() && i < |items|
      modifies this
      ensures Valid()
      ensures active == Some(i)
      ensures displayedIndex == old(displayedIndex) && isFadingOut == old(isFadingOut)
    {
      active := Some(i);
    }

    /** The effect on a change of `active`: the header starts fading out. */
    method StartFade()
      requires Valid()
      modifies this
      ensures Valid()
      ensures isFadingOut
      ensures active == old(active) && displayedIndex == old(displayedIndex)
    {
      isFadingOut := true;
    }

    /** The fade timer fires: the header takes the active tile and fades back in. */
    method FinishFade()
      requires Valid()
      modifies this
      ensures Valid()
      ensures displayedIndex == active && !isFadingOut
      ensures active == old(active)
    {
      displayedIndex := active;
      isFadingOut := false;
    }

    /** `aria-pressed` of tile `i`. */
    predicate Pressed(i: nat)
      reads this
    {
      active == Some(i)
    }

    function HeaderTitle(): (t: Option<string>)
      reads this
    {
      Title(items, displayedIndex, idleTitle)
    }
  }

  /** In every reachable state the header has a title, and at most one tile is pressed. */
  lemma HeaderWellDefined(s: Showcase, i: nat, j: nat)
    requires s.Valid()
    ensures s.HeaderTitle().Some?
    ensures s.Pressed(i) && s.Pressed(j) ==> i == j
  {
  }
}
