/**
 * The vertical timeline slider: a selected index clamped into the item range,
 * a progress fill measured from the bottom of the track, and dots that show
 * as active, passed or idle.
 */
module TimelineSlider {
  import opened Options

  // ---------------------------------------------------------------------------
  // Index clamping

  /** `max(len - 1, 0)`: the last selectable index. */
  function MaxIndex(count: nat): (m: nat)
    ensures count > 0 ==> m == count - 1
    ensures count == 0 ==> m == 0
  {
    if count - 1 >= 0 then count - 1 else 0
  }

  /** `min(max(v, 0), max)`. */
  function ClampIndex(v: int, max: nat): (r: int)
    ensures 0 <= r <= max
    ensures 0 <= v <= max ==> r == v
    ensures v < 0 ==> r == 0
    ensures v > max ==> r == max
  {
    var lo := if v >= 0 then v else 0;
    if lo <= max then lo else max
  }

  /** `clampedInitial`: `min(max(initialIndex, 0), max(0, len - 1))`. */
  function ClampedInitial(count: nat, initialIndex: int): int {
    var lo := if initialIndex >= 0 then initialIndex else 0;
    var hi := if 0 >= count - 1 then 0 else count - 1;
    if lo <= hi then lo else hi
  }

  /** The initial index is the slider's clamp applied to `initialIndex`. */
  lemma ClampedInitialIsClamp(count: nat, initialIndex: int)
    ensures ClampedInitial(count, initialIndex) == ClampIndex(initialIndex, MaxIndex(count))
  {
  }

  // ---------------------------------------------------------------------------
  // Track geometry (exact arithmetic)

  /** `progressPct`: 0 with a single item, `index / max * 100` otherwise. */
  function ProgressPct(index: int, max: nat): (p: real)
    ensures max == 0 ==> p == 0.0
  {
    if max == 0 then 0.0 else (index as real / max as real) * 100.0
  }

  /** The fill is a percentage of the track for every index the slider can hold. */
  lemma ProgressInRange(index: int, max: nat)
    requires 0 <= index <= max
    ensures 0.0 <= ProgressPct(index, max) <= 100.0
    ensures max > 0 && index == max ==> ProgressPct(index, max) == 100.0
  {
    if max > 0 {
      assert index as real / max as real <= 1.0;
    }
  }

  /** `posPct`: where dot `i` sits, in percent from the top of the track. */
  function PosPct(i: int, max: nat): real {
    if max > 0 then (1.0 - i as real / max as real) * 100.0 else 0.0
  }

  /** Item 0 sits at the bottom of the track and item `max` at the top. */
  lemma PosEnds(max: nat)
    requires max > 0
    ensures PosPct(0, max) == 100.0 && PosPct(max, max) == 0.0
  {
  }

  /** The margin `withinFill` compares against `epsilon`: dot position minus the top of the fill. */
  lemma FillMargin(i: int, index: int, max: nat)
    requires max > 0
    ensures PosPct(i, max) - (100.0 - ProgressPct(index, max)) == (index - i) as real * (100.0 / max as real)
  {
    var m := max as real;
    assert i as real / m == i as real * (1.0 / m);
    assert index as real / m == index as real * (1.0 / m);
    assert 100.0 / m == 100.0 * (1.0 / m);
  }

  /** `withinFill`, with the tolerance as a parameter: the dot lies in the filled part. */
  predicate WithinFillTol(i: int, index: int, max: nat, tol: real) {
    max > 0 && PosPct(i, max) >= (100.0 - ProgressPct(index, max)) - tol
  }

  /** `withinFill` as written, with a fixed tolerance of 0.001 percent. */
  predicate WithinFill(i: int, index: int, max: nat) {
    WithinFillTol(i, index, max, 0.001)
  }

  /** `passed` as written: not the active dot, and inside the fill. */
  predicate PassedAsWritten(i: int, index: int, max: nat) {
    i != index && WithinFill(i, index, max)
  }

  /**
   * `passed` with the tolerance scaled to half the spacing between two dots,
   * so that it still absorbs rounding but never covers the next dot.
   */
  predicate Passed(i: int, index: int, max: nat) {
    i != index && WithinFillTol(i, index, max, if max > 0 then 50.0 / max as real else 0.0)
  }

  /** Dots with a tolerance below one dot spacing: passed exactly when below the selection. */
  lemma PassedWithTol(i: int, index: int, max: nat, tol: real)
    requires max > 0 && 0.0 <= tol < 100.0 / max as real
    ensures (i != index && WithinFillTol(i, index, max, tol)) <==> i < index
  {
    FillMargin(i, index, max);
    var gap := 100.0 / max as real;
    if i > index {
      assert (index - i) as real * gap <= -gap;
    } else {
      assert (index - i) as real * gap >= 0.0;
    }
  }

  /** With the tolerance scaled to the spacing, dot `i` is passed exactly when `i < index`. */
  lemma PassedIff(i: int, index: int, max: nat)
    requires max > 0
    ensures Passed(i, index, max) <==> i < index
  {
    PassedWithTol(i, index, max, 50.0 / max as real);
  }

  /** As written the rule holds while the dots are at least 0.001 percent apart ... */
  lemma PassedAsWrittenIff(i: int, index: int, max: nat)
    requires 0 < max < 100000
    ensures PassedAsWritten(i, index, max) <==> i < index
  {
    assert 100.0 / max as real > 0.001;
    PassedWithTol(i, index, max, 0.001);
  }

  /** ... and fails from 100000 spacings on: the dot just above the selection counts as passed. */
  lemma PassedAsWrittenOvershoot()
    ensures PassedAsWritten(1, 0, 100000)
  {
    FillMargin(1, 0, 100000);
  }

  /** How a dot is drawn. */
  datatype Dot = Active | PassedDot | Idle

  /** The dot's look as the source decides it, with the fixed 0.001 tolerance. */
  function DotState(i: int, index: int, max: nat): Dot {
    if i == index then Active else if PassedAsWritten(i, index, max) then PassedDot else Idle
  }

  /**
   * Below 100000 spacings, exactly the selected dot is active; the dots below
   * it are passed, the ones above idle.
   */
  lemma DotStates(i: int, index: int, max: nat)
    requires 0 < max < 100000
    ensures DotState(i, index, max) == Active <==> i == index
    ensures DotState(i, index, max) == PassedDot <==> i < index
    ensures DotState(i, index, max) == Idle <==> i > index
  {
    PassedAsWrittenIff(i, index, max);
  }

  /** From 100000 spacings on, the dot above the selection is drawn as passed. */
  lemma DotStateOvershoot()
    ensures DotState(1, 0, 100000) == PassedDot
  {
    PassedAsWrittenOvershoot();
  }

  /** The dot's look with the spacing-scaled tolerance of `Passed`. */
  function DotStateIntended(i: int, index: int, max: nat): Dot {
    if i == index then Active else if Passed(i, index, max) then PassedDot else Idle
  }

  /** With the scaled tolerance the three looks split the dots for every track length. */
  lemma DotStatesIntended(i: int, index: int, max: nat)
    requires max > 0
    ensures DotStateIntended(i, index, max) == Active <==> i == index
    ensures DotStateIntended(i, index, max) == PassedDot <==> i < index
    ensures DotStateIntended(i, index, max) == Idle <==> i > index
  {
    PassedIff(i, index, max);
  }

  // ---------------------------------------------------------------------------
  // The component

  /** What the right-hand panel renders. */
  datatype Panel =
    | NoItems            // the "No timeline items." placeholder
    | Shows(item: nat)   // the title, subtitle and content of `items[item]`
    | Throws             // `items[index]` is undefined, so reading `.title` throws

  /**
   * The panel for `count` items at `index`: the placeholder for an empty
   * list, otherwise `items[index]`, which throws when the list has shrunk
   * below the index the slider still holds.
   */
  function ContentIndex(count: nat, index: int): (r: Panel)
    ensures r == NoItems <==> count == 0
    ensures r.Shows? <==> 0 <= index < count
    ensures r.Shows? ==> r.item == index
    ensures r == Throws <==> count > 0 && !(0 <= index < count)
  {
    if count == 0 then NoItems
    else if 0 <= index < count then Shows(index)
    else Throws
  }

  /** An index the slider has clamped always reaches an item, or the placeholder. */
  lemma ClampedIndexShows(count: nat, index: int)
    requires 0 <= index <= MaxIndex(count)
    ensures ContentIndex(count, index) != Throws
    ensures count > 0 ==> ContentIndex(count, index) == Shows(index)
  {
  }

  /** A slider at index 2 whose list shrinks to one item throws on its next render. */
  lemma ShrinkThrowsExample()
    ensures ContentIndex(3, 2) == Shows(2)
    ensures ContentIndex(1, 2) == Throws
  {
  }

  class Slider {
    /** `items.length`; a parent may pass a new list at any render. */
    var count: nat
    var index: int
    /** The indices passed to `onChange`, oldest first. */
    var notified: seq<int>

    ghost predicate Valid()
      reads this
    {
      0 <= index <= MaxIndex(count)
    }

    constructor(count: nat, initialIndex: int)
      ensures Valid()
      ensures this.count == count && index == ClampedInitial(count, initialIndex)
      ensures notified == []
    {
      this.count := count;
      index := ClampedInitial(count, initialIndex);
      notified := [];
    }

    /**
     * A new `items` prop, as written: `useState` used `clampedInitial` only
     * once, so `index` is kept even when it is now past the last item.
     */
    method SetItems(n: nat)
      modifies this`count
      ensures count == n && index == old(index)
      ensures Valid() <==> 0 <= index <= MaxIndex(n)
      ensures n > 0 && index >= n ==> ContentIndex(count, index) == Throws
    {
      count := n;
    }

    /** A new `items` prop with the index re-clamped into the new list. */
    method SetItemsReclamped(n: nat)
      modifies this`count, this`index
      ensures count == n && index == ClampIndex(old(index), MaxIndex(n))
      ensures Valid()
      ensures ContentIndex(count, index) != Throws
    {
      count := n;
      index := ClampIndex(index, MaxIndex(n));
      ClampedIndexShows(count, index);
    }

    /** `handleSetIndex(v)`: store the clamped value and report that same value. */
    method SetIndex(v: int)
      modifies this`index, this`notified
      ensures Valid()
      ensures index == ClampIndex(v, MaxIndex(count))
      ensures notified == old(notified) + [index]
    {
      var val := ClampIndex(v, MaxIndex(count));
      index := val;
      notified := notified + [val];
    }

    predicate PrevDisabled()
      reads this
    {
      index == 0
    }

    predicate NextDisabled()
      reads this
    {
      index == MaxIndex(count)
    }

    /** Prev: one step down, unless the button is disabled at index 0. */
    method Prev()
      requires Valid()
      modifies this`index, this`notified
      ensures Valid()
      ensures old(PrevDisabled()) ==> index == old(index) && notified == old(notified)
      ensures !old(PrevDisabled()) ==> index == old(index) - 1 && notified == old(notified) + [index]
    {
      if index != 0 {
        SetIndex(index - 1);
      }
    }

    /** Next: one step up, unless the button is disabled at the last index. */
    method Next()
      requires Valid()
      modifies this`index, this`notified
      ensures Valid()
      ensures old(NextDisabled()) ==> index == old(index) && notified == old(notified)
      ensures !old(NextDisabled()) ==> index == old(index) + 1 && notified == old(notified) + [index]
    {
      if index != MaxIndex(count) {
        SetIndex(index + 1);
      }
    }
  }
}
