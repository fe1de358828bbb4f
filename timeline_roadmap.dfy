/**
 * The experience roadmap: milestones laid out on alternating sides with a
 * tone each, a reveal counter driven by cards scrolling into view, the
 * progress line it sets, and ArrowUp/ArrowDown stepping between cards.
 */
module TimelineRoadmap {
  import Shadow
  import opened Options

  // ---------------------------------------------------------------------------
  // Palette and tones

  const Base0: string := "#000"
  const Base1: string := "#2a2a2a"
  const Base2: string := "#222121"
  const Paper: string := "#fafcfc"
  const Soft: string := "#e5e4e3"
  const AccentA: string := "#00d3f3"
  const AccentB: string := "#00bc7d"

  datatype Side = Left | Right
  datatype Tone = Light | Dark | Accent

  /** The classes a card of one tone is drawn with. */
  datatype ToneSet = ToneSet(
    card: string, eyebrow: string, text: string,
    badgeWrap: string, badgeText: string, dot: string, border: string)

  /** `toneClasses`: the dark set, the accent set, and the light set for every other tone. */
  function ToneClasses(tone: Tone): ToneSet {
    match tone
    case Dark => ToneSet(
      "bg-[#222121] text-[#fafcfc] shadow-[0_10px_40px_rgba(0,0,0,0.14)]",
      "text-[#e5e4e3]/80", "text-[#e5e4e3]/90",
      "bg-[#fafcfc]", "text-[#000]", "bg-[#2a2a2a]", "border-transparent")
    case Accent => ToneSet(
      "bg-[#000] text-[#fafcfc] shadow-[0_10px_40px_rgba(0,0,0,0.18)]",
      "text-[#e5e4e3]/80", "text-[#e5e4e3]/90",
      "bg-[#fafcfc]", "text-[#000]", "bg-[#00d3f3]", "border-transparent")
    case Light => ToneSet(
      "bg-[#fafcfc] text-[#000] shadow-[0_10px_40px_rgba(0,0,0,0.08)]",
      "text-[#2a2a2a]/70", "text-[#2a2a2a]/80",
      "bg-[#000]", "text-[#fafcfc]", "bg-[#2a2a2a]", "border-[#e5e4e3]")
  }

  /** The inline colour of a milestone's dot on the line. */
  function DotColor(tone: Tone): string {
    if tone == Accent then AccentA else if tone == Dark then Base1 else Base1
  }

  /**
   * The dot is accent-coloured only for the accent tone, and its inline colour
   * always agrees with the `dot` class of the tone's class set.
   */
  lemma DotColorAgrees(tone: Tone)
    ensures DotColor(tone) == (if tone == Accent then AccentA else Base1)
    ensures ToneClasses(tone).dot == "bg-[" + DotColor(tone) + "]"
  {
  }

  /** Dark and accent cards share their text and badge classes and differ in card and dot. */
  lemma DarkAccentShare()
    ensures ToneClasses(Dark).(card := "", dot := "") == ToneClasses(Accent).(card := "", dot := "")
    ensures ToneClasses(Dark).card != ToneClasses(Accent).card
    ensures ToneClasses(Dark).dot != ToneClasses(Accent).dot
  {
  }

  // ---------------------------------------------------------------------------
  // Normalisation

  datatype Milestone = Milestone(
    id: string, indexLabel: string, eyebrow: string, title: string, description: string,
    side: Option<Side>, tone: Option<Tone>)

  /** The side of milestone `idx` when none is given: left at even positions, right at odd. */
  function DefaultSide(idx: nat): Side {
    if idx % 2 == 0 then Left else Right
  }

  /** The tone of milestone `idx` when none is given: dark at positions `3k + 1`, else light. */
  function DefaultTone(idx: nat): Tone {
    if idx % 3 == 1 then Dark else Light
  }

  /** One milestone with `side ?? default` and `tone ?? default` filled in. */
  function NormalizeOne(m: Milestone, idx: nat): Milestone {
    m.(side := Some(m.side.GetOr(DefaultSide(idx))), tone := Some(m.tone.GetOr(DefaultTone(idx))))
  }

  /** `normalized`: every milestone with its side and tone resolved. */
  function Normalize(ms: seq<Milestone>): (r: seq<Milestone>)
    ensures |r| == |ms|
    ensures forall i :: 0 <= i < |ms| ==> r[i] == NormalizeOne(ms[i], i)
  {
    seq(|ms|, i requires 0 <= i < |ms| => NormalizeOne(ms[i], i))
  }

  /**
   * Normalisation keeps order and every other field, keeps an explicit side or
   * tone, and otherwise alternates sides and makes every third milestone dark.
   */
  lemma NormalizeSpec(ms: seq<Milestone>, i: nat)
    requires i < |ms|
    ensures var n := Normalize(ms)[i];
      && n.id == ms[i].id && n.indexLabel == ms[i].indexLabel && n.eyebrow == ms[i].eyebrow
      && n.title == ms[i].title && n.description == ms[i].description
      && n.side.Some? && n.tone.Some?
      && (ms[i].side.Some? ==> n.side == ms[i].side)
      && (ms[i].side.None? ==> n.side.value == (if i % 2 == 0 then Left else Right))
      && (ms[i].tone.Some? ==> n.tone == ms[i].tone)
      && (ms[i].tone.None? ==> n.tone.value == (if i % 3 == 1 then Dark else Light))
  {
  }

  /** Normalising again changes nothing: resolved sides and tones are kept. */
  lemma NormalizeIdempotent(ms: seq<Milestone>)
    ensures Normalize(Normalize(ms)) == Normalize(ms)
  {
    var n := Normalize(ms);
    assert forall i :: 0 <= i < |n| ==> NormalizeOne(n[i], i) == n[i];
  }

  // ---------------------------------------------------------------------------
  // Reveal counter and progress line

  /** The share of the line that is filled: `clamp(visibleCount / (len || 1), 0, 1)`. */
  function ProgressFraction(visibleCount: int, count: nat): (p: real)
    ensures 0.0 <= p <= 1.0
  {
    var total := if count == 0 then 1 else count;
    Shadow.Clamp(visibleCount as real / total as real, 0.0, 1.0)
  }

  /** With the counter in range the fraction is exact, and the line is full once every card is shown. */
  lemma ProgressExact(visibleCount: int, count: nat)
    requires count > 0 && 0 <= visibleCount <= count
    ensures ProgressFraction(visibleCount, count) == visibleCount as real / count as real
    ensures visibleCount == count ==> ProgressFraction(visibleCount, count) == 1.0
  {
    assert visibleCount as real / count as real <= 1.0;
  }

  /** A higher counter never draws a shorter line. */
  lemma ProgressMonotone(a: int, b: int, count: nat)
    requires a <= b
    ensures ProgressFraction(a, count) <= ProgressFraction(b, count)
  {
    var total := if count == 0 then 1 else count;
    var x, y := a as real / total as real, b as real / total as real;
    assert y - x == (b - a) as real / total as real;
  }

  class Roadmap {
    const count: nat
    var visibleCount: int

    ghost predicate Valid()
      reads this
    {
      0 <= visibleCount <= count
    }

    constructor(count: nat)
      ensures Valid() && this.count == count && visibleCount == 0
    {
      this.count := count;
      visibleCount := 0;
    }

    /** Card `i` came into view: `setVisibleCount(prev => max(prev, i + 1))`. */
    method Reveal(i: nat)
      requires Valid() && i < count
      modifies this
      ensures Valid()
      ensures visibleCount == (if old(visibleCount) >= i + 1 then old(visibleCount) else i + 1)
      ensures old(visibleCount) <= visibleCount
    {
      if visibleCount < i + 1 {
        visibleCount := i + 1;
      }
    }

    function Progress(): (p: real)
      reads this
      ensures 0.0 <= p <= 1.0
    {
      ProgressFraction(visibleCount, count)
    }
  }

  // ---------------------------------------------------------------------------
  // Keyboard stepping

  datatype Key = ArrowUp | ArrowDown | OtherKey

  /**
   * The card to focus after a key, given the index of the focused card
   * (`findIndex`, so -1 when no card has focus); `None` when nothing moves.
   */
  function NextIndex(key: Key, current: int, len: nat): (r: Option<int>)
    requires -1 <= current < len
    ensures r.Some? <==> key != OtherKey && len > 0
    ensures r.Some? ==> 0 <= r.value < len
  {
    if key == OtherKey || len == 0 then None
    else if key == ArrowDown then
      Some(if current < 0 then 0 else if current + 1 <= len - 1 then current + 1 else len - 1)
    else
      Some(if current < 0 then len - 1 else if current - 1 >= 0 then current - 1 else 0)
  }

  /**
   * From no focused card ArrowDown goes to the first card and ArrowUp to the
   * last; otherwise each moves one card and stops at the ends.
   */
  lemma NextIndexSteps(current: int, len: nat)
    requires -1 <= current < len && len > 0
    ensures current == -1 ==> NextIndex(ArrowDown, current, len) == Some(0)
    ensures current == -1 ==> NextIndex(ArrowUp, current, len) == Some(len - 1)
    ensures 0 <= current < len - 1 ==> NextIndex(ArrowDown, current, len) == Some(current + 1)
    ensures current == len - 1 ==> NextIndex(ArrowDown, current, len) == Some(current)
    ensures 0 < current ==> NextIndex(ArrowUp, current, len) == Some(current - 1)
    ensures current == 0 ==> NextIndex(ArrowUp, current, len) == Some(0)
  {
  }

  /** Down then up returns to the card one started from, except from the last card. */
  lemma DownThenUp(current: int, len: nat)
    requires 0 <= current < len - 1
    ensures NextIndex(ArrowUp, NextIndex(ArrowDown, current, len).value, len) == Some(current)
  {
  }
}
