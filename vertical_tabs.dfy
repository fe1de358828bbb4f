/**
 * Roving selection over a vertical tab list. Tabs are identified by index;
 * only their `disabled` flags matter here. `active` is the selected tab; the
 * keyboard moves DOM focus among the tab buttons, which the model keeps as
 * `focused`.
 */
module VerticalTabs {
  import Arith
  import opened Options

  // ---------------------------------------------------------------------------
  // Index arithmetic

  /** JavaScript's `%`: the remainder takes the sign of the dividend. */
  function TruncMod(a: int, n: int): (r: int)
    requires n > 0
    ensures a >= 0 ==> 0 <= r < n
    ensures -n < r < n
  {
    if a >= 0 then a % n else -((-a) % n)
  }

  /** `items[i]?.disabled`: an index outside the list reads as enabled. */
  predicate IsDisabled(d: seq<bool>, i: int) {
    0 <= i < |d| && d[i]
  }

  /** The index probed at `step`: `(from + dir*step + len) % len`. */
  function Probe(from: int, dir: int, step: int, len: int): int
    requires len > 0
  {
    TruncMod(from + dir * step + len, len)
  }

  /** Probing forwards from `from` in `[-1, len)` walks `from+1, from+2, ...` and wraps once. */
  lemma ProbeForward(from: int, step: int, len: int)
    requires len > 0 && -1 <= from < len && 1 <= step <= len
    ensures Probe(from, 1, step, len) == if from + step < len then from + step else from + step - len
  {
    var x := from + step + len;
    if from + step < len {
      Arith.DivMod(1, x - len, len);
    } else {
      Arith.DivMod(2, x - 2 * len, len);
    }
  }

  /** Probing backwards from `from` in `[0, len]` walks `from-1, from-2, ...` and wraps once. */
  lemma ProbeBackward(from: int, step: int, len: int)
    requires len > 0 && 0 <= from <= len && 1 <= step <= len
    ensures Probe(from, -1, step, len) == if from - step >= 0 then from - step else from - step + len
  {
    var x := from - step + len;
    if from - step >= 0 {
      Arith.DivMod(1, x - len, len);
    } else {
      Arith.DivMod(0, x, len);
    }
  }

  // ---------------------------------------------------------------------------
  // nextEnabled

  /** The search of `nextEnabled` from `step` on: the first enabled probe, else `from`. */
  function Scan(d: seq<bool>, from: int, dir: int, step: nat): int
    requires 1 <= step
    decreases |d| + 1 - step
  {
    if step > |d| then from
    else
      var idx := Probe(from, dir, step, |d|);
      if !IsDisabled(d, idx) then idx else Scan(d, from, dir, step + 1)
  }

  /** The index `nextEnabled(from, dir)` returns. */
  function NextEnabledSpec(d: seq<bool>, from: int, dir: int): int {
    Scan(d, from, dir, 1)
  }

  /**
   * The scan returns the first enabled probe from `step` on, or `from` when
   * every remaining probe is disabled.
   */
  lemma {:induction false} ScanFirst(d: seq<bool>, from: int, dir: int, step: nat)
    requires 1 <= step
    ensures var r := Scan(d, from, dir, step);
      || (exists s :: step <= s <= |d| && r == Probe(from, dir, s, |d|) && !IsDisabled(d, r)
            && forall t :: step <= t < s ==> IsDisabled(d, Probe(from, dir, t, |d|)))
      || (r == from && forall t :: step <= t <= |d| ==> IsDisabled(d, Probe(from, dir, t, |d|)))
    decreases |d| + 1 - step
  {
    if step <= |d| {
      var idx := Probe(from, dir, step, |d|);
      if IsDisabled(d, idx) {
        ScanFirst(d, from, dir, step + 1);
      } else {
        assert step <= step <= |d| && Scan(d, from, dir, step) == Probe(from, dir, step, |d|);
      }
    }
  }

  /** Some tab is enabled. */
  predicate SomeEnabled(d: seq<bool>) {
    exists i :: 0 <= i < |d| && !d[i]
  }

  /**
   * Moving forward from `from` in `[-1, len)` lands on the next enabled tab
   * after `from`, wrapping round to the first enabled tab when there is none.
   */
  lemma NextForward(d: seq<bool>, from: int)
    requires -1 <= from < |d| && SomeEnabled(d)
    ensures var r := NextEnabledSpec(d, from, 1);
      && 0 <= r < |d| && !d[r]
      && (r > from ==> forall i :: from < i < r ==> d[i])
      && (r <= from ==> (forall i :: from < i < |d| ==> d[i]) && forall i :: 0 <= i < r ==> d[i])
  {
    var len := |d|;
    var r := NextEnabledSpec(d, from, 1);
    ScanFirst(d, from, 1, 1);
    var e :| 0 <= e < len && !d[e];
    var se := if e > from then e - from else e - from + len;
    ProbeForward(from, se, len);
    assert !IsDisabled(d, Probe(from, 1, se, len));
    var s :| 1 <= s <= len && r == Probe(from, 1, s, len) && !IsDisabled(d, r)
      && forall t :: 1 <= t < s ==> IsDisabled(d, Probe(from, 1, t, len));
    ProbeForward(from, s, len);
    if from + s < len {
      forall i | from < i < r
        ensures d[i]
      {
        ProbeForward(from, i - from, len);
        assert IsDisabled(d, Probe(from, 1, i - from, len));
      }
    } else {
      forall i | from < i < len
        ensures d[i]
      {
        ProbeForward(from, i - from, len);
        assert IsDisabled(d, Probe(from, 1, i - from, len));
      }
      forall i | 0 <= i < r
        ensures d[i]
      {
        ProbeForward(from, i - from + len, len);
        assert IsDisabled(d, Probe(from, 1, i - from + len, len));
      }
    }
  }

  /**
   * Moving backward from `from` in `[0, len]` lands on the nearest enabled tab
   * before `from`, wrapping round to the last enabled tab when there is none.
   */
  lemma NextBackward(d: seq<bool>, from: int)
    requires 0 <= from <= |d| && SomeEnabled(d)
    ensures var r := NextEnabledSpec(d, from, -1);
      && 0 <= r < |d| && !d[r]
      && (r < from ==> forall i :: r < i < from ==> d[i])
      && (r >= from ==> (forall i :: 0 <= i < from ==> d[i]) && forall i :: r < i < |d| ==> d[i])
  {
    var len := |d|;
    var r := NextEnabledSpec(d, from, -1);
    ScanFirst(d, from, -1, 1);
    var e :| 0 <= e < len && !d[e];
    var se := if e < from then from - e else from - e + len;
    ProbeBackward(from, se, len);
    assert !IsDisabled(d, Probe(from, -1, se, len));
    var s :| 1 <= s <= len && r == Probe(from, -1, s, len) && !IsDisabled(d, r)
      && forall t :: 1 <= t < s ==> IsDisabled(d, Probe(from, -1, t, len));
    ProbeBackward(from, s, len);
    if from - s >= 0 {
      forall i | r < i < from
        ensures d[i]
      {
        ProbeBackward(from, from - i, len);
        assert IsDisabled(d, Probe(from, -1, from - i, len));
      }
    } else {
      forall i | 0 <= i < from
        ensures d[i]
      {
        ProbeBackward(from, from - i, len);
        assert IsDisabled(d, Probe(from, -1, from - i, len));
      }
      forall i | r < i < len
        ensures d[i]
      {
        ProbeBackward(from, from - i + len, len);
        assert IsDisabled(d, Probe(from, -1, from - i + len, len));
      }
    }
  }

  /** With every tab disabled, or no tabs at all, `nextEnabled` stays where it started. */
  lemma NextAllDisabled(d: seq<bool>, from: int, dir: int)
    requires !SomeEnabled(d)
    requires (dir == 1 && -1 <= from < |d|) || (dir == -1 && 0 <= from <= |d|)
    ensures NextEnabledSpec(d, from, dir) == from
  {
    ScanFirst(d, from, dir, 1);
  }

  /** `nextEnabled`: probe `step = 1..len` and return the first enabled index, else `from`. */
  method NextEnabled(d: seq<bool>, from: int, dir: int) returns (idx: int)
    ensures idx == NextEnabledSpec(d, from, dir)
  {
    var len := |d|;
    var step := 1;
    while step <= len
      invariant 1 <= step <= len + 1
      invariant Scan(d, from, dir, step) == NextEnabledSpec(d, from, dir)
    {
      var i := TruncMod(from + dir * step + len, len);
      if !(0 <= i < len && d[i]) {
        return i;
      }
      step := step + 1;
    }
    return from;
  }

  /** Home: `nextEnabled(-1, 1)` is the first enabled tab. */
  lemma HomeIsFirstEnabled(d: seq<bool>)
    requires SomeEnabled(d)
    ensures var r := NextEnabledSpec(d, -1, 1);
      0 <= r < |d| && !d[r] && forall i :: 0 <= i < r ==> d[i]
  {
    NextForward(d, -1);
  }

  /** The End key's target as written: `nextEnabled(len - 1, -1)`. */
  function EndTargetAsWritten(d: seq<bool>): int {
    NextEnabledSpec(d, |d| - 1, -1)
  }

  /** The End key's target as intended: `nextEnabled(len, -1)`, whose first probe is `len - 1`. */
  function EndTarget(d: seq<bool>): int {
    NextEnabledSpec(d, |d|, -1)
  }

  /** As written, End reaches the last tab only when no earlier tab is enabled. */
  lemma EndAsWrittenSkipsLast(d: seq<bool>)
    requires |d| >= 2 && exists i :: 0 <= i < |d| - 1 && !d[i]
    ensures var r := EndTargetAsWritten(d);
      && 0 <= r < |d| - 1 && !d[r]
      && forall i :: r < i < |d| - 1 ==> d[i]
  {
    NextBackward(d, |d| - 1);
  }

  /** Three enabled tabs: End as written moves focus to the middle one. */
  lemma EndAsWrittenExample()
    ensures EndTargetAsWritten([false, false, false]) == 1
    ensures EndTarget([false, false, false]) == 2
  {
    var d := [false, false, false];
    assert TruncMod(4, 3) == 1 && TruncMod(5, 3) == 2;
    assert !IsDisabled(d, 1) && !IsDisabled(d, 2);
    assert Scan(d, 2, -1, 1) == 1;
    assert Scan(d, 3, -1, 1) == 2;
  }

  /** End as intended: the last enabled tab. */
  lemma EndIsLastEnabled(d: seq<bool>)
    requires SomeEnabled(d)
    ensures var r := EndTarget(d);
      0 <= r < |d| && !d[r] && forall i :: r < i < |d| ==> d[i]
  {
    NextBackward(d, |d|);
  }

  // ---------------------------------------------------------------------------
  // Initial selection

  /** `findIndex((t, i) => !t.disabled && i >= safe)`, searching from `i` on; -1 when none. */
  function FindEnabledFrom(d: seq<bool>, safe: int, i: nat): (r: int)
    requires i <= |d|
    ensures r == -1 || (i <= r < |d| && r >= safe && !d[r])
    decreases |d| - i
  {
    if i == |d| then -1
    else if !d[i] && i >= safe then i
    else FindEnabledFrom(d, safe, i + 1)
  }

  /** `clamp(initialIndex, 0, len - 1)` as the source writes it, with `len - 1` floored at 0. */
  function SafeStart(len: nat, initialIndex: int): int {
    var lo := if 0 >= initialIndex then 0 else initialIndex;
    var hi := if 0 >= len - 1 then 0 else len - 1;
    if lo <= hi then lo else hi
  }

  /** The initial `active`: the first enabled tab at or after the safe start, else 0. */
  function InitialActive(d: seq<bool>, initialIndex: int): int {
    var r := FindEnabledFrom(d, SafeStart(|d|, initialIndex), 0);
    if r == -1 then 0 else r
  }

  lemma {:induction false} FindEnabledFromLeast(d: seq<bool>, safe: int, i: nat)
    requires i <= |d|
    ensures var r := FindEnabledFrom(d, safe, i);
      && (r == -1 <==> forall j :: i <= j < |d| && j >= safe ==> d[j])
      && (r != -1 ==> forall j :: i <= j < r && j >= safe ==> d[j])
    decreases |d| - i
  {
    if i < |d| && !(!d[i] && i >= safe) {
      FindEnabledFromLeast(d, safe, i + 1);
    }
  }

  /**
   * The initial selection is the first enabled tab at or after
   * `clamp(initialIndex, 0, len - 1)`; when there is none it is 0, even if
   * tab 0 is disabled.
   */
  lemma InitialActiveSpec(d: seq<bool>, initialIndex: int)
    ensures var safe := SafeStart(|d|, initialIndex);
      var a := InitialActive(d, initialIndex);
      && ((exists j :: safe <= j < |d| && !d[j]) ==>
            safe <= a < |d| && !d[a] && forall j :: safe <= j < a ==> d[j])
      && ((forall j :: safe <= j < |d| ==> d[j]) ==> a == 0)
  {
    var safe := SafeStart(|d|, initialIndex);
    FindEnabledFromLeast(d, safe, 0);
    assert safe >= 0;
  }

  // ---------------------------------------------------------------------------
  // Rendering

  /** `tabIndex`: 0 on the selected tab, -1 elsewhere. */
  function TabIndex(i: int, active: int): int {
    if i == active then 0 else -1
  }

  /** `hidden` on panel `i`. */
  predicate Hidden(i: int, active: int) {
    i != active
  }

  /**
   * While `active` names a rendered tab, exactly that tab is in the tab order
   * and only its panel shows. Once the list has shrunk below `active`, no tab
   * is in the tab order and every panel is hidden.
   */
  lemma SingleTabStop(n: nat, active: int)
    ensures (set i | 0 <= i < n && TabIndex(i, active) == 0) == (if 0 <= active < n then {active} else {})
    ensures forall i :: 0 <= i < n ==> (!Hidden(i, active) <==> i == active)
    ensures !(0 <= active < n) ==> forall i :: 0 <= i < n ==> Hidden(i, active)
  {
    var s := set i | 0 <= i < n && TabIndex(i, active) == 0;
    if 0 <= active < n {
      assert active in s;
    }
  }

  // ---------------------------------------------------------------------------
  // The component

  datatype Key = ArrowUp | ArrowDown | Home | End | Enter | Space | Other

  class Tabs {
    /** The `disabled` flags of the `items` prop, which a parent may replace. */
    var disabled: seq<bool>
    var active: int
    /** The tab button holding focus, once a key handler has moved it. */
    var focused: Option<int>

    /** `active` names a rendered tab, or is 0 while there are no tabs. */
    predicate Valid()
      reads this
    {
      if |disabled| == 0 then active == 0 else 0 <= active < |disabled|
    }

    constructor(disabled: seq<bool>, initialIndex: int)
      ensures Valid()
      ensures this.disabled == disabled
      ensures active == InitialActive(disabled, initialIndex)
      ensures focused == None
    {
      this.disabled := disabled;
      active := InitialActive(disabled, initialIndex);
      focused := None;
      InitialActiveSpec(disabled, initialIndex);
    }

    /**
     * A new `items` prop. The `useState` initialiser has already run, so
     * `active` is kept as it is even when it no longer names a tab.
     */
    method SetItems(d: seq<bool>)
      modifies this`disabled
      ensures disabled == d
      ensures Valid() <==> (if |d| == 0 then active == 0 else 0 <= active < |d|)
    {
      disabled := d;
    }

    /** `focusAt(i)`: focus moves only to a rendered button. */
    method FocusAt(i: int)
      modifies this`focused
      ensures focused == (if 0 <= i < |disabled| then Some(i) else old(focused))
    {
      if 0 <= i < |disabled| {
        focused := Some(i);
      }
    }

    /** A click on tab `i` selects it unless it is disabled. */
    method Click(i: int)
      requires 0 <= i < |disabled|
      modifies this`active
      ensures active == (if disabled[i] then old(active) else i)
      ensures !disabled[i] || old(Valid()) ==> Valid()
    {
      if !disabled[i] {
        active := i;
      }
    }

    /**
     * A key on tab `i`. Disabled tabs ignore keys; arrows, Home and End move
     * focus only; Enter and Space select tab `i`.
     */
    method KeyDown(i: int, key: Key)
      requires 0 <= i < |disabled|
      modifies this`active, this`focused
      ensures active == (if !disabled[i] && key in {Enter, Space} then i else old(active))
      ensures disabled[i] || key in {Enter, Space, Other} ==> focused == old(focused)
      ensures !disabled[i] && key == ArrowUp ==> focused == Some(NextEnabledSpec(disabled, i, -1))
      ensures !disabled[i] && key == ArrowDown ==> focused == Some(NextEnabledSpec(disabled, i, 1))
      ensures !disabled[i] && key == Home ==> focused == Some(NextEnabledSpec(disabled, -1, 1))
      ensures !disabled[i] && key == End ==> focused == Some(EndTargetAsWritten(disabled))
      ensures old(Valid()) ==> Valid()
    {
      if disabled[i] {
        return;
      }
      assert SomeEnabled(disabled);
      match key {
        case ArrowUp =>
          var idx := NextEnabled(disabled, i, -1);
          NextBackward(disabled, i);
          FocusAt(idx);
        case ArrowDown =>
          var idx := NextEnabled(disabled, i, 1);
          NextForward(disabled, i);
          FocusAt(idx);
        case Home =>
          var idx := NextEnabled(disabled, -1, 1);
          NextForward(disabled, -1);
          FocusAt(idx);
        case End =>
          var idx := NextEnabled(disabled, |disabled| - 1, -1);
          NextBackward(disabled, |disabled| - 1);
          FocusAt(idx);
        case Enter =>
          active := i;
        case Space =>
          active := i;
        case Other =>
      }
    }
  }
}
