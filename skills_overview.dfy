/**
 * The skills overview: sections of cards laid out in CSS columns whose count
 * grows with the breakpoint, each card optionally showing a five-step level bar.
 */
module SkillsOverview {
  import Strings
  import opened Options

  // ---------------------------------------------------------------------------
  // Column classes

  const OneColumn: string := "columns-1"
  const TwoColumns: string := "columns-1 sm:columns-2"
  const ThreeColumns: string := "columns-1 sm:columns-2 lg:columns-3"
  const FourColumns: string := "columns-1 sm:columns-2 lg:columns-3 xl:columns-4"

  /** `getColumnsClass(columns)`: 1, 2 and 4 have their own strings; anything else gets three columns. */
  function ColumnsClass(columns: Option<int>): string {
    var cols := columns.GetOr(3);
    if cols == 1 then OneColumn
    else if cols == 2 then TwoColumns
    else if cols == 4 then FourColumns
    else ThreeColumns
  }

  /** The column count a section actually gets. */
  function EffectiveColumns(columns: Option<int>): (n: nat)
    ensures 1 <= n <= 4
  {
    var cols := columns.GetOr(3);
    if cols == 1 || cols == 2 || cols == 4 then cols else 3
  }

  /** The breakpoint prefixes, from the smallest screen up. */
  const Breakpoints: seq<string> := ["", "sm:", "lg:", "xl:"]

  /** `columns-k` at breakpoint `k - 1`, for `k` from 1 to `n`. */
  function ColumnSteps(n: nat): (r: seq<string>)
    requires n <= 4
    ensures |r| == n
    ensures forall k :: 0 <= k < n ==> r[k] == Breakpoints[k] + "columns-" + ["1234"[k]]
  {
    seq(n, k requires 0 <= k < n => Breakpoints[k] + "columns-" + ["1234"[k]])
  }

  /** Reference layout: one more column at each breakpoint up to `n`. */
  function ColumnsUpTo(n: nat): string
    requires n <= 4
  {
    Strings.Join(ColumnSteps(n), " ")
  }

  const Step1: string := "columns-1"
  const Step2: string := "sm:columns-2"
  const Step3: string := "lg:columns-3"
  const Step4: string := "xl:columns-4"

  lemma StepsListed()
    ensures ColumnSteps(4) == [Step1, Step2, Step3, Step4]
  {
    assert Breakpoints[0] + "columns-" + ["1234"[0]] == Step1;
    assert Breakpoints[1] + "columns-" + ["1234"[1]] == Step2;
    assert Breakpoints[2] + "columns-" + ["1234"[2]] == Step3;
    assert Breakpoints[3] + "columns-" + ["1234"[3]] == Step4;
  }

  /** Each breakpoint appends one class to the layout below it. */
  lemma ColumnsUpToSnoc(n: nat)
    requires n < 4
    ensures ColumnsUpTo(n + 1) == if n == 0 then ColumnSteps(4)[0] else ColumnsUpTo(n) + " " + ColumnSteps(4)[n]
  {
    assert ColumnSteps(n + 1) == ColumnSteps(n) + [ColumnSteps(4)[n]];
    Strings.JoinSnoc(ColumnSteps(n), ColumnSteps(4)[n], " ");
  }

  /** The four class strings, by column count. */
  const ColumnClasses: seq<string> := [OneColumn, TwoColumns, ThreeColumns, FourColumns]

  /** Each class string extends the one for one column fewer by the next breakpoint's class. */
  lemma ClassStringsExtend()
    ensures TwoColumns == OneColumn + " " + Step2
    ensures ThreeColumns == TwoColumns + " " + Step3
  {
  }

  lemma FourColumnsExtends()
    ensures FourColumns == ThreeColumns + " " + Step4
  {
  }

  /** The stepwise layout for `n` columns is the `n`-th class string. */
  lemma {:induction false} ColumnsUpToValue(n: nat)
    requires 1 <= n <= 4
    ensures ColumnsUpTo(n) == ColumnClasses[n - 1]
  {
    StepsListed();
    ColumnsUpToSnoc(n - 1);
    if n == 2 {
      ColumnsUpToValue(1);
      ClassStringsExtend();
    } else if n == 3 {
      ColumnsUpToValue(2);
      ClassStringsExtend();
    } else if n == 4 {
      ColumnsUpToValue(3);
      FourColumnsExtends();
    }
  }

  /**
   * Every class string is the stepwise layout for the effective count: one
   * column on mobile, then one more at each larger breakpoint.
   */
  lemma ColumnsClassIsStepwise(columns: Option<int>)
    ensures ColumnsClass(columns) == ColumnsUpTo(EffectiveColumns(columns))
  {
    ColumnsUpToValue(EffectiveColumns(columns));
  }

  /** No value and the value 3 give the same layout, and so does every unsupported count. */
  lemma ColumnsDefault(c: int)
    ensures ColumnsClass(None) == ColumnsClass(Some(3)) == ThreeColumns
    ensures c != 1 && c != 2 && c != 4 ==> ColumnsClass(Some(c)) == ThreeColumns
  {
  }

  // ---------------------------------------------------------------------------
  // Levels

  /** `OverviewLevel`: 1 to 5. */
  type Level = l: int | 1 <= l <= 5 witness 1

  /** `levelToLabel`. */
  function LevelLabel(l: Level): string {
    match l
    case 1 => "Basic"
    case 2 => "Intermediate"
    case 3 => "Good"
    case 4 => "Advanced"
    case 5 => "Expert"
  }

  /** The labels in level order. */
  const LevelLabels: seq<string> := ["Basic", "Intermediate", "Good", "Advanced", "Expert"]

  /** Every level has a label, in order, and no two levels share one. */
  lemma LevelLabelsInOrder(a: Level, b: Level)
    ensures LevelLabel(a) == LevelLabels[a - 1]
    ensures LevelLabel(a) == LevelLabel(b) <==> a == b
  {
  }

  /** The width of the level bar in percent: `level / 5 * 100`. */
  function BarWidth(l: Level): real {
    (l as real / 5.0) * 100.0
  }

  /** The bar fills 20 percent per level: from 20 for Basic to 100 for Expert, strictly growing. */
  lemma BarWidthSteps(a: Level, b: Level)
    ensures BarWidth(a) == 20.0 * a as real
    ensures 20.0 <= BarWidth(a) <= 100.0
    ensures a < b ==> BarWidth(a) < BarWidth(b)
  {
  }

  /** The level row of a card: its bar width and label, drawn only when the card has a level. */
  function LevelRow(level: Option<Level>): (r: Option<(real, string)>)
    ensures r.Some? <==> level.Some?
    ensures r.Some? ==> r.value.0 == 20.0 * level.value as real && r.value.1 == LevelLabels[level.value - 1]
  {
    match level
    case None => None
    case Some(l) =>
      BarWidthSteps(l, l);
      LevelLabelsInOrder(l, l);
      Some((BarWidth(l), LevelLabel(l)))
  }
}
