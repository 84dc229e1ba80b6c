/** The thumbnail grid (assets/js/thumbnail-grid.js): a greedy row breaker that also says how
    much narrower the container may get, and the loop that covers a range of widths with layouts. */
module ThumbnailGrid {
  import opened Options
  import opened Numbers

  const MIN_WIDTH := 125
  const ROW_BASIS := 250
  const ITEM_GAP := 8
  const BREAKPOINT := 480
  const CONTAINER_WIDTH_MIN := 420
  const CONTAINER_WIDTH_MAX := 1650
  const STEP_MIN := 125

  datatype Footprint = Footprint(maxRowsNarrow: nat, maxRowsWide: nat)

  /** The four that `layout` chooses from; zero means no limit. */
  const FOOTPRINTS := {Footprint(0, 0), Footprint(1, 1), Footprint(2, 1), Footprint(4, 2)}

  /** Style rules: one for the items `first..last` of a row, with its gaps and its natural width without them;
      one that hides the items from `first` on. */
  datatype Rule = Row(first: nat, last: nat, gap: nat, natural: int) | Hide(first: nat)

  datatype Layout = Layout(rules: seq<Rule>, minWidth: nat, isHardMinWidth: bool)

  // ---------- Rows ----------

  /** The container width that the items `s..e` and the gaps around them take up. */
  function RowWidth(ws: seq<nat>, s: nat, e: nat): nat
    requires s <= e <= |ws|
  {
    if s == e then ITEM_GAP else RowWidth(ws, s, e - 1) + ws[e - 1] + ITEM_GAP
  }

  function NaturalWidth(ws: seq<nat>, s: nat, e: nat): nat
    requires s <= e <= |ws|
  {
    if s == e then 0 else NaturalWidth(ws, s, e - 1) + ws[e - 1]
  }

  /** The end of the row that starts at `s`, known to reach past `e`. */
  function RowEnd(ws: seq<nat>, s: nat, e: nat, width: int): (r: nat)
    requires s <= e < |ws|
    ensures e < r <= |ws|
    ensures r == |ws| || RowWidth(ws, s, r) >= width
    ensures forall k :: e < k < r ==> RowWidth(ws, s, k) < width
    decreases |ws| - e
  {
    if RowWidth(ws, s, e + 1) >= width || e + 1 == |ws| then e + 1 else RowEnd(ws, s, e + 1, width)
  }

  function RowRule(ws: seq<nat>, s: nat, e: nat): Rule
    requires s < e <= |ws|
  {
    Row(s, e - 1, (e - s + 1) * ITEM_GAP, NaturalWidth(ws, s, e))
  }

  /** The rules for the items from `s` on, with `maxRows` rows to go. */
  function Rules(ws: seq<nat>, s: nat, width: int, maxRows: int): seq<Rule>
    requires s <= |ws|
    decreases |ws| - s
  {
    if s == |ws| then []
    else
      var e := RowEnd(ws, s, s, width);
      [RowRule(ws, s, e)]
      + if RowWidth(ws, s, e) >= width && maxRows == 1 && e < |ws| then [Hide(e)] else Rules(ws, e, width, maxRows - 1)
  }

  predicate Limited(ws: seq<nat>, s: nat, width: int, maxRows: int)
    requires s <= |ws|
    decreases |ws| - s
  {
    s < |ws|
    && var e := RowEnd(ws, s, s, width);
       (RowWidth(ws, s, e) >= width && maxRows == 1 && e < |ws|) || Limited(ws, e, width, maxRows - 1)
  }

  /** The widest that any row is before its last item. */
  function WidestBeforeLast(ws: seq<nat>, s: nat, width: int, maxRows: int): nat
    requires s <= |ws|
    decreases |ws| - s
  {
    if s == |ws| then 0
    else
      var e := RowEnd(ws, s, s, width);
      Max(RowWidth(ws, s, e - 1),
          if RowWidth(ws, s, e) >= width && maxRows == 1 && e < |ws| then 0
          else WidestBeforeLast(ws, e, width, maxRows - 1))
  }

  function MaxRows(f: Footprint, width: int): nat {
    if width <= BREAKPOINT then f.maxRowsNarrow else f.maxRowsWide
  }

  function LayoutAt(f: Footprint, ws: seq<nat>, width: int): Layout {
    var maxRows := MaxRows(f, width);
    var widest := WidestBeforeLast(ws, 0, width, maxRows);
    var hard :=
      && Limited(ws, 0, width, maxRows) && widest <= BREAKPOINT && width > BREAKPOINT
      && f.maxRowsNarrow > f.maxRowsWide;
    Layout(Rules(ws, 0, width, maxRows), if hard then BREAKPOINT + 1 else widest, hard)
  }

  // ---------- Rows partition the items ----------

  /** Full rows one after another from `s`, each as short as possible; then a leftover row, the end, or a cutoff. */
  ghost predicate Partition(ws: seq<nat>, s: nat, width: int, rules: seq<Rule>)
    requires s <= |ws|
    decreases |ws| - s
  {
    if rules == [] then s == |ws|
    else if rules[0].Hide? then rules == [Hide(s)] && s < |ws|
    else
      var Row(first, last, gap, natural) := rules[0];
      && first == s <= last < |ws|
      && gap == (last - first + 2) * ITEM_GAP
      && gap + natural == RowWidth(ws, first, last + 1)
      && (first == last || RowWidth(ws, first, last) < width)
      && (RowWidth(ws, first, last + 1) >= width || last + 1 == |ws|)
      && Partition(ws, last + 1, width, rules[1..])
  }

  lemma {:induction false} RowWidthIsGapsAndItems(ws: seq<nat>, s: nat, e: nat)
    requires s <= e <= |ws|
    ensures RowWidth(ws, s, e) == (e - s + 1) * ITEM_GAP + NaturalWidth(ws, s, e)
  {
    if s < e {
      RowWidthIsGapsAndItems(ws, s, e - 1);
    }
  }

  lemma {:induction false} RulesPartition(ws: seq<nat>, s: nat, width: int, maxRows: nat)
    requires s <= |ws|
    ensures Partition(ws, s, width, Rules(ws, s, width, maxRows))
    ensures maxRows > 0 && Limited(ws, s, width, maxRows) ==> |Rules(ws, s, width, maxRows)| == maxRows + 1
    ensures maxRows == 0 ==> !Limited(ws, s, width, maxRows)
    decreases |ws| - s
  {
    RulesPartitionFrom(ws, s, width, maxRows);
    NeverLimited(ws, s, width, maxRows);
  }

  lemma {:induction false} NeverLimited(ws: seq<nat>, s: nat, width: int, maxRows: int)
    requires s <= |ws|
    ensures maxRows <= 0 ==> !Limited(ws, s, width, maxRows)
    decreases |ws| - s
  {
    if s < |ws| {
      NeverLimited(ws, RowEnd(ws, s, s, width), width, maxRows - 1);
    }
  }

  lemma {:induction false} RulesPartitionFrom(ws: seq<nat>, s: nat, width: int, maxRows: int)
    requires s <= |ws|
    ensures Partition(ws, s, width, Rules(ws, s, width, maxRows))
    ensures maxRows > 0 && Limited(ws, s, width, maxRows) ==> |Rules(ws, s, width, maxRows)| == maxRows + 1
    decreases |ws| - s
  {
    hide Rules, Partition, Limited;
    if s == |ws| {
      NoItemsLeft(ws, width, maxRows);
    } else {
      var e := RowEnd(ws, s, s, width);
      FirstRowPartitions(ws, s, width, maxRows);
      if !Stops(ws, s, width, maxRows) {
        RulesPartitionFrom(ws, e, width, maxRows - 1);
        NeverLimited(ws, e, width, maxRows - 1);
      }
    }
  }

  lemma NoItemsLeft(ws: seq<nat>, width: int, maxRows: int)
    ensures Partition(ws, |ws|, width, Rules(ws, |ws|, width, maxRows)) && !Limited(ws, |ws|, width, maxRows)
  {}

  lemma FirstRowPartitions(ws: seq<nat>, s: nat, width: int, maxRows: int)
    requires s < |ws|
    ensures var e, rules := RowEnd(ws, s, s, width), Rules(ws, s, width, maxRows);
            if Stops(ws, s, width, maxRows) then
              |rules| == 2 && maxRows == 1 && Partition(ws, s, width, rules)
            else
              && |rules| == 1 + |Rules(ws, e, width, maxRows - 1)|
              && (Limited(ws, s, width, maxRows) <==> Limited(ws, e, width, maxRows - 1))
              && (Partition(ws, e, width, Rules(ws, e, width, maxRows - 1)) ==> Partition(ws, s, width, rules))
  {
    hide Rules, Limited;
    var e, rules := RowEnd(ws, s, s, width), Rules(ws, s, width, maxRows);
    RowWidthIsGapsAndItems(ws, s, e);
    FirstRow(ws, s, width, maxRows);
    assert rules[0] == RowRule(ws, s, e);
    if Stops(ws, s, width, maxRows) {
      assert rules[1..] == [Hide(e)];
      assert Partition(ws, e, width, [Hide(e)]);
    } else {
      assert rules[1..] == Rules(ws, e, width, maxRows - 1);
    }
  }

  /** The rest is hidden after exactly as many rows as are allowed, and without a limit never. */
  lemma {:induction false} HiddenAfterLimit(ws: seq<nat>, s: nat, width: int, maxRows: int)
    requires s <= |ws|
    ensures var rules := Rules(ws, s, width, maxRows);
            if exists r <- rules :: r.Hide? then maxRows > 0 && |rules| == maxRows + 1
            else maxRows > 0 ==> |rules| <= maxRows
    decreases |ws| - s
  {
    hide Rules, Limited, WidestBeforeLast;
    if s == |ws| {
      assert Rules(ws, s, width, maxRows) == [] by { NoRules(ws, width, maxRows); }
    } else {
      FirstRow(ws, s, width, maxRows);
      var e, rules := RowEnd(ws, s, s, width), Rules(ws, s, width, maxRows);
      if Stops(ws, s, width, maxRows) {
        assert rules[1] == Hide(e);
      } else {
        HiddenAfterLimit(ws, e, width, maxRows - 1);
        var rest := Rules(ws, e, width, maxRows - 1);
        assert forall r :: r in rules <==> r == RowRule(ws, s, e) || r in rest;
        if maxRows == 1 {
          LastRow(ws, s, width, maxRows);
        }
      }
    }
  }

  lemma NoRules(ws: seq<nat>, width: int, maxRows: int)
    ensures Rules(ws, |ws|, width, maxRows) == []
  {}

  lemma LastRow(ws: seq<nat>, s: nat, width: int, maxRows: int)
    requires s < |ws| && maxRows == 1 && !Stops(ws, s, width, maxRows)
    ensures RowEnd(ws, s, s, width) == |ws| && Rules(ws, |ws|, width, 0) == []
  {}

  /** Up to 480 pixels the narrow limit applies, and the wide one beyond. */
  lemma LimitOfLayout(f: Footprint, ws: seq<nat>, width: int)
    ensures var rules, limit := LayoutAt(f, ws, width).rules, if width > 480 then f.maxRowsWide else f.maxRowsNarrow;
            if exists r <- rules :: r.Hide? then limit > 0 && |rules| == limit + 1 else limit > 0 ==> |rules| <= limit
  {
    HiddenAfterLimit(ws, 0, width, MaxRows(f, width));
    hide Rules, Limited, WidestBeforeLast;
  }

  // ---------- How far a layout stays valid ----------

  lemma {:induction false} RowWidthGrows(ws: seq<nat>, s: nat, d: nat, e: nat)
    requires s <= d <= e <= |ws|
    ensures RowWidth(ws, s, d) <= RowWidth(ws, s, e)
    decreases e
  {
    if d < e {
      RowWidthGrows(ws, s, d, e - 1);
    }
  }

  /** A narrower container breaks the row at the same item, unless all before it already fills the row. */
  lemma SameRowEnd(ws: seq<nat>, s: nat, width: int, narrower: int)
    requires s < |ws| && ITEM_GAP < narrower <= width
    ensures var e := RowEnd(ws, s, s, width);
            RowEnd(ws, s, s, narrower) == e <==> RowWidth(ws, s, e - 1) < narrower
  {
    var e, d := RowEnd(ws, s, s, width), RowEnd(ws, s, s, narrower);
    if RowWidth(ws, s, e - 1) < narrower {
      if d < e {
        RowWidthGrows(ws, s, d, e - 1);
      }
    } else {
      assert s < e - 1;
      assert d != e;
    }
  }

  /** The row that starts at `s` uses up the limit while there are items left. */
  predicate Stops(ws: seq<nat>, s: nat, width: int, maxRows: int)
    requires s < |ws|
  {
    var e := RowEnd(ws, s, s, width);
    RowWidth(ws, s, e) >= width && maxRows == 1 && e < |ws|
  }

  lemma FirstRow(ws: seq<nat>, s: nat, width: int, maxRows: int)
    requires s < |ws|
    ensures var e, rules := RowEnd(ws, s, s, width), Rules(ws, s, width, maxRows);
            if Stops(ws, s, width, maxRows) then
              && rules == [RowRule(ws, s, e), Hide(e)] && Limited(ws, s, width, maxRows)
              && WidestBeforeLast(ws, s, width, maxRows) == RowWidth(ws, s, e - 1)
            else
              && rules == [RowRule(ws, s, e)] + Rules(ws, e, width, maxRows - 1)
              && (Limited(ws, s, width, maxRows) <==> Limited(ws, e, width, maxRows - 1))
              && WidestBeforeLast(ws, s, width, maxRows)
                 == Max(RowWidth(ws, s, e - 1), WidestBeforeLast(ws, e, width, maxRows - 1))
  {}

  lemma FirstRuleIsRow(ws: seq<nat>, s: nat, width: int, maxRows: int)
    requires s < |ws|
    ensures Rules(ws, s, width, maxRows) != []
    ensures Rules(ws, s, width, maxRows)[0] == RowRule(ws, s, RowEnd(ws, s, s, width))
  {}

  lemma ConsInjective(r: Rule, a: seq<Rule>, b: seq<Rule>)
    ensures [r] + a == [r] + b <==> a == b
  {
    assert ([r] + a)[1..] == a && ([r] + b)[1..] == b;
  }

  ghost predicate Comparable(ws: seq<nat>, s: nat, width: int, maxRows: int, narrower: int, maxRowsNarrower: int) {
    && s <= |ws| && ITEM_GAP < narrower <= width
    && (maxRowsNarrower == maxRows || maxRowsNarrower > maxRows > 0 || s == |ws|)
  }

  /** A narrower container gets the same rules exactly if nothing wraps earlier and no row beyond the limit appears. */
  ghost predicate Agreement(ws: seq<nat>, s: nat, width: int, maxRows: int, narrower: int, maxRowsNarrower: int)
    requires s <= |ws|
  {
    Rules(ws, s, width, maxRows) == Rules(ws, s, narrower, maxRowsNarrower) <==>
    WidestBeforeLast(ws, s, width, maxRows) < narrower
    && (Limited(ws, s, width, maxRows) ==> maxRowsNarrower == maxRows)
  }

  lemma AgreeIfEarlierWrap(ws: seq<nat>, s: nat, width: int, maxRows: int, narrower: int, maxRowsNarrower: int)
    requires Comparable(ws, s, width, maxRows, narrower, maxRowsNarrower) && s < |ws|
    requires RowEnd(ws, s, s, width) != RowEnd(ws, s, s, narrower)
    ensures Agreement(ws, s, width, maxRows, narrower, maxRowsNarrower)
  {
    hide Rules, Limited, WidestBeforeLast;
    SameRowEnd(ws, s, width, narrower);
    FirstRow(ws, s, width, maxRows);
    FirstRuleIsRow(ws, s, width, maxRows);
    FirstRuleIsRow(ws, s, narrower, maxRowsNarrower);
  }

  lemma AgreeIfStops(ws: seq<nat>, s: nat, width: int, maxRows: int, narrower: int, maxRowsNarrower: int)
    requires Comparable(ws, s, width, maxRows, narrower, maxRowsNarrower) && s < |ws|
    requires RowEnd(ws, s, s, width) == RowEnd(ws, s, s, narrower) && Stops(ws, s, width, maxRows)
    ensures Agreement(ws, s, width, maxRows, narrower, maxRowsNarrower)
  {
    hide Rules, Limited, WidestBeforeLast;
    var e := RowEnd(ws, s, s, width);
    SameRowEnd(ws, s, width, narrower);
    FirstRow(ws, s, width, maxRows);
    FirstRow(ws, s, narrower, maxRowsNarrower);
    if maxRowsNarrower > 1 {
      FirstRuleIsRow(ws, e, narrower, maxRowsNarrower - 1);
      ConsInjective(RowRule(ws, s, e), [Hide(e)], Rules(ws, e, narrower, maxRowsNarrower - 1));
    }
  }

  lemma AgreeIfContinues(ws: seq<nat>, s: nat, width: int, maxRows: int, narrower: int, maxRowsNarrower: int, e: nat)
    requires Comparable(ws, s, width, maxRows, narrower, maxRowsNarrower) && s < e <= |ws|
    requires e == RowEnd(ws, s, s, width) == RowEnd(ws, s, s, narrower)
    requires RowWidth(ws, s, e - 1) < narrower
    requires !Stops(ws, s, width, maxRows) && !Stops(ws, s, narrower, maxRowsNarrower)
    requires Agreement(ws, e, width, maxRows - 1, narrower, maxRowsNarrower - 1)
    ensures Agreement(ws, s, width, maxRows, narrower, maxRowsNarrower)
  {
    hide Rules, Limited, WidestBeforeLast, Stops, RowEnd, RowWidth;
    FirstRow(ws, s, width, maxRows);
    FirstRow(ws, s, narrower, maxRowsNarrower);
    ConsInjective(RowRule(ws, s, e), Rules(ws, e, width, maxRows - 1), Rules(ws, e, narrower, maxRowsNarrower - 1));
  }

  lemma {:induction false} RulesAgree(
    ws: seq<nat>, s: nat, width: int, maxRows: int, narrower: int, maxRowsNarrower: int)
    requires Comparable(ws, s, width, maxRows, narrower, maxRowsNarrower)
    ensures Agreement(ws, s, width, maxRows, narrower, maxRowsNarrower)
    decreases |ws| - s
  {
    if s < |ws| {
      hide Agreement;
      if RowEnd(ws, s, s, width) != RowEnd(ws, s, s, narrower) {
        AgreeIfEarlierWrap(ws, s, width, maxRows, narrower, maxRowsNarrower);
      } else if Stops(ws, s, width, maxRows) {
        AgreeIfStops(ws, s, width, maxRows, narrower, maxRowsNarrower);
      } else {
        var e := RowEnd(ws, s, s, width);
        SameRowEnd(ws, s, width, narrower);
        RulesAgree(ws, e, width, maxRows - 1, narrower, maxRowsNarrower - 1);
        AgreeIfContinues(ws, s, width, maxRows, narrower, maxRowsNarrower, e);
      }
    }
  }

  /** No row is as wide as the container before its last item. */
  lemma {:induction false} WidestFits(ws: seq<nat>, s: nat, width: int, maxRows: int)
    requires s <= |ws| && ITEM_GAP < width
    ensures WidestBeforeLast(ws, s, width, maxRows) < width
    decreases |ws| - s
  {
    if s < |ws| {
      WidestFits(ws, RowEnd(ws, s, s, width), width, maxRows - 1);
    }
  }

  /** `m_minWidth` is exact: between it and the width the layout was made for, and nowhere below, the rules are the
      same. */
  lemma ValidExactly(f: Footprint, ws: seq<nat>, width: int, narrower: int)
    requires f in FOOTPRINTS && ITEM_GAP < narrower <= width
    ensures var l := LayoutAt(f, ws, width);
            LayoutAt(f, ws, narrower).rules == l.rules <==>
            (if l.isHardMinWidth then narrower >= l.minWidth else narrower > l.minWidth)
  {
    var m := MaxRows(f, width);
    WidestFits(ws, 0, width, m);
    NeverLimited(ws, 0, width, m);
    RulesAgree(ws, 0, width, m, narrower, MaxRows(f, narrower));
  }

  // ---------- The program ----------

  /** `getWidth`, and the `??=` of `getLayout`: items without a known width count as square. */
  function Natural(width: Option<nat>): nat {
    match width
    case None => ROW_BASIS
    case Some(w) => Max(w, MIN_WIDTH)
  }

  function Naturals(widths: seq<Option<nat>>): seq<nat> {
    seq(|widths|, i requires 0 <= i < |widths| => Natural(widths[i]))
  }

  /** An item of unknown width is laid out as a square one, and one narrower than 125 as if it were that wide. */
  lemma NaturalWidths(f: Footprint, widths: seq<Option<nat>>, i: nat, width: int)
    requires i < |widths|
    ensures widths[i] == None ==>
              LayoutAt(f, Naturals(widths), width) == LayoutAt(f, Naturals(widths[i := Some(250)]), width)
    ensures widths[i].Some? && widths[i].value <= 125 ==>
              LayoutAt(f, Naturals(widths), width) == LayoutAt(f, Naturals(widths[i := Some(125)]), width)
    ensures widths[i].Some? && widths[i].value >= 125 ==> Naturals(widths)[i] == widths[i].value
  {
    hide LayoutAt;
    assert widths[i] == None ==> Naturals(widths) == Naturals(widths[i := Some(250)]);
    assert widths[i].Some? && widths[i].value <= 125 ==> Naturals(widths) == Naturals(widths[i := Some(125)]);
  }

  datatype Cell = Cell(index: nat, width: nat)

  /** The variables of `getLayout` that its loop and `commitRow` share. */
  class LayoutBuilder {
    var row: seq<Cell>
    var rowWidth: nat
    var rules: seq<Rule>
    var maxRows: int
    var rowLimited: bool
    var maxNonWrappingRowWidth: nat

    constructor (maxRows: int)
      ensures row == [] && rowWidth == ITEM_GAP && rules == [] && this.maxRows == maxRows
      ensures !rowLimited && maxNonWrappingRowWidth == 0
    {
      row, rowWidth, rules, this.maxRows, rowLimited, maxNonWrappingRowWidth := [], ITEM_GAP, [], maxRows, false, 0;
    }

    /** `row` holds the items `s..e`. */
    ghost predicate Holds(ws: seq<nat>, s: nat, e: nat)
      reads this
    {
      && s <= e <= |ws| && |row| == e - s && rowWidth == RowWidth(ws, s, e)
      && forall k :: 0 <= k < |row| ==> row[k] == Cell(s + k, ws[s + k])
    }

    method CommitRow(ghost ws: seq<nat>, ghost s: nat, ghost e: nat)
      requires Holds(ws, s, e) && s < e
      modifies `row, `rowWidth, `rules
      ensures rules == old(rules) + [RowRule(ws, s, e)] && Holds(ws, e, e)
    {
      RowWidthIsGapsAndItems(ws, s, e);
      var totalGap := (|row| + 1) * ITEM_GAP;
      rules := rules + [Row(row[0].index, row[|row| - 1].index, totalGap, rowWidth - totalGap)];
      row, rowWidth := [], ITEM_GAP;
    }

    method Push(ws: seq<nat>, ghost s: nat, i: nat)
      requires Holds(ws, s, i) && i < |ws|
      modifies `row, `rowWidth
      ensures Holds(ws, s, i + 1)
    {
      rowWidth := rowWidth + (ws[i] + ITEM_GAP);
      row := row + [Cell(i, ws[i])];
    }
  }

  /** What is written, and what the items from `s` on will add, make up the whole layout. */
  ghost predicate Continues(
    ws: seq<nat>, width: int, maxRows: int, rules: seq<Rule>, widest: nat, s: nat, rowsLeft: int)
    requires s <= |ws|
  {
    && rules + Rules(ws, s, width, rowsLeft) == Rules(ws, 0, width, maxRows)
    && Max(widest, WidestBeforeLast(ws, s, width, rowsLeft)) == WidestBeforeLast(ws, 0, width, maxRows)
    && (Limited(ws, s, width, rowsLeft) <==> Limited(ws, 0, width, maxRows))
  }

  ghost predicate IsFirstRow(ws: seq<nat>, width: int, s: nat, e: nat) {
    && s < e <= |ws|
    && (forall k :: s < k < e ==> RowWidth(ws, s, k) < width)
    && (e == |ws| || RowWidth(ws, s, e) >= width)
  }

  lemma FirstRowEnds(ws: seq<nat>, width: int, s: nat, e: nat)
    requires IsFirstRow(ws, width, s, e)
    ensures RowEnd(ws, s, s, width) == e
  {}

  lemma ContinuesAfterRow(
    ws: seq<nat>, width: int, maxRows: int, rules: seq<Rule>, widest: nat, s: nat, rowsLeft: int, e: nat)
    requires IsFirstRow(ws, width, s, e) && Continues(ws, width, maxRows, rules, widest, s, rowsLeft)
    requires !Stops(ws, s, width, rowsLeft)
    ensures Continues(
      ws, width, maxRows, rules + [RowRule(ws, s, e)], Max(widest, RowWidth(ws, s, e - 1)), e, rowsLeft - 1)
  {
    hide Rules, Limited, WidestBeforeLast;
    FirstRowEnds(ws, width, s, e);
    FirstRow(ws, s, width, rowsLeft);
    var rest := Rules(ws, e, width, rowsLeft - 1);
    assert (rules + [RowRule(ws, s, e)]) + rest == rules + ([RowRule(ws, s, e)] + rest);
  }

  lemma CompleteAfterStop(
    ws: seq<nat>, width: int, maxRows: int, rules: seq<Rule>, widest: nat, s: nat, rowsLeft: int, e: nat)
    requires IsFirstRow(ws, width, s, e) && Continues(ws, width, maxRows, rules, widest, s, rowsLeft)
    requires Stops(ws, s, width, rowsLeft)
    ensures rules + [RowRule(ws, s, e)] + [Hide(e)] == Rules(ws, 0, width, maxRows)
    ensures Max(widest, RowWidth(ws, s, e - 1)) == WidestBeforeLast(ws, 0, width, maxRows)
    ensures Limited(ws, 0, width, maxRows)
  {
    hide Rules, Limited, WidestBeforeLast;
    FirstRowEnds(ws, width, s, e);
    FirstRow(ws, s, width, rowsLeft);
  }

  lemma ContinuesToEnd(ws: seq<nat>, width: int, maxRows: int, rules: seq<Rule>, widest: nat, rowsLeft: int)
    requires Continues(ws, width, maxRows, rules, widest, |ws|, rowsLeft)
    ensures rules == Rules(ws, 0, width, maxRows) && widest == WidestBeforeLast(ws, 0, width, maxRows)
    ensures !Limited(ws, 0, width, maxRows)
  {}

  method GetLayout(f: Footprint, widths: seq<Option<nat>>, containerWidth: nat) returns (layout: Layout)
    ensures layout == LayoutAt(f, Naturals(widths), containerWidth)
  {
    hide Rules, Limited, WidestBeforeLast, RowWidth, RowRule, Continues;
    var ws := Naturals(widths);
    ghost var maxRows := MaxRows(f, containerWidth);
    var b := new LayoutBuilder(MaxRows(f, containerWidth));
    ghost var s := 0;
    StartContinues(ws, containerWidth, maxRows);
    for i := 0 to |ws|
      invariant b.Holds(ws, s, i) && !b.rowLimited
      invariant Continues(ws, containerWidth, maxRows, b.rules, b.maxNonWrappingRowWidth, s, b.maxRows)
      invariant forall k :: s < k <= i ==> RowWidth(ws, s, k) < containerWidth
    {
      var oldRowWidth := b.rowWidth;
      b.Push(ws, s, i);
      if b.rowWidth >= containerWidth {
        FirstRowEnds(ws, containerWidth, s, i + 1);
        ghost var rules, widest, rowsLeft := b.rules, b.maxNonWrappingRowWidth, b.maxRows;
        b.maxNonWrappingRowWidth := Max(b.maxNonWrappingRowWidth, oldRowWidth);
        b.CommitRow(ws, s, i + 1);
        b.maxRows := b.maxRows - 1;
        if b.maxRows == 0 && i + 1 < |ws| {
          CompleteAfterStop(ws, containerWidth, maxRows, rules, widest, s, rowsLeft, i + 1);
          b.rules := b.rules + [Hide(i + 1)];
          b.rowLimited := true;
          break;
        }
        ContinuesAfterRow(ws, containerWidth, maxRows, rules, widest, s, rowsLeft, i + 1);
        s := i + 1;
      }
    }

    ghost var rowsLeft := b.maxRows;
    if |b.row| != 0 {
      ghost var rules, widest := b.rules, b.maxNonWrappingRowWidth;
      RowWidthBeforeLast(ws, s, |ws|);
      b.maxNonWrappingRowWidth :=
        Max(b.maxNonWrappingRowWidth, b.rowWidth - (b.row[|b.row| - 1].width + ITEM_GAP));
      b.CommitRow(ws, s, |ws|);
      FirstRowEnds(ws, containerWidth, s, |ws|);
      ContinuesAfterRow(ws, containerWidth, maxRows, rules, widest, s, rowsLeft, |ws|);
      rowsLeft := rowsLeft - 1;
    }
    if !b.rowLimited {
      ContinuesToEnd(ws, containerWidth, maxRows, b.rules, b.maxNonWrappingRowWidth, rowsLeft);
    }

    var isHardMinWidth := false;
    if && b.rowLimited
       && b.maxNonWrappingRowWidth <= BREAKPOINT
       && containerWidth > BREAKPOINT
       && f.maxRowsNarrow > f.maxRowsWide
    {
      b.maxNonWrappingRowWidth := BREAKPOINT + 1;
      isHardMinWidth := true;
    }
    layout := Layout(b.rules, b.maxNonWrappingRowWidth, isHardMinWidth);
  }

  lemma RowWidthBeforeLast(ws: seq<nat>, s: nat, e: nat)
    requires s < e <= |ws|
    ensures RowWidth(ws, s, e) == RowWidth(ws, s, e - 1) + ws[e - 1] + ITEM_GAP
  {}

  lemma StartContinues(ws: seq<nat>, width: int, maxRows: int)
    ensures Continues(ws, width, maxRows, [], 0, 0, maxRows)
    ensures forall k :: 0 <= k <= 0 ==> RowWidth(ws, k, k) == ITEM_GAP
  {}

  // ---------- Covering the widths ----------

  datatype Range = Range(maxWidth: nat, rules: seq<Rule>)

  /** The container queries: the first layout has no upper bound and the last no lower bound. */
  predicate Applies(ranges: seq<Range>, k: nat, width: int)
    requires k < |ranges|
  {
    && (k > 0 ==> width <= ranges[k].maxWidth)
    && (k + 1 < |ranges| ==> width > ranges[k + 1].maxWidth)
  }

  ghost predicate Spaced(ranges: seq<Range>) {
    forall j, k :: 0 <= j < k < |ranges| ==> ranges[k].maxWidth + STEP_MIN <= ranges[j].maxWidth
  }

  /** The one layout that applies at a width. */
  lemma {:induction false} ExactlyOneApplies(ranges: seq<Range>, width: int) returns (k: nat)
    requires ranges != [] && Spaced(ranges)
    ensures k < |ranges| && Applies(ranges, k, width)
    ensures forall j: nat :: j < |ranges| && Applies(ranges, j, width) ==> j == k
  {
    k := 0;
    while k + 1 < |ranges| && width <= ranges[k + 1].maxWidth
      invariant k < |ranges| && (k > 0 ==> width <= ranges[k].maxWidth)
    {
      k := k + 1;
    }
    assert forall j: nat :: k < j < |ranges| ==> ranges[j].maxWidth <= ranges[k + 1].maxWidth;
    assert forall j: nat :: 0 < j <= k ==> ranges[k].maxWidth <= ranges[j].maxWidth;
  }

  /** The rules are those of a container as wide, or less than `slack` wider: thumbnails never stretch. */
  ghost predicate MadeFor(f: Footprint, ws: seq<nat>, rules: seq<Rule>, width: int, slack: int) {
    exists v :: width <= v < width + slack && rules == LayoutAt(f, ws, v).rules
  }

  /** The next width to lay out for, if the layout for `width` is kept. */
  function Next(l: Layout, width: int): int {
    if l.minWidth - 1 <= width - STEP_MIN || l.isHardMinWidth then l.minWidth - 1 else width - STEP_MIN
  }

  lemma KeptLayoutServes(f: Footprint, ws: seq<nat>, width: int, served: int)
    requires f in FOOTPRINTS && CONTAINER_WIDTH_MIN <= served <= width
    requires var l := LayoutAt(f, ws, width);
             (l.minWidth - 1 <= width - STEP_MIN || !l.isHardMinWidth) && Next(l, width) < served
    ensures MadeFor(f, ws, LayoutAt(f, ws, width).rules, served, STEP_MIN)
  {
    var l := LayoutAt(f, ws, width);
    hide LayoutAt, FOOTPRINTS;
    var v := if l.minWidth - 1 > width - STEP_MIN then width
             else if served == l.minWidth then served + 1
             else served;
    ValidExactly(f, ws, width, v);
    assert served <= v < served + STEP_MIN && l.rules == LayoutAt(f, ws, v).rules;
  }

  /** Every width above `floor` is shown a layout that suits it. */
  ghost predicate Served(f: Footprint, ws: seq<nat>, ranges: seq<Range>, floor: int) {
    forall k: nat, w |
      k < |ranges| && floor < w && CONTAINER_WIDTH_MIN <= w <= CONTAINER_WIDTH_MAX && Applies(ranges, k, w)
      :: MadeFor(f, ws, ranges[k].rules, w, 2 * STEP_MIN)
  }

  /** Each layout is the one computed for the widest container that it is meant for. */
  ghost predicate Computed(f: Footprint, ws: seq<nat>, ranges: seq<Range>) {
    forall k: nat :: k < |ranges| ==>
      CONTAINER_WIDTH_MIN <= ranges[k].maxWidth && ranges[k].rules == LayoutAt(f, ws, ranges[k].maxWidth).rules
  }

  /** The layout shown at `width` is the layout of that width if and only if the bound it was computed with allows
      that width. */
  ghost predicate ShownExactly(f: Footprint, ws: seq<nat>, range: Range, width: int) {
    var l := LayoutAt(f, ws, range.maxWidth);
    range.rules == LayoutAt(f, ws, width).rules <==>
    (if l.isHardMinWidth then width >= l.minWidth else width > l.minWidth)
  }

  lemma ShownIfComputed(f: Footprint, ws: seq<nat>, ranges: seq<Range>, k: nat, width: int)
    requires f in FOOTPRINTS && Computed(f, ws, ranges) && k < |ranges| && ITEM_GAP < width <= ranges[k].maxWidth
    ensures ShownExactly(f, ws, ranges[k], width)
  {
    hide LayoutAt, FOOTPRINTS;
    ValidExactly(f, ws, ranges[k].maxWidth, width);
  }

  /** A soft bound is shown one pixel too low: two items, of which the first alone fills a container of 516 pixels. */
  lemma SoftBoundIsShown()
    ensures var f, ws := Footprint(0, 0), [500, 250];
            var l := LayoutAt(f, ws, CONTAINER_WIDTH_MAX);
            l.minWidth == 516 && Next(l, CONTAINER_WIDTH_MAX) == 515 && LayoutAt(f, ws, 516).rules != l.rules
  {
    var f, ws := Footprint(0, 0), [500, 250];
    assert RowWidth(ws, 0, 0) == 8 && RowWidth(ws, 0, 1) == 516 && RowWidth(ws, 0, 2) == 774;
    assert RowEnd(ws, 0, 1, CONTAINER_WIDTH_MAX) == 2 && RowEnd(ws, 0, 0, CONTAINER_WIDTH_MAX) == 2;
    assert WidestBeforeLast(ws, 2, CONTAINER_WIDTH_MAX, -1) == 0;
    ValidExactly(f, ws, CONTAINER_WIDTH_MAX, 516);
  }

  /** What the loop of `layout` has established when it turns to `width`. */
  ghost predicate Covered(f: Footprint, ws: seq<nat>, ranges: seq<Range>, width: int) {
    && Spaced(ranges) && Computed(f, ws, ranges) && Served(f, ws, ranges, width)
    && (if ranges == [] then width == CONTAINER_WIDTH_MAX
        else
          && ranges[0].maxWidth == CONTAINER_WIDTH_MAX
          && width + STEP_MIN <= ranges[|ranges| - 1].maxWidth
          && (width <= BREAKPOINT || MadeFor(f, ws, ranges[|ranges| - 1].rules, width + 1, STEP_MIN)))
  }

  lemma ComputedAfterPush(f: Footprint, ws: seq<nat>, ranges: seq<Range>, width: nat)
    requires Computed(f, ws, ranges) && CONTAINER_WIDTH_MIN <= width
    ensures Computed(f, ws, ranges + [Range(width, LayoutAt(f, ws, width).rules)])
  {
    hide LayoutAt;
  }

  lemma CoveredAfterPush(f: Footprint, ws: seq<nat>, ranges: seq<Range>, width: nat)
    requires f in FOOTPRINTS && Covered(f, ws, ranges, width) && CONTAINER_WIDTH_MIN <= width
    requires var l := LayoutAt(f, ws, width); l.minWidth - 1 <= width - STEP_MIN || !l.isHardMinWidth
    ensures var l := LayoutAt(f, ws, width); Covered(f, ws, ranges + [Range(width, l.rules)], Next(l, width))
  {
    hide LayoutAt, MadeFor, FOOTPRINTS, Computed;
    var l := LayoutAt(f, ws, width);
    var next, more := Next(l, width), ranges + [Range(width, l.rules)];
    ComputedAfterPush(f, ws, ranges, width);
    forall k: nat, w | k < |more| && next < w && CONTAINER_WIDTH_MIN <= w <= CONTAINER_WIDTH_MAX && Applies(more, k, w)
      ensures MadeFor(f, ws, more[k].rules, w, 2 * STEP_MIN)
    {
      if k < |ranges| {
        assert width < w && Applies(ranges, k, w);
      } else {
        KeptLayoutServes(f, ws, width, w);
        MoreSlack(f, ws, l.rules, w, w, STEP_MIN, 2 * STEP_MIN);
      }
    }
    if next > BREAKPOINT {
      KeptLayoutServes(f, ws, width, next + 1);
    }
  }

  lemma CoveredAfterDiscard(f: Footprint, ws: seq<nat>, ranges: seq<Range>, width: nat)
    requires Covered(f, ws, ranges, width) && ranges != []
    requires BREAKPOINT < width < BREAKPOINT + STEP_MIN
    ensures Covered(f, ws, ranges, BREAKPOINT)
  {}

  lemma MoreSlack(f: Footprint, ws: seq<nat>, rules: seq<Rule>, width: int, narrower: int, slack: int, more: int)
    requires MadeFor(f, ws, rules, width, slack) && narrower <= width && width + slack <= narrower + more
    ensures MadeFor(f, ws, rules, narrower, more)
  {}

  /** `layout`, up to the printing of the rules. */
  method LayoutRanges(f: Footprint, widths: seq<Option<nat>>) returns (ranges: seq<Range>)
    requires f in FOOTPRINTS
    ensures ranges != [] && ranges[0].maxWidth == CONTAINER_WIDTH_MAX && Spaced(ranges)
    ensures Served(f, Naturals(widths), ranges, CONTAINER_WIDTH_MIN - 1)
    ensures Computed(f, Naturals(widths), ranges)
    ensures forall k: nat, w: int ::
              k < |ranges| && ITEM_GAP < w <= CONTAINER_WIDTH_MAX && Applies(ranges, k, w) ==>
              ShownExactly(f, Naturals(widths), ranges[k], w)
  {
    hide LayoutAt, Served, Spaced, MadeFor, FOOTPRINTS, Computed, ShownExactly;
    ranges := [];
    ghost var ws := Naturals(widths);
    var containerWidth := CONTAINER_WIDTH_MAX;
    NothingCovered(f, ws);
    while containerWidth >= CONTAINER_WIDTH_MIN
      invariant Covered(f, ws, ranges, containerWidth) && (ranges == [] ==> containerWidth == CONTAINER_WIDTH_MAX)
      decreases containerWidth
    {
      ghost var before, width := ranges, containerWidth;
      var layout := GetLayout(f, widths, containerWidth);
      LayoutIsNarrower(f, ws, containerWidth);
      ranges := ranges + [Range(containerWidth, layout.rules)];
      containerWidth := containerWidth - STEP_MIN;
      if layout.minWidth - 1 <= containerWidth {
        containerWidth := layout.minWidth - 1;
        CoveredAfterPush(f, ws, before, width);
      } else if layout.isHardMinWidth {
        ranges := ranges[..|ranges| - 1];
        assert ranges == before;
        containerWidth := layout.minWidth - 1;
        CoveredAfterDiscard(f, ws, before, width);
      } else {
        CoveredAfterPush(f, ws, before, width);
      }
    }
    ServedDown(f, ws, ranges, containerWidth);
    forall k: nat, w: int | k < |ranges| && ITEM_GAP < w <= CONTAINER_WIDTH_MAX && Applies(ranges, k, w)
      ensures ShownExactly(f, ws, ranges[k], w)
    {
      ShownIfComputed(f, ws, ranges, k, w);
    }
  }

  lemma NothingCovered(f: Footprint, ws: seq<nat>)
    ensures Covered(f, ws, [], CONTAINER_WIDTH_MAX)
  {}

  lemma LayoutIsNarrower(f: Footprint, ws: seq<nat>, width: int)
    requires ITEM_GAP < width
    ensures LayoutAt(f, ws, width).minWidth <= width
    ensures LayoutAt(f, ws, width).isHardMinWidth ==> LayoutAt(f, ws, width).minWidth == BREAKPOINT + 1 <= width
  {
    WidestFits(ws, 0, width, MaxRows(f, width));
  }

  lemma ServedDown(f: Footprint, ws: seq<nat>, ranges: seq<Range>, width: int)
    requires Served(f, ws, ranges, width) && width < CONTAINER_WIDTH_MIN
    ensures Served(f, ws, ranges, CONTAINER_WIDTH_MIN - 1)
  {}
}
