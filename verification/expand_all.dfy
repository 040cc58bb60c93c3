/** The expand-all feature: marks group rows as expanded or collapsed,
    toggles a row on click, keeps the header button in line with the rows,
    and expands or collapses every row from the button. */
module ExpandAll {
  import opened HtmlHelper
  import opened WorklogRows
  import opened ExpandCollapseElement

  const FeatureId: string := "expand-all"

  /** A group row the row query selects: a group row without the marker. */
  predicate Unmanaged(r: Row) {
    r.isGroup && !r.managed
  }

  /** `initWorklogRows`: every unmarked group row gets the marker, the
      expanded class when its next sibling is a detail row and the collapsed
      class otherwise, and one more click listener (a fresh closure each
      time). No other row changes. */
  function InitWorklogRows(rows: seq<Row>): (r: seq<Row>)
    ensures |r| == |rows|
    ensures forall i :: 0 <= i < |rows| && !Unmanaged(rows[i]) ==> r[i] == rows[i]
    ensures forall i :: 0 <= i < |rows| && Unmanaged(rows[i]) ==>
              && r[i].isGroup && r[i].managed
              && r[i].listeners == rows[i].listeners + 1
              && r[i].expanded == (rows[i].expanded || NextIsDetail(rows, i))
              && r[i].collapsed == (rows[i].collapsed || !NextIsDetail(rows, i))
  {
    seq(|rows|, i requires 0 <= i < |rows| =>
      if Unmanaged(rows[i]) then
        rows[i].(managed := true,
                 expanded := rows[i].expanded || NextIsDetail(rows, i),
                 collapsed := rows[i].collapsed || !NextIsDetail(rows, i),
                 listeners := rows[i].listeners + 1)
      else rows[i])
  }

  /** The rows as the feature keeps them: a marked row is a group row with
      exactly one class and one listener; an unmarked row has neither. */
  predicate WellFormed(rows: seq<Row>) {
    forall i :: 0 <= i < |rows| ==>
      if rows[i].managed then rows[i].isGroup && Toggleable(rows[i]) else Inert(rows[i])
  }

  lemma WellFormedClickConsistent(rows: seq<Row>)
    requires WellFormed(rows)
    ensures ClickConsistent(rows)
  {
  }

  /** Marking keeps the rows well formed and marks every group row. */
  lemma InitWorklogRowsWellFormed(rows: seq<Row>)
    requires WellFormed(rows)
    ensures WellFormed(InitWorklogRows(rows))
    ensures forall i :: 0 <= i < |rows| && rows[i].isGroup ==> InitWorklogRows(rows)[i].managed
  {
  }

  /** Marked rows are never reclassified, so marking twice is marking once. */
  lemma InitWorklogRowsIdempotent(rows: seq<Row>)
    ensures InitWorklogRows(InitWorklogRows(rows)) == InitWorklogRows(rows)
  {
    var once := InitWorklogRows(rows);
    assert forall i :: 0 <= i < |once| ==> !Unmanaged(once[i]);
  }

  /** Group A with a detail row, group B without, group C with one. */
  lemma InitWorklogRowsExample()
    ensures var r := InitWorklogRows([GroupRow, DetailRow, GroupRow, GroupRow, DetailRow]);
            r[0].expanded && !r[0].collapsed
            && r[2].collapsed && !r[2].expanded
            && r[3].expanded && !r[3].collapsed
            && r[1] == DetailRow && r[4] == DetailRow
  {
    var rows := [GroupRow, DetailRow, GroupRow, GroupRow, DetailRow];
    assert NextIsDetail(rows, 0) && !NextIsDetail(rows, 2) && NextIsDetail(rows, 3);
  }

  /** `handleRowToggle`: an expandable button becomes collapsable once no row
      is collapsed; a collapsable one becomes expandable once some row is;
      otherwise it is left as it is. Either way the result is expandable
      exactly when some row is collapsed. */
  function HandleRowToggle(b: Button, rows: seq<Row>): (r: Button)
    ensures r.expandable <==> SomeCollapsed(rows)
    ensures b.expandable == SomeCollapsed(rows) ==> r == b
    ensures IconShowsState(b) ==> IconShowsState(r)
  {
    if b.expandable then
      if !SomeCollapsed(rows) then MakeCollapsable(b) else b
    else if SomeCollapsed(rows) then MakeExpandable(b) else b
  }

  function RowToggleHandler(): (Button, seq<Row>) -> Button {
    (b, rows) => HandleRowToggle(b, rows)
  }

  function IconKept(): Button -> bool {
    b => IconShowsState(b)
  }

  /** The feature's state: the rows, the module-level button, whether the
      button is in the header, whether the table observer is connected, and
      the `initialized` flag. */
  datatype ExpandAllState = ExpandAllState(
    rows: seq<Row>, button: Button, buttonAttached: bool, observing: bool, initialized: bool)

  /** `toggleRow` through the row's listeners: a user click on row `i`. */
  function ClickRowEvent(s: ExpandAllState, i: int): (s': ExpandAllState)
    requires 0 <= i < |s.rows|
    ensures |s'.rows| == |s.rows|
    ensures s'.(rows := s.rows, button := s.button) == s
    ensures forall j :: 0 <= j < |s.rows| && j != i ==> s'.rows[j] == s.rows[j]
    ensures SameShape(s'.rows[i], s.rows[i])
    ensures s.rows[i].listeners == 0 ==> s' == s
  {
    var r := ClickRow(s.rows, s.button, i, RowToggleHandler());
    s.(rows := r.0, button := r.1)
  }

  /** A click on a marked row of well-formed rows swaps its two classes,
      leaves every other row alone and sets the button from the rows. */
  lemma ClickMarkedRow(s: ExpandAllState, i: int)
    requires WellFormed(s.rows) && 0 <= i < |s.rows| && s.rows[i].managed
    ensures ClickRowEvent(s, i).rows == s.rows[i := ToggleClasses(s.rows[i])]
    ensures ClickRowEvent(s, i).button.expandable <==> SomeCollapsed(ClickRowEvent(s, i).rows)
    ensures WellFormed(ClickRowEvent(s, i).rows)
  {
    ClickToggleableRow(s.rows, s.button, i, RowToggleHandler());
    var rows' := s.rows[i := ToggleClasses(s.rows[i])];
    forall j | 0 <= j < |rows'|
      ensures if rows'[j].managed then rows'[j].isGroup && Toggleable(rows'[j]) else Inert(rows'[j])
    {
      if j != i {
        assert rows'[j] == s.rows[j];
      }
    }
  }

  /** The button's click: toggle the button, then click every collapsed row
      (when it became collapsable) or every expanded row (when it became
      expandable), as listed before the first click. */
  function ClickButton(s: ExpandAllState): (s': ExpandAllState)
    ensures |s'.rows| == |s.rows|
    ensures s'.(rows := s.rows, button := s.button) == s
    ensures forall j :: 0 <= j < |s.rows| ==> SameShape(s'.rows[j], s.rows[j])
  {
    var t := ToggleState(s.button);
    var idxs := if t.1 == OnCollapsableState then IndicesWhere(s.rows, IsCollapsed)
                else IndicesWhere(s.rows, IsExpanded);
    var r := ClickAll(s.rows, t.0, idxs, RowToggleHandler());
    ClickAllFrame(s.rows, t.0, idxs, RowToggleHandler());
    s.(rows := r.0, button := r.1)
  }

  /** Toggling every collapsed row of well-formed rows leaves none
      collapsed and every marked row expanded. */
  lemma ToggleCollapsedRows(rows: seq<Row>)
    requires WellFormed(rows)
    ensures forall i :: 0 <= i < |rows| ==> !ToggleAt(rows, IndicesWhere(rows, IsCollapsed))[i].collapsed
    ensures forall i :: 0 <= i < |rows| && rows[i].managed ==> ToggleAt(rows, IndicesWhere(rows, IsCollapsed))[i].expanded
    ensures WellFormed(ToggleAt(rows, IndicesWhere(rows, IsCollapsed)))
  {
    var idxs := IndicesWhere(rows, IsCollapsed);
    var rows' := ToggleAt(rows, idxs);
    forall i | 0 <= i < |rows| ensures !rows'[i].collapsed {
      if rows[i].collapsed {
        assert i in idxs;
      } else {
        assert i !in idxs;
      }
    }
  }

  /** Toggling every expanded row of well-formed rows leaves none expanded
      and every marked row collapsed. */
  lemma ToggleExpandedRows(rows: seq<Row>)
    requires WellFormed(rows)
    ensures forall i :: 0 <= i < |rows| ==> !ToggleAt(rows, IndicesWhere(rows, IsExpanded))[i].expanded
    ensures forall i :: 0 <= i < |rows| && rows[i].managed ==> ToggleAt(rows, IndicesWhere(rows, IsExpanded))[i].collapsed
    ensures WellFormed(ToggleAt(rows, IndicesWhere(rows, IsExpanded)))
  {
    var idxs := IndicesWhere(rows, IsExpanded);
    var rows' := ToggleAt(rows, idxs);
    forall i | 0 <= i < |rows| ensures !rows'[i].expanded {
      if rows[i].expanded {
        assert i in idxs;
      } else {
        assert i !in idxs;
      }
    }
  }

  /** Expand all: from an expandable button every marked row ends expanded,
      none collapsed, and the button collapsable. */
  lemma ExpandAllExpandsEveryRow(s: ExpandAllState)
    requires WellFormed(s.rows) && IconShowsState(s.button) && s.button.expandable
    ensures forall i :: 0 <= i < |s.rows| ==> !ClickButton(s).rows[i].collapsed
    ensures forall i :: 0 <= i < |s.rows| && s.rows[i].managed ==> ClickButton(s).rows[i].expanded
    ensures !ClickButton(s).button.expandable && IconShowsState(ClickButton(s).button)
    ensures WellFormed(ClickButton(s).rows)
  {
    var t := ToggleState(s.button);
    var idxs := IndicesWhere(s.rows, IsCollapsed);
    SnapshotDistinct(idxs);
    ClickAllToggles(s.rows, t.0, idxs, RowToggleHandler());
    ToggleCollapsedRows(s.rows);
    if |idxs| > 0 {
      var prev := ClickAllLastHandler(s.rows, t.0, idxs, RowToggleHandler(), IconKept());
    }
  }

  /** Collapse all: from a collapsable button every marked row ends
      collapsed and the button expandable. */
  lemma CollapseAllCollapsesEveryRow(s: ExpandAllState)
    requires WellFormed(s.rows) && IconShowsState(s.button) && !s.button.expandable
    ensures forall i :: 0 <= i < |s.rows| ==> !ClickButton(s).rows[i].expanded
    ensures forall i :: 0 <= i < |s.rows| && s.rows[i].managed ==> ClickButton(s).rows[i].collapsed
    ensures ClickButton(s).button.expandable && IconShowsState(ClickButton(s).button)
    ensures WellFormed(ClickButton(s).rows)
  {
    var t := ToggleState(s.button);
    var idxs := IndicesWhere(s.rows, IsExpanded);
    SnapshotDistinct(idxs);
    ClickAllToggles(s.rows, t.0, idxs, RowToggleHandler());
    ToggleExpandedRows(s.rows);
    if |idxs| > 0 {
      var prev := ClickAllLastHandler(s.rows, t.0, idxs, RowToggleHandler(), IconKept());
      assert ClickButton(s).rows[idxs[0]].collapsed;
    }
  }

  /** `initialize`: once the header cell resolves, the button goes into it,
      the rows are marked and the table observer is connected; observing a
      missing table throws, which leaves the flag and the observer as they
      were. An unresolved header changes nothing. */
  function Initialize(s: ExpandAllState, header: Lookup<()>, tablePresent: bool): (s': ExpandAllState)
    ensures !header.Found? ==> s' == s
    ensures header.Found? ==> s'.buttonAttached && s'.rows == InitWorklogRows(s.rows) && s'.button == s.button
    ensures s'.initialized <==> (header.Found? && tablePresent) || s.initialized
    ensures s'.observing <==> (header.Found? && tablePresent) || s.observing
  {
    if !header.Found? then s
    else
      var marked := s.(buttonAttached := true, rows := InitWorklogRows(s.rows));
      if tablePresent then marked.(observing := true, initialized := true) else marked
  }

  /** The table observer marks rows that appear. */
  function OnMutation(s: ExpandAllState): (s': ExpandAllState)
    ensures s'.(rows := s.rows) == s
    ensures !s.observing ==> s' == s
    ensures s.observing ==> s'.rows == InitWorklogRows(s.rows)
    ensures s.observing ==> forall i :: 0 <= i < |s'.rows| && s'.rows[i].isGroup ==> s'.rows[i].managed
  {
    if s.observing then s.(rows := InitWorklogRows(s.rows)) else s
  }

  /** Strips the marker and both classes from a marked row; its click
      listener stays attached. */
  function StripAsWritten(r: Row): Row {
    if r.managed then r.(managed := false, expanded := false, collapsed := false) else r
  }

  /** `deregister` as written: once the header cell resolves it removes the
      button, strips the marked rows and disconnects the observer, but the
      rows keep their click listeners. */
  function DeregisterAsWritten(s: ExpandAllState, header: Lookup<()>): (s': ExpandAllState)
    ensures !header.Found? ==> s' == s
    ensures header.Found? ==> !s'.buttonAttached && !s'.observing && !s'.initialized
    ensures header.Found? ==> |s'.rows| == |s.rows|
    ensures header.Found? ==> forall i :: 0 <= i < |s.rows| && i < |s'.rows| ==>
              !s'.rows[i].managed && s'.rows[i].listeners == s.rows[i].listeners
    ensures header.Found? ==> forall i :: 0 <= i < |s.rows| && i < |s'.rows| && s.rows[i].managed ==>
              !s'.rows[i].expanded && !s'.rows[i].collapsed && s'.rows[i].isGroup == s.rows[i].isGroup
    ensures header.Found? ==> forall i :: 0 <= i < |s.rows| && i < |s'.rows| && !s.rows[i].managed ==>
              s'.rows[i] == s.rows[i]
    ensures header.Found? ==> s'.button == s.button
  {
    if !header.Found? then s
    else
      ExpandAllState(seq(|s.rows|, i requires 0 <= i < |s.rows| => StripAsWritten(s.rows[i])),
                     s.button, false, false, false)
  }

  /** Strips a marked row and detaches its click listener. */
  function Strip(r: Row): Row {
    if r.managed then r.(managed := false, expanded := false, collapsed := false, listeners := 0) else r
  }

  /** `deregister` with the row listeners detached as well. */
  function Deregister(s: ExpandAllState, header: Lookup<()>): (s': ExpandAllState)
    ensures !header.Found? ==> s' == s
    ensures header.Found? ==> !s'.buttonAttached && !s'.observing && !s'.initialized
    ensures header.Found? ==> |s'.rows| == |s.rows|
    ensures header.Found? ==> forall i :: 0 <= i < |s.rows| && i < |s'.rows| && s.rows[i].managed ==>
              Inert(s'.rows[i]) && !s'.rows[i].managed && s'.rows[i].isGroup == s.rows[i].isGroup
    ensures header.Found? ==> forall i :: 0 <= i < |s.rows| && i < |s'.rows| && !s.rows[i].managed ==>
              s'.rows[i] == s.rows[i]
    ensures header.Found? && WellFormed(s.rows) ==> forall i :: 0 <= i < |s.rows| && i < |s'.rows| ==>
              Inert(s'.rows[i]) && s'.rows[i].isGroup == s.rows[i].isGroup
    ensures header.Found? ==> s'.button == s.button
  {
    if !header.Found? then s
    else
      ExpandAllState(seq(|s.rows|, i requires 0 <= i < |s.rows| => Strip(s.rows[i])),
                     s.button, false, false, false)
  }

  /** As written, deregistering and initializing again leaves a marked row
      with two listeners, and a click on it toggles it twice: it stays as it
      was. */
  lemma ReinitializeDoublesListeners(s: ExpandAllState, i: int)
    requires WellFormed(s.rows) && 0 <= i < |s.rows| && s.rows[i].managed
    ensures var s' := Initialize(DeregisterAsWritten(s, Found(())), Found(()), true);
            && |s'.rows| == |s.rows|
            && s'.rows[i].managed && s'.rows[i].listeners == 2
            && ClickRowEvent(s', i).rows == s'.rows
  {
    var d := DeregisterAsWritten(s, Found(()));
    var s' := Initialize(d, Found(()), true);
    assert d.rows[i] == StripAsWritten(s.rows[i]);
    var r := s'.rows[i];
    assert HasTarget(r);
    var h := RowToggleHandler();
    var one := ListenerRun(s'.rows, s'.button, i, h);
    assert one.0 == s'.rows[i := ToggleClasses(r)];
    var two := ListenerRun(one.0, one.1, i, h);
    assert two.0 == s'.rows[i := ToggleClasses(r)][i := ToggleClasses(ToggleClasses(r))];
    assert two.0 == s'.rows;
    assert RunListeners(two.0, two.1, i, 0, h) == two;
    assert RunListeners(one.0, one.1, i, 1, h) == two;
  }

  /** With the listeners detached, deregistering and initializing again
      keeps the rows well formed, so a click on a marked row toggles it. */
  lemma ReinitializeKeepsOneListener(s: ExpandAllState, i: int)
    requires WellFormed(s.rows) && 0 <= i < |s.rows| && s.rows[i].managed
    ensures var s' := Initialize(Deregister(s, Found(())), Found(()), true);
            && WellFormed(s'.rows)
            && s'.rows[i].managed && s'.rows[i].listeners == 1
            && ClickRowEvent(s', i).rows == s'.rows[i := ToggleClasses(s'.rows[i])]
  {
    var d := Deregister(s, Found(()));
    assert WellFormed(d.rows);
    var s' := Initialize(d, Found(()), true);
    InitWorklogRowsWellFormed(d.rows);
    ClickMarkedRow(s', i);
  }
}
