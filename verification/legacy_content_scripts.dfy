/** The two older content scripts: the same row and button rules as the
    expand-all feature, with the button state held in the icon text and the
    row listener a single named function, which the DOM registers at most
    once per row. */
module LegacyContentScripts {
  import opened Wrappers
  import opened JsValues
  import opened WorklogRows
  import opened LegacyExpandCollapse
  import ExpandAll
  import ExpandCollapseElement

  const ShortFooterKey: string := "shortFooter"

  /** The page as the scripts change it: the rows, the text of the button
      icon if the button is in the page, and whether the footer is restyled. */
  datatype LegacyPage = LegacyPage(rows: seq<Row>, icon: Option<string>, footerStyled: bool)

  /** `handleFooterDisplay`: only with a truthy `shortFooter` setting, adds
      the button showing "unfold_more" and restyles the footer. */
  function HandleFooterDisplay(page: LegacyPage, footerSettings: JsValue): (p: LegacyPage)
    ensures !Truthy(Get(footerSettings, ShortFooterKey)) ==> p == page
    ensures Truthy(Get(footerSettings, ShortFooterKey)) ==>
              p == page.(icon := Some(UnfoldMore), footerStyled := true)
  {
    if Truthy(Get(footerSettings, ShortFooterKey)) then page.(icon := Some(UnfoldMore), footerStyled := true)
    else page
  }

  /** `initToggleStuff` of the marking script: every unmarked group row gets
      the marker, a class by the next-sibling rule, and the listener. */
  function InitToggleStuffMarked(rows: seq<Row>): (r: seq<Row>)
    ensures |r| == |rows|
    ensures forall i :: 0 <= i < |rows| && !ExpandAll.Unmanaged(rows[i]) ==> r[i] == rows[i]
    ensures forall i :: 0 <= i < |rows| && ExpandAll.Unmanaged(rows[i]) ==>
              && r[i].isGroup && r[i].managed && r[i].listeners == 1
              && r[i].expanded == (rows[i].expanded || NextIsDetail(rows, i))
              && r[i].collapsed == (rows[i].collapsed || !NextIsDetail(rows, i))
  {
    seq(|rows|, i requires 0 <= i < |rows| =>
      if ExpandAll.Unmanaged(rows[i]) then
        rows[i].(managed := true,
                 expanded := rows[i].expanded || NextIsDetail(rows, i),
                 collapsed := rows[i].collapsed || !NextIsDetail(rows, i),
                 listeners := 1)
      else rows[i])
  }

  /** On rows kept the way the feature keeps them, the marking script marks
      exactly as the feature does. */
  lemma MarkedAgreesWithFeature(rows: seq<Row>)
    requires ExpandAll.WellFormed(rows)
    ensures InitToggleStuffMarked(rows) == ExpandAll.InitWorklogRows(rows)
  {
  }

  lemma InitToggleStuffMarkedIdempotent(rows: seq<Row>)
    ensures InitToggleStuffMarked(InitToggleStuffMarked(rows)) == InitToggleStuffMarked(rows)
  {
    var once := InitToggleStuffMarked(rows);
    assert forall i :: 0 <= i < |once| ==> !ExpandAll.Unmanaged(once[i]);
  }

  /** `initToggleStuff` of the script without the marker: every group row,
      whatever classes it has, gets a class by the next-sibling rule and the
      listener. */
  function InitToggleStuffUnmarked(rows: seq<Row>): (r: seq<Row>)
    ensures |r| == |rows|
    ensures forall i :: 0 <= i < |rows| && !rows[i].isGroup ==> r[i] == rows[i]
    ensures forall i :: 0 <= i < |rows| && rows[i].isGroup ==>
              && r[i].isGroup && r[i].managed == rows[i].managed && r[i].listeners == 1
              && r[i].expanded == (rows[i].expanded || NextIsDetail(rows, i))
              && r[i].collapsed == (rows[i].collapsed || !NextIsDetail(rows, i))
  {
    seq(|rows|, i requires 0 <= i < |rows| =>
      if rows[i].isGroup then
        rows[i].(expanded := rows[i].expanded || NextIsDetail(rows, i),
                 collapsed := rows[i].collapsed || !NextIsDetail(rows, i),
                 listeners := 1)
      else rows[i])
  }

  /** Without the marker nothing skips a classified row: after a click has
      collapsed an expanded row, classifying again gives it both classes.
      The script itself runs `initToggleStuff` once, when it loads, so this
      describes what a second run would do rather than something the page
      goes through. */
  lemma UnmarkedReclassifiesToggledRows()
    ensures var rows := InitToggleStuffUnmarked([GroupRow, DetailRow]);
            var clicked := rows[0 := ToggleClasses(rows[0])];
            var again := InitToggleStuffUnmarked(clicked);
            rows[0].expanded && clicked[0].collapsed && again[0].expanded && again[0].collapsed
  {
    assert NextIsDetail([GroupRow, DetailRow], 0);
    var rows := InitToggleStuffUnmarked([GroupRow, DetailRow]);
    assert NextIsDetail(rows[0 := ToggleClasses(rows[0])], 0);
  }

  /** On rows that carry no marker, as the script without one leaves them,
      the two scripts classify alike and differ only in the marker. */
  lemma UnmarkedAgreesWithMarked(rows: seq<Row>)
    requires forall i :: 0 <= i < |rows| ==> !rows[i].managed
    ensures forall i :: 0 <= i < |rows| ==>
              InitToggleStuffUnmarked(rows)[i] == InitToggleStuffMarked(rows)[i].(managed := false)
  {
  }

  /** `toggleExpandIcon`: "unfold_more" becomes "unfold_less" once no row is
      collapsed, "unfold_less" becomes "unfold_more" once one is, and any
      other text stays. Without the button the call throws and changes
      nothing. */
  function ToggleExpandIcon(icon: Option<string>, rows: seq<Row>): (r: Option<string>)
    ensures icon.None? ==> r.None?
    ensures icon.Some? && (icon.value == UnfoldMore || icon.value == UnfoldLess) ==>
              r.Some? && (r.value == UnfoldMore || r.value == UnfoldLess) && (r.value == UnfoldMore <==> SomeCollapsed(rows))
    ensures icon.Some? && icon.value != UnfoldMore && icon.value != UnfoldLess ==> r == icon
  {
    match icon
    case None => None
    case Some(text) =>
      if text == UnfoldMore then (if !SomeCollapsed(rows) then Some(UnfoldLess) else icon)
      else if text == UnfoldLess then (if SomeCollapsed(rows) then Some(UnfoldMore) else icon)
      else icon
  }

  /** For the two known texts the icon follows the newer button's rule. */
  lemma ToggleExpandIconAgreesWithFeature(text: string, rows: seq<Row>)
    requires text == UnfoldMore || text == UnfoldLess
    ensures Abstract(LegacyButton(ToggleExpandIcon(Some(text), rows).value))
         == ExpandAll.HandleRowToggle(Abstract(LegacyButton(text)), rows)
  {
  }

  function IconHandler(): (Option<string>, seq<Row>) -> Option<string> {
    (icon, rows) => ToggleExpandIcon(icon, rows)
  }

  predicate KnownIcon(icon: Option<string>) {
    icon.Some? && (icon.value == UnfoldMore || icon.value == UnfoldLess)
  }

  function KnownIconKept(): Option<string> -> bool {
    icon => KnownIcon(icon)
  }

  /** `toggleRow` through the row's listener: a user click on row `i`. */
  function ClickRowEvent(page: LegacyPage, i: int): (p: LegacyPage)
    requires 0 <= i < |page.rows|
    ensures |p.rows| == |page.rows|
    ensures p.footerStyled == page.footerStyled
    ensures forall j :: 0 <= j < |page.rows| && j != i ==> p.rows[j] == page.rows[j]
    ensures SameShape(p.rows[i], page.rows[i])
    ensures page.rows[i].listeners == 0 ==> p == page
  {
    var r := ClickRow(page.rows, page.icon, i, IconHandler());
    page.(rows := r.0, icon := r.1)
  }

  /** `toggleExpand`, the button's click, reading the icon text from the
      page: from "unfold_more" it shows "unfold_less" and clicks every
      collapsed row; from any other text it shows "unfold_more" and clicks
      every expanded row. Without the icon the query yields null and the
      call throws before changing anything. */
  function ToggleExpand(page: LegacyPage): (p: LegacyPage)
    ensures |p.rows| == |page.rows|
    ensures page.icon.None? ==> p == page
    ensures p.footerStyled == page.footerStyled
    ensures forall j :: 0 <= j < |page.rows| ==> SameShape(p.rows[j], page.rows[j])
  {
    match page.icon
    case None => page
    case Some(text) =>
      var idxs := if text == UnfoldMore then IndicesWhere(page.rows, IsCollapsed) else IndicesWhere(page.rows, IsExpanded);
      var icon := if text == UnfoldMore then UnfoldLess else UnfoldMore;
      var r := ClickAll(page.rows, Some(icon), idxs, IconHandler());
      ClickAllFrame(page.rows, Some(icon), idxs, IconHandler());
      page.(rows := r.0, icon := r.1)
  }

  /** The snapshot of the rows carrying one class: every listed row is
      clickable, and toggling the listed rows leaves no row with that class. */
  lemma SnapshotClears(rows: seq<Row>, collapsed: bool)
    requires ClickConsistent(rows)
    ensures var idxs := IndicesWhere(rows, if collapsed then IsCollapsed else IsExpanded);
            && (forall k :: 0 <= k < |idxs| ==> HasTarget(rows[idxs[k]]))
            && (forall k, l :: 0 <= k < l < |idxs| ==> idxs[k] != idxs[l])
            && (forall i :: 0 <= i < |rows| ==>
                  !(if collapsed then ToggleAt(rows, idxs)[i].collapsed else ToggleAt(rows, idxs)[i].expanded))
  {
    var idxs := IndicesWhere(rows, if collapsed then IsCollapsed else IsExpanded);
    SnapshotDistinct(idxs);
    forall i | 0 <= i < |rows|
      ensures !(if collapsed then ToggleAt(rows, idxs)[i].collapsed else ToggleAt(rows, idxs)[i].expanded)
    {
      if (collapsed && rows[i].collapsed) || (!collapsed && rows[i].expanded) {
        assert i in idxs;
      } else {
        assert i !in idxs;
      }
    }
  }

  /** From "unfold_more" every row ends without the collapsed class and the
      icon reads "unfold_less". */
  lemma ToggleExpandFromMore(page: LegacyPage)
    requires ClickConsistent(page.rows) && page.icon == Some(UnfoldMore)
    ensures forall i :: 0 <= i < |page.rows| ==> !ToggleExpand(page).rows[i].collapsed
    ensures ToggleExpand(page).icon == Some(UnfoldLess)
  {
    var idxs := IndicesWhere(page.rows, IsCollapsed);
    SnapshotClears(page.rows, true);
    ClickAllToggles(page.rows, Some(UnfoldLess), idxs, IconHandler());
    if |idxs| > 0 {
      var prev := ClickAllLastHandler(page.rows, Some(UnfoldLess), idxs, IconHandler(), KnownIconKept());
    }
  }

  /** From any other text every row ends without the expanded class and the
      icon reads "unfold_more". */
  lemma ToggleExpandFromOther(page: LegacyPage)
    requires ClickConsistent(page.rows) && page.icon.Some? && page.icon.value != UnfoldMore
    ensures forall i :: 0 <= i < |page.rows| ==> !ToggleExpand(page).rows[i].expanded
    ensures ToggleExpand(page).icon == Some(UnfoldMore)
  {
    var idxs := IndicesWhere(page.rows, IsExpanded);
    SnapshotClears(page.rows, false);
    ClickAllToggles(page.rows, Some(UnfoldMore), idxs, IconHandler());
    if |idxs| > 0 {
      var prev := ClickAllLastHandler(page.rows, Some(UnfoldMore), idxs, IconHandler(), KnownIconKept());
      assert ToggleAt(page.rows, idxs)[idxs[0]].collapsed;
    }
  }

  /** Showing the footer never touches the rows, and a second call with the
      same settings changes nothing more: the newest button comes first and
      shows "unfold_more". */
  lemma HandleFooterDisplayKeepsRows(page: LegacyPage, footerSettings: JsValue)
    ensures HandleFooterDisplay(page, footerSettings).rows == page.rows
    ensures HandleFooterDisplay(HandleFooterDisplay(page, footerSettings), footerSettings)
         == HandleFooterDisplay(page, footerSettings)
  {
  }

  /** With `shortFooter` truthy, the added button works: its first click
      expands every row and turns the icon to "unfold_less". */
  lemma FooterButtonExpandsAll(page: LegacyPage, footerSettings: JsValue)
    requires Truthy(Get(footerSettings, ShortFooterKey)) && ClickConsistent(page.rows)
    ensures var shown := HandleFooterDisplay(page, footerSettings);
            && ToggleExpand(shown).icon == Some(UnfoldLess)
            && forall i :: 0 <= i < |page.rows| ==> !ToggleExpand(shown).rows[i].collapsed
  {
    ToggleExpandFromMore(HandleFooterDisplay(page, footerSettings));
  }

  /** With `shortFooter` falsy on a page without the button, there is no
      button to click: the page stays as it is. */
  lemma FooterOffLeavesNoButton(page: LegacyPage, footerSettings: JsValue)
    requires !Truthy(Get(footerSettings, ShortFooterKey)) && page.icon.None?
    ensures ToggleExpand(HandleFooterDisplay(page, footerSettings)) == page
  {
  }

  /** The marking script's table observer, connected for the page's
      lifetime, runs the marking pass on every mutation: the button and the
      footer stay, and every group row ends marked. */
  function OnTableMutation(page: LegacyPage): (p: LegacyPage)
    ensures p.icon == page.icon && p.footerStyled == page.footerStyled
    ensures p.rows == InitToggleStuffMarked(page.rows)
    ensures forall i :: 0 <= i < |p.rows| && p.rows[i].isGroup ==> p.rows[i].managed
  {
    page.(rows := InitToggleStuffMarked(page.rows))
  }

  /** Further mutations with no new rows change nothing. */
  lemma OnTableMutationIdempotent(page: LegacyPage)
    ensures OnTableMutation(OnTableMutation(page)) == OnTableMutation(page)
  {
    InitToggleStuffMarkedIdempotent(page.rows);
  }
}
