/** The expand-all button: a two-state machine whose state is shown as an
    icon, and whose click toggles the state and then runs the callback of
    the new state. */
module ExpandCollapseElement {

  const ExpandableIcon: string := "expand"
  const CollapsableIcon: string := "shrink"

  datatype Button = Button(expandable: bool, icon: string)

  /** The callbacks given to the constructor. */
  datatype Callback = OnExpandableState | OnCollapsableState

  /** The icon shows the state. */
  predicate IconShowsState(b: Button) {
    b.icon == (if b.expandable then ExpandableIcon else CollapsableIcon)
  }

  /** A new element is expandable and shows the expand icon. */
  const New: Button := Button(true, ExpandableIcon)

  lemma NewIsExpandable()
    ensures New.expandable && IconShowsState(New)
  {
  }

  /** `makeExpandable`: sets the state without running a callback. */
  function MakeExpandable(b: Button): (r: Button)
    ensures r.expandable && IconShowsState(r)
  {
    Button(true, ExpandableIcon)
  }

  /** `makeCollapsable`: sets the state without running a callback. */
  function MakeCollapsable(b: Button): (r: Button)
    ensures !r.expandable && IconShowsState(r)
  {
    Button(false, CollapsableIcon)
  }

  /** The click handler: flips the state and names the one callback run. */
  function ToggleState(b: Button): (r: (Button, Callback))
    ensures r.0.expandable == !b.expandable && IconShowsState(r.0)
    ensures r.1 == (if r.0.expandable then OnExpandableState else OnCollapsableState)
  {
    if b.expandable then (MakeCollapsable(b), OnCollapsableState)
    else (MakeExpandable(b), OnExpandableState)
  }

  /** Two clicks restore a consistent state. */
  lemma ToggleTwice(b: Button)
    requires IconShowsState(b)
    ensures ToggleState(ToggleState(b).0).0 == b
  {
  }
}

/** The older expand-all button of the content scripts, whose state is the
    text of its icon. */
module LegacyExpandCollapse {
  import ExpandCollapseElement

  const UnfoldMore: string := "unfold_more"
  const UnfoldLess: string := "unfold_less"

  datatype LegacyButton = LegacyButton(iconText: string)

  /** `isExpandable`: the icon text is exactly "unfold_more". */
  predicate IsExpandable(b: LegacyButton) {
    b.iconText == UnfoldMore
  }

  const New: LegacyButton := LegacyButton(UnfoldMore)

  lemma NewIsExpandable()
    ensures IsExpandable(New)
  {
  }

  function MakeExpandable(b: LegacyButton): (r: LegacyButton)
    ensures IsExpandable(r) && r.iconText == UnfoldMore
  {
    LegacyButton(UnfoldMore)
  }

  function MakeCollapsable(b: LegacyButton): (r: LegacyButton)
    ensures !IsExpandable(r) && r.iconText == UnfoldLess
  {
    LegacyButton(UnfoldLess)
  }

  function ToggleState(b: LegacyButton): (r: (LegacyButton, ExpandCollapseElement.Callback))
    ensures IsExpandable(r.0) == !IsExpandable(b)
    ensures r.1 == (if IsExpandable(r.0) then ExpandCollapseElement.OnExpandableState
                    else ExpandCollapseElement.OnCollapsableState)
  {
    if IsExpandable(b) then (MakeCollapsable(b), ExpandCollapseElement.OnCollapsableState)
    else (MakeExpandable(b), ExpandCollapseElement.OnExpandableState)
  }

  /** The state of the newer button that a legacy button corresponds to. */
  function Abstract(b: LegacyButton): ExpandCollapseElement.Button {
    if IsExpandable(b) then ExpandCollapseElement.MakeExpandable(ExpandCollapseElement.New)
    else ExpandCollapseElement.MakeCollapsable(ExpandCollapseElement.New)
  }

  /** Both buttons run the same callback and reach corresponding states. */
  lemma ToggleAgreesWithNewer(b: LegacyButton)
    ensures Abstract(ToggleState(b).0) == ExpandCollapseElement.ToggleState(Abstract(b)).0
    ensures ToggleState(b).1 == ExpandCollapseElement.ToggleState(Abstract(b)).1
  {
  }

  /** Any text other than "unfold_more" counts as collapsable, so two clicks
      restore only the two known texts. */
  lemma {:induction false} ToggleTwiceNormalizes(b: LegacyButton)
    ensures ToggleState(ToggleState(b).0).0 == (if IsExpandable(b) then b else LegacyButton(UnfoldLess))
  {
    if !IsExpandable(b) {
      assert ToggleState(b).0 == LegacyButton(UnfoldMore);
    }
  }
}
