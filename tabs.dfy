/**
 * The `Tabs` container: a tab list that owns (uncontrolled) or reports
 * (controlled) the selected id, reacts to clicks on its tabs and to the
 * arrow, Home and End keys, and renders one `Tab` per item.
 */
module Tabs {
  import opened Wrappers
  import ClassList
  import Tab
  import opened TabsNavigation

  /**
   * The props of one render. `selectedId` present makes the component
   * controlled; `hasOnTabChange` says whether an `onTabChange` callback was
   * passed; `variant` defaults to `pill` and `className` to "".
   */
  datatype TabsProps = TabsProps(
    tabs: seq<TabItem>,
    defaultSelectedId: Option<string>,
    selectedId: Option<string>,
    hasOnTabChange: bool,
    variant: Option<Tab.TabVariant>,
    className: Option<string>)

  /** `tabsClasses`: `["tabs", "tabs--{variant}", className].filter(Boolean).join(" ")`. */
  function ContainerClasses(variant: Option<Tab.TabVariant>, className: Option<string>): string {
    ClassList.Compose(["tabs", "tabs--" + variant.GetOr(Tab.Pill).Name(), className.GetOr("")])
  }

  /**
   * The container's class attribute reads back as `tabs`, `tabs--{variant}`
   * (variant defaulting to `pill`) and the extra class name only when it is
   * non-empty.
   */
  lemma ContainerClassesReadBack(variant: Option<Tab.TabVariant>, className: Option<string>)
    requires ClassList.HasNoWhitespace(className.GetOr(""))
    ensures ClassList.Words(ContainerClasses(variant, className))
      == ["tabs", "tabs--" + variant.GetOr(Tab.Pill).Name()]
         + (if className.GetOr("") != "" then [className.GetOr("")] else [])
  {
    var v := "tabs--" + variant.GetOr(Tab.Pill).Name();
    var c := className.GetOr("");
    var e := ["tabs", v, c];
    assert ClassList.HasNoWhitespace(v);
    ClassList.ComposeWords(e);
    assert e == ["tabs", v] + [c];
    ClassList.TruthyAppend(["tabs", v], [c]);
    ClassList.TruthySingle(c);
    assert ClassList.Truthy(["tabs", v]) == ["tabs", v] by {
      assert ["tabs", v][1..][1..] == [];
    }
  }

  /**
   * The props each item's `Tab` is rendered with: selected exactly when its
   * id is the current selection, disabled as the item says, always given
   * the container's click handler and variant; label and badge pass through
   * unchanged, and no extra class name is passed.
   */
  function TabPropsFor(item: TabItem, current: Option<string>, variant: Option<Tab.TabVariant>): (p: Tab.TabProps)
    ensures p.id == item.id && p.hasOnClick
    ensures p.Selected() <==> current == Some(item.id)
    ensures p.Disabled() <==> !item.IsEnabled()
    ensures p.Variant() == variant.GetOr(Tab.Pill)
    ensures p.labelText == item.labelText
    ensures p.badgeLabel == item.badgeLabel && p.badgeVariant == item.badgeVariant
    ensures p.className == None
  {
    Tab.TabProps(
      item.id, item.labelText,
      Some(current == Some(item.id)),
      item.isDisabled,
      true,
      item.badgeLabel, item.badgeVariant,
      Some(variant.GetOr(Tab.Pill)),
      None)
  }

  /**
   * With distinct tab ids, at most one rendered tab is selected, and the tab
   * whose id is the current selection is.
   */
  lemma AtMostOneSelected(tabs: seq<TabItem>, current: Option<string>, variant: Option<Tab.TabVariant>)
    requires UniqueIds(AllIds(tabs))
    ensures forall i, j ::
      (0 <= i < |tabs| && 0 <= j < |tabs|
       && TabPropsFor(tabs[i], current, variant).Selected()
       && TabPropsFor(tabs[j], current, variant).Selected()) ==> i == j
    ensures forall i :: 0 <= i < |tabs| && current == Some(tabs[i].id) ==> TabPropsFor(tabs[i], current, variant).Selected()
  {
    forall i, j | 0 <= i < |tabs| && 0 <= j < |tabs|
      && TabPropsFor(tabs[i], current, variant).Selected()
      && TabPropsFor(tabs[j], current, variant).Selected()
      ensures i == j
    {
      if i != j {
        DistinctAt(AllIds(tabs), i, j);
      }
    }
  }

  /** A mounted `Tabs` component: its latest props and its internal selection. */
  class TabsInstance {
    var props: TabsProps
    /** `internalSelectedId`; it can come to hold `undefined` (`None`). */
    var internalSelectedId: Option<string>
    /** Every call made to `onTabChange`, oldest first. */
    ghost var notifications: seq<Option<string>>
    /** Every id a deferred `focus()` was scheduled for, oldest first. */
    ghost var focusRequests: seq<Option<string>>

    /**
     * The first render: the internal selection starts from the initial
     * selection, and nothing has been notified or focused.
     */
    constructor (initial: TabsProps)
      ensures props == initial
      ensures internalSelectedId == Some(InitialSelection(initial.defaultSelectedId, initial.tabs))
      ensures notifications == [] && focusRequests == []
    {
      props := initial;
      internalSelectedId := Some(InitialSelection(initial.defaultSelectedId, initial.tabs));
      notifications := [];
      focusRequests := [];
    }

    /** `isControlled`: decided by the presence of `selectedId`, not its value. */
    predicate IsControlled()
      reads this
    {
      props.selectedId.Some?
    }

    /** `currentSelectedId`. */
    function CurrentSelectedId(): Option<string>
      reads this
    {
      if IsControlled() then props.selectedId else internalSelectedId
    }

    /**
     * A later render with new props: the internal selection is kept (the
     * initial value of the state hook is read only on the first render).
     */
    method Rerender(next: TabsProps)
      modifies this
      ensures props == next
      ensures internalSelectedId == old(internalSelectedId)
      ensures notifications == old(notifications) && focusRequests == old(focusRequests)
    {
      props := next;
    }

    /** The props each `Tab` is rendered with, in list order. */
    function RenderedTabs(): (ps: seq<Tab.TabProps>)
      reads this
      ensures |ps| == |props.tabs|
      ensures forall i :: 0 <= i < |ps| ==> ps[i] == TabPropsFor(props.tabs[i], CurrentSelectedId(), props.variant)
    {
      seq(|props.tabs|, i requires 0 <= i < |props.tabs| reads this =>
        TabPropsFor(props.tabs[i], CurrentSelectedId(), props.variant))
    }

    /**
     * `handleTabSelect`: selecting the current id does nothing. Any other id
     * is reported once to `onTabChange` (when given) and stored only when
     * uncontrolled.
     */
    method HandleTabSelect(tabId: string)
      modifies this
      ensures props == old(props) && focusRequests == old(focusRequests)
      ensures Some(tabId) == old(CurrentSelectedId()) ==>
        notifications == old(notifications) && internalSelectedId == old(internalSelectedId)
      ensures Some(tabId) != old(CurrentSelectedId()) ==>
        && notifications == old(notifications) + (if props.hasOnTabChange then [Some(tabId)] else [])
        && internalSelectedId == (if IsControlled() then old(internalSelectedId) else Some(tabId))
      ensures IsControlled() ==> internalSelectedId == old(internalSelectedId)
      ensures !IsControlled() ==> CurrentSelectedId() == Some(tabId)
    {
      if Some(tabId) != CurrentSelectedId() {
        if !IsControlled() {
          internalSelectedId := Some(tabId);
        }
        if props.hasOnTabChange {
          notifications := notifications + [Some(tabId)];
        }
      }
    }

    /**
     * A click on the `j`-th rendered tab: the tab's `handleClick` guard, then
     * `handleTabSelect`. A click on a disabled tab changes nothing and
     * notifies nothing.
     */
    method ClickTab(j: nat)
      requires j < |props.tabs|
      modifies this
      ensures props == old(props) && focusRequests == old(focusRequests)
      ensures !old(props).tabs[j].IsEnabled() ==>
        notifications == old(notifications) && internalSelectedId == old(internalSelectedId)
      ensures old(props).tabs[j].IsEnabled() && Some(old(props).tabs[j].id) != old(CurrentSelectedId()) ==>
        && notifications == old(notifications) + (if props.hasOnTabChange then [Some(props.tabs[j].id)] else [])
        && internalSelectedId == (if IsControlled() then old(internalSelectedId) else Some(props.tabs[j].id))
      ensures old(props).tabs[j].IsEnabled() && Some(old(props).tabs[j].id) == old(CurrentSelectedId()) ==>
        notifications == old(notifications) && internalSelectedId == old(internalSelectedId)
    {
      var p := TabPropsFor(props.tabs[j], CurrentSelectedId(), props.variant);
      var call := Tab.HandleClick(p);
      if call.Some? {
        HandleTabSelect(call.value);
      }
    }

    /**
     * `handleKeyDown`. Returns whether the event was intercepted
     * (`preventDefault`). An ignored key changes nothing. A handled key
     * always reports its target to `onTabChange` (when given), even when it
     * is the current id; only a different target is stored (when
     * uncontrolled) and has focus moved to it.
     */
    method HandleKeyDown(key: string) returns (intercepted: bool)
      modifies this
      ensures props == old(props)
      ensures var out := KeyDown(props.tabs, old(CurrentSelectedId()), key);
        && intercepted == out.Handled?
        && notifications == old(notifications) + (if out.Handled? && props.hasOnTabChange then [out.target] else [])
        && focusRequests == old(focusRequests)
             + (if out.Handled? && out.target != old(CurrentSelectedId()) then [out.target] else [])
        && internalSelectedId
           == (if out.Handled? && out.target != old(CurrentSelectedId()) && !IsControlled()
               then out.target else old(internalSelectedId))
      ensures IsControlled() ==> internalSelectedId == old(internalSelectedId)
      ensures !IsControlled() ==> CurrentSelectedId() == AfterKey(EnabledIds(props.tabs), old(CurrentSelectedId()), key)
    {
      var current := CurrentSelectedId();
      var enabledTabIds := EnabledIds(props.tabs);
      if |enabledTabIds| == 0 {
        return false;
      }
      var currentIndex := IndexOf(enabledTabIds, current);
      var nextIndex := currentIndex;
      var handled := false;
      if IsBackwardKey(key) {
        intercepted := true;
        if |enabledTabIds| > 1 {
          nextIndex := StepBackward(enabledTabIds, current, currentIndex);
        }
        handled := true;
      } else if IsForwardKey(key) {
        intercepted := true;
        if |enabledTabIds| > 1 {
          nextIndex := StepForward(enabledTabIds, current, currentIndex);
        }
        handled := true;
      } else if key == "Home" {
        intercepted := true;
        nextIndex := 0;
        handled := true;
      } else if key == "End" {
        intercepted := true;
        nextIndex := |enabledTabIds| - 1;
        handled := true;
      } else {
        return false;
      }
      // `enabledTabIds[-1]` is `undefined`.
      var nextTabId := if nextIndex < 0 then None else Some(enabledTabIds[nextIndex]);
      if handled {
        if props.hasOnTabChange {
          notifications := notifications + [nextTabId];
        }
        if nextTabId != current {
          if !IsControlled() {
            internalSelectedId := nextTabId;
          }
          focusRequests := focusRequests + [nextTabId];
        }
      }
    }
  }
}
