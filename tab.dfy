/**
 * The `Tab` component: one button of a tab list. It holds no state; what it
 * renders and whether a click reaches `onClick` are functions of its props.
 */
module Tab {
  import opened Wrappers
  import ClassList
  import Badge

  datatype TabVariant = Pill | Underline {
    /** The string value of the variant in the source's union type. */
    function Name(): string {
      match this
      case Pill => "pill"
      case Underline => "underline"
    }
  }

  /**
   * The props of a tab. An absent optional prop is `None`; the component's
   * destructuring defaults (`isSelected = false`, `isDisabled = false`,
   * `badgeVariant = "neutral"`, `variant = "pill"`, `className = ""`) are
   * applied by the accessors below. `hasOnClick` says whether an `onClick`
   * handler was passed.
   */
  datatype TabProps = TabProps(
    id: string,
    labelText: string,
    isSelected: Option<bool>,
    isDisabled: Option<bool>,
    hasOnClick: bool,
    badgeLabel: Option<string>,
    badgeVariant: Option<Badge.BadgeVariant>,
    variant: Option<TabVariant>,
    className: Option<string>)
  {
    function Selected(): bool { isSelected.GetOr(false) }
    function Disabled(): bool { isDisabled.GetOr(false) }
    function Variant(): TabVariant { variant.GetOr(Pill) }
    function ExtraClass(): string { className.GetOr("") }
  }

  /** The badge a tab renders inside its button. */
  datatype BadgeView = BadgeView(content: string, classes: string)

  /** The attributes and children of the rendered `<button>`. */
  datatype TabView = TabView(
    role: string,
    classes: string,
    ariaSelected: bool,
    ariaDisabled: bool,
    disabled: bool,
    labelText: string,
    badge: Option<BadgeView>)

  /**
   * `handleClick`: the call it makes to `onClick`, if any. The handler is
   * called, with the tab's own id, exactly when the tab is enabled and a
   * handler is present.
   */
  function HandleClick(p: TabProps): (call: Option<string>)
    ensures call.Some? <==> !p.Disabled() && p.hasOnClick
    ensures call.Some? ==> call.value == p.id
  {
    if !p.Disabled() && p.hasOnClick then Some(p.id) else None
  }

  /** The array handed to `filter(Boolean)`; a `false` entry is written "". */
  function ClassEntries(p: TabProps): seq<string> {
    [ "tab",
      "tab--" + p.Variant().Name(),
      if p.Selected() then "tab--selected" else "",
      if p.Disabled() then "tab--disabled" else "",
      p.ExtraClass() ]
  }

  /** `tabClasses`. */
  function Classes(p: TabProps): string {
    ClassList.Compose(ClassEntries(p))
  }

  /**
   * The class list holds `tab`, then `tab--{variant}`, then `tab--selected`
   * exactly when selected, `tab--disabled` exactly when disabled, and the
   * extra class name only when it is non-empty.
   */
  lemma ClassTokens(p: TabProps)
    ensures ClassList.Truthy(ClassEntries(p))
      == ["tab", "tab--" + p.Variant().Name()]
         + (if p.Selected() then ["tab--selected"] else [])
         + (if p.Disabled() then ["tab--disabled"] else [])
         + (if p.ExtraClass() != "" then [p.ExtraClass()] else [])
  {
    var e := ClassEntries(p);
    var head := ["tab", "tab--" + p.Variant().Name()];
    assert e == head + [e[2]] + [e[3]] + [e[4]];
    ClassList.TruthyAppend(head + [e[2]] + [e[3]], [e[4]]);
    ClassList.TruthyAppend(head + [e[2]], [e[3]]);
    ClassList.TruthyAppend(head, [e[2]]);
    assert ClassList.Truthy(head) == head by {
      assert head[1..][1..] == [];
    }
    ClassList.TruthySingle(e[2]);
    ClassList.TruthySingle(e[3]);
    ClassList.TruthySingle(e[4]);
  }

  lemma VariantTokenIsSingle(v: TabVariant)
    ensures ClassList.HasNoWhitespace("tab--" + v.Name())
    ensures ClassList.SingleSpaced("tab--" + v.Name())
  {
  }

  /**
   * Among the class tokens, `tab--selected` is present iff the tab is
   * selected and `tab--disabled` iff it is disabled, unless the extra class
   * is that very name; the first two tokens are `tab` and `tab--{variant}`.
   */
  lemma TokenFlags(p: TabProps)
    ensures var ts := ClassList.Truthy(ClassEntries(p));
      && |ts| >= 2 && ts[..2] == ["tab", "tab--" + p.Variant().Name()]
      && ("tab--selected" in ts <==> p.Selected() || p.ExtraClass() == "tab--selected")
      && ("tab--disabled" in ts <==> p.Disabled() || p.ExtraClass() == "tab--disabled")
  {
    ClassTokens(p);
    var v := "tab--" + p.Variant().Name();
    assert "tab--selected"[5] != "tab--disabled"[5];
    assert "tab--selected" != v by {
      if p.Variant() == Pill { assert |v| != 13; } else { assert v[5] != 's'; }
    }
    assert "tab--disabled" != v by {
      if p.Variant() == Pill { assert |v| != 13; } else { assert v[5] != 'd'; }
    }
  }

  /**
   * Read back by the browser, the class attribute is exactly the token list
   * of `ClassTokens` (the extra class being one class name), so the flags of
   * `TokenFlags` can be read off the attribute.
   */
  lemma ClassesReadBack(p: TabProps)
    requires ClassList.HasNoWhitespace(p.ExtraClass())
    ensures ClassList.Words(Classes(p)) == ClassList.Truthy(ClassEntries(p))
    ensures |ClassList.Words(Classes(p))| >= 2
    ensures ClassList.Words(Classes(p))[..2] == ["tab", "tab--" + p.Variant().Name()]
    ensures "tab--selected" in ClassList.Words(Classes(p))
            <==> p.Selected() || p.ExtraClass() == "tab--selected"
    ensures "tab--disabled" in ClassList.Words(Classes(p))
            <==> p.Disabled() || p.ExtraClass() == "tab--disabled"
  {
    VariantTokenIsSingle(p.Variant());
    ClassList.ComposeWords(ClassEntries(p));
    TokenFlags(p);
  }

  /**
   * Provided the extra class name has no stray spaces, the class attribute
   * starts `tab tab--{variant}` and has no leading, trailing or doubled space.
   */
  lemma ClassesSingleSpaced(p: TabProps)
    requires ClassList.SingleSpaced(p.ExtraClass())
    ensures ClassList.SingleSpaced(Classes(p))
    ensures var h := "tab tab--" + p.Variant().Name(); |h| <= |Classes(p)| && Classes(p)[..|h|] == h
  {
    VariantTokenIsSingle(p.Variant());
    ClassList.ComposeSingleSpaced(ClassEntries(p));
    ClassTokens(p);
    var ts := ClassList.Truthy(ClassEntries(p));
    assert ClassList.JoinSpace(ts) == "tab" + " " + ClassList.JoinSpace(ts[1..]);
    var v := "tab--" + p.Variant().Name();
    if |ts| == 2 {
      assert ClassList.JoinSpace(ts[1..]) == v;
    } else {
      assert ClassList.JoinSpace(ts[1..]) == v + " " + ClassList.JoinSpace(ts[2..]);
    }
  }

  /**
   * The rendered button: role `tab`; `aria-selected` is the selected flag and
   * both `aria-disabled` and `disabled` are the disabled flag; a badge is
   * rendered exactly when the badge label is non-empty, with the badge
   * variant defaulting to `neutral` and the extra class `tab__badge`.
   */
  function Render(p: TabProps): (view: TabView)
    ensures view.role == "tab" && view.labelText == p.labelText
    ensures view.classes == Classes(p)
    ensures view.ariaSelected == p.Selected()
    ensures view.ariaDisabled == p.Disabled() && view.disabled == p.Disabled()
    ensures view.badge.Some? <==> p.badgeLabel.Some? && p.badgeLabel.value != ""
    ensures view.badge.Some? ==>
      && view.badge.value.content == p.badgeLabel.value
      && view.badge.value.classes
         == "badge badge--" + p.badgeVariant.GetOr(Badge.Neutral).Name() + " tab__badge"
  {
    var showBadge := p.badgeLabel.Some? && p.badgeLabel.value != "";
    Badge.ClassesWithExtraClass(p.badgeVariant.GetOr(Badge.Neutral), "tab__badge");
    TabView(
      "tab",
      Classes(p),
      p.Selected(),
      p.Disabled(),
      p.Disabled(),
      p.labelText,
      if showBadge
      then Some(BadgeView(p.badgeLabel.value, Badge.Classes(Some(p.badgeVariant.GetOr(Badge.Neutral)), Some("tab__badge"))))
      else None)
  }
}
