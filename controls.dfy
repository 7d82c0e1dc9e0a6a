/** The class-set state machines of the page: the mobile menu and the
    language dropdown, each shown or hidden by the `hidden` class, and the
    two-tab switcher of the enrolment page. */
module Controls {
  import opened Dom

  const Hidden := "hidden"
  const MenuButtonId := "mobile-menu-btn"
  const MenuId := "mobile-menu"
  const DropdownButtonId := "language-dropdown-btn"
  const DropdownId := "language-dropdown"

  /** The element with that id is in the page and carries `hidden`. */
  predicate IsHidden(es: seq<Element>, id: string)
  {
    var i := ElementById(es, id);
    i.Some? && Hidden in es[i.value].classes
  }

  /** A class change on one element leaves every other element, and every
      id lookup, as it was. */
  lemma WithClassesKeepsIds(es: seq<Element>, i: nat, cs: set<string>, id: string)
    requires i < |es|
    ensures ElementById(WithClasses(es, i, cs), id) == ElementById(es, id)
  {
    ElementByIdSameAttrs(es, WithClasses(es, i, cs), id);
  }

  /** Add `hidden` to the element with id `panel`, if it is in the page. */
  function HidePanel(es: seq<Element>, panel: string): (r: seq<Element>)
    ensures SameNodes(es, r)
  {
    match ElementById(es, panel)
    case None => es
    case Some(i) => WithClasses(es, i, es[i].classes + {Hidden})
  }

  /** `classList.toggle('hidden')` on the element with id `panel`, if it is in the page. */
  function TogglePanel(es: seq<Element>, panel: string): (r: seq<Element>)
    ensures SameNodes(es, r)
  {
    match ElementById(es, panel)
    case None => es
    case Some(i) => WithClasses(es, i, Toggle(es[i].classes, Hidden))
  }

  /** Both the trigger and its panel are in the page, so their handlers are bound. */
  predicate Bound(es: seq<Element>, button: string, panel: string)
  {
    ElementById(es, button).Some? && ElementById(es, panel).Some?
  }

  /** `r` differs from `es` at most in whether element `i` carries `hidden`:
      no other class of it, no other field of it and no other element changes. */
  predicate OnlyHiddenChanges(es: seq<Element>, r: seq<Element>, i: nat)
  {
    |r| == |es| && i < |es|
    && r[i] == es[i].(classes := r[i].classes)
    && r[i].classes - {Hidden} == es[i].classes - {Hidden}
    && forall k :: 0 <= k < |es| && k != i ==> r[k] == es[k]
  }

  /** The dismiss listener of the language dropdown: an activation whose
      target is inside neither the trigger nor the panel hides the panel. */
  function ClosedOnOutside(es: seq<Element>, button: string, panel: string, inButton: bool, inPanel: bool): (r: seq<Element>)
    ensures SameNodes(es, r)
    ensures Bound(es, button, panel) ==> (IsHidden(r, panel) <==> IsHidden(es, panel) || (!inButton && !inPanel))
    ensures Bound(es, button, panel) ==> OnlyHiddenChanges(es, r, ElementById(es, panel).value)
    ensures !Bound(es, button, panel) || inButton || inPanel ==> r == es
  {
    if Bound(es, button, panel) && !inButton && !inPanel then HidePanelEffect(es, panel); HidePanel(es, panel) else es
  }

  // ----- mobile menu -----

  /** `mobileMenu.classList.add('hidden')`, which `initMobileMenu` does once
      both elements are found and the menu links do on every activation. */
  function MenuClosed(es: seq<Element>): (r: seq<Element>)
    ensures SameNodes(es, r)
    ensures Bound(es, MenuButtonId, MenuId) ==> IsHidden(r, MenuId)
    ensures Bound(es, MenuButtonId, MenuId) ==> OnlyHiddenChanges(es, r, ElementById(es, MenuId).value)
    ensures !Bound(es, MenuButtonId, MenuId) ==> r == es
  {
    if Bound(es, MenuButtonId, MenuId) then HidePanelEffect(es, MenuId); HidePanel(es, MenuId) else es
  }

  /** `toggleMobileMenu`. */
  function MenuToggled(es: seq<Element>): (r: seq<Element>)
    ensures SameNodes(es, r)
    ensures ElementById(es, MenuId).Some? ==> (IsHidden(r, MenuId) <==> !IsHidden(es, MenuId))
    ensures ElementById(es, MenuId).Some? ==> OnlyHiddenChanges(es, r, ElementById(es, MenuId).value)
    ensures ElementById(es, MenuId).None? ==> r == es
  {
    if ElementById(es, MenuId).Some? then ToggleInverts(es, MenuId); TogglePanel(es, MenuId)
    else TogglePanel(es, MenuId)
  }

  /** The document-wide click and touch listeners of the mobile menu, which
      also test that the menu is currently shown. */
  function MenuDismissed(es: seq<Element>, inButton: bool, inMenu: bool): (r: seq<Element>)
    ensures SameNodes(es, r)
    ensures Bound(es, MenuButtonId, MenuId) ==> (IsHidden(r, MenuId) <==> IsHidden(es, MenuId) || (!inButton && !inMenu))
    ensures Bound(es, MenuButtonId, MenuId) ==> OnlyHiddenChanges(es, r, ElementById(es, MenuId).value)
    ensures !Bound(es, MenuButtonId, MenuId) || IsHidden(es, MenuId) || inButton || inMenu ==> r == es
  {
    if Bound(es, MenuButtonId, MenuId) && !IsHidden(es, MenuId) && !inButton && !inMenu
    then HidePanelEffect(es, MenuId); HidePanel(es, MenuId) else es
  }

  /** Hiding a panel hides it and changes nothing else. */
  lemma HidePanelEffect(es: seq<Element>, panel: string)
    requires ElementById(es, panel).Some?
    ensures var i := ElementById(es, panel).value; var r := HidePanel(es, panel);
      IsHidden(r, panel) && r[i].classes == es[i].classes + {Hidden}
      && r[i] == es[i].(classes := r[i].classes)
      && forall k :: 0 <= k < |es| && k != i ==> r[k] == es[k]
  {
    var i := ElementById(es, panel).value;
    WithClassesKeepsIds(es, i, es[i].classes + {Hidden}, panel);
  }

  /** Closing the menu adds `hidden` to it and changes nothing else; closing
      it again changes nothing. */
  lemma MenuClosedEffect(es: seq<Element>)
    requires Bound(es, MenuButtonId, MenuId)
    ensures var i := ElementById(es, MenuId).value; var r := MenuClosed(es);
      IsHidden(r, MenuId) && r[i] == es[i].(classes := es[i].classes + {Hidden})
      && (forall k :: 0 <= k < |es| && k != i ==> r[k] == es[k])
      && MenuClosed(r) == r
  {
    var i := ElementById(es, MenuId).value;
    var r := MenuClosed(es);
    HidePanelEffect(es, MenuId);
    WithClassesKeepsIds(es, i, es[i].classes + {Hidden}, MenuButtonId);
    HidePanelEffect(r, MenuId);
    assert r[i].classes + {Hidden} == r[i].classes;
    assert MenuClosed(r) == r[i := r[i]];
  }

  /** Toggling inverts `hidden` on the panel and touches nothing else. */
  lemma ToggleInverts(es: seq<Element>, panel: string)
    requires ElementById(es, panel).Some?
    ensures var i := ElementById(es, panel).value; var r := TogglePanel(es, panel);
      (IsHidden(r, panel) <==> !IsHidden(es, panel))
      && r[i] == es[i].(classes := r[i].classes)
      && r[i].classes - {Hidden} == es[i].classes - {Hidden}
      && forall k :: 0 <= k < |es| && k != i ==> r[k] == es[k]
  {
    var i := ElementById(es, panel).value;
    WithClassesKeepsIds(es, i, Toggle(es[i].classes, Hidden), panel);
  }

  /** Toggling twice restores the panel. */
  lemma ToggleTwiceRestores(es: seq<Element>, panel: string)
    ensures TogglePanel(TogglePanel(es, panel), panel) == es
  {
    match ElementById(es, panel)
    case None =>
    case Some(i) =>
      WithClassesKeepsIds(es, i, Toggle(es[i].classes, Hidden), panel);
      assert Toggle(Toggle(es[i].classes, Hidden), Hidden) == es[i].classes;
      assert TogglePanel(TogglePanel(es, panel), panel)[i] == es[i];
  }

  /** Outside activation: afterwards the panel is hidden exactly when it was
      hidden before or the target lies outside both trigger and panel. */
  lemma OutsideRule(es: seq<Element>, button: string, panel: string, inButton: bool, inPanel: bool)
    requires Bound(es, button, panel)
    ensures IsHidden(ClosedOnOutside(es, button, panel, inButton, inPanel), panel)
            <==> IsHidden(es, panel) || (!inButton && !inPanel)
  {
    HidePanelEffect(es, panel);
  }

  /** The mobile menu's extra "currently shown" test makes no difference: its
      dismiss rule is the dropdown's rule. */
  lemma MenuDismissIsOutsideRule(es: seq<Element>, inButton: bool, inMenu: bool)
    ensures MenuDismissed(es, inButton, inMenu) == ClosedOnOutside(es, MenuButtonId, MenuId, inButton, inMenu)
  {
    if Bound(es, MenuButtonId, MenuId) && IsHidden(es, MenuId) {
      var i := ElementById(es, MenuId).value;
      assert es[i].classes + {Hidden} == es[i].classes;
      assert HidePanel(es, MenuId) == es[i := es[i]];
    }
  }

  // ----- language dropdown -----

  /** The click listener of the dropdown trigger. */
  function DropdownToggled(es: seq<Element>): (r: seq<Element>)
    ensures SameNodes(es, r)
    ensures Bound(es, DropdownButtonId, DropdownId) ==> (IsHidden(r, DropdownId) <==> !IsHidden(es, DropdownId))
    ensures Bound(es, DropdownButtonId, DropdownId) ==> OnlyHiddenChanges(es, r, ElementById(es, DropdownId).value)
    ensures !Bound(es, DropdownButtonId, DropdownId) ==> r == es
  {
    if Bound(es, DropdownButtonId, DropdownId) then ToggleInverts(es, DropdownId); TogglePanel(es, DropdownId) else es
  }

  /** The document-wide click and touch listeners of the dropdown. */
  function DropdownDismissed(es: seq<Element>, inButton: bool, inDropdown: bool): (r: seq<Element>)
    ensures SameNodes(es, r)
    ensures Bound(es, DropdownButtonId, DropdownId) ==> (IsHidden(r, DropdownId) <==> IsHidden(es, DropdownId) || (!inButton && !inDropdown))
    ensures Bound(es, DropdownButtonId, DropdownId) ==> OnlyHiddenChanges(es, r, ElementById(es, DropdownId).value)
    ensures !Bound(es, DropdownButtonId, DropdownId) || inButton || inDropdown ==> r == es
  {
    ClosedOnOutside(es, DropdownButtonId, DropdownId, inButton, inDropdown)
  }

  /** A trigger click on a bound dropdown flips its visibility; two clicks
      restore it. */
  lemma DropdownToggleInverts(es: seq<Element>)
    requires Bound(es, DropdownButtonId, DropdownId)
    ensures IsHidden(DropdownToggled(es), DropdownId) <==> !IsHidden(es, DropdownId)
    ensures DropdownToggled(DropdownToggled(es)) == es
  {
    ToggleInverts(es, DropdownId);
    ToggleTwiceRestores(es, DropdownId);
    var d := ElementById(es, DropdownId).value;
    WithClassesKeepsIds(es, d, Toggle(es[d].classes, Hidden), DropdownButtonId);
  }

  // ----- tabs -----

  datatype Tab = Enrollment | Inquiry

  const SelectedStyle: set<string> := {"bg-indigo-600", "text-white"}
  const PlainStyle: set<string> := {"text-gray-600", "hover:text-indigo-600"}

  function TabId(t: Tab): (id: string)
  {
    match t
    case Enrollment => "enrollment-tab"
    case Inquiry => "inquiry-tab"
  }

  function PanelId(t: Tab): (id: string)
  {
    match t
    case Enrollment => "enrollment-form"
    case Inquiry => "inquiry-form"
  }

  function Other(t: Tab): (o: Tab)
    ensures o != t
  {
    match t
    case Enrollment => Inquiry
    case Inquiry => Enrollment
  }

  /** All four tab elements are in the page, so `initTabs` bound the clicks. */
  predicate TabsBound(es: seq<Element>)
  {
    ElementById(es, TabId(Enrollment)).Some? && ElementById(es, TabId(Inquiry)).Some?
    && ElementById(es, PanelId(Enrollment)).Some? && ElementById(es, PanelId(Inquiry)).Some?
  }

  /** The four elements seen from either tab. */
  lemma TabsBoundFrom(es: seq<Element>, t: Tab)
    ensures TabsBound(es) <==> ElementById(es, TabId(t)).Some? && ElementById(es, TabId(Other(t))).Some?
                               && ElementById(es, PanelId(t)).Some? && ElementById(es, PanelId(Other(t))).Some?
  {
  }

  /** Where the four tab elements sit, seen from the clicked tab. */
  datatype Roles = Roles(tab: nat, other: nat, panel: nat, otherPanel: nat)

  function RolesOf(es: seq<Element>, t: Tab): (ro: Roles)
    requires TabsBound(es)
  {
    Roles(ElementById(es, TabId(t)).value, ElementById(es, TabId(Other(t))).value,
          ElementById(es, PanelId(t)).value, ElementById(es, PanelId(Other(t))).value)
  }

  /** The roles as the other tab sees them. */
  function Swapped(ro: Roles): (sw: Roles)
  {
    Roles(ro.other, ro.tab, ro.otherPanel, ro.panel)
  }

  /** Four different elements of the page. */
  predicate Fits(es: seq<Element>, ro: Roles)
  {
    ro.tab < |es| && ro.other < |es| && ro.panel < |es| && ro.otherPanel < |es|
    && ro.tab != ro.other && ro.tab != ro.panel && ro.tab != ro.otherPanel
    && ro.other != ro.panel && ro.other != ro.otherPanel && ro.panel != ro.otherPanel
  }

  /** The class changes of one tab click, on the elements in the four roles. */
  function Restyled(es: seq<Element>, ro: Roles): (r: seq<Element>)
    requires ro.tab < |es| && ro.other < |es| && ro.panel < |es| && ro.otherPanel < |es|
    ensures |r| == |es| && forall k :: 0 <= k < |es| ==> r[k] == es[k].(classes := r[k].classes)
  {
    seq(|es|, k requires 0 <= k < |es| =>
      if k == ro.tab then es[k].(classes := (es[k].classes + SelectedStyle) - PlainStyle)
      else if k == ro.other then es[k].(classes := (es[k].classes - SelectedStyle) + PlainStyle)
      else if k == ro.panel then es[k].(classes := es[k].classes - {Hidden})
      else if k == ro.otherPanel then es[k].(classes := es[k].classes + {Hidden})
      else es[k])
  }

  /** The four class updates of a click, made one after the other. */
  lemma RestyledInSteps(es: seq<Element>, ro: Roles)
    requires Fits(es, ro)
    ensures var a, b, c, d := ro.tab, ro.other, ro.panel, ro.otherPanel;
      es[a := es[a].(classes := (es[a].classes + SelectedStyle) - PlainStyle)]
        [b := es[b].(classes := (es[b].classes - SelectedStyle) + PlainStyle)]
        [c := es[c].(classes := es[c].classes - {Hidden})]
        [d := es[d].(classes := es[d].classes + {Hidden})]
      == Restyled(es, ro)
  {
  }

  /** The click listener of tab `t`: its tab gets the selected style, the other
      tab the plain style, its panel is shown and the other panel hidden. */
  function TabClicked(es: seq<Element>, t: Tab): (r: seq<Element>)
    ensures |r| == |es| && forall k :: 0 <= k < |es| ==> r[k] == es[k].(classes := r[k].classes)
    ensures !TabsBound(es) ==> r == es
  {
    if TabsBound(es) then Restyled(es, RolesOf(es, t)) else es
  }

  /** The four tab elements are four different elements, and the other tab
      sees the same elements in swapped roles. */
  lemma RolesFit(es: seq<Element>, t: Tab)
    requires TabsBound(es)
    ensures Fits(es, RolesOf(es, t)) && RolesOf(es, Other(t)) == Swapped(RolesOf(es, t))
  {
  }

  /** A tab click changes only classes, so every id lookup stays put. */
  lemma TabClickedKeepsIds(es: seq<Element>, t: Tab, id: string)
    ensures |TabClicked(es, t)| == |es|
    ensures ElementById(TabClicked(es, t), id) == ElementById(es, id)
  {
    ElementByIdSameAttrs(es, TabClicked(es, t), id);
  }

  /** A tab click keeps the tabs bound and every role where it was. */
  lemma TabClickedKeepsRoles(es: seq<Element>, t: Tab, t': Tab)
    requires TabsBound(es)
    ensures TabsBound(TabClicked(es, t)) && RolesOf(TabClicked(es, t), t') == RolesOf(es, t')
  {
    TabClickedKeepsIds(es, t, TabId(Enrollment));
    TabClickedKeepsIds(es, t, TabId(Inquiry));
    TabClickedKeepsIds(es, t, PanelId(Enrollment));
    TabClickedKeepsIds(es, t, PanelId(Inquiry));
  }

  /** What one click does to the four elements in their roles. */
  lemma RestyledEffect(es: seq<Element>, ro: Roles)
    requires Fits(es, ro)
    ensures var r := Restyled(es, ro);
      Hidden !in r[ro.panel].classes && Hidden in r[ro.otherPanel].classes
      && SelectedStyle <= r[ro.tab].classes && r[ro.tab].classes !! PlainStyle
      && PlainStyle <= r[ro.other].classes && r[ro.other].classes !! SelectedStyle
      && r[ro.tab].classes - SelectedStyle - PlainStyle == es[ro.tab].classes - SelectedStyle - PlainStyle
      && r[ro.other].classes - SelectedStyle - PlainStyle == es[ro.other].classes - SelectedStyle - PlainStyle
      && r[ro.panel].classes - {Hidden} == es[ro.panel].classes - {Hidden}
      && r[ro.otherPanel].classes - {Hidden} == es[ro.otherPanel].classes - {Hidden}
      && forall k :: 0 <= k < |es| && k != ro.tab && k != ro.other && k != ro.panel && k != ro.otherPanel ==> r[k] == es[k]
  {
  }

  /** A second click in the same or in swapped roles overrides the first. */
  lemma RestyledOverrides(es: seq<Element>, ro: Roles, ro': Roles)
    requires Fits(es, ro) && (ro' == ro || ro' == Swapped(ro))
    ensures Restyled(Restyled(es, ro), ro') == Restyled(es, ro')
  {
    var a := Restyled(Restyled(es, ro), ro');
    var b := Restyled(es, ro');
    forall k | 0 <= k < |es|
      ensures a[k] == b[k]
    {
      var cs := es[k].classes;
      assert ((((cs + SelectedStyle) - PlainStyle) + SelectedStyle) - PlainStyle) == (cs + SelectedStyle) - PlainStyle;
      assert ((((cs - SelectedStyle) + PlainStyle) + SelectedStyle) - PlainStyle) == (cs + SelectedStyle) - PlainStyle;
      assert ((((cs + SelectedStyle) - PlainStyle) - SelectedStyle) + PlainStyle) == (cs - SelectedStyle) + PlainStyle;
      assert ((((cs - SelectedStyle) + PlainStyle) - SelectedStyle) + PlainStyle) == (cs - SelectedStyle) + PlainStyle;
      assert (cs + {Hidden}) - {Hidden} == cs - {Hidden} && (cs - {Hidden}) - {Hidden} == cs - {Hidden};
      assert (cs + {Hidden}) + {Hidden} == cs + {Hidden} && (cs - {Hidden}) + {Hidden} == cs + {Hidden};
    }
  }

  /** Clicking tab `t`: its panel loses `hidden` and the other panel gains it;
      its tab gains the selected style and loses the plain style, the other
      tab the reverse; no other element and no other class changes. */
  lemma TabClickEffect(es: seq<Element>, t: Tab)
    requires TabsBound(es)
    ensures var r := TabClicked(es, t); var ro := RolesOf(es, t);
      !IsHidden(r, PanelId(t)) && IsHidden(r, PanelId(Other(t)))
      && SelectedStyle <= r[ro.tab].classes && r[ro.tab].classes !! PlainStyle
      && PlainStyle <= r[ro.other].classes && r[ro.other].classes !! SelectedStyle
      && r[ro.tab].classes - SelectedStyle - PlainStyle == es[ro.tab].classes - SelectedStyle - PlainStyle
      && r[ro.other].classes - SelectedStyle - PlainStyle == es[ro.other].classes - SelectedStyle - PlainStyle
      && r[ro.panel].classes - {Hidden} == es[ro.panel].classes - {Hidden}
      && r[ro.otherPanel].classes - {Hidden} == es[ro.otherPanel].classes - {Hidden}
      && (forall k :: 0 <= k < |es| ==> r[k] == es[k].(classes := r[k].classes))
      && (forall k :: 0 <= k < |es| && k != ro.tab && k != ro.other && k != ro.panel && k != ro.otherPanel ==> r[k] == es[k])
  {
    RolesFit(es, t);
    RestyledEffect(es, RolesOf(es, t));
    TabClickedKeepsRoles(es, t, t);
  }

  /** Exactly one panel is shown after a click, the clicked tab's. */
  lemma OnePanelShown(es: seq<Element>, t: Tab)
    requires TabsBound(es)
    ensures !IsHidden(TabClicked(es, t), PanelId(t)) && IsHidden(TabClicked(es, t), PanelId(Other(t)))
  {
    TabClickEffect(es, t);
  }

  /** The last click decides everything: a click after any earlier click gives
      the same classes as that click alone; in particular repeating a click
      changes nothing. */
  lemma LastClickWins(es: seq<Element>, first: Tab, second: Tab)
    ensures TabClicked(TabClicked(es, first), second) == TabClicked(es, second)
  {
    if TabsBound(es) {
      RolesFit(es, first);
      TabClickedKeepsRoles(es, first, second);
      if first != second {
        assert Other(first) == second;
      }
      RestyledOverrides(es, RolesOf(es, first), RolesOf(es, second));
    }
  }
}
