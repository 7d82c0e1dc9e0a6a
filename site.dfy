/** The page as a whole: its elements, the stored language preference and
    the document language, with one method per handler of the script. Each
    method states the new document as a function of the old one; the
    properties of those functions are proved in the component modules. */
module Site {
  import opened Dom
  import opened I18n
  import Notifications
  import Controls
  import Forms

  class Page {
    /** The document's elements in document order. */
    var elements: seq<Element>
    /** `localStorage.getItem('language')`. */
    var stored: Option<string>
    /** `document.documentElement.lang`. */
    var documentLang: string
    /** The identity the next created element receives. */
    var nextNode: nat
    /** The global `translations` object, if the page defines one. */
    const translations: Option<Dictionary>

    ghost predicate Valid()
      reads this
    {
      DistinctNodes(elements) && NodesBelow(elements, nextNode)
    }

    constructor (elements: seq<Element>, stored: Option<string>, documentLang: string, translations: Option<Dictionary>)
      requires DistinctNodes(elements)
      ensures Valid()
      ensures this.elements == elements && this.stored == stored && this.documentLang == documentLang
      ensures this.translations == translations
    {
      this.elements := elements;
      this.stored := stored;
      this.documentLang := documentLang;
      this.translations := translations;
      this.nextNode := NextFreeNode(elements);
    }

    // ----- language -----

    /** `translatePage`: rewrite every `data-i18n` element, then the header
        label and the document language, all from the stored preference. */
    method TranslatePage()
      requires Valid()
      modifies this
      ensures Valid()
      ensures elements == TranslatedPage(old(elements), translations, EffectiveLanguage(stored))
      ensures documentLang == EffectiveLanguage(stored)
      ensures stored == old(stored) && nextNode == old(nextNode)
    {
      var lang := EffectiveLanguage(stored);
      var es := TranslateAll(elements, translations, lang);
      TranslatedSameNodes(elements, translations, lang);
      var k := ElementById(es, LabelId);
      if k.Some? {
        es := es[k.value := es[k.value].(text := LanguageLabel(lang))];
      }
      SameNodesKeepInvariants(elements, es, nextNode);
      elements := es;
      documentLang := lang;
    }

    /** `setCurrentLanguage(lang)`: store the choice, show its label at once,
        then run the translation pass, which now reads the new choice. */
    method SetCurrentLanguage(lang: string)
      requires Valid()
      modifies this
      ensures Valid()
      ensures stored == Some(lang)
      ensures elements == TranslatedPage(WithLabel(old(elements), lang), translations, EffectiveLanguage(Some(lang)))
      ensures documentLang == EffectiveLanguage(Some(lang))
      ensures nextNode == old(nextNode)
    {
      stored := Some(lang);
      var k := ElementById(elements, LabelId);
      if k.Some? {
        elements := elements[k.value := elements[k.value].(text := LanguageLabel(lang))];
      }
      SameNodesKeepInvariants(old(elements), elements, nextNode);
      TranslatePage();
    }

    /** The language part of `initLanguageSwitcher`: show the label of the
        stored language, set the document language, then run the pass. */
    method InitLanguageSwitcher()
      requires Valid()
      modifies this
      ensures Valid()
      ensures elements == TranslatedPage(WithLabel(old(elements), EffectiveLanguage(stored)), translations, EffectiveLanguage(stored))
      ensures documentLang == EffectiveLanguage(stored)
      ensures stored == old(stored) && nextNode == old(nextNode)
    {
      var lang := EffectiveLanguage(stored);
      var k := ElementById(elements, LabelId);
      if k.Some? {
        elements := elements[k.value := elements[k.value].(text := LanguageLabel(lang))];
      }
      SameNodesKeepInvariants(old(elements), elements, nextNode);
      documentLang := lang;
      TranslatePage();
    }

    /** The click and touch listeners of a `[data-lang]` switcher link with
        identity `link`: switch to the language the link names. */
    method ActivateLanguageLink(link: nat)
      requires Valid() && IndexOfNode(elements, link).Some?
      requires "data-lang" in elements[IndexOfNode(elements, link).value].attrs
      modifies this
      ensures Valid()
      ensures var lang := old(elements)[IndexOfNode(old(elements), link).value].attrs["data-lang"];
        stored == Some(lang)
        && elements == TranslatedPage(WithLabel(old(elements), lang), translations, EffectiveLanguage(Some(lang)))
        && documentLang == EffectiveLanguage(Some(lang))
      ensures nextNode == old(nextNode)
    {
      var i := IndexOfNode(elements, link).value;
      SetCurrentLanguage(elements[i].attrs["data-lang"]);
    }

    /** The click listener of the language dropdown trigger. */
    method ToggleLanguageDropdown()
      requires Valid()
      modifies this
      ensures Valid()
      ensures elements == Controls.DropdownToggled(old(elements))
      ensures stored == old(stored) && documentLang == old(documentLang) && nextNode == old(nextNode)
    {
      var button := ElementById(elements, Controls.DropdownButtonId);
      var dropdown := ElementById(elements, Controls.DropdownId);
      if button.Some? && dropdown.Some? {
        var d := dropdown.value;
        elements := elements[d := elements[d].(classes := Toggle(elements[d].classes, Controls.Hidden))];
      }
      SameNodesKeepInvariants(old(elements), elements, nextNode);
    }

    /** The document-wide click and touch listeners of the dropdown; the
        target's position is given by whether it lies in the trigger or the panel. */
    method DismissLanguageDropdown(targetInButton: bool, targetInDropdown: bool)
      requires Valid()
      modifies this
      ensures Valid()
      ensures elements == Controls.DropdownDismissed(old(elements), targetInButton, targetInDropdown)
      ensures stored == old(stored) && documentLang == old(documentLang) && nextNode == old(nextNode)
    {
      var button := ElementById(elements, Controls.DropdownButtonId);
      var dropdown := ElementById(elements, Controls.DropdownId);
      if button.Some? && dropdown.Some? && !targetInButton && !targetInDropdown {
        var d := dropdown.value;
        elements := elements[d := elements[d].(classes := elements[d].classes + {Controls.Hidden})];
      }
      SameNodesKeepInvariants(old(elements), elements, nextNode);
    }

    // ----- mobile menu -----

    /** `initMobileMenu`: hide the menu when both the button and the menu exist. */
    method InitMobileMenu()
      requires Valid()
      modifies this
      ensures Valid()
      ensures elements == Controls.MenuClosed(old(elements))
      ensures stored == old(stored) && documentLang == old(documentLang) && nextNode == old(nextNode)
    {
      var button := ElementById(elements, Controls.MenuButtonId);
      var menu := ElementById(elements, Controls.MenuId);
      if button.Some? && menu.Some? {
        var m := menu.value;
        elements := elements[m := elements[m].(classes := elements[m].classes + {Controls.Hidden})];
      }
      SameNodesKeepInvariants(old(elements), elements, nextNode);
    }

    /** `toggleMobileMenu`. */
    method ToggleMobileMenu()
      requires Valid()
      modifies this
      ensures Valid()
      ensures elements == Controls.MenuToggled(old(elements))
      ensures stored == old(stored) && documentLang == old(documentLang) && nextNode == old(nextNode)
    {
      var menu := ElementById(elements, Controls.MenuId);
      if menu.Some? {
        var m := menu.value;
        elements := elements[m := elements[m].(classes := Toggle(elements[m].classes, Controls.Hidden))];
      }
      SameNodesKeepInvariants(old(elements), elements, nextNode);
    }

    /** The document-wide click and touch listeners of the mobile menu. */
    method DismissMobileMenu(targetInButton: bool, targetInMenu: bool)
      requires Valid()
      modifies this
      ensures Valid()
      ensures elements == Controls.MenuDismissed(old(elements), targetInButton, targetInMenu)
      ensures stored == old(stored) && documentLang == old(documentLang) && nextNode == old(nextNode)
    {
      var button := ElementById(elements, Controls.MenuButtonId);
      var menu := ElementById(elements, Controls.MenuId);
      if button.Some? && menu.Some? {
        var m := menu.value;
        if Controls.Hidden !in elements[m].classes && !targetInButton && !targetInMenu {
          elements := elements[m := elements[m].(classes := elements[m].classes + {Controls.Hidden})];
        }
      }
      SameNodesKeepInvariants(old(elements), elements, nextNode);
    }

    /** The click and touch listeners of the links inside the menu. */
    method ActivateMenuLink()
      requires Valid()
      modifies this
      ensures Valid()
      ensures elements == Controls.MenuClosed(old(elements))
      ensures stored == old(stored) && documentLang == old(documentLang) && nextNode == old(nextNode)
    {
      var button := ElementById(elements, Controls.MenuButtonId);
      var menu := ElementById(elements, Controls.MenuId);
      if button.Some? && menu.Some? {
        var m := menu.value;
        elements := elements[m := elements[m].(classes := elements[m].classes + {Controls.Hidden})];
      }
      SameNodesKeepInvariants(old(elements), elements, nextNode);
    }

    // ----- tabs -----

    /** The click listener of tab `t` bound by `initTabs`. */
    method ClickTab(t: Controls.Tab)
      requires Valid()
      modifies this
      ensures Valid()
      ensures elements == Controls.TabClicked(old(elements), t)
      ensures stored == old(stored) && documentLang == old(documentLang) && nextNode == old(nextNode)
    {
      var es := elements;
      var tab := ElementById(es, Controls.TabId(t));
      var other := ElementById(es, Controls.TabId(Controls.Other(t)));
      var panel := ElementById(es, Controls.PanelId(t));
      var otherPanel := ElementById(es, Controls.PanelId(Controls.Other(t)));
      Controls.TabsBoundFrom(es, t);
      if tab.Some? && other.Some? && panel.Some? && otherPanel.Some? {
        var a, b, c, d := tab.value, other.value, panel.value, otherPanel.value;
        Controls.RolesFit(es, t);
        Controls.RestyledInSteps(es, Controls.Roles(a, b, c, d));
        es := es[a := es[a].(classes := (es[a].classes + Controls.SelectedStyle) - Controls.PlainStyle)];
        es := es[b := es[b].(classes := (es[b].classes - Controls.SelectedStyle) + Controls.PlainStyle)];
        es := es[c := es[c].(classes := es[c].classes - {Controls.Hidden})];
        es := es[d := es[d].(classes := es[d].classes + {Controls.Hidden})];
      }
      SameNodesKeepInvariants(elements, es, nextNode);
      elements := es;
    }

    // ----- notifications -----

    /** `showNotification(message, kind)`: remove every existing
        notification, append the new one; `handle` is its identity, which the
        auto-removal timer holds. */
    method ShowNotification(message: string, kind: string := Notifications.DefaultKind) returns (handle: nat)
      requires Valid()
      modifies this
      ensures Valid()
      ensures handle == old(nextNode) && nextNode == old(nextNode) + 1
      ensures elements == Notifications.Shown(old(elements), handle, message, kind)
      ensures stored == old(stored) && documentLang == old(documentLang)
    {
      ghost var before := elements;
      var kept: seq<Element> := [];
      var i := 0;
      while i < |elements|
        invariant 0 <= i <= |elements| && elements == before
        invariant kept == Notifications.WithoutNotifications(before[..i])
        invariant stored == old(stored) && documentLang == old(documentLang) && nextNode == old(nextNode)
      {
        assert before[..i + 1] == before[..i] + [before[i]];
        Notifications.WithoutNotificationsSnoc(before[..i], before[i]);
        if !Notifications.IsNotification(elements[i]) {
          kept := kept + [elements[i]];
        }
        i := i + 1;
      }
      assert before[..i] == before;
      handle := nextNode;
      Notifications.ShownDistinct(before, handle, message, kind);
      elements := kept + [Notifications.NotificationElement(handle, message, kind)];
      nextNode := nextNode + 1;
    }

    /** The close button inside the notification. */
    method DismissNotification(handle: nat)
      requires Valid()
      modifies this
      ensures Valid()
      ensures elements == RemoveNode(old(elements), handle)
      ensures stored == old(stored) && documentLang == old(documentLang) && nextNode == old(nextNode)
    {
      KeepDistinct(elements, (e: Element) => e.node != handle);
      KeepNodesBelow(elements, (e: Element) => e.node != handle, nextNode);
      elements := RemoveNode(elements, handle);
    }

    /** The auto-removal timer: remove the notification only if it is still attached. */
    method ExpireNotification(handle: nat)
      requires Valid()
      modifies this
      ensures Valid()
      ensures elements == RemoveNode(old(elements), handle)
      ensures IndexOfNode(old(elements), handle).None? ==> elements == old(elements)
      ensures stored == old(stored) && documentLang == old(documentLang) && nextNode == old(nextNode)
    {
      if IndexOfNode(elements, handle).Some? {
        KeepDistinct(elements, (e: Element) => e.node != handle);
        KeepNodesBelow(elements, (e: Element) => e.node != handle, nextNode);
        elements := RemoveNode(elements, handle);
      }
    }

    // ----- forms -----

    /** The submit listener of the form with identity `form`. */
    method SubmitForm(form: nat) returns (outcome: Forms.SubmitOutcome)
      requires Valid() && IndexOfNode(elements, form).Some?
      modifies this
      ensures Valid()
      ensures outcome == Forms.SubmitDecision(old(elements), IndexOfNode(old(elements), form).value)
      ensures elements == Forms.AfterSubmit(old(elements), IndexOfNode(old(elements), form).value)
      ensures stored == old(stored) && documentLang == old(documentLang) && nextNode == old(nextNode)
    {
      var f := IndexOfNode(elements, form).value;
      var action := GetAttribute(elements[f], "action");
      if Truthy(action) && Forms.Contains(action.value, Forms.FormspreeHost) {
        return Forms.NotIntercepted;
      }
      var button := Forms.SubmitButton(elements, form);
      if button.None? {
        return Forms.NoSubmitButton;
      }
      var j := button.value;
      var originalText := elements[j].text;
      elements := elements[j := elements[j].(attrs := elements[j].attrs[Forms.DisabledAttr := ""])];
      elements := elements[j := elements[j].(text := Forms.BusyText)];
      elements := elements[j := elements[j].(classes := elements[j].classes + {Forms.LoadingClass})];
      SameNodesKeepInvariants(old(elements), elements, nextNode);
      outcome := Forms.Submitting(Forms.PendingSubmit(form, elements[j].node, originalText));
    }

    /** The completion step of an intercepted submission (the 2000 ms timer):
        success notification, form reset, button restored. */
    method CompleteSubmit(p: Forms.PendingSubmit) returns (handle: nat)
      requires Valid()
      modifies this
      ensures Valid()
      ensures handle == old(nextNode) && nextNode == old(nextNode) + 1
      ensures elements == Forms.Completed(old(elements), handle, p)
      ensures stored == old(stored) && documentLang == old(documentLang)
    {
      handle := ShowNotification(Forms.SuccessMessage, Forms.SuccessKind);
      ghost var shown := elements;
      elements := Forms.FormReset(elements, p.form);
      SameNodesKeepInvariants(shown, elements, nextNode);
      ghost var reset := elements;
      var j := IndexOfNode(elements, p.button);
      if j.Some? {
        elements := elements[j.value := Forms.Restored(elements[j.value], p.originalText)];
      }
      SameNodesKeepInvariants(reset, elements, nextNode);
    }
  }
}
