# ALFA LEARNING site behaviour, modelled in Dafny

This project models the behaviour layer of the ALFA LEARNING website, the
script `script.js` that every page of the site loads. Four parts of it are
modelled:

- **Language.** A preference in `localStorage` (`en` when it is missing or
  empty). A translation pass rewrites every element marked `data-i18n` from
  a global `translations` dictionary. The text goes into the element's text,
  or into the attribute named by `data-i18n-attr`. The pass also sets the
  header label (`EN`, `ID`, `中文`, else `EN`) and the document language.
- **Notifications.** `showNotification` first removes every existing
  notification, so at most one overlay is ever shown. Its style and icon
  come from the severity: `success`, `error`, `warning`, or anything else
  shown as `info`. An auto-removal timer removes the overlay only while it
  is still attached.
- **Class-set state machines.** The mobile menu, the language dropdown and
  the two-tab form switcher are shown and hidden through the `hidden` class.
- **Form submission.** Forms whose `action` contains `formspree.io` are left
  to the hosted form service. Any other form's submit button is disabled,
  reads `Submitting...` and gets `loading`. A later completion step shows a
  success notification, resets the form and restores the button.

The document is a sequence of element records in document order (`Dom`).
Each record has an identity (`node`), a tag, a class set, its content
attributes, its text, the current value of a form control, and the form it
belongs to. JavaScript object references held by handlers and timers become
identities. The component modules state each handler as a function from the
old document to the new one and prove its properties:

- `I18n`: the language preference and the translation pass;
- `Notifications`: the notification overlay;
- `Controls`: the menu, the dropdown and the tabs;
- `Forms`: the submit protocol.

`Site.Page` is a class holding the live state: the elements, the stored
preference, the document language and the next free identity. It has one
method per handler or timer callback. Each method's postcondition ties the
new state to the corresponding function of the old state. Each method also
keeps the invariant `Valid()`: identities are distinct, and all are below
the next free one.

## Model

| member | source | states |
|---|---|---|
| Dom.FirstWhere | script.js:166 | the index found satisfies the selector, no earlier element does, and `None` means no element does |
| Dom.ElementById | script.js:27-28 | `getElementById`: the first element with that id, or none when no element has it |
| Dom.IndexOfNode | script.js:220 | where a referenced element sits; `None` exactly when no element has that identity (the element is detached) |
| Dom.GetAttribute | script.js:156 | `getAttribute` gives the attribute's value when it is present and null exactly when it is absent |
| Dom.Truthy | script.js:157 | a nullable string is falsy exactly when it is null or empty |
| Dom.Toggle | script.js:105 | `classList.toggle(c)` flips whether `c` is present and leaves every other class |
| Dom.Keep | script.js:194-195 | what remains after removing the elements failing a test: exactly the passing elements, never more than before; nothing removed when all pass |
| Dom.KeepAppend | script.js:194-195 | removal keeps document order: filtering two consecutive parts equals filtering each part and joining the results |
| Dom.KeepSingle | script.js:194-195 | a single element is kept exactly when it passes the test |
| Dom.RemoveNode | script.js:221 | `remove()` deletes exactly the records of that element and is a no-op on a detached element |
| Dom.NextFreeNode | script.js:198 | `createElement` receives an identity that no element of the document uses |
| Dom.KeepDistinct | script.js:194-195 | removing elements keeps identities distinct |
| I18n.EffectiveLanguage | script.js:546 | the stored language when it is present and non-empty, otherwise `en`; never empty |
| I18n.LanguageLabel | script.js:567-575 | the label is `ID` exactly for `id`, `中文` exactly for `zh`, and `EN` for every other language (`en` and unsupported ones alike) |
| I18n.Lookup | script.js:555 | the guard `translations && translations[lang] && translations[lang][key]`: a string is found exactly when every step exists and the string is non-empty, and it is that entry |
| I18n.TranslateElement | script.js:550-563 | an unmatched element is returned as it was; a matched one gets the string in its target attribute (text kept) when the target is truthy, else in its text (attributes kept); identity, tag, classes, value and form never change |
| I18n.Translated | script.js:549-564 | the pass keeps the document's length |
| I18n.TranslateAll | script.js:549-564 | the `forEach` loop, which rewrites only elements that carry `data-i18n`, computes exactly the pass over the whole document |
| I18n.WithLabel | script.js:567-575 | the header label, when the page has one, shows the label of the language; no other field of it and no other element changes, and a page without a label is unchanged |
| I18n.TranslatedPage | script.js:545-578 | the whole `translatePage` document update, the pass then the label write, changes no identity |
| I18n.TranslatedAt | script.js:549-564 | the pass treats every element independently of the others |
| I18n.TranslatedMatchRule | script.js:550-556 | an element without `data-i18n`, or whose key has no truthy string, is unchanged; any change implies a match; identity, tag, classes, value and form never change |
| I18n.TranslatedAttrVsText | script.js:555-562 | with a truthy `data-i18n-attr` only that attribute receives the string and the text stays; otherwise only the text receives it |
| I18n.TranslatedWithoutEntry | script.js:555 | with no `translations` object, or no entry for the language, the document is unchanged |
| I18n.TranslatedSameNodes | script.js:549-564 | the pass never changes any element's identity |
| I18n.TranslateElementIdempotent | script.js:550-562 | translating one element twice equals translating it once, unless its target attribute is one of its own markers |
| I18n.TranslatedIdempotent | script.js:545-564 | running the pass twice equals running it once, when no element's target attribute is a marker |
| I18n.TargetIsKeyBreaksIdempotence | script.js:557-558 | a concrete page whose `data-i18n-attr` is `data-i18n` gives a different result on a second pass |
| I18n.TranslatedPageLabel | script.js:567-575 | after the pass the header label keeps its position and id and shows the label of the pass's language |
| I18n.TranslatedIgnoresOldText | script.js:549-564 | changing only the text of one element changes the pass's output at most in that element's text |
| I18n.TranslatedKeepsIds | script.js:557-558 | when no translation lands in an `id` attribute, every `getElementById` lookup is the same after the pass |
| I18n.EarlyLabelWriteSubsumed | script.js:453-461 | when no element's `data-i18n-attr` is `id`, the label written before the pass by `initLanguageSwitcher` and `setCurrentLanguage` leaves no trace once the pass has run |
| I18n.ChosenLanguageWins | script.js:528-541 | after `setCurrentLanguage(l)` the pass uses `l` (when non-empty), and the label shown is always the label of `l` |
| I18n.IndonesianGreetingExample | script.js:546-561 | with Indonesian stored, an element keyed `greeting` reads the Indonesian string |
| I18n.UnsupportedLanguageExample | script.js:546-575 | an unsupported stored language such as `fr` leaves every element unchanged and the label reads `EN` |
| Notifications.NotificationStyles | script.js:226-237 | each named severity has its own style, and a type gets the `info` style exactly when it is none of the three |
| Notifications.NotificationIcon | script.js:239-250 | each named severity has its own icon, and a type gets `info` exactly when it is none of the three |
| Notifications.StyleAndIconAgree | script.js:226-250 | two types share a style exactly when they share an icon |
| Notifications.UnknownKindIsInfo | script.js:192 | every type other than the three named ones, the default among them, looks exactly like `info` |
| Notifications.NotificationElement | script.js:197-208 | the new overlay has the given identity, carries the `notification` class, every class of the severity's style and no class outside the placement and that style, shows the message, and names the severity's icon |
| Notifications.WithoutNotifications | script.js:194-195 | exactly the elements that were not notifications remain |
| Notifications.Shown | script.js:192-211 | the page after `showNotification` ends with the new overlay and grows by at most one element |
| Notifications.ShownSingle | script.js:194-211 | afterwards the page holds exactly one notification, the new one, last in the body; before it come the former non-notification elements in their order, and nothing else |
| Notifications.ShownDistinct | script.js:197-211 | the new overlay's identity is fresh and all identities stay distinct |
| Notifications.ExpiryAfterDismissIsNoOp | script.js:219-223 | the timer firing after the close button was used changes nothing |
| Notifications.ExpiryAfterSupersessionIsNoOp | script.js:194-195 | once a newer notification is shown, an older one is detached and its timer changes nothing |
| Controls.ClosedOnOutside | script.js:505-520 | with both elements bound, the panel is hidden afterwards exactly when it was hidden or the target is outside both, and no other class and no other element changes; otherwise, or for a target inside either, nothing changes |
| Controls.MenuClosed | script.js:33-35 | with the button and menu present the menu ends hidden and no other class and no other element changes; otherwise the page is unchanged (`initMobileMenu` and the menu links, script.js:79 and 88, both do this) |
| Controls.MenuToggled | script.js:101-110 | with the menu present its visibility flips and no other class and no other element changes; without it the page is unchanged |
| Controls.MenuDismissed | script.js:54-71 | with the button and menu present, the menu is hidden afterwards exactly when it was hidden or the target is outside both, and no other class and no other element changes; a hidden menu, an inside target or a missing element leaves the page unchanged |
| Controls.DropdownToggled | script.js:499-502 | with the trigger and dropdown present the dropdown's visibility flips and no other class and no other element changes; otherwise the page is unchanged |
| Controls.DropdownDismissed | script.js:505-520 | the dropdown is hidden afterwards exactly when it was hidden or the target is outside both trigger and dropdown, and no other class and no other element changes; an inside target changes nothing |
| Controls.TabClicked | script.js:421-443 | a tab click changes classes only, and nothing at all when any of the four tab elements is missing |
| Controls.HidePanel | script.js:35 | adding `hidden` keeps every element's identity |
| Controls.TogglePanel | script.js:105 | toggling `hidden` keeps every element's identity |
| Controls.HidePanelEffect | script.js:35 | hiding a panel adds `hidden` to it and changes no other class and no other element |
| Controls.MenuClosedEffect | script.js:76-89 | when both the button and the menu exist, closing the menu (at start or by a link) adds `hidden` to it, changes nothing else, and a second close changes nothing |
| Controls.ToggleInverts | script.js:101-110 | a toggle flips the menu's visibility, changes none of its other classes, and changes no other element |
| Controls.ToggleTwiceRestores | script.js:105 | two toggles restore the page |
| Controls.OutsideRule | script.js:505-520 | after an outside activation the panel is hidden exactly when it was hidden before or the target is outside both the trigger and the panel |
| Controls.MenuDismissIsOutsideRule | script.js:54-71 | the menu's extra "currently shown" test makes its dismiss rule equal to the dropdown's outside rule |
| Controls.DropdownToggleInverts | script.js:499-502 | a trigger click flips the dropdown's visibility, and two clicks restore the page |
| Controls.Restyled | script.js:421-443 | a tab click changes classes only, never any other field |
| Controls.RolesFit | script.js:414-420 | the four tab elements are four different elements, and the other tab sees them in swapped roles |
| Controls.RestyledEffect | script.js:423-430 | the clicked tab's panel is shown and the other hidden; the clicked tab has the selected style and the other the plain style; nothing else changes |
| Controls.TabClickedKeepsIds | script.js:421-443 | a tab click leaves every id lookup as it was |
| Controls.TabClickedKeepsRoles | script.js:421-443 | after a click the four tab elements are still found in the same places |
| Controls.RestyledOverrides | script.js:421-443 | a second click, in the same or swapped roles, overrides the first completely |
| Controls.TabClickEffect | script.js:414-445 | clicking a tab shows its panel, hides the other, selects it and unselects the other; no other class or element changes |
| Controls.OnePanelShown | script.js:429-442 | after any click exactly one panel is shown, the clicked tab's |
| Controls.LastClickWins | script.js:414-445 | any click followed by another equals that other click alone; repeating a click changes nothing |
| Forms.Contains | script.js:157 | `includes` holds exactly when the substring occurs at some position |
| Forms.Intercepts | script.js:156-161 | the handler takes over exactly when the `action` is null, empty, or has no occurrence of `formspree.io` |
| Forms.SubmitButton | script.js:166 | `querySelector('button[type="submit"]')`: a submit button of the form with no submit button of the form before it in document order, or none when the form has none |
| Forms.AsciiLower | script.js:166 | the `type` value compared with ASCII upper case mapped to lower case, everything else kept |
| Forms.UpperCaseTypeMatches | script.js:166 | a button whose `type` is `SUBMIT` is matched as a submit button |
| Forms.SubmitDecision | script.js:156-172 | left to the hosted service exactly when not intercepted; no submit button exactly when intercepted and the form has no submit button; otherwise pending on a submit button of the form, with its text captured |
| Forms.Busy | script.js:170-172 | the busy button is disabled, reads `Submitting...` and has `loading`; its other attributes, its other classes and its remaining fields are unchanged |
| Forms.Restored | script.js:183-185 | the restored button is enabled, reads the given text and lacks `loading`; its other attributes, its other classes and its remaining fields are unchanged |
| Forms.ResetControl | script.js:181 | only the value changes: an input goes back to the raw text of its `value` attribute (empty when absent, without the browser's per-type sanitization), a textarea to its text, any other element is unchanged |
| Forms.Completed | script.js:175-186 | the page after the completion step ends with the success notification under the new identity, exactly as shown unless the captured button is that notification |
| Forms.AfterSubmit | script.js:154-173 | the submit handler keeps every element's identity |
| Forms.FormReset | script.js:181 | `form.reset()` keeps every element's identity |
| Forms.RestoreButton | script.js:183-185 | the captured button, when it is attached, gets its restored record and no other element changes; a detached button leaves the page unchanged |
| Forms.HostedFormsPass | script.js:156-161 | a form is left to the hosted service exactly when its `action` is truthy and contains `formspree.io`, and then the handler changes nothing |
| Forms.BusyState | script.js:166-172 | an intercepted form's first submit button becomes disabled, reads `Submitting...` and has `loading`; its prior text is captured; its other attributes, other classes and remaining fields, and every other element, are unchanged |
| Forms.RestoreUndoesBusy | script.js:169-185 | setting busy and then restoring with the captured text returns an enabled, not-loading button to exactly its prior state |
| Forms.ResetRestoresDefaults | script.js:181 | each input of the form goes back to the raw text of its `value` attribute (empty when absent, unsanitized), each textarea to its text; elements outside the form and all other fields are unchanged |
| Forms.CompletedEffect | script.js:175-186 | after the completion step the captured button, wherever it now sits, is enabled, shows its captured text and lacks `loading`; the success notification is the last element, exactly as shown unless the captured button is that notification |
| Forms.RestoreAfterReset | script.js:181-185 | the reset leaves the button alone, and the restore then finds the button where it was |
| Forms.SubmitThenCompleteRestoresButton | script.js:154-186 | when the submit button was enabled, not loading and not a notification, submit followed by completion leaves its record exactly as it was before the submit; for a real button this holds only when it has no child elements, since the captured `textContent` is written back as plain text |
| Site.Page.constructor | script.js:15-20 | the loaded page, before any handler runs, holds the given document, preference, document language and dictionary, and satisfies the identity invariant |
| Site.Page.TranslatePage | script.js:545-579 | the new document is the pass, in the stored language, followed by the label write; the document language becomes that language; the preference is unchanged |
| Site.Page.SetCurrentLanguage | script.js:528-542 | the preference becomes the argument; the label is written and then the pass runs, in the new language |
| Site.Page.InitLanguageSwitcher | script.js:448-464 | the label of the stored language is written, the document language is set, and the pass runs |
| Site.Page.ActivateLanguageLink | script.js:467-488 | a switcher link switches to the language in its `data-lang` |
| Site.Page.ToggleLanguageDropdown | script.js:499-502 | the new document is the dropdown toggle of the old one |
| Site.Page.DismissLanguageDropdown | script.js:505-520 | the new document is the dropdown's outside rule applied to the old one |
| Site.Page.InitMobileMenu | script.js:24-35 | the new document is the initial hide of the menu |
| Site.Page.ToggleMobileMenu | script.js:101-110 | the new document is the menu toggle of the old one |
| Site.Page.DismissMobileMenu | script.js:54-71 | the new document is the menu's outside rule applied to the old one |
| Site.Page.ActivateMenuLink | script.js:76-89 | the new document is the menu closed by a link activation |
| Site.Page.ClickTab | script.js:421-443 | the four class updates of a tab click produce exactly the tab-click function of the old document |
| Site.Page.ShowNotification | script.js:192-211 | the loop removes every notification; the new overlay is appended under a fresh identity, returned as the timer's handle |
| Site.Page.DismissNotification | script.js:204 | the close button removes its notification |
| Site.Page.ExpireNotification | script.js:219-223 | the timer removes its notification when it is attached and otherwise changes nothing |
| Site.Page.SubmitForm | script.js:154-173 | the handler's decision and the new document are those of the submit protocol for that form |
| Site.Page.CompleteSubmit | script.js:175-186 | the completion step: notification first, then the reset, then the button restore, under the returned fresh identity |

## Left out

- The document is flat: element records have no children. So whether an event target lies inside an element (`contains(target)`) is given to the handlers as two booleans, and writing `textContent` does not remove descendant elements.
- Class lists are sets: the order of class names in `className` is not modelled, and neither are duplicate class tokens.
- Attribute names are used as given; HTML's lower-casing of names passed to `setAttribute` is not modelled.
- JavaScript object lookups in `langNames[lang]` and `translations[lang][key]` are modelled as map lookups. Inherited prototype properties (a language or key named `constructor`, say) are not modelled.
- Listener binding is not modelled. Handlers look their elements up by id when they run, while the script captures them once when it binds them. The clone-and-replace rebinding of the switcher links and the dropdown trigger (script.js:470-471, 496-497) is not modelled, since the clone keeps the same id.
- Site.Page.DismissLanguageDropdown: the script's guard `languageDropdownBtn && languageDropdown` is always true once bound. The model checks both ids when the event runs instead, and does nothing when either element is missing.
- Timers are explicit steps, `ExpireNotification` and `CompleteSubmit`, which the environment may call at any time. The timer durations (100 ms, 2000 ms, 5000 ms) and the `setTimeout` wrapper around `initMobileMenu` are not modelled.
- The notification's inner markup (the `<i>`, `<p>` and close `<button>` elements) is one record: the message is its text and the icon name is its `data-lucide` attribute. Lucide icon rendering is left out.
- `disabled` is the reflected content attribute `disabled`.
- Forms.ResetControl: `form.reset()` is modelled for inputs (back to the raw `value` attribute, empty when absent) and textareas (back to their text). The browser's per-type value sanitization after the reset is not modelled: a `range` input without `value` resets to `50`, a `color` input to `#000000`, an `email` input trims surrounding whitespace, `number` and `date` inputs with an unparsable default reset to empty, and text-like inputs strip newlines. Checkboxes, radios and selects are not modelled. Forms.ResetRestoresDefaults states the same raw-default rule.
- The record's single `form` field stands for two relations of the script: `form.querySelector` searches the form's descendants, and `form.reset()` resets the controls whose form owner is the form. They differ for a control outside the form that names it in a `form="…"` attribute, or one inside it that names another form; the model treats both relations as the same field.
- Site.Page.SubmitForm: when an intercepted form has no submit button, the script throws a TypeError after `preventDefault`. The model returns `NoSubmitButton` and changes nothing.
- `preventDefault`, `stopPropagation`, the delayed navigation of touched menu links (script.js:90-92), and all `console.log` calls are left out. Event propagation is not part of the model.
- `document.documentElement.lang` is the field `documentLang` of `Site.Page`, held apart from the element records. When the `<html>` element is among the records, its `lang` attribute is not updated with it.
- `localStorage` is the field `stored`; storage errors and other tabs are not modelled.
- Animations, smooth scrolling, `handleScroll`, tooltips, `switchLanguage`, the simulated form handlers, `getFormData`, `initializeApp` and the DOMContentLoaded, visibility and load listeners, and the `AlfaLearning` export are outside this model.
- On completion the script sets `disabled = false`, whatever the button's state before the submit. An unsupported stored language is used as it is: the pass finds no entry for it, changes no element, and the label reads `EN`.
- The record keeps `classes` and `value` apart from `attrs`, while the browser ties them together. A translation whose `data-i18n-attr` is `class` replaces the browser's class list, and one whose target is `value` changes an unedited input's current value. Text written into a textarea changes its default value, and its current value if it is unedited. In all these cases the model changes only `attrs` or `text`.
- I18n.TranslatedMatchRule: its "classes and value never change" is about the record's fields. It does not cover the browser-side couplings above.
- I18n.TranslateElement: states the same record-level frame as `TranslatedMatchRule`, for the same reason.
- I18n.TranslateElement: `setAttribute` throws `InvalidCharacterError` when the `data-i18n-attr` value is not a valid attribute name (one containing a space, such as `alt title`). The exception leaves the `forEach`: later elements stay untranslated, and the header label and `document.documentElement.lang` are not written. The model writes any truthy target and always finishes the pass, so `I18n.Translated`, `I18n.TranslatedPage`, Site.Page.TranslatePage, Site.Page.SetCurrentLanguage, Site.Page.InitLanguageSwitcher and Site.Page.ActivateLanguageLink describe only pages whose every matched target is a valid name. In `setCurrentLanguage` the preference is stored and the early label written before the pass, so those two effects would remain after such an abort.
- Site.Page.TranslatePage: its ensures promise the label write and the document language also for a page whose pass would throw at `setAttribute`, for the reason given in the I18n.TranslateElement line above.
