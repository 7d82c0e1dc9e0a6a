/** The submit handler bound to every form: forms posting to the hosted form
    service are left alone; any other form's submit button goes busy, and the
    completion step (the 2000 ms timer) shows a success notification, resets
    the form and restores the button. */
module Forms {
  import opened Dom
  import Notifications

  const FormspreeHost := "formspree.io"
  const BusyText := "Submitting..."
  const LoadingClass := "loading"
  const DisabledAttr := "disabled"
  const SuccessMessage := "Form submitted successfully! We'll get back to you soon."
  const SuccessKind := "success"

  /** `sub` occurs in `s` at position `i`. */
  predicate OccursAt(s: string, sub: string, i: int)
  {
    0 <= i && i + |sub| <= |s| && s[i..i + |sub|] == sub
  }

  lemma OccursShift(s: string, sub: string, i: int)
    requires |s| > 0 && i >= 0
    ensures OccursAt(s[1..], sub, i) <==> OccursAt(s, sub, i + 1)
  {
    if 0 <= i && i + 1 + |sub| <= |s| {
      assert s[1..][i..i + |sub|] == s[i + 1..i + 1 + |sub|];
    }
  }

  /** `s.includes(sub)`. */
  function Contains(s: string, sub: string): (r: bool)
    ensures r <==> exists i :: OccursAt(s, sub, i)
    decreases |s|
  {
    if |s| < |sub| then false
    else if s[..|sub|] == sub then assert OccursAt(s, sub, 0); true
    else
      var r := Contains(s[1..], sub);
      assert r ==> exists i :: OccursAt(s, sub, i) by {
        if r {
          var i :| OccursAt(s[1..], sub, i);
          OccursShift(s, sub, i);
        }
      }
      assert (exists i :: OccursAt(s, sub, i)) ==> r by {
        if exists i :: OccursAt(s, sub, i) {
          var i :| OccursAt(s, sub, i);
          assert i != 0;
          OccursShift(s, sub, i - 1);
        }
      }
      r
  }

  /** `action && action.includes('formspree.io')` is false: the handler takes over. */
  function Intercepts(action: Option<string>): (r: bool)
    ensures !r <==> action.Some? && action.value != "" && exists i :: OccursAt(action.value, FormspreeHost, i)
  {
    !(Truthy(action) && Contains(action.value, FormspreeHost))
  }

  /** What the completion step needs: the form, its submit button and the
      button's text captured before it went busy. */
  datatype PendingSubmit = PendingSubmit(form: nat, button: nat, originalText: string)

  /** How the handler ends: the hosted service handles the form; the form has
      no submit button, so `submitBtn.textContent` throws; or the button is
      busy and the completion step is pending. */
  datatype SubmitOutcome = NotIntercepted | NoSubmitButton | Submitting(pending: PendingSubmit)

  /** ASCII lower-casing, as the selector engine compares `type` values. */
  function AsciiLower(s: string): (r: string)
    ensures |r| == |s|
    ensures forall i :: 0 <= i < |s| ==> !('A' <= r[i] <= 'Z')
    ensures forall i :: 0 <= i < |s| && !('A' <= s[i] <= 'Z') ==> r[i] == s[i]
    ensures forall i :: 0 <= i < |s| && 'A' <= s[i] <= 'Z' ==> r[i] as int == s[i] as int + 32
  {
    seq(|s|, i requires 0 <= i < |s| => if 'A' <= s[i] <= 'Z' then (s[i] as int + 32) as char else s[i])
  }

  /** Matches `button[type="submit"]` inside the form with identity `form`;
      the `type` value is matched without regard to ASCII case. */
  predicate IsSubmitButtonOf(e: Element, form: nat)
  {
    e.tag == "button" && "type" in e.attrs && AsciiLower(e.attrs["type"]) == "submit" && e.form == Some(form)
  }

  /** A button whose `type` is written `SUBMIT` is still the submit button. */
  lemma UpperCaseTypeMatches(e: Element, form: nat)
    requires e.tag == "button" && e.form == Some(form) && e.attrs == map["type" := "SUBMIT"]
    ensures IsSubmitButtonOf(e, form)
  {
    var l := AsciiLower("SUBMIT");
    assert l[0] == 's' && l[1] == 'u' && l[2] == 'b' && l[3] == 'm' && l[4] == 'i' && l[5] == 't';
    assert l == "submit";
  }

  /** `form.querySelector('button[type="submit"]')`. */
  function SubmitButton(es: seq<Element>, form: nat): (r: Option<nat>)
    ensures r.Some? ==> r.value < |es| && IsSubmitButtonOf(es[r.value], form)
    ensures r.Some? ==> forall j :: 0 <= j < r.value ==> !IsSubmitButtonOf(es[j], form)
    ensures r.None? ==> forall j :: 0 <= j < |es| ==> !IsSubmitButtonOf(es[j], form)
  {
    FirstWhere(es, (e: Element) => IsSubmitButtonOf(e, form))
  }

  /** The decision the submit handler of the form at index `f` takes. */
  function SubmitDecision(es: seq<Element>, f: nat): (r: SubmitOutcome)
    requires f < |es|
    ensures r.NotIntercepted? <==> !Intercepts(GetAttribute(es[f], "action"))
    ensures r.NoSubmitButton? <==> Intercepts(GetAttribute(es[f], "action"))
                                   && forall j :: 0 <= j < |es| ==> !IsSubmitButtonOf(es[j], es[f].node)
    ensures r.Submitting? ==>
              r.pending.form == es[f].node
              && exists j :: 0 <= j < |es| && IsSubmitButtonOf(es[j], es[f].node)
                             && r.pending.button == es[j].node && r.pending.originalText == es[j].text
  {
    if !Intercepts(GetAttribute(es[f], "action")) then NotIntercepted
    else match SubmitButton(es, es[f].node)
      case None => NoSubmitButton
      case Some(j) => Submitting(PendingSubmit(es[f].node, es[j].node, es[j].text))
  }

  /** `disabled = true`, the busy text and the `loading` class. */
  function Busy(b: Element): (r: Element)
    ensures DisabledAttr in r.attrs && r.text == BusyText && LoadingClass in r.classes
    ensures r.attrs - {DisabledAttr} == b.attrs - {DisabledAttr}
    ensures r.classes - {LoadingClass} == b.classes - {LoadingClass}
    ensures r.node == b.node && r.tag == b.tag && r.value == b.value && r.form == b.form
  {
    b.(attrs := b.attrs[DisabledAttr := ""], text := BusyText, classes := b.classes + {LoadingClass})
  }

  /** `disabled = false`, the captured text back, `loading` removed. */
  function Restored(b: Element, text: string): (r: Element)
    ensures DisabledAttr !in r.attrs && r.text == text && LoadingClass !in r.classes
    ensures r.attrs - {DisabledAttr} == b.attrs - {DisabledAttr}
    ensures r.classes - {LoadingClass} == b.classes - {LoadingClass}
    ensures r.node == b.node && r.tag == b.tag && r.value == b.value && r.form == b.form
  {
    b.(attrs := b.attrs - {DisabledAttr}, text := text, classes := b.classes - {LoadingClass})
  }

  /** The document after the submit handler of the form at index `f`. */
  function AfterSubmit(es: seq<Element>, f: nat): (r: seq<Element>)
    requires f < |es|
    ensures SameNodes(es, r)
  {
    match SubmitDecision(es, f)
    case Submitting(_) =>
      var j := SubmitButton(es, es[f].node).value;
      es[j := Busy(es[j])]
    case _ => es
  }

  /** `form.reset()` on one control: an input goes back to the raw text of
      its `value` attribute, a textarea to its text. The browser's per-type
      value sanitization is not applied. */
  function ResetControl(e: Element): (r: Element)
    ensures r == e.(value := r.value)
    ensures e.tag == "input" ==> r.value == (if "value" in e.attrs then e.attrs["value"] else "")
    ensures e.tag == "textarea" ==> r.value == e.text
    ensures e.tag != "input" && e.tag != "textarea" ==> r == e
  {
    if e.tag == "input" then e.(value := if "value" in e.attrs then e.attrs["value"] else "")
    else if e.tag == "textarea" then e.(value := e.text)
    else e
  }

  /** `form.reset()` on the form with identity `form`. */
  function FormReset(es: seq<Element>, form: nat): (r: seq<Element>)
    ensures SameNodes(es, r)
  {
    seq(|es|, k requires 0 <= k < |es| => if es[k].form == Some(form) then ResetControl(es[k]) else es[k])
  }

  /** The button part of the completion step, on whichever element the captured button is. */
  function RestoreButton(es: seq<Element>, button: nat, text: string): (r: seq<Element>)
    ensures SameNodes(es, r)
    ensures IndexOfNode(es, button).None? ==> r == es
    ensures IndexOfNode(es, button).Some? ==>
      var j := IndexOfNode(es, button).value;
      r[j] == Restored(es[j], text) && forall k :: 0 <= k < |es| && k != j ==> r[k] == es[k]
  {
    match IndexOfNode(es, button)
    case None => es
    case Some(j) => es[j := Restored(es[j], text)]
  }

  /** The document after the completion step with `node` the new notification. */
  function Completed(es: seq<Element>, node: nat, p: PendingSubmit): (r: seq<Element>)
    ensures |r| >= 1 && Notifications.IsNotification(r[|r| - 1]) && r[|r| - 1].node == node
    ensures p.button != node ==> r[|r| - 1] == Notifications.NotificationElement(node, SuccessMessage, SuccessKind)
  {
    var shown := Notifications.Shown(es, node, SuccessMessage, SuccessKind);
    var reset := FormReset(shown, p.form);
    var last := |shown| - 1;
    assert reset[last] == shown[last];
    var r := RestoreButton(reset, p.button, p.originalText);
    assert r[last] == reset[last] || (p.button == node && r[last] == Restored(reset[last], p.originalText));
    r
  }

  /** Interception rule: a form is left to the hosted service exactly when its
      `action` contains `formspree.io`, and then the handler changes nothing. */
  lemma HostedFormsPass(es: seq<Element>, f: nat)
    requires f < |es|
    ensures SubmitDecision(es, f).NotIntercepted?
            <==> Truthy(GetAttribute(es[f], "action")) && Contains(es[f].attrs["action"], FormspreeHost)
    ensures SubmitDecision(es, f).NotIntercepted? ==> AfterSubmit(es, f) == es
  {
  }

  /** An intercepted form: its first submit button becomes disabled, reads
      `Submitting...` and carries `loading`; its text before is captured;
      nothing else changes. */
  lemma BusyState(es: seq<Element>, f: nat)
    requires f < |es| && SubmitDecision(es, f).Submitting?
    ensures var p := SubmitDecision(es, f).pending; var j := SubmitButton(es, es[f].node).value;
      var r := AfterSubmit(es, f);
      p.form == es[f].node && p.button == es[j].node && p.originalText == es[j].text
      && DisabledAttr in r[j].attrs && r[j].text == BusyText && LoadingClass in r[j].classes
      && r[j].attrs - {DisabledAttr} == es[j].attrs - {DisabledAttr}
      && r[j].classes - {LoadingClass} == es[j].classes - {LoadingClass}
      && r[j] == es[j].(attrs := r[j].attrs, text := r[j].text, classes := r[j].classes)
      && forall k :: 0 <= k < |es| && k != j ==> r[k] == es[k]
  {
  }

  /** Busy then restore with the captured text is the identity on a button
      that was enabled and not loading. */
  lemma RestoreUndoesBusy(b: Element)
    requires DisabledAttr !in b.attrs && LoadingClass !in b.classes
    ensures Restored(Busy(b), b.text) == b
  {
    assert b.attrs[DisabledAttr := ""] - {DisabledAttr} == b.attrs;
  }

  /** After the reset every input and textarea of the form holds the raw
      text of its default (the `value` attribute, or a textarea's text), and
      no element outside the form changes. */
  lemma ResetRestoresDefaults(es: seq<Element>, form: nat)
    ensures var r := FormReset(es, form);
      forall k :: 0 <= k < |es| ==>
        (es[k].form == Some(form) && es[k].tag == "input" ==> r[k].value == (if "value" in es[k].attrs then es[k].attrs["value"] else ""))
        && (es[k].form == Some(form) && es[k].tag == "textarea" ==> r[k].value == es[k].text)
        && (es[k].form != Some(form) ==> r[k] == es[k])
        && r[k] == es[k].(value := r[k].value)
  {
  }

  /** The completion step puts the captured button, wherever it now sits,
      back to enabled, its captured text and no `loading`; the success
      notification is the last element of the page, exactly as shown unless
      the captured button is that notification itself. */
  lemma CompletedEffect(es: seq<Element>, node: nat, p: PendingSubmit)
    ensures var r := Completed(es, node, p);
      var j := IndexOfNode(r, p.button);
      (j.Some? ==> DisabledAttr !in r[j.value].attrs && r[j.value].text == p.originalText
                   && LoadingClass !in r[j.value].classes)
      && |r| >= 1 && Notifications.IsNotification(r[|r| - 1]) && r[|r| - 1].node == node
      && (p.button != node ==> r[|r| - 1] == Notifications.NotificationElement(node, SuccessMessage, SuccessKind)
                               && r[|r| - 1].text == SuccessMessage)
  {
    var reset := FormReset(Notifications.Shown(es, node, SuccessMessage, SuccessKind), p.form);
    IndexOfSameNodes(reset, Completed(es, node, p), p.button);
  }

  /** Submitting marks the button busy and keeps identities distinct. */
  lemma AfterSubmitValid(es: seq<Element>, f: nat, node: nat)
    requires f < |es| && DistinctNodes(es) && NodesBelow(es, node)
    ensures DistinctNodes(AfterSubmit(es, f)) && NodesBelow(AfterSubmit(es, f), node)
  {
  }

  /** The reset leaves a button alone, and the button step then finds it
      where it was and restores it. */
  lemma RestoreAfterReset(s: seq<Element>, m: nat, p: PendingSubmit)
    requires DistinctNodes(s) && m < |s| && s[m].node == p.button && s[m].tag == "button"
    ensures var r := RestoreButton(FormReset(s, p.form), p.button, p.originalText);
      IndexOfNode(r, p.button) == Some(m) && r[m] == Restored(s[m], p.originalText)
  {
    var reset := FormReset(s, p.form);
    assert reset[m] == s[m];
    SameNodesKeepInvariants(s, reset, NextFreeNode(s));
    IndexOfDistinct(reset, m);
    IndexOfSameNodes(reset, RestoreButton(reset, p.button, p.originalText), p.button);
  }

  /** Submit then complete: the button is back exactly as it was before the
      submit (enabled, original text, no `loading`), provided it was enabled,
      not loading and not itself a notification. */
  lemma SubmitThenCompleteRestoresButton(es: seq<Element>, f: nat, node: nat)
    requires f < |es| && DistinctNodes(es) && NodesBelow(es, node)
    requires SubmitDecision(es, f).Submitting?
    requires var b := es[SubmitButton(es, es[f].node).value];
      DisabledAttr !in b.attrs && LoadingClass !in b.classes && !Notifications.IsNotification(b)
    ensures var p := SubmitDecision(es, f).pending; var b := es[SubmitButton(es, es[f].node).value];
      var r := Completed(AfterSubmit(es, f), node, p);
      IndexOfNode(r, b.node).Some? && r[IndexOfNode(r, b.node).value] == b
  {
    var p := SubmitDecision(es, f).pending;
    var j := SubmitButton(es, es[f].node).value;
    var b := es[j];
    var busy := AfterSubmit(es, f);
    var shown := Notifications.Shown(busy, node, SuccessMessage, SuccessKind);
    assert Busy(b) in shown by {
      assert busy[j] == Busy(b);
      assert !Notifications.IsNotification(Busy(b));
      Notifications.ShownSingle(busy, node, SuccessMessage, SuccessKind);
    }
    assert DistinctNodes(shown) by {
      AfterSubmitValid(es, f, node);
      Notifications.ShownDistinct(busy, node, SuccessMessage, SuccessKind);
    }
    var m :| 0 <= m < |shown| && shown[m] == Busy(b);
    assert p.button == b.node && p.originalText == b.text;
    assert Completed(busy, node, p) == RestoreButton(FormReset(shown, p.form), p.button, p.originalText);
    RestoreAfterReset(shown, m, p);
    RestoreUndoesBusy(b);
  }
}
