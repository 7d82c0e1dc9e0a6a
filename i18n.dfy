/** The language preference and the translation pass: every element marked
    with `data-i18n` is rewritten from a dictionary indexed by language and
    key, either in the attribute named by its `data-i18n-attr` or in its text,
    and the header label shows the current language. */
module I18n {
  import opened Dom

  /** The global `translations` object: language code to key to display string. */
  type Dictionary = map<string, map<string, string>>

  const DefaultLanguage := "en"
  const KeyMarker := "data-i18n"
  const TargetMarker := "data-i18n-attr"
  const LabelId := "current-language"

  /** The `langNames` table of the header label; `zh` shows its own name. */
  const LanguageNames: map<string, string> := map["en" := "EN", "id" := "ID", "zh" := "\U{4E2D}\U{6587}"]
  const FallbackLabel := "EN"

  /** `localStorage.getItem('language') || 'en'`. */
  function EffectiveLanguage(stored: Option<string>): (lang: string)
    ensures lang != ""
    ensures Truthy(stored) ==> lang == stored.value
    ensures !Truthy(stored) ==> lang == DefaultLanguage
  {
    if Truthy(stored) then stored.value else DefaultLanguage
  }

  /** `langNames[lang] || 'EN'`: the label shown in the header. */
  function LanguageLabel(lang: string): (name: string)
    ensures name == "EN" || name == "ID" || name == "\U{4E2D}\U{6587}"
    ensures name == "ID" <==> lang == "id"
    ensures name == "\U{4E2D}\U{6587}" <==> lang == "zh"
    ensures name == "EN" <==> lang != "id" && lang != "zh"
  {
    if lang in LanguageNames && LanguageNames[lang] != "" then LanguageNames[lang] else FallbackLabel
  }

  /** `translations[lang][key]` when every step exists and the string is truthy. */
  function Lookup(translations: Option<Dictionary>, lang: string, key: string): (r: Option<string>)
    ensures r.Some? <==> translations.Some? && lang in translations.value && key in translations.value[lang]
                         && Truthy(Some(translations.value[lang][key]))
    ensures r.Some? ==> r.value == translations.value[lang][key] && r.value != ""
  {
    if translations.Some? && lang in translations.value && key in translations.value[lang]
       && translations.value[lang][key] != ""
    then Some(translations.value[lang][key])
    else None
  }

  /** The element carries a key and the dictionary has a usable string for it. */
  predicate Matched(e: Element, translations: Option<Dictionary>, lang: string)
  {
    KeyMarker in e.attrs && Lookup(translations, lang, e.attrs[KeyMarker]).Some?
  }

  /** The body of the `forEach` in `translatePage`, applied to one element. */
  function TranslateElement(e: Element, translations: Option<Dictionary>, lang: string): (r: Element)
    ensures r.node == e.node && r.tag == e.tag && r.classes == e.classes && r.value == e.value && r.form == e.form
    ensures !Matched(e, translations, lang) ==> r == e
    ensures Matched(e, translations, lang) ==>
      var s := Lookup(translations, lang, e.attrs[KeyMarker]).value;
      var target := GetAttribute(e, TargetMarker);
      if Truthy(target) then r.attrs == e.attrs[target.value := s] && r.text == e.text
      else r.text == s && r.attrs == e.attrs
  {
    if KeyMarker !in e.attrs then e
    else match Lookup(translations, lang, e.attrs[KeyMarker])
      case None => e
      case Some(s) =>
        var target := GetAttribute(e, TargetMarker);
        if Truthy(target) then e.(attrs := e.attrs[target.value := s]) else e.(text := s)
  }

  /** The translation pass over the whole document, element by element in
      document order. */
  function Translated(es: seq<Element>, translations: Option<Dictionary>, lang: string): (r: seq<Element>)
    ensures |r| == |es|
  {
    if |es| == 0 then []
    else Translated(es[..|es| - 1], translations, lang) + [TranslateElement(es[|es| - 1], translations, lang)]
  }

  /** The pass over a document one element longer. */
  lemma TranslatedSnoc(es: seq<Element>, e: Element, translations: Option<Dictionary>, lang: string)
    ensures Translated(es + [e], translations, lang) == Translated(es, translations, lang) + [TranslateElement(e, translations, lang)]
  {
    assert (es + [e])[..|es|] == es;
  }

  /** One step of the pass done in place: translating the element after the
      already translated prefix extends the prefix by one. */
  lemma TranslatedStep(es: seq<Element>, i: nat, translations: Option<Dictionary>, lang: string)
    requires i < |es|
    ensures (Translated(es[..i], translations, lang) + es[i..])[i := TranslateElement(es[i], translations, lang)]
            == Translated(es[..i + 1], translations, lang) + es[i + 1..]
  {
    assert es[..i + 1] == es[..i] + [es[i]];
    TranslatedSnoc(es[..i], es[i], translations, lang);
    UpdateAfterPrefix(Translated(es[..i], translations, lang), es[i..], TranslateElement(es[i], translations, lang));
    assert es[i..][1..] == es[i + 1..];
  }

  /** The loop of `translatePage`: every element carrying `data-i18n` is
      rewritten in document order, the rest are skipped. */
  method TranslateAll(es: seq<Element>, translations: Option<Dictionary>, lang: string) returns (r: seq<Element>)
    ensures r == Translated(es, translations, lang)
  {
    r := es;
    var i := 0;
    while i < |es|
      invariant 0 <= i <= |es|
      invariant r == Translated(es[..i], translations, lang) + es[i..]
    {
      assert r[i := TranslateElement(r[i], translations, lang)] == Translated(es[..i + 1], translations, lang) + es[i + 1..] by {
        TranslatedStep(es, i, translations, lang);
      }
      if KeyMarker in r[i].attrs {
        r := r[i := TranslateElement(r[i], translations, lang)];
      } else {
        assert r == r[i := TranslateElement(r[i], translations, lang)];
      }
      i := i + 1;
    }
    assert es[..i] == es;
  }

  /** The header label (if the page has one) shows the label of `lang`. */
  function WithLabel(es: seq<Element>, lang: string): (r: seq<Element>)
    ensures SameNodes(es, r)
    ensures ElementById(es, LabelId).None? ==> r == es
    ensures ElementById(es, LabelId).Some? ==>
      var i := ElementById(es, LabelId).value;
      r[i] == es[i].(text := LanguageLabel(lang)) && forall k :: 0 <= k < |es| && k != i ==> r[k] == es[k]
  {
    match ElementById(es, LabelId)
    case None => es
    case Some(i) => es[i := es[i].(text := LanguageLabel(lang))]
  }

  /** The document after `translatePage` with language `lang`. */
  function TranslatedPage(es: seq<Element>, translations: Option<Dictionary>, lang: string): (r: seq<Element>)
    ensures SameNodes(es, r)
  {
    TranslatedSameNodes(es, translations, lang);
    WithLabel(Translated(es, translations, lang), lang)
  }

  /** The pass treats each element on its own. */
  lemma {:induction false} TranslatedAt(es: seq<Element>, translations: Option<Dictionary>, lang: string, i: nat)
    requires i < |es|
    ensures Translated(es, translations, lang)[i] == TranslateElement(es[i], translations, lang)
    decreases |es|
  {
    if i < |es| - 1 {
      TranslatedAt(es[..|es| - 1], translations, lang, i);
    }
  }

  /** Untouched unless matched: an element without `data-i18n`, or whose key has
      no truthy string under `lang`, comes out exactly as it went in; a
      rewritten element keeps its identity, tag, classes, value and form. */
  lemma TranslatedMatchRule(es: seq<Element>, translations: Option<Dictionary>, lang: string, i: nat)
    requires i < |es|
    ensures !Matched(es[i], translations, lang) ==> Translated(es, translations, lang)[i] == es[i]
    ensures Translated(es, translations, lang)[i] != es[i] ==> Matched(es[i], translations, lang)
    ensures var r := Translated(es, translations, lang)[i];
      r.node == es[i].node && r.tag == es[i].tag && r.classes == es[i].classes
      && r.value == es[i].value && r.form == es[i].form
  {
    TranslatedAt(es, translations, lang, i);
  }

  /** Attribute or text: with a truthy `data-i18n-attr` only that attribute
      receives the string and the text stays; otherwise only the text does. */
  lemma TranslatedAttrVsText(es: seq<Element>, translations: Option<Dictionary>, lang: string, i: nat)
    requires i < |es| && Matched(es[i], translations, lang)
    ensures var r := Translated(es, translations, lang)[i];
      var s := translations.value[lang][es[i].attrs[KeyMarker]];
      var target := GetAttribute(es[i], TargetMarker);
      (Truthy(target) ==> r.attrs == es[i].attrs[target.value := s] && r.text == es[i].text)
      && (!Truthy(target) ==> r.text == s && r.attrs == es[i].attrs)
  {
    TranslatedAt(es, translations, lang, i);
  }

  /** A missing `translations` object, or one without an entry for `lang`,
      leaves the whole document as it was. */
  lemma TranslatedWithoutEntry(es: seq<Element>, translations: Option<Dictionary>, lang: string)
    requires translations.None? || lang !in translations.value
    ensures Translated(es, translations, lang) == es
  {
    forall i | 0 <= i < |es|
      ensures Translated(es, translations, lang)[i] == es[i]
    {
      TranslatedAt(es, translations, lang, i);
    }
  }

  /** The pass never changes which element has which identity. */
  lemma TranslatedSameNodes(es: seq<Element>, translations: Option<Dictionary>, lang: string)
    ensures SameNodes(es, Translated(es, translations, lang))
  {
    forall i | 0 <= i < |es|
      ensures Translated(es, translations, lang)[i].node == es[i].node
    {
      TranslatedAt(es, translations, lang, i);
    }
  }

  /** The element's target attribute is not one of the two markers themselves. */
  predicate TargetIsNotMarker(e: Element)
  {
    TargetMarker in e.attrs ==> e.attrs[TargetMarker] != KeyMarker && e.attrs[TargetMarker] != TargetMarker
  }

  /** Translating an element twice is translating it once, as long as its
      translation does not land in one of its own markers. */
  lemma TranslateElementIdempotent(e: Element, translations: Option<Dictionary>, lang: string)
    requires TargetIsNotMarker(e)
    ensures TranslateElement(TranslateElement(e, translations, lang), translations, lang) == TranslateElement(e, translations, lang)
  {
    var once := TranslateElement(e, translations, lang);
    if Matched(e, translations, lang) && Truthy(GetAttribute(e, TargetMarker)) {
      var t := e.attrs[TargetMarker];
      var s := Lookup(translations, lang, e.attrs[KeyMarker]).value;
      assert once.attrs == e.attrs[t := s];
      assert once.attrs[KeyMarker] == e.attrs[KeyMarker];
      assert once.attrs[TargetMarker] == t;
      assert once.attrs[t := s] == once.attrs;
    }
  }

  /** Running the pass twice is running it once, as long as no element writes
      its translation into its own markers. */
  lemma TranslatedIdempotent(es: seq<Element>, translations: Option<Dictionary>, lang: string)
    requires forall i :: 0 <= i < |es| ==> TargetIsNotMarker(es[i])
    ensures Translated(Translated(es, translations, lang), translations, lang) == Translated(es, translations, lang)
  {
    var once := Translated(es, translations, lang);
    forall i | 0 <= i < |es|
      ensures Translated(once, translations, lang)[i] == once[i]
    {
      TranslatedAt(es, translations, lang, i);
      TranslatedAt(once, translations, lang, i);
      TranslateElementIdempotent(es[i], translations, lang);
    }
  }

  /** The header label always shows the label of the language of the pass,
      and the label element keeps its id. */
  lemma {:induction false} TranslatedPageLabel(es: seq<Element>, translations: Option<Dictionary>, lang: string)
    requires ElementById(Translated(es, translations, lang), LabelId).Some?
    ensures var i := ElementById(Translated(es, translations, lang), LabelId).value;
      var r := TranslatedPage(es, translations, lang);
      ElementById(r, LabelId) == Some(i) && r[i].text == LanguageLabel(lang)
  {
    var t := Translated(es, translations, lang);
    ElementByIdSameAttrs(t, TranslatedPage(es, translations, lang), LabelId);
  }

  /** Changing only the text of one element changes the pass's output at most
      in the text of that element. */
  lemma TranslatedIgnoresOldText(es: seq<Element>, translations: Option<Dictionary>, lang: string, i: nat, x: string)
    requires i < |es|
    ensures var a := Translated(es, translations, lang);
      var b := Translated(es[i := es[i].(text := x)], translations, lang);
      |a| == |b| && (forall k :: 0 <= k < |a| && k != i ==> a[k] == b[k])
      && a[i].(text := "") == b[i].(text := "")
  {
    var es' := es[i := es[i].(text := x)];
    forall k | 0 <= k < |es|
      ensures Translated(es, translations, lang)[k] == TranslateElement(es[k], translations, lang)
      ensures Translated(es', translations, lang)[k] == TranslateElement(es'[k], translations, lang)
    {
      TranslatedAt(es, translations, lang, k);
      TranslatedAt(es', translations, lang, k);
    }
  }

  /** No translation lands in an `id` attribute. */
  predicate NoIdTargets(es: seq<Element>)
  {
    forall k :: 0 <= k < |es| ==> GetAttribute(es[k], TargetMarker) != Some("id")
  }

  /** When no translation lands in an `id` attribute, the pass leaves
      `getElementById` as it was. */
  lemma TranslatedKeepsIds(es: seq<Element>, translations: Option<Dictionary>, lang: string, id: string)
    requires NoIdTargets(es)
    ensures ElementById(Translated(es, translations, lang), id) == ElementById(es, id)
  {
    var a := Translated(es, translations, lang);
    forall k | 0 <= k < |es|
      ensures HasId(a[k], id) == HasId(es[k], id)
    {
      TranslatedAt(es, translations, lang, k);
    }
    FirstWhereAgree(a, es, (e: Element) => HasId(e, id), (e: Element) => HasId(e, id));
  }

  /** An early label write is invisible after the pass: `initLanguageSwitcher`
      and `setCurrentLanguage` write the header label and then run
      `translatePage`, which ends in the same document as the pass alone,
      provided no translation lands in an `id` attribute. */
  lemma EarlyLabelWriteSubsumed(es: seq<Element>, translations: Option<Dictionary>, lang: string, early: string)
    requires NoIdTargets(es)
    ensures TranslatedPage(WithLabel(es, early), translations, lang) == TranslatedPage(es, translations, lang)
  {
    match ElementById(es, LabelId)
    case None =>
    case Some(i) =>
      var es' := es[i := es[i].(text := LanguageLabel(early))];
      assert WithLabel(es, early) == es';
      ElementByIdSameAttrs(es, es', LabelId);
      var a := Translated(es, translations, lang);
      var b := Translated(es', translations, lang);
      TranslatedKeepsIds(es, translations, lang, LabelId);
      TranslatedKeepsIds(es', translations, lang, LabelId);
      TranslatedIgnoresOldText(es, translations, lang, i, LanguageLabel(early));
      var t := LanguageLabel(lang);
      assert TranslatedPage(es, translations, lang) == a[i := a[i].(text := t)];
      assert TranslatedPage(es', translations, lang) == b[i := b[i].(text := t)];
      SameTextWrite(a, b, i, t);
  }

  /** Two documents that differ at most in the text of element `i` agree
      once that text is overwritten. */
  lemma SameTextWrite(a: seq<Element>, b: seq<Element>, i: nat, t: string)
    requires |a| == |b| && i < |a|
    requires forall k :: 0 <= k < |a| && k != i ==> a[k] == b[k]
    requires a[i].(text := "") == b[i].(text := "")
    ensures a[i := a[i].(text := t)] == b[i := b[i].(text := t)]
  {
    assert a[i].(text := t) == a[i].(text := "").(text := t);
    assert b[i].(text := t) == b[i].(text := "").(text := t);
  }

  /** `setCurrentLanguage(l)` stores `l` before the pass, so the pass uses `l`
      (or `en` when `l` is empty) and the label it shows is the label of `l`. */
  lemma ChosenLanguageWins(l: string)
    ensures l != "" ==> EffectiveLanguage(Some(l)) == l
    ensures LanguageLabel(EffectiveLanguage(Some(l))) == LanguageLabel(l)
  {
  }

  /** A page marked with key `greeting`, Indonesian stored: the element reads "Hai". */
  lemma IndonesianGreetingExample(e: Element)
    requires e.attrs == map[KeyMarker := "greeting"]
    ensures var d := map["en" := map["greeting" := "Hi"], "id" := map["greeting" := "Hai"]];
      Translated([e], Some(d), EffectiveLanguage(Some("id")))[0].text == "Hai"
  {
    var d := map["en" := map["greeting" := "Hi"], "id" := map["greeting" := "Hai"]];
    TranslatedAt([e], Some(d), "id", 0);
  }

  /** An unsupported stored language such as `fr` is not replaced by `en`:
      with no entry for it, the page keeps its markup-authored text. */
  lemma UnsupportedLanguageExample(es: seq<Element>)
    ensures var d := map["en" := map["greeting" := "Hi"], "id" := map["greeting" := "Hai"]];
      Translated(es, Some(d), EffectiveLanguage(Some("fr"))) == es
      && LanguageLabel(EffectiveLanguage(Some("fr"))) == FallbackLabel
  {
    var d := map["en" := map["greeting" := "Hi"], "id" := map["greeting" := "Hai"]];
    TranslatedWithoutEntry(es, Some(d), "fr");
  }

  /** With `data-i18n-attr` naming `data-i18n` itself a second pass translates
      the translation: the pass is not idempotent without the guard above. */
  lemma TargetIsKeyBreaksIdempotence()
    ensures var e := Element(0, "span", {}, map[KeyMarker := "a", TargetMarker := KeyMarker], "", "", None);
      var d := Some(map["en" := map["a" := "b", "b" := "c"]]);
      Translated(Translated([e], d, "en"), d, "en") != Translated([e], d, "en")
  {
    var e := Element(0, "span", {}, map[KeyMarker := "a", TargetMarker := KeyMarker], "", "", None);
    var d := Some(map["en" := map["a" := "b", "b" := "c"]]);
    var once := Translated([e], d, "en");
    TranslatedAt([e], d, "en", 0);
    assert once[0].attrs[KeyMarker] == "b";
    TranslatedAt(once, d, "en", 0);
    assert Translated(once, d, "en")[0].attrs[KeyMarker] == "c";
  }
}
