/** The document as the behaviour layer of the site sees it: a sequence of
    element records in document order, and the queries the script makes of it
    (`getElementById`, `querySelector`, `querySelectorAll`, `remove`). */
module Dom {

  datatype Option<T> = None | Some(value: T)

  /** One element of the page.  `node` is the element's identity: two records
      with the same node stand for the same DOM element, which is what a
      JavaScript reference held by a handler or a timer points at.
      `attrs` holds the content attributes (`id`, `data-i18n`,
      `data-i18n-attr`, `action`, `type`, `disabled`, ...), `text` the text
      content, `value` the current value of a form control and `form` the node
      of the form the element belongs to, if any. */
  datatype Element = Element(
    node: nat,
    tag: string,
    classes: set<string>,
    attrs: map<string, string>,
    text: string,
    value: string,
    form: Option<nat>)

  /** `element.getAttribute(name)`: null when the attribute is absent. */
  function GetAttribute(e: Element, name: string): (r: Option<string>)
    ensures r.Some? <==> name in e.attrs
    ensures r.Some? ==> r.value == e.attrs[name]
  {
    if name in e.attrs then Some(e.attrs[name]) else None
  }

  /** JavaScript truthiness of a string that may be null: present and non-empty. */
  function Truthy(s: Option<string>): (r: bool)
    ensures !r <==> s == None || s == Some("")
  {
    s.Some? && s.value != ""
  }

  predicate HasId(e: Element, id: string)
  {
    GetAttribute(e, "id") == Some(id)
  }

  /** Index of the first element, in document order, that satisfies `p`
      (the search behind `getElementById` and `querySelector`). */
  function FirstWhere(es: seq<Element>, p: Element -> bool): (r: Option<nat>)
    ensures r.Some? ==> r.value < |es| && p(es[r.value])
    ensures r.Some? ==> forall j :: 0 <= j < r.value ==> !p(es[j])
    ensures r.None? ==> forall j :: 0 <= j < |es| ==> !p(es[j])
  {
    if |es| == 0 then None
    else if p(es[0]) then Some(0)
    else match FirstWhere(es[1..], p)
      case None => None
      case Some(k) => Some(k + 1)
  }

  /** `document.getElementById(id)`: the first element carrying that id. */
  function ElementById(es: seq<Element>, id: string): (r: Option<nat>)
    ensures r.Some? ==> r.value < |es| && HasId(es[r.value], id)
    ensures r.Some? ==> forall j :: 0 <= j < r.value ==> !HasId(es[j], id)
    ensures r.None? ==> forall j :: 0 <= j < |es| ==> !HasId(es[j], id)
  {
    FirstWhere(es, (e: Element) => HasId(e, id))
  }

  /** Where the element with identity `n` sits in the document, if it is attached. */
  function IndexOfNode(es: seq<Element>, n: nat): (r: Option<nat>)
    ensures r.Some? ==> r.value < |es| && es[r.value].node == n
    ensures r.None? ==> forall j :: 0 <= j < |es| ==> es[j].node != n
  {
    FirstWhere(es, (e: Element) => e.node == n)
  }

  /** Two searches agree when their predicates agree on every element. */
  lemma {:induction false} FirstWhereAgree(es: seq<Element>, es': seq<Element>, p: Element -> bool, p': Element -> bool)
    requires |es| == |es'|
    requires forall j :: 0 <= j < |es| ==> p(es[j]) == p'(es'[j])
    ensures FirstWhere(es, p) == FirstWhere(es', p')
    decreases |es|
  {
    if |es| > 0 && !p(es[0]) {
      FirstWhereAgree(es[1..], es'[1..], p, p');
    }
  }

  /** Changing anything but the attributes of elements leaves `getElementById` as it was. */
  lemma ElementByIdSameAttrs(es: seq<Element>, es': seq<Element>, id: string)
    requires |es| == |es'|
    requires forall j :: 0 <= j < |es| ==> es[j].attrs == es'[j].attrs
    ensures ElementById(es, id) == ElementById(es', id)
  {
    FirstWhereAgree(es, es', (e: Element) => HasId(e, id), (e: Element) => HasId(e, id));
  }

  /** The elements of `es` that satisfy `p`, in document order: what is left
      after every element failing `p` is `remove()`d. */
  function Keep(es: seq<Element>, p: Element -> bool): (r: seq<Element>)
    ensures |r| <= |es|
    ensures forall x :: x in r <==> x in es && p(x)
    ensures (forall j :: 0 <= j < |es| ==> p(es[j])) ==> r == es
    decreases |es|
  {
    if |es| == 0 then []
    else
      var init, last := es[..|es| - 1], es[|es| - 1];
      assert es == init + [last];
      Keep(init, p) + (if p(last) then [last] else [])
  }

  /** Filtering keeps document order: filtering two consecutive parts is
      filtering each and joining the results. */
  lemma {:induction false} KeepAppend(a: seq<Element>, b: seq<Element>, p: Element -> bool)
    ensures Keep(a + b, p) == Keep(a, p) + Keep(b, p)
    decreases |b|
  {
    if |b| == 0 {
      assert a + b == a;
    } else {
      var init, last := b[..|b| - 1], b[|b| - 1];
      assert (a + b)[..|a + b| - 1] == a + init;
      assert (a + b)[|a + b| - 1] == last;
      KeepAppend(a, init, p);
    }
  }

  /** A single element is kept exactly when it passes. */
  lemma KeepSingle(x: Element, p: Element -> bool)
    ensures Keep([x], p) == if p(x) then [x] else []
  {
    assert [x][..0] == [];
  }

  /** No two records stand for the same element. */
  predicate DistinctNodes(es: seq<Element>)
  {
    forall i, j :: 0 <= i < j < |es| ==> es[i].node != es[j].node
  }

  /** Every identity in use is below `n`, so `n` is free for a new element. */
  predicate NodesBelow(es: seq<Element>, n: nat)
  {
    forall i :: 0 <= i < |es| ==> es[i].node < n
  }

  /** An identity no element of `es` uses. */
  function NextFreeNode(es: seq<Element>): (n: nat)
    ensures NodesBelow(es, n)
  {
    if |es| == 0 then 0
    else
      var m := NextFreeNode(es[1..]);
      if es[0].node + 1 > m then es[0].node + 1 else m
  }

  /** With distinct identities, looking an element's identity up finds that element. */
  lemma IndexOfDistinct(es: seq<Element>, i: nat)
    requires DistinctNodes(es) && i < |es|
    ensures IndexOfNode(es, es[i].node) == Some(i)
  {
  }

  /** Two sequences with the same identities, position by position, agree on
      every identity lookup. */
  lemma IndexOfSameNodes(a: seq<Element>, b: seq<Element>, n: nat)
    requires SameNodes(a, b)
    ensures IndexOfNode(a, n) == IndexOfNode(b, n)
  {
    FirstWhereAgree(a, b, (e: Element) => e.node == n, (e: Element) => e.node == n);
  }

  /** Removing elements keeps identities distinct. */
  lemma {:induction false} KeepDistinct(es: seq<Element>, p: Element -> bool)
    requires DistinctNodes(es)
    ensures DistinctNodes(Keep(es, p))
    decreases |es|
  {
    if |es| > 0 {
      var init, last := es[..|es| - 1], es[|es| - 1];
      KeepDistinct(init, p);
      var k := Keep(init, p);
      forall i | 0 <= i < |k|
        ensures k[i].node != last.node
      {
        assert k[i] in init;
        var m :| 0 <= m < |init| && init[m] == k[i];
        assert es[m] == init[m];
      }
    }
  }

  /** Removing elements keeps every identity below a bound. */
  lemma KeepNodesBelow(es: seq<Element>, p: Element -> bool, n: nat)
    requires NodesBelow(es, n)
    ensures NodesBelow(Keep(es, p), n)
  {
    var k := Keep(es, p);
    forall i | 0 <= i < |k|
      ensures k[i].node < n
    {
      assert k[i] in es;
    }
  }

  /** Two sequences whose elements pairwise keep their identity. */
  predicate SameNodes(a: seq<Element>, b: seq<Element>)
  {
    |a| == |b| && forall i :: 0 <= i < |a| ==> a[i].node == b[i].node
  }

  /** Rewriting elements in place keeps the identity invariants. */
  lemma SameNodesKeepInvariants(a: seq<Element>, b: seq<Element>, n: nat)
    requires SameNodes(a, b) && DistinctNodes(a) && NodesBelow(a, n)
    ensures DistinctNodes(b) && NodesBelow(b, n)
  {
  }

  /** Overwriting the first element after a prefix. */
  lemma UpdateAfterPrefix(p: seq<Element>, s: seq<Element>, x: Element)
    requires |s| > 0
    ensures (p + s)[|p| := x] == p + [x] + s[1..]
  {
  }

  /** `el.remove()` of the element with identity `n`; nothing happens when it is detached. */
  function RemoveNode(es: seq<Element>, n: nat): (r: seq<Element>)
    ensures forall x :: x in r <==> x in es && x.node != n
    ensures IndexOfNode(es, n).None? ==> r == es
  {
    Keep(es, (e: Element) => e.node != n)
  }

  /** Replace the class set of the element at `i` (what `classList.add`,
      `remove` and `toggle` do). */
  function WithClasses(es: seq<Element>, i: nat, cs: set<string>): (r: seq<Element>)
    requires i < |es|
    ensures SameNodes(es, r)
  {
    es[i := es[i].(classes := cs)]
  }

  /** `classList.toggle(c)`. */
  function Toggle(cs: set<string>, c: string): (r: set<string>)
    ensures c in r <==> c !in cs
    ensures r - {c} == cs - {c}
  {
    if c in cs then cs - {c} else cs + {c}
  }
}
