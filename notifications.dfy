/** The notification overlay: each severity has a fixed style and icon, a new
    notification first removes every existing one, and the auto-removal timer
    removes its own notification only while it is still attached. */
module Notifications {
  import opened Dom

  const NotificationClass := "notification"
  /** The fixed part of the overlay's `className`. */
  const PlacementClasses: set<string> :=
    {"notification", "fixed", "top-4", "right-4", "z-50", "p-4", "rounded-lg", "shadow-lg", "max-w-sm"}
  /** The overlay record holds the name of its icon under this attribute. */
  const IconAttr := "data-lucide"
  const DefaultKind := "info"

  /** The style strings of `getNotificationStyles`, as their space-separated class names. */
  const SuccessStyle := ["bg-green-100", "text-green-800", "border", "border-green-200"]
  const ErrorStyle := ["bg-red-100", "text-red-800", "border", "border-red-200"]
  const WarningStyle := ["bg-yellow-100", "text-yellow-800", "border", "border-yellow-200"]
  const InfoStyle := ["bg-blue-100", "text-blue-800", "border", "border-blue-200"]

  /** One of the three named severities; every other type is shown as `info`. */
  predicate KnownSeverity(kind: string)
  {
    kind == "success" || kind == "error" || kind == "warning"
  }

  /** `getNotificationStyles(type)`. */
  function NotificationStyles(kind: string): (style: seq<string>)
    ensures style == SuccessStyle <==> kind == "success"
    ensures style == ErrorStyle <==> kind == "error"
    ensures style == WarningStyle <==> kind == "warning"
    ensures style == InfoStyle <==> !KnownSeverity(kind)
  {
    assert SuccessStyle[0] != ErrorStyle[0] && SuccessStyle[0] != WarningStyle[0] && SuccessStyle[0] != InfoStyle[0];
    assert ErrorStyle[0] != WarningStyle[0] && ErrorStyle[0] != InfoStyle[0] && WarningStyle[0] != InfoStyle[0];
    match kind
    case "success" => SuccessStyle
    case "error" => ErrorStyle
    case "warning" => WarningStyle
    case _ => InfoStyle
  }

  /** `getNotificationIcon(type)`. */
  function NotificationIcon(kind: string): (icon: string)
    ensures icon == "check-circle" <==> kind == "success"
    ensures icon == "alert-circle" <==> kind == "error"
    ensures icon == "alert-triangle" <==> kind == "warning"
    ensures icon == "info" <==> !KnownSeverity(kind)
  {
    match kind
    case "success" => "check-circle"
    case "error" => "alert-circle"
    case "warning" => "alert-triangle"
    case _ => "info"
  }

  /** Style and icon always come as a pair: two types share a style exactly
      when they share an icon. */
  lemma StyleAndIconAgree(a: string, b: string)
    ensures NotificationStyles(a) == NotificationStyles(b) <==> NotificationIcon(a) == NotificationIcon(b)
  {
  }

  /** Every type other than the three named ones, the default `info` among
      them, is shown exactly like `info`. */
  lemma UnknownKindIsInfo(kind: string)
    requires !KnownSeverity(kind)
    ensures NotificationStyles(kind) == NotificationStyles(DefaultKind) == InfoStyle
    ensures NotificationIcon(kind) == NotificationIcon(DefaultKind) == "info"
  {
  }

  predicate IsNotification(e: Element)
  {
    NotificationClass in e.classes
  }

  /** The overlay that `showNotification` appends to the body, with identity `node`. */
  function NotificationElement(node: nat, message: string, kind: string): (e: Element)
    ensures IsNotification(e) && e.text == message && e.node == node
    ensures forall c :: c in NotificationStyles(kind) ==> c in e.classes
    ensures forall c :: c in e.classes ==> c in PlacementClasses || c in NotificationStyles(kind)
    ensures IconAttr in e.attrs && e.attrs[IconAttr] == NotificationIcon(kind)
  {
    Element(node, "div", PlacementClasses + (set c | c in NotificationStyles(kind)),
            map[IconAttr := NotificationIcon(kind)], message, "", None)
  }

  /** `querySelectorAll('.notification').forEach(n => n.remove())`. */
  function WithoutNotifications(es: seq<Element>): (r: seq<Element>)
    ensures forall x :: x in r <==> x in es && !IsNotification(x)
  {
    Keep(es, (e: Element) => !IsNotification(e))
  }

  /** Removing the notifications of a longer document, one element more. */
  lemma WithoutNotificationsSnoc(es: seq<Element>, e: Element)
    ensures WithoutNotifications(es + [e]) == WithoutNotifications(es) + (if IsNotification(e) then [] else [e])
  {
    assert (es + [e])[..|es|] == es;
  }

  /** The document after `showNotification(message, kind)` with `node` the new overlay. */
  function Shown(es: seq<Element>, node: nat, message: string, kind: string): (r: seq<Element>)
    ensures 1 <= |r| <= |es| + 1
    ensures r[|r| - 1] == NotificationElement(node, message, kind)
  {
    WithoutNotifications(es) + [NotificationElement(node, message, kind)]
  }

  /** Single overlay: afterwards the document holds exactly one notification,
      the new one (styled and iconed by `kind`, see `NotificationElement`), at
      the end of the body; every element that was not a notification is still
      there, in its order, and nothing else is. */
  lemma ShownSingle(es: seq<Element>, node: nat, message: string, kind: string)
    ensures var r := Shown(es, node, message, kind);
      |r| >= 1 && r[|r| - 1] == NotificationElement(node, message, kind)
      && (forall i :: 0 <= i < |r| - 1 ==> !IsNotification(r[i]))
      && (forall x :: x in es && !IsNotification(x) ==> x in r)
      && (forall x :: x in r ==> x in es || x == r[|r| - 1])
      && r[..|r| - 1] == WithoutNotifications(es)
  {
    var r := Shown(es, node, message, kind);
    var w := WithoutNotifications(es);
    forall i | 0 <= i < |r| - 1
      ensures !IsNotification(r[i])
    {
      assert r[i] == w[i];
      assert w[i] in w;
    }
  }

  /** A new overlay may use `node` and keeps identities distinct. */
  lemma ShownDistinct(es: seq<Element>, node: nat, message: string, kind: string)
    requires DistinctNodes(es) && NodesBelow(es, node)
    ensures DistinctNodes(Shown(es, node, message, kind)) && NodesBelow(Shown(es, node, message, kind), node + 1)
  {
    var p := (e: Element) => !IsNotification(e);
    KeepDistinct(es, p);
    KeepNodesBelow(es, p, node);
  }

  /** The timer firing after a manual dismissal finds its notification detached and does nothing. */
  lemma ExpiryAfterDismissIsNoOp(es: seq<Element>, n: nat)
    ensures RemoveNode(RemoveNode(es, n), n) == RemoveNode(es, n)
  {
    var r := RemoveNode(es, n);
    assert IndexOfNode(r, n).None? by {
      forall j | 0 <= j < |r| ensures r[j].node != n { assert r[j] in r; }
    }
  }

  /** The timer of a superseded notification does nothing: once a newer
      notification is shown, the older one is no longer attached. */
  lemma ExpiryAfterSupersessionIsNoOp(es: seq<Element>, i: nat, node: nat, message: string, kind: string)
    requires DistinctNodes(es) && i < |es| && IsNotification(es[i]) && node != es[i].node
    ensures var r := Shown(es, node, message, kind);
      IndexOfNode(r, es[i].node).None? && RemoveNode(r, es[i].node) == r
  {
    var r := Shown(es, node, message, kind);
    var w := WithoutNotifications(es);
    forall j | 0 <= j < |r|
      ensures r[j].node != es[i].node
    {
      if j < |w| {
        assert r[j] == w[j] && w[j] in w;
        var m :| 0 <= m < |es| && es[m] == w[j];
        assert m != i;
      }
    }
  }
}
