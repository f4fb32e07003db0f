/** The toast notifications of the page (`showNotification`). The document
    body is modelled as the sequence of its top-level children; a toast is
    one kind of child, every other child is page content the toasts never
    touch. Each toast carries the serial number of the call that made it,
    which stands for the identity of the DOM element: the dismissal that a
    toast schedules for itself removes that element and no other. */
module Notifications {

  /** Background colours by kind. */
  const SuccessColour := "#4CAF50"
  const ErrorColour := "#f44336"
  const InfoColour := "#2196F3"

  datatype Notification = Notification(id: nat, message: string, kind: string, background: string)

  datatype Node = Toast(note: Notification) | Content(name: string)

  /** The toast's background: green for "success", red for "error" and blue
      for any other kind. Every kind gets exactly one of the three. */
  function Background(kind: string): (colour: string)
    ensures colour == SuccessColour <==> kind == "success"
    ensures colour == ErrorColour <==> kind == "error"
    ensures colour == InfoColour <==> kind != "success" && kind != "error"
  {
    if kind == "success" then SuccessColour
    else if kind == "error" then ErrorColour
    else InfoColour
  }

  /** The toasts among `nodes`, in document order. */
  function Toasts(nodes: seq<Node>): seq<Notification>
  {
    if nodes == [] then []
    else (if nodes[0].Toast? then [nodes[0].note] else []) + Toasts(nodes[1..])
  }

  /** The children that are not toasts, in document order. */
  function Others(nodes: seq<Node>): seq<Node>
  {
    if nodes == [] then []
    else (if nodes[0].Toast? then [] else [nodes[0]]) + Others(nodes[1..])
  }

  lemma {:induction false} ToastsAppend(xs: seq<Node>, ys: seq<Node>)
    ensures Toasts(xs + ys) == Toasts(xs) + Toasts(ys)
  {
    if xs != [] {
      assert (xs + ys)[1..] == xs[1..] + ys;
      ToastsAppend(xs[1..], ys);
    } else {
      assert xs + ys == ys;
    }
  }

  lemma {:induction false} OthersAppend(xs: seq<Node>, ys: seq<Node>)
    ensures Others(xs + ys) == Others(xs) + Others(ys)
  {
    if xs != [] {
      assert (xs + ys)[1..] == xs[1..] + ys;
      OthersAppend(xs[1..], ys);
    } else {
      assert xs + ys == ys;
    }
  }

  /** `document.querySelector('.notification')?.remove()`: the first toast in
      document order, if any, is taken out; nothing else moves. */
  function WithoutFirstToast(nodes: seq<Node>): (r: seq<Node>)
    ensures Toasts(r) == if Toasts(nodes) == [] then [] else Toasts(nodes)[1..]
    ensures Others(r) == Others(nodes)
  {
    if nodes == [] then []
    else if nodes[0].Toast? then nodes[1..]
    else
      var rest := WithoutFirstToast(nodes[1..]);
      assert ([nodes[0]] + rest)[1..] == rest;
      [nodes[0]] + rest
  }

  /** `notification.remove()` on the toast with serial number `id`: that toast
      leaves the document if it is still there; a toast already removed
      leaves the children as they are. */
  function WithoutToast(nodes: seq<Node>, id: nat): (r: seq<Node>)
    ensures Others(r) == Others(nodes)
    ensures forall n :: n in Toasts(r) <==> n in Toasts(nodes) && n.id != id
    ensures |Toasts(r)| <= |Toasts(nodes)|
    ensures |Toasts(nodes)| == 1 && Toasts(nodes)[0].id == id ==> Toasts(r) == []
    ensures (forall n :: n in Toasts(nodes) ==> n.id != id) ==> r == nodes
  {
    if nodes == [] then []
    else
      var rest := WithoutToast(nodes[1..], id);
      if nodes[0].Toast? && nodes[0].note.id == id then rest
      else
        assert ([nodes[0]] + rest)[1..] == rest;
        [nodes[0]] + rest
  }

  /** Showing a toast on a page with at most one toast leaves exactly one, the
      new one, whatever was there before. */
  lemma ShowLeavesOnlyNew(nodes: seq<Node>, n: Notification)
    requires |Toasts(nodes)| <= 1
    ensures Toasts(WithoutFirstToast(nodes) + [Toast(n)]) == [n]
    ensures Others(WithoutFirstToast(nodes) + [Toast(n)]) == Others(nodes)
  {
    ToastsAppend(WithoutFirstToast(nodes), [Toast(n)]);
    OthersAppend(WithoutFirstToast(nodes), [Toast(n)]);
  }

  /** The document body, as far as the toasts are concerned. */
  class Body {
    var children: seq<Node>
    /** The serial number the next toast gets. */
    var nextId: nat

    /** At most one toast is on the page, and it was made by an earlier call. */
    ghost predicate Valid()
      reads this
    {
      && |Toasts(children)| <= 1
      && forall n :: n in Toasts(children) ==> n.id < nextId
    }

    /** The page as served: its content and no toast. */
    constructor(content: seq<Node>)
      requires Toasts(content) == []
      ensures Valid()
      ensures children == content && nextId == 0
    {
      children := content;
      nextId := 0;
    }

    /** `showNotification(message, kind)`: the previous toast, if any, is
        removed and a new one with the colour of `kind` is appended to the
        body. Afterwards it is the only toast, and the page content is as
        it was. */
    method Show(message: string, kind: string) returns (shown: Notification)
      requires Valid()
      modifies this
      ensures Valid()
      ensures shown == Notification(old(nextId), message, kind, Background(kind))
      ensures children == WithoutFirstToast(old(children)) + [Toast(shown)]
      ensures Toasts(children) == [shown]
      ensures Others(children) == Others(old(children))
      ensures nextId == old(nextId) + 1
    {
      shown := Notification(nextId, message, kind, Background(kind));
      ShowLeavesOnlyNew(children, shown);
      children := WithoutFirstToast(children) + [Toast(shown)];
      nextId := nextId + 1;
    }

    /** The `hide` path of toast `id` (the five-second timer or the close
        button), collapsed into its final effect: that toast is removed. A
        toast that a later one already evicted is gone, so the current toast
        stays. */
    method Dismiss(id: nat)
      requires Valid()
      modifies this
      ensures Valid()
      ensures children == WithoutToast(old(children), id)
      ensures Toasts(children) ==
                if old(Toasts(children)) != [] && old(Toasts(children))[0].id == id then []
                else old(Toasts(children))
      ensures Others(children) == Others(old(children))
      ensures nextId == old(nextId)
    {
      var before := Toasts(children);
      children := WithoutToast(children, id);
      if before == [] || before[0].id != id {
        assert forall n :: n in before ==> n.id != id;
      }
    }
  }
}
