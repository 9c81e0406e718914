/** The doubly linked lists with a one-pointer head of src/lib/datastructures/linkedlist.h,
    in which each node points back at the pointer that points at it. */
module HashLists {
  import opened Sequences

  /** A place that holds a node pointer: the first field of a head or the next field of a
      node.  Null is the NULL of an unhashed node, Poison what hlist_del leaves. */
  datatype Slot = Null | Poison | FirstOf(head: HlistHead) | NextOf(node: HlistNode)

  class HlistHead {
    var first: HlistNode?

    constructor ()
      ensures Hlist(this, [])
    {
      first := null;
    }
  }

  class HlistNode {
    var next: HlistNode?
    var pprev: Slot

    constructor ()
      ensures next == null && pprev == Null && HlistUnhashed(this)
    {
      next := null;
      pprev := Null;
    }
  }

  function NodeAt(l: seq<HlistNode>, i: nat): HlistNode? {
    if i < |l| then l[i] else null
  }

  /** The place that holds the node at i. */
  function SlotAt(h: HlistHead, l: seq<HlistNode>, i: nat): Slot
    requires i <= |l|
  {
    if i == 0 then FirstOf(h) else NextOf(l[i - 1])
  }

  /** h is the head of the list l: each node is held by the place that its pprev names. */
  ghost predicate Hlist(h: HlistHead, l: seq<HlistNode>)
    reads h, l
  {
    && NoDup(l)
    && h.first == NodeAt(l, 0)
    && (forall i: nat {:trigger l[i].next} | i < |l| :: l[i].next == NodeAt(l, i + 1))
    && (forall i: nat {:trigger l[i].pprev} | i < |l| :: l[i].pprev == SlotAt(h, l, i))
  }

  /** *pprev = v */
  method WriteSlot(slot: Slot, v: HlistNode?)
    requires slot.FirstOf? || slot.NextOf?
    modifies if slot.FirstOf? then {slot.head as object} else if slot.NextOf? then {slot.node as object} else {}
    ensures slot.FirstOf? ==> slot.head.first == v
    ensures slot.NextOf? ==> slot.node.next == v && slot.node.pprev == old(slot.node.pprev)
  {
    match slot {
      case FirstOf(head) => head.first := v;
      case NextOf(node) => node.next := v;
      case _ =>
    }
  }

  /** Pointers bent past place k make the list without it. */
  lemma Bypassed(h: HlistHead, l: seq<HlistNode>, k: nat)
    requires NoDup(l) && k < |l|
    requires h.first == NodeAt(l, if k == 0 then 1 else 0)
    requires forall i: nat {:trigger l[i].next} | i < |l| && i != k ::
      l[i].next == NodeAt(l, if i + 1 == k then k + 1 else i + 1)
    requires forall i: nat {:trigger l[i].pprev} | i < |l| && i != k ::
      l[i].pprev == SlotAt(h, l, if i == k + 1 then k else i)
    ensures Hlist(h, Without(l, k))
  {
    var q := Without(l, k);
    WithoutIsWithout(l, k);
    hide NoDup, Without;
    forall i: nat | i < |q|
      ensures q[i].next == NodeAt(q, i + 1) && q[i].pprev == SlotAt(h, q, i)
    {
      assert q[i] == l[if i < k then i else i + 1];
    }
  }

  /** __hlist_del: the list without place k; n itself is left as it was. */
  method Unhash(n: HlistNode, ghost h: HlistHead, ghost l: seq<HlistNode>, ghost k: nat)
    requires Hlist(h, l) && k < |l| && l[k] == n
    modifies h, l
    ensures Hlist(h, Without(l, k))
    ensures n.next == old(n.next) && n.pprev == old(n.pprev)
  {
    var next := n.next;
    var pprev := n.pprev;
    WriteSlot(pprev, next);
    if next != null {
      next.pprev := pprev;
    }
    Bypassed(h, l, k);
  }

  method HlistDelInit(n: HlistNode, ghost h: HlistHead, ghost l: seq<HlistNode>, ghost k: nat)
    requires n.pprev != Null ==> Hlist(h, l) && k < |l| && l[k] == n
    modifies n, if n.pprev != Null then {h as object} + set x | x in l else {}
    ensures n.pprev == Null && HlistUnhashed(n)
    ensures old(n.pprev) != Null ==> Hlist(h, Without(l, k)) && n.next == null
    ensures old(n.pprev) == Null ==> n.next == old(n.next)
  {
    if n.pprev != Null {
      WithoutIsWithout(l, k);
      Unhash(n, h, l, k);
      n.next := null;
      n.pprev := Null;
    }
  }

  /** hlist_del: n is left poisoned. */
  method HlistDel(n: HlistNode, ghost h: HlistHead, ghost l: seq<HlistNode>, ghost k: nat)
    requires Hlist(h, l) && k < |l| && l[k] == n
    modifies h, l
    ensures Hlist(h, Without(l, k))
    ensures n.next == null && n.pprev == Poison && !HlistUnhashed(n)
  {
    WithoutIsWithout(l, k);
    Unhash(n, h, l, k);
    n.next := null;
    n.pprev := Poison;
  }

  // ----- hlist_add_head, hlist_add_before, hlist_add_after -----

  /** Pointers bent to pass through n at place k make n the entry at place k. */
  lemma Inserted(h: HlistHead, l: seq<HlistNode>, k: nat, n: HlistNode)
    requires k <= |l| && NoDup(l) && n !in l
    requires h.first == (if k == 0 then n else NodeAt(l, 0))
    requires n.next == NodeAt(l, k) && n.pprev == SlotAt(h, l, k)
    requires forall i: nat {:trigger l[i].next} | i < |l| :: l[i].next == if i + 1 == k then n else NodeAt(l, i + 1)
    requires forall i: nat {:trigger l[i].pprev} | i < |l| ::
      l[i].pprev == if i == k then NextOf(n) else SlotAt(h, l, i)
    ensures Hlist(h, Insert(l, k, n))
  {
    var q := Insert(l, k, n);
    InsertNoDup(l, k, n);
    hide NoDup;
    forall i: nat | i < |q|
      ensures q[i].next == NodeAt(q, i + 1) && q[i].pprev == SlotAt(h, q, i)
    {
      assert q[i] == if i < k then l[i] else if i == k then n else l[i - 1];
    }
  }

  method HlistAddHead(n: HlistNode, h: HlistHead, ghost l: seq<HlistNode>)
    requires Hlist(h, l) && n !in l
    modifies n, h, l
    ensures Hlist(h, Insert(l, 0, n))
  {
    assert forall i: nat | i < |l| :: l[i] != n;
    var first := h.first;
    n.next := first;
    if first != null {
      first.pprev := NextOf(n);
    }
    h.first := n;
    n.pprev := FirstOf(h);
    Inserted(h, l, 0, n);
  }

  /** n goes where next was. */
  method HlistAddBefore(n: HlistNode, next: HlistNode, ghost h: HlistHead, ghost l: seq<HlistNode>, ghost k: nat)
    requires Hlist(h, l) && n !in l && k < |l| && l[k] == next
    modifies n, h, l
    ensures Hlist(h, Insert(l, k, n))
  {
    assert forall i: nat | i < |l| :: l[i] != n;
    n.pprev := next.pprev;
    n.next := next;
    next.pprev := NextOf(n);
    WriteSlot(n.pprev, n);
    Inserted(h, l, k, n);
  }

  /** The second argument is the new node: it goes behind n. */
  method HlistAddAfter(n: HlistNode, next: HlistNode, ghost h: HlistHead, ghost l: seq<HlistNode>, ghost k: nat)
    requires Hlist(h, l) && next !in l && k < |l| && l[k] == n
    modifies next, l
    ensures Hlist(h, Insert(l, k + 1, next))
  {
    assert forall i: nat | i < |l| :: l[i] != next;
    next.next := n.next;
    n.next := next;
    next.pprev := NextOf(n);
    if next.next != null {
      next.next.pprev := NextOf(next);
    }
    Inserted(h, l, k + 1, next);
  }

  // ----- hlist_empty, hlist_unhashed -----

  predicate HlistEmpty(h: HlistHead)
    reads h
  {
    h.first == null
  }

  predicate HlistUnhashed(n: HlistNode)
    reads n
  {
    n.pprev == Null
  }

  lemma HlistFlags(h: HlistHead, l: seq<HlistNode>)
    requires Hlist(h, l)
    ensures HlistEmpty(h) <==> l == []
    ensures forall n | n in l :: !HlistUnhashed(n)
  {
  }

  /** What a place holds. */
  function ReadSlot(slot: Slot): HlistNode?
    reads if slot.FirstOf? then {slot.head as object} else if slot.NextOf? then {slot.node as object} else {}
  {
    match slot
    case FirstOf(head) => head.first
    case NextOf(node) => node.next
    case _ => null
  }

  /** The pprev of every node names the place that holds that node. */
  lemma PprevHoldsNode(h: HlistHead, l: seq<HlistNode>, k: nat)
    requires Hlist(h, l) && k < |l|
    ensures ReadSlot(l[k].pprev) == l[k]
  {
    assert k > 0 ==> l[k - 1].next == NodeAt(l, k);
  }

  lemma {:induction false} SameNode(h: HlistHead, l: seq<HlistNode>, l': seq<HlistNode>, k: nat)
    requires Hlist(h, l) && Hlist(h, l') && k <= |l| && k <= |l'|
    ensures NodeAt(l, k) == NodeAt(l', k)
  {
    if k > 0 {
      hide NoDup;
      SameNode(h, l, l', k - 1);
      assert l[k - 1] == l'[k - 1];
      assert l[k - 1].next == NodeAt(l, k) && l'[k - 1].next == NodeAt(l', k);
    }
  }

  /** The pointers determine the list. */
  lemma HlistIsUnique(h: HlistHead, l: seq<HlistNode>, l': seq<HlistNode>)
    requires Hlist(h, l) && Hlist(h, l')
    ensures l == l'
  {
    SameNode(h, l, l', if |l| < |l'| then |l| else |l'|);
    assert |l| == |l'|;
    forall k: nat | k < |l|
      ensures l[k] == l'[k]
    {
      SameNode(h, l, l', k);
    }
  }
}
