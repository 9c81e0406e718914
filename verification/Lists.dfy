/** The circular doubly linked lists of src/lib/datastructures/linkedlist.h. */
module Lists {
  import opened Sequences

  /** struct list_head; null stands for the poison that list_del leaves behind. */
  class ListHead {
    var next: ListHead?
    var prev: ListHead?

    constructor ()
      ensures Ring([this])
    {
      next := this;
      prev := this;
    }
  }

  function Next(i: nat, n: nat): nat {
    if i + 1 < n then i + 1 else 0
  }

  function Prev(i: nat, n: nat): nat
    requires i < n
  {
    if i == 0 then n - 1 else i - 1
  }

  /** Going round along next passes exactly the heads of r, in order, and prev goes back.
      A list is the ring that starts at its head. */
  ghost predicate Ring(r: seq<ListHead>)
    reads r
  {
    && r != [] && NoDup(r)
    && (forall i: nat {:trigger r[i].next} | i < |r| :: r[i].next == r[Next(i, |r|)])
    && (forall i: nat {:trigger r[i].prev} | i < |r| :: r[i].prev == r[Prev(i, |r|)])
  }

  /** The links inside a list, away from its head. */
  lemma Inside(head: ListHead, l: seq<ListHead>)
    requires Ring([head] + l)
    ensures head.next == (if l == [] then head else l[0]) && head.prev == (if l == [] then head else l[|l| - 1])
    ensures forall i: nat {:trigger l[i].next} | i + 1 < |l| :: l[i].next == l[i + 1]
    ensures forall i: nat {:trigger l[i].prev} | 0 < i < |l| :: l[i].prev == l[i - 1]
    ensures l != [] ==> l[|l| - 1].next == head && l[0].prev == head
  {
    var r := [head] + l;
    assert r[0] == head;
    forall i: nat | i < |l|
      ensures l[i].next == (if i + 1 < |l| then l[i + 1] else head) && l[i].prev == (if i == 0 then head else l[i - 1])
    {
      assert l[i] == r[i + 1];
    }
  }

  /** Two runs of entries, bent into one ring behind head. */
  lemma Spliced(head: ListHead, l: seq<ListHead>, h: seq<ListHead>)
    requires l != [] && NoDup([head] + l + h)
    requires head.next == l[0] && l[0].prev == head
    requires forall i: nat {:trigger l[i].next} | i + 1 < |l| :: l[i].next == l[i + 1]
    requires forall i: nat {:trigger l[i].prev} | 0 < i < |l| :: l[i].prev == l[i - 1]
    requires forall i: nat {:trigger h[i].next} | i + 1 < |h| :: h[i].next == h[i + 1]
    requires forall i: nat {:trigger h[i].prev} | 0 < i < |h| :: h[i].prev == h[i - 1]
    requires var after := if h == [] then head else h[0];
      l[|l| - 1].next == after && after.prev == l[|l| - 1]
    requires h != [] ==> h[|h| - 1].next == head && head.prev == h[|h| - 1]
    ensures Ring([head] + l + h)
  {
    var q := [head] + l + h;
    hide NoDup;
    forall i: nat | i < |q|
      ensures q[i].next == q[Next(i, |q|)] && q[i].prev == q[Prev(i, |q|)]
    {
      assert q[i] == if i == 0 then head else if i <= |l| then l[i - 1] else h[i - 1 - |l|];
    }
  }

  // ----- __list_add, list_add, list_add_tail -----

  method ListAddBetween(entry: ListHead, prev: ListHead, next: ListHead)
    requires entry != prev && entry != next
    modifies entry`next, entry`prev, prev`next, next`prev
    ensures entry.next == next && entry.prev == prev && prev.next == entry && next.prev == entry
  {
    next.prev := entry;
    entry.next := next;
    entry.prev := prev;
    prev.next := entry;
  }

  method ListAdd(entry: ListHead, head: ListHead, ghost l: seq<ListHead>)
    requires Ring([head] + l) && entry !in [head] + l
    modifies entry, head, l
    ensures Ring([head, entry] + l)
  {
    Inside(head, l);
    NoDupCons(entry, l);
    NoDupCons(head, l);
    NoDupCons(head, [entry] + l);
    assert [head] + ([entry] + l) == [head] + [entry] + l == [head, entry] + l;
    assert forall i | 0 <= i < |l| :: l[i] != entry && l[i] != head;
    ListAddBetween(entry, head, head.next);
    hide NoDup;
    Spliced(head, [entry], l);
  }

  method ListAddTail(entry: ListHead, head: ListHead, ghost l: seq<ListHead>)
    requires Ring([head] + l) && entry !in [head] + l
    modifies entry, head, l
    ensures Ring([head] + l + [entry])
  {
    ghost var r := [head] + l;
    assert r[0] == head;
    assert head.prev == r[Prev(0, |r|)];
    ListAddBetween(entry, head.prev, head);
    ghost var q := r + [entry];
    assert forall i: nat | i < |r| :: q[i] == r[i];
  }

  // ----- __list_del, list_del, list_del_init -----

  method ListDelBetween(prev: ListHead, next: ListHead)
    modifies prev`next, next`prev
    ensures next.prev == prev && prev.next == next
  {
    next.prev := prev;
    prev.next := next;
  }

  /** A ring whose place k is bridged is a ring without it. */
  lemma Bridged(r: seq<ListHead>, k: nat)
    requires NoDup(r) && k < |r| && 1 < |r|
    requires forall i: nat {:trigger r[i].next} | i < |r| && i != k && i != Prev(k, |r|) :: r[i].next == r[Next(i, |r|)]
    requires forall i: nat {:trigger r[i].prev} | i < |r| && i != k && i != Next(k, |r|) :: r[i].prev == r[Prev(i, |r|)]
    requires r[Prev(k, |r|)].next == r[Next(k, |r|)] && r[Next(k, |r|)].prev == r[Prev(k, |r|)]
    ensures Ring(Without(r, k))
  {
    var q, n := Without(r, k), |r|;
    WithoutIsWithout(r, k);
    hide NoDup, Without;
    forall i: nat | i < |q|
      ensures q[i].next == q[Next(i, |q|)] && q[i].prev == q[Prev(i, |q|)]
    {
      var a := if i < k then i else i + 1;
      assert q[i] == r[a];
      assert q[Next(i, |q|)] == r[if a == Prev(k, n) then Next(k, n) else Next(a, n)];
      assert q[Prev(i, |q|)] == r[if a == Next(k, n) then Prev(k, n) else Prev(a, n)];
    }
  }

  /** What __list_del(entry->prev, entry->next) makes of a ring: entry itself is untouched. */
  method Unlink(entry: ListHead, ghost r: seq<ListHead>, ghost k: nat)
    requires Ring(r) && k < |r| && r[k] == entry
    modifies r
    ensures 1 < |r| ==> Ring(Without(r, k)) && entry.next == old(entry.next) && entry.prev == old(entry.prev)
    ensures |r| == 1 ==> Ring(r)
  {
    assert entry.next == r[Next(k, |r|)] && entry.prev == r[Prev(k, |r|)];
    ListDelBetween(entry.prev, entry.next);
    if 1 < |r| {
      Bridged(r, k);
    }
  }

  method ListDel(entry: ListHead, ghost r: seq<ListHead>, ghost k: nat)
    requires Ring(r) && k < |r| && r[k] == entry
    modifies r
    ensures entry.next == null && entry.prev == null
    ensures 1 < |r| ==> Ring(Without(r, k))
  {
    WithoutIsWithout(r, k);
    Unlink(entry, r, k);
    entry.next := null;
    entry.prev := null;
  }

  method ListDelInit(entry: ListHead, ghost r: seq<ListHead>, ghost k: nat)
    requires Ring(r) && k < |r| && r[k] == entry
    modifies r
    ensures Ring([entry])
    ensures 1 < |r| ==> Ring(Without(r, k))
  {
    WithoutIsWithout(r, k);
    Unlink(entry, r, k);
    entry.next := entry;
    entry.prev := entry;
  }

  // ----- list_move, list_move_tail -----

  /** What is left of the list that starts at head once place k of another list, or of the
      same one, has gone. */
  ghost function Rest<T>(from: seq<T>, k: nat, to: seq<T>): seq<T>
    requires k < |from|
  {
    if from == to then Without(from, k) else to
  }

  /** list_move: entry goes from its place to just after head.  from is the ring that entry is
      in, which may be the ring of head, another one, or entry alone. */
  method ListMove(entry: ListHead, head: ListHead, ghost from: seq<ListHead>, ghost k: nat, ghost to: seq<ListHead>)
    requires Ring(from) && k < |from| && from[k] == entry
    requires Ring(to) && to[0] == head && entry != head
    requires from == to || Disjoint(from, to)
    modifies from, to
    ensures var rest := Rest(from, k, to); Ring([head, entry] + rest[1..])
    ensures from != to && 1 < |from| ==> Ring(Without(from, k))
  {
    ghost var rest := Detach(entry, head, from, k, to);
    ListAdd(entry, head, rest[1..]);
  }

  /** list_move_tail: entry goes to the end of the list of head. */
  method ListMoveTail(entry: ListHead, head: ListHead, ghost from: seq<ListHead>, ghost k: nat, ghost to: seq<ListHead>)
    requires Ring(from) && k < |from| && from[k] == entry
    requires Ring(to) && to[0] == head && entry != head
    requires from == to || Disjoint(from, to)
    modifies from, to
    ensures Ring(Rest(from, k, to) + [entry])
    ensures from != to && 1 < |from| ==> Ring(Without(from, k))
  {
    ghost var rest := Detach(entry, head, from, k, to);
    ListAddTail(entry, head, rest[1..]);
  }

  /** The __list_del that both begin with. */
  method Detach(entry: ListHead, head: ListHead, ghost from: seq<ListHead>, ghost k: nat, ghost to: seq<ListHead>)
    returns (ghost rest: seq<ListHead>)
    requires Ring(from) && k < |from| && from[k] == entry
    requires Ring(to) && to[0] == head && entry != head
    requires from == to || Disjoint(from, to)
    modifies from
    ensures rest == Rest(from, k, to) && rest != [] && rest == [head] + rest[1..]
    ensures Ring(rest) && entry !in rest && forall x | x in rest :: x in to
    ensures from != to && 1 < |from| ==>
      && Ring(Without(from, k)) && Disjoint(Without(from, k), rest)
      && forall i | 0 <= i < |from| - 1 :: Without(from, k)[i] != entry
  {
    WithoutIsWithout(from, k);
    rest := Rest(from, k, to);
    if from != to {
      assert forall i | 0 <= i < |to| :: to[i] != entry;
    }
    Unlink(entry, from, k);
  }

  // ----- list_empty, list_splice, list_splice_init -----

  method ListEmpty(head: ListHead, ghost l: seq<ListHead>) returns (empty: bool)
    requires Ring([head] + l)
    ensures empty <==> l == []
  {
    empty := head.next == head;
    ghost var r := [head] + l;
    assert r[0] == head && head.next == r[Next(0, |r|)];
  }

  lemma Apart(list: ListHead, l: seq<ListHead>, head: ListHead, h: seq<ListHead>)
    requires NoDup([list] + l) && NoDup([head] + h) && Disjoint([list] + l, [head] + h)
    ensures NoDup([head] + l + h) && list !in [head] + l + h
    ensures head !in l && head !in h && forall x | x in l :: x !in h
  {
    var r, s := [list] + l, [head] + h;
    NoDupCons(list, l);
    NoDupCons(head, h);
    DisjointIn(r, s);
    assert list in r && head in s && forall x | x in l :: x in r;
    assert forall x | x in h :: x in s;
    NoDupCons(head, l);
    hide NoDup;
    DisjointIn([head] + l, h);
    NoDupConcat([head] + l, h);
  }

  /** __list_splice: the entries of list go between head and what follows it.  list itself is
      left as it was. */
  method SpliceNonempty(list: ListHead, head: ListHead, ghost l: seq<ListHead>, ghost h: seq<ListHead>)
    requires Ring([list] + l) && Ring([head] + h) && Disjoint([list] + l, [head] + h) && l != []
    modifies l, head, h
    ensures Ring([head] + l + h)
    ensures list.next == old(list.next) && list.prev == old(list.prev)
  {
    Inside(list, l);
    Inside(head, h);
    Apart(list, l, head, h);
    var first := list.next;
    var last := list.prev;
    var at := head.next;
    assert ([head] + h)[0] == head;
    first.prev := head;
    head.next := first;
    last.next := at;
    at.prev := last;
    Spliced(head, l, h);
  }

  method ListSplice(list: ListHead, head: ListHead, ghost l: seq<ListHead>, ghost h: seq<ListHead>)
    requires Ring([list] + l) && Ring([head] + h) && Disjoint([list] + l, [head] + h)
    modifies l, head, h
    ensures Ring([head] + l + h)
    ensures list.next == old(list.next) && list.prev == old(list.prev)
  {
    var empty := ListEmpty(list, l);
    if !empty {
      SpliceNonempty(list, head, l, h);
    } else {
      assert [head] + l + h == [head] + h;
    }
  }

  /** list_splice_init: (l, h) becomes (nothing, l followed by h). */
  method ListSpliceInit(list: ListHead, head: ListHead, ghost l: seq<ListHead>, ghost h: seq<ListHead>)
    requires Ring([list] + l) && Ring([head] + h) && Disjoint([list] + l, [head] + h)
    modifies list, l, head, h
    ensures Ring([list])
    ensures Ring([head] + l + h)
  {
    var empty := ListEmpty(list, l);
    if !empty {
      Apart(list, l, head, h);
      SpliceNonempty(list, head, l, h);
      list.next := list;
      list.prev := list;
    } else {
      assert [list] + l == [list] && [head] + l + h == [head] + h;
    }
  }

  // ----- list_for_each_safe -----

  function Kept(l: seq<ListHead>, chosen: set<ListHead>): (r: seq<ListHead>)
    ensures forall x | x in r :: x in l && x !in chosen
    ensures forall x | x in l && x !in chosen :: x in r
  {
    if l == [] then []
    else
      var rest := Kept(l[..|l| - 1], chosen);
      if l[|l| - 1] in chosen then rest else rest + [l[|l| - 1]]
  }

  /** The ring on which the loop works when it comes to place i. */
  function Working(head: ListHead, l: seq<ListHead>, i: nat, chosen: set<ListHead>): seq<ListHead>
    requires i <= |l|
  {
    [head] + Kept(l[..i], chosen) + l[i..]
  }

  lemma WorkingStep(head: ListHead, l: seq<ListHead>, i: nat, chosen: set<ListHead>)
    requires i < |l|
    ensures var r := Working(head, l, i, chosen); var k := 1 + |Kept(l[..i], chosen)|;
      && k < |r| && r[k] == l[i] && 1 < |r|
      && r[Next(k, |r|)] == (if i + 1 < |l| then l[i + 1] else head)
      && Working(head, l, i + 1, chosen) == if l[i] in chosen then Without(r, k) else r
  {
    hide Kept, Without;
    KeptStep(l, i, chosen);
    var done := [head] + Kept(l[..i], chosen);
    WithoutJoin(done, l[i..]);
    assert l[i..][1..] == l[i + 1..];
    assert done + [l[i]] + l[i + 1..] == done + l[i..];
    assert [head] + (Kept(l[..i], chosen) + [l[i]]) == done + [l[i]];
  }

  lemma KeptStep(l: seq<ListHead>, i: nat, chosen: set<ListHead>)
    requires i < |l|
    ensures Kept(l[..i + 1], chosen) ==
      if l[i] in chosen then Kept(l[..i], chosen) else Kept(l[..i], chosen) + [l[i]]
  {
    assert l[..i + 1][..i] == l[..i];
  }

  lemma WorkingLeaves(head: ListHead, l: seq<ListHead>, i: nat, chosen: set<ListHead>)
    requires NoDup([head] + l) && i < |l|
    ensures l[i] !in l[..i] && l[i] != head
    ensures forall x | x in l[..i] && x in chosen :: x !in Working(head, l, i, chosen)
  {
    NoDupCons(head, l);
    assert forall x | x in l[..i] :: x in l && x !in l[i..];
  }

  lemma WorkingEnds(head: ListHead, l: seq<ListHead>, chosen: set<ListHead>)
    ensures Working(head, l, 0, chosen) == [head] + l
    ensures Working(head, l, |l|, chosen) == [head] + Kept(l, chosen)
  {
    assert l[..|l|] == l;
  }

  /** The body of the loop. */
  method DeleteIfChosen(pos: ListHead, ghost head: ListHead, ghost l: seq<ListHead>, ghost i: nat,
                         chosen: set<ListHead>)
    requires NoDup([head] + l) && i < |l| && pos == l[i]
    requires Ring(Working(head, l, i, chosen))
    requires forall j | 0 <= j < i && l[j] in chosen :: Ring([l[j]])
    modifies head, l
    ensures Ring(Working(head, l, i + 1, chosen))
    ensures forall j | 0 <= j <= i && l[j] in chosen :: Ring([l[j]])
  {
    ghost var r := Working(head, l, i, chosen);
    WorkingStep(head, l, i, chosen);
    WorkingLeaves(head, l, i, chosen);
    WorkingWithin(head, l, i, chosen);
    if pos in chosen {
      ghost var k := 1 + |Kept(l[..i], chosen)|;
      forall j | 0 <= j < i && l[j] in chosen
        ensures l[j] !in r
      {
        assert l[j] in l[..i];
      }
      hide Working, Kept;
      ListDelInit(pos, r, k);
    }
  }

  /** A list_for_each_safe loop whose body deletes the chosen entries with list_del_init. */
  method DeleteChosen(head: ListHead, ghost l: seq<ListHead>, chosen: set<ListHead>) returns (visited: seq<ListHead>)
    requires Ring([head] + l)
    modifies head, l
    ensures visited == l
    ensures Ring([head] + Kept(l, chosen))
    ensures forall j | 0 <= j < |l| && l[j] in chosen :: Ring([l[j]])
  {
    hide Kept, Working, NoDup, Ring;
    ghost var i := 0;
    visited := [];
    WorkingEnds(head, l, chosen);
    NotInList(head, l);
    var pos := head.next;
    var n := pos.next;
    while pos != head
      invariant 0 <= i <= |l|
      invariant visited == l[..i]
      invariant pos == (if i < |l| then l[i] else head) && n == pos.next
      invariant Ring(Working(head, l, i, chosen))
      invariant forall j | 0 <= j < i && l[j] in chosen :: Ring([l[j]])
      decreases |l| - i
    {
      assert visited + [pos] == l[..i + 1];
      visited := visited + [pos];
      NextInRing(head, l, i, chosen);
      DeleteIfChosen(pos, head, l, i, chosen);
      i := i + 1;
      pos := n;
      n := pos.next;
    }
    assert l[..i] == l;
  }

  lemma NotInList(head: ListHead, l: seq<ListHead>)
    requires Ring([head] + l)
    ensures NoDup([head] + l) && forall j | 0 <= j < |l| :: l[j] != head
    ensures head.next == if l == [] then head else l[0]
  {
    Inside(head, l);
    NoDupCons(head, l);
  }

  /** The pointer that the loop saves before its body runs. */
  lemma NextInRing(head: ListHead, l: seq<ListHead>, i: nat, chosen: set<ListHead>)
    requires i < |l| && Ring(Working(head, l, i, chosen))
    ensures l[i].next == if i + 1 < |l| then l[i + 1] else head
  {
    WorkingStep(head, l, i, chosen);
    hide Working, Kept, NoDup;
  }

  lemma WorkingWithin(head: ListHead, l: seq<ListHead>, i: nat, chosen: set<ListHead>)
    requires i <= |l|
    ensures var r := Working(head, l, i, chosen);
      forall j | 0 <= j < |r| :: r[j] == head || r[j] in l
  {
    var r := Working(head, l, i, chosen);
    assert forall j | 0 <= j < |r| :: r[j] in r;
  }

  // ----- what a ring determines -----

  /** The same place in two rings that start at the same head is the same entry, and is
      followed by the same entry. */
  lemma {:induction false} SamePlace(r: seq<ListHead>, r': seq<ListHead>, k: nat)
    requires Ring(r) && Ring(r') && r[0] == r'[0] && k < |r| && k < |r'|
    ensures r[k] == r'[k] && r[Next(k, |r|)] == r'[Next(k, |r'|)]
  {
    hide NoDup;
    if k > 0 {
      SamePlace(r, r', k - 1);
    }
    assert r[k].next == r[Next(k, |r|)] && r'[k].next == r'[Next(k, |r'|)];
  }

  /** The pointers determine the list: a head starts one ring only. */
  lemma RingIsUnique(r: seq<ListHead>, r': seq<ListHead>)
    requires Ring(r) && Ring(r') && r[0] == r'[0]
    ensures r == r'
  {
    SamePlace(r, r', (if |r| < |r'| then |r| else |r'|) - 1);
    assert |r| == |r'|;
    forall k: nat | k < |r|
      ensures r[k] == r'[k]
    {
      SamePlace(r, r', k);
    }
  }

  /** The head, then the entries last to first. */
  ghost function Backwards(r: seq<ListHead>): (b: seq<ListHead>)
    requires r != []
    ensures |b| == |r|
  {
    seq(|r|, i requires 0 <= i < |r| => if i == 0 then r[0] else r[|r| - i])
  }

  /** Going round along prev passes the same entries in the opposite order. */
  lemma RingBackwards(r: seq<ListHead>)
    requires Ring(r)
    ensures var b := Backwards(r);
      forall i: nat | i < |b| :: b[i].prev == b[Next(i, |b|)] && b[i].next == b[Prev(i, |b|)]
  {
    var b := Backwards(r);
    forall i: nat | i < |b|
      ensures b[i].prev == b[Next(i, |b|)] && b[i].next == b[Prev(i, |b|)]
    {
      var j := if i == 0 then 0 else |r| - i;
      assert b[i] == r[j];
      assert b[Next(i, |b|)] == r[Prev(j, |r|)] && b[Prev(i, |b|)] == r[Next(j, |r|)];
    }
  }
}
