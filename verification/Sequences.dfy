/** Sequences without repetition, and how many elements they have. */
module Sequences {
  ghost predicate NoDup<T>(s: seq<T>) {
    forall i, j | 0 <= i < j < |s| :: s[i] != s[j]
  }

  ghost predicate Disjoint<T>(s: seq<T>, t: seq<T>) {
    forall i, j | 0 <= i < |s| && 0 <= j < |t| :: s[i] != t[j]
  }

  lemma DisjointIn<T>(s: seq<T>, t: seq<T>)
    ensures Disjoint(s, t) <==> forall x | x in s :: x !in t
  {
    if forall x | x in s :: x !in t {
      assert forall i | 0 <= i < |s| :: s[i] in s;
      assert forall j | 0 <= j < |t| :: t[j] in t;
    }
  }

  lemma NoDupCons<T>(x: T, s: seq<T>)
    ensures NoDup([x] + s) <==> NoDup(s) && x !in s
  {
    var t := [x] + s;
    assert t[0] == x && t[1..] == s;
    assert forall i | 0 <= i < |s| :: t[i + 1] == s[i];
  }

  lemma NoDupConcat<T>(s: seq<T>, t: seq<T>)
    requires NoDup(s) && NoDup(t) && Disjoint(s, t)
    ensures NoDup(s + t)
  {
    forall i, j | 0 <= i < j < |s + t|
      ensures (s + t)[i] != (s + t)[j]
    {
    }
  }

  function Without<T>(s: seq<T>, k: nat): seq<T>
    requires k < |s|
  {
    s[..k] + s[k + 1..]
  }

  lemma WithoutJoin<T>(s: seq<T>, t: seq<T>)
    requires t != []
    ensures Without(s + t, |s|) == s + t[1..]
  {
    assert (s + t)[..|s|] == s && (s + t)[|s| + 1..] == t[1..];
  }

  lemma WithoutIsWithout<T>(s: seq<T>, k: nat)
    requires NoDup(s) && k < |s|
    ensures |Without(s, k)| == |s| - 1 && NoDup(Without(s, k))
    ensures forall i {:trigger Without(s, k)[i]} | 0 <= i < |s| - 1 ::
      Without(s, k)[i] == (if i < k then s[i] else s[i + 1]) && Without(s, k)[i] != s[k]
    ensures forall x :: x in Without(s, k) <==> x in s && x != s[k]
  {
    var q := Without(s, k);
    forall x | x in s && x != s[k]
      ensures x in q
    {
      var i :| 0 <= i < |s| && s[i] == x;
      assert q[if i < k then i else i - 1] == x;
    }
  }

  function Insert<T>(l: seq<T>, k: nat, n: T): seq<T>
    requires k <= |l|
  {
    l[..k] + [n] + l[k..]
  }

  lemma InsertNoDup<T>(l: seq<T>, k: nat, n: T)
    requires k <= |l| && NoDup(l) && n !in l
    ensures NoDup(Insert(l, k, n))
  {
    var q := Insert(l, k, n);
    assert forall i | 0 <= i < |q| :: q[i] == if i < k then l[i] else if i == k then n else l[i - 1];
  }

  lemma InitNoDup(list: seq<nat>)
    requires NoDup(list) && list != []
    ensures NoDup(list[..|list| - 1]) && list[|list| - 1] !in list[..|list| - 1]
  {
  }

  // ----- counting -----

  function Below(n: nat): (s: set<nat>)
    ensures |s| == n && forall p :: p in s <==> 0 <= p < n
  {
    if n == 0 then {} else Below(n - 1) + {n - 1}
  }

  function Elements(q: seq<nat>): (s: set<nat>)
    ensures forall p :: p in s <==> p in q
  {
    set p | p in q
  }

  lemma {:induction false} SizeOfElements(q: seq<nat>)
    requires NoDup(q)
    ensures |Elements(q)| == |q|
  {
    if q != [] {
      var n := |q| - 1;
      SizeOfElements(q[..n]);
      assert q == q[..n] + [q[n]];
      assert Elements(q) == Elements(q[..n]) + {q[n]};
    }
  }

  lemma CountSplit(n: nat, a: set<nat>, b: set<nat>)
    requires 1 <= n && a !! b
    requires forall p: nat :: (p in a || p in b) <==> 0 < p < n
    ensures n - 1 == |a| + |b|
  {
    hide Below;
    assert Below(n) - {0} == a + b;
  }

  lemma ThreeWays(n: nat, a: set<nat>, b: set<nat>, c: set<nat>)
    requires a !! b && a !! c && b !! c
    requires forall f: nat :: f < n <==> f in a || f in b || f in c
    ensures |a| + |b| + |c| == n
  {
    hide Below;
    assert Below(n) == a + b + c;
  }
}
