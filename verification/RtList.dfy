/** The kernel's intrusive lists (rtservice.h): a list head and its nodes form one ring of next and
    prev members.  Wait lists and ready lists are such lists; the other modules name their contents
    as sequences, which is what is proved here. */
module RtList {
  import opened Rings

  ghost function Cycle(head: int, s: seq<int>): seq<int> {
    [head] + s + [head]
  }

  ghost predicate SameOutside(a: Links, b: Links, touched: set<int>) {
    forall x | x !in touched && x in a :: x in b && b[x] == a[x]
  }

  ghost function Nodes(head: int, s: seq<int>): set<int> {
    (set x | x in s) + {head}
  }

  /** A list none of whose nodes was touched is still the same list. */
  lemma {:induction false} OtherListKept(next: Links, prev: Links, next': Links, prev': Links,
                                         touched: set<int>, head: int, s: seq<int>)
    requires Ring(next, prev, Cycle(head, s)) && Nodes(head, s) !! touched
    requires SameOutside(next, next', touched) && SameOutside(prev, prev', touched)
    ensures Ring(next', prev', Cycle(head, s))
  {
    var c := Cycle(head, s);
    assert forall x | x in c :: x in Nodes(head, s);
    forall i, j | 0 <= i < j < |c| && j == i + 1 ensures Linked(next', prev', c[i], c[j]) {
      assert Linked(next, prev, c[i], c[j]);
      assert c[i] in c && c[j] in c;
    }
  }

  lemma {:induction false} LinksAt(next: Links, prev: Links, head: int, s: seq<int>, k: nat)
    requires Ring(next, prev, Cycle(head, s)) && k <= |s|
    ensures var a := if k == 0 then head else s[k - 1]; var b := if k < |s| then s[k] else head;
      a in next && next[a] == b && b in prev && prev[b] == a
  {
    var c := Cycle(head, s);
    assert Linked(next, prev, c[k], c[k + 1]);
  }

  lemma {:induction false} Inserted(next: Links, prev: Links, head: int, s: seq<int>, k: nat, n: int)
    requires Ring(next, prev, Cycle(head, s)) && k <= |s| && n != head && n !in s
    ensures var a := if k == 0 then head else s[k - 1];
      a in next && Ring(InsertNext(next, a, n), InsertPrev(next, prev, a, n), Cycle(head, InsertAt(s, k, n)))
  {
    hide Ring, InsertNext, InsertPrev;
    RingInsert(next, prev, Cycle(head, s), k, n);
    assert InsertAt(Cycle(head, s), k + 1, n) == Cycle(head, InsertAt(s, k, n));
  }

  lemma {:induction false} Removed(next: Links, prev: Links, head: int, s: seq<int>, k: nat)
    requires Ring(next, prev, Cycle(head, s)) && k < |s|
    ensures var n := s[k];
      && n in next && n in prev
      && Ring(UnlinkNext(next, prev, n)[n := n], UnlinkPrev(next, prev, n)[n := n], Cycle(head, RemoveAt(s, k)))
  {
    var n := s[k];
    var c, d := Cycle(head, s), Cycle(head, RemoveAt(s, k));
    RingUnlink(next, prev, c, k + 1);
    assert RemoveAt(c, k + 1) == d;
    var n1, p1 := UnlinkNext(next, prev, n), UnlinkPrev(next, prev, n);
    forall i | 0 <= i < |d| ensures d[i] != n {
      var j := if i <= k then i else i + 1;
      assert d[i] == c[j];
      assert j < |c| - 1 ==> c[j] != c[k + 1];
      assert c[0] != c[k + 1];
    }
    hide UnlinkNext, UnlinkPrev, Cycle;
    forall i, j | 0 <= i < j < |d| && j == i + 1 ensures Linked(n1[n := n], p1[n := n], d[i], d[j]) {
      assert Linked(n1, p1, d[i], d[j]);
    }
  }

  class Lists {
    var next: Links
    var prev: Links

    ghost predicate IsList(head: int, s: seq<int>)
      reads this
    {
      Ring(next, prev, Cycle(head, s))
    }

    method Init(l: int)
      modifies this
      ensures IsList(l, [])
      ensures SameOutside(old(next), next, {l}) && SameOutside(old(prev), prev, {l})
    {
      next, prev := next[l := l], prev[l := l];
      assert Linked(next, prev, l, l);
    }

    /** rt_list_insert_after: n follows l, which is the head or an element. */
    method InsertAfter(l: int, n: int, ghost head: int, ghost s: seq<int>, ghost k: nat)
      requires IsList(head, s) && k <= |s| && l == (if k == 0 then head else s[k - 1]) && n != head && n !in s
      modifies this
      ensures IsList(head, InsertAt(s, k, n))
      ensures SameOutside(old(next), next, Nodes(head, s) + {n}) && SameOutside(old(prev), prev, Nodes(head, s) + {n})
    {
      hide Ring, InsertAt;
      Inserted(next, prev, head, s, k, n);
      LinksAt(next, prev, head, s, k);
      var after := next[l];
      prev := prev[after := n];
      next := next[n := after];
      next := next[l := n];
      prev := prev[n := l];
    }

    /** rt_list_insert_before: n precedes l; before the head means at the end of the list. */
    method InsertBefore(l: int, n: int, ghost head: int, ghost s: seq<int>, ghost k: nat)
      requires IsList(head, s) && k <= |s| && l == (if k < |s| then s[k] else head) && n != head && n !in s
      modifies this
      ensures IsList(head, InsertAt(s, k, n))
      ensures SameOutside(old(next), next, Nodes(head, s) + {n}) && SameOutside(old(prev), prev, Nodes(head, s) + {n})
    {
      hide Ring, InsertAt;
      Inserted(next, prev, head, s, k, n);
      LinksAt(next, prev, head, s, k);
      ghost var n0, p0 := next, prev;
      var before := prev[l];
      next := next[before := n];
      prev := prev[n := before];
      prev := prev[l := n];
      next := next[n := l];
      assert next == InsertNext(n0, before, n) && prev == InsertPrev(n0, p0, before, n);
    }

    /** rt_list_remove: n leaves the list and is linked to itself. */
    method Remove(n: int, ghost head: int, ghost s: seq<int>, ghost k: nat)
      requires IsList(head, s) && k < |s| && s[k] == n
      modifies this
      ensures IsList(head, RemoveAt(s, k)) && n in next && next[n] == n && n in prev && prev[n] == n
      ensures SameOutside(old(next), next, Nodes(head, s)) && SameOutside(old(prev), prev, Nodes(head, s))
    {
      hide Ring, RemoveAt;
      Removed(next, prev, head, s, k);
      LinksAt(next, prev, head, s, k);
      LinksAt(next, prev, head, s, k + 1);
      var after, before := next[n], prev[n];
      prev := prev[after := before];
      next := next[before := after];
      next, prev := next[n := n], prev[n := n];
    }

    method IsEmpty(l: int, ghost s: seq<int>) returns (empty: bool)
      requires IsList(l, s)
      ensures empty <==> s == []
    {
      LinksAt(next, prev, l, s, 0);
      empty := next[l] == l;
      assert s != [] ==> Cycle(l, s)[0] != Cycle(l, s)[1];
    }

    /** rt_list_len walks the ring once. */
    method Len(l: int, ghost s: seq<int>) returns (len: nat)
      requires IsList(l, s)
      ensures len == |s|
    {
      hide Ring;
      len := 0;
      var p := l;
      LinksAt(next, prev, l, s, 0);
      HeadApart(next, prev, l, s);
      while next[p] != l
        invariant len <= |s| && p == (if len == 0 then l else s[len - 1]) && p in next
        invariant next[p] == if len < |s| then s[len] else l
        decreases |s| - len
      {
        p := next[p];
        len := len + 1;
        LinksAt(next, prev, l, s, len);
      }
    }
  }

  lemma {:induction false} HeadApart(next: Links, prev: Links, head: int, s: seq<int>)
    requires Ring(next, prev, Cycle(head, s))
    ensures head !in s
  {
    var c := Cycle(head, s);
    forall k | 0 <= k < |s| ensures s[k] != head {
      assert c[0] != c[k + 1];
    }
  }
}
