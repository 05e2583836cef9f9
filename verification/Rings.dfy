/** Circular doubly linked lists as the kernel builds them: `next` and `prev` members of nodes that
    are named by their address.  A ring is described by its cycle: the nodes in order, starting at
    the list head and ending at it again. */
module Rings {
  type Links = map<int, int>

  ghost predicate Ring(next: Links, prev: Links, cycle: seq<int>) {
    && |cycle| >= 2 && cycle[0] == cycle[|cycle| - 1]
    && (forall i, j | 0 <= i < j < |cycle| && j < |cycle| - 1 :: cycle[i] != cycle[j])
    && (forall i, j | 0 <= i < j < |cycle| && j == i + 1 :: Linked(next, prev, cycle[i], cycle[j]))
  }

  ghost predicate Linked(next: Links, prev: Links, a: int, b: int) {
    a in next && next[a] == b && b in prev && prev[b] == a
  }

  /** Put node x right after node `at`: the four stores of rt_list_insert_after, and of every block
      or free-list insertion in memheap.c. */
  function InsertNext(next: Links, at: int, x: int): Links
    requires at in next
  {
    next[x := next[at]][at := x]
  }

  function InsertPrev(next: Links, prev: Links, at: int, x: int): Links
    requires at in next
  {
    prev[next[at] := x][x := at]
  }

  /** Take node x out: its neighbours are linked to each other, x keeps its own links. */
  function UnlinkNext(next: Links, prev: Links, x: int): Links
    requires x in next && x in prev
  {
    next[prev[x] := next[x]]
  }

  function UnlinkPrev(next: Links, prev: Links, x: int): Links
    requires x in next && x in prev
  {
    prev[next[x] := prev[x]]
  }

  function InsertAt<T>(s: seq<T>, k: nat, x: T): seq<T>
    requires k <= |s|
  {
    s[..k] + [x] + s[k..]
  }

  function RemoveAt<T>(s: seq<T>, k: nat): seq<T>
    requires k < |s|
  {
    s[..k] + s[k + 1..]
  }

  lemma {:induction false} RingInsert(next: Links, prev: Links, cycle: seq<int>, k: nat, x: int)
    requires Ring(next, prev, cycle) && k < |cycle| - 1 && x !in cycle
    ensures cycle[k] in next
    ensures Ring(InsertNext(next, cycle[k], x), InsertPrev(next, prev, cycle[k], x), InsertAt(cycle, k + 1, x))
  {
    assert Linked(next, prev, cycle[k], cycle[k + 1]);
    var n, p := InsertNext(next, cycle[k], x), InsertPrev(next, prev, cycle[k], x);
    var c := InsertAt(cycle, k + 1, x);
    assert forall i | 0 <= i <= k :: c[i] == cycle[i];
    assert forall i | k + 1 < i < |c| :: c[i] == cycle[i - 1];
    forall i, j | 0 <= i < j < |c| && j == i + 1 ensures Linked(n, p, c[i], c[j]) {
      if i < k {
        assert Linked(next, prev, cycle[i], cycle[j]);
      } else if i > k + 1 {
        assert Linked(next, prev, cycle[i - 1], cycle[j - 1]);
      }
    }
  }

  lemma {:induction false} RingUnlink(next: Links, prev: Links, cycle: seq<int>, k: nat)
    requires Ring(next, prev, cycle) && 0 < k < |cycle| - 1
    ensures cycle[k] in next && cycle[k] in prev && next[cycle[k]] == cycle[k + 1] && prev[cycle[k]] == cycle[k - 1]
    ensures Ring(UnlinkNext(next, prev, cycle[k]), UnlinkPrev(next, prev, cycle[k]), RemoveAt(cycle, k))
  {
    assert Linked(next, prev, cycle[k], cycle[k + 1]) && Linked(next, prev, cycle[k - 1], cycle[k]);
    var n, p := UnlinkNext(next, prev, cycle[k]), UnlinkPrev(next, prev, cycle[k]);
    var c := RemoveAt(cycle, k);
    assert forall i | 0 <= i < k :: c[i] == cycle[i];
    assert forall i | k <= i < |c| :: c[i] == cycle[i + 1];
    forall i, j | 0 <= i < j < |c| && j == i + 1 ensures Linked(n, p, c[i], c[j]) {
      if i < k - 1 {
        assert Linked(next, prev, cycle[i], cycle[j]);
      } else if i > k - 1 {
        assert Linked(next, prev, cycle[i + 1], cycle[j + 1]);
      }
    }
  }
}
