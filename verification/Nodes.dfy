/** Lists of numbered nodes: the message queue's free and message lists, the memory pool's free
    list.  Nothing here depends on how a list is linked. */
module Nodes {
  ghost function NodesOf(l: seq<nat>): set<nat> {
    set n | n in l
  }

  ghost predicate NoRepeats(l: seq<nat>) {
    forall i, j | 0 <= i < j < |l| :: l[i] != l[j]
  }

  /** The nodes 0 .. max - 1. */
  function Pool(max: nat): (p: set<nat>)
    ensures forall n: nat :: n in p <==> n < max
    ensures |p| == max
  {
    if max == 0 then {} else Pool(max - 1) + {max - 1}
  }

  lemma {:induction false} PopNode(l: seq<nat>)
    requires l != [] && NoRepeats(l)
    ensures NoRepeats(l[1..]) && l[0] in NodesOf(l) && NodesOf(l[1..]) == NodesOf(l) - {l[0]}
  {
    assert forall n :: n in l <==> n == l[0] || n in l[1..] by { assert l == [l[0]] + l[1..]; }
  }

  lemma {:induction false} PushNode(l: seq<nat>, n: nat)
    requires NoRepeats(l) && n !in NodesOf(l)
    ensures NoRepeats([n] + l) && NodesOf([n] + l) == NodesOf(l) + {n}
    ensures NoRepeats(l + [n]) && NodesOf(l + [n]) == NodesOf(l) + {n}
  {
    assert n !in l;
  }

  lemma {:induction false} NodesMean(l: seq<nat>, n: nat)
    ensures n in NodesOf(l) <==> n in l
  {
  }

  lemma {:induction false} Sizes(l: seq<nat>)
    requires NoRepeats(l)
    ensures |NodesOf(l)| == |l|
  {
    if l == [] {
      assert NodesOf(l) == {};
    } else {
      PopNode(l);
      Sizes(l[1..]);
      assert NodesOf(l) == NodesOf(l[1..]) + {l[0]};
    }
  }

  lemma {:induction false} SubsetSize(a: set<nat>, b: set<nat>)
    requires a <= b
    ensures |a| <= |b|
  {
    assert b == a + (b - a);
  }

  lemma {:induction false} NoNodes()
    ensures NoRepeats([]) && NodesOf([]) == {}
  {
  }
}
