/**
 Doubly linked lists of block descriptors. The link fields of all descriptors are two maps from descriptor
 addresses; address 0 is the null pointer.
 */
module HeapLists {
  import opened ByteSeqs

  type Links = map<nat, nat>

  /** The i-th address of a list, 0 outside of it. */
  function At(l: seq<nat>, i: int): nat {
    if 0 <= i < |l| then l[i] else 0
  }

  ghost predicate Node(next: Links, prev: Links, l: seq<nat>, i: nat)
    requires i < |l|
  {
    && l[i] != 0 && l[i] in next && l[i] in prev
    && next[l[i]] == At(l, i + 1) && prev[l[i]] == At(l, i - 1)
  }

  /** l is the list that starts at head: acyclic, linked both ways, with null links at its ends. */
  ghost predicate IsList(next: Links, prev: Links, head: nat, l: seq<nat>) {
    && head == At(l, 0)
    && Distinct(l)
    && forall i: nat {:trigger Node(next, prev, l, i)} :: i < |l| ==> Node(next, prev, l, i)
  }

  lemma {:induction false} ListPrefix(next: Links, prev: Links, head: nat, l: seq<nat>, m: seq<nat>, i: nat)
    requires IsList(next, prev, head, l) && IsList(next, prev, head, m) && i <= |l|
    ensures i <= |m| && l[..i] == m[..i]
  {
    if i > 0 {
      ListPrefix(next, prev, head, l, m, i - 1);
      assert Node(next, prev, l, i - 1);
      if i > 1 {
        assert Node(next, prev, l, i - 2) && Node(next, prev, m, i - 2);
        assert l[..i - 1][i - 2] == m[..i - 1][i - 2];
      }
      assert l[..i] == l[..i - 1] + [l[i - 1]];
    }
  }

  /** The links and the head fix the list. */
  lemma ListIsUnique(next: Links, prev: Links, head: nat, l: seq<nat>, m: seq<nat>)
    requires IsList(next, prev, head, l) && IsList(next, prev, head, m)
    ensures l == m
  {
    ListPrefix(next, prev, head, l, m, |l|);
    ListPrefix(next, prev, head, m, l, |m|);
  }

  /** A list whose links are not touched stays a list. */
  lemma ListKept(next: Links, prev: Links, next': Links, prev': Links, head: nat, l: seq<nat>)
    requires IsList(next, prev, head, l)
    requires forall a :: a in l ==> a in next' && a in prev' && a in next && a in prev
    requires forall a :: a in l ==> next'[a] == next[a] && prev'[a] == prev[a]
    ensures IsList(next', prev', head, l)
  {
    forall i: nat | i < |l| ensures Node(next', prev', l, i) {
      assert Node(next, prev, l, i);
    }
  }

  // ---- linking behind the head ----

  /** The list with a put behind its first element. */
  function Inserted(l: seq<nat>, a: nat): (r: seq<nat>)
    requires l != []
    ensures forall x :: x in r <==> x in l || x == a
  {
    assert forall x :: x in l <==> x == l[0] || x in l[1..];
    [l[0], a] + l[1..]
  }

  lemma LinkedAfterHead(next: Links, prev: Links, next': Links, prev': Links, l: seq<nat>, a: nat)
    requires l != [] && IsList(next, prev, l[0], l) && a !in l && a != 0
    requires next' == next[a := At(l, 1)][l[0] := a]
    requires prev' == if At(l, 1) != 0 then prev[a := l[0]][At(l, 1) := a] else prev[a := l[0]]
    ensures IsList(next', prev', l[0], Inserted(l, a))
  {
    var r := Inserted(l, a);
    forall i, j | 0 <= i < j < |r| ensures r[i] != r[j] {
      assert r[i] == if i == 0 then l[0] else if i == 1 then a else l[i - 1];
      assert r[j] == if j == 1 then a else l[j - 1];
    }
    assert Node(next, prev, l, 0);
    forall i: nat | i < |r| ensures Node(next', prev', r, i) {
      if i >= 2 {
        assert Node(next, prev, l, i - 1);
        assert r[i] == l[i - 1] && At(r, i + 1) == At(l, i);
      } else if |l| > 1 {
        assert Node(next, prev, l, 1);
      }
    }
  }

  // ---- unlinking ----

  /** The list without its k-th element. */
  function Without(l: seq<nat>, k: nat): (r: seq<nat>)
    requires k < |l|
    ensures |r| == |l| - 1
  {
    l[..k] + l[k + 1..]
  }

  lemma WithoutMembers(l: seq<nat>, k: nat)
    requires k < |l| && Distinct(l)
    ensures forall x :: x in Without(l, k) <==> x in l && x != l[k]
  {
    var r := Without(l, k);
    forall x | x in l && x != l[k] ensures x in r {
      var i :| 0 <= i < |l| && l[i] == x;
      assert r[if i < k then i else i - 1] == x;
    }
    forall x | x in r ensures x in l && x != l[k] {
      var i :| 0 <= i < |r| && r[i] == x;
      assert x == l[if i < k then i else i + 1];
    }
  }

  /** The links after the k-th element is unlinked; its own links stay behind. */
  function NextWithout(next: Links, l: seq<nat>, k: nat): Links {
    if At(l, k - 1) != 0 then next[At(l, k - 1) := At(l, k + 1)] else next
  }

  function PrevWithout(prev: Links, l: seq<nat>, k: nat): Links {
    if At(l, k + 1) != 0 then prev[At(l, k + 1) := At(l, k - 1)] else prev
  }

  lemma Unlinked(next: Links, prev: Links, l: seq<nat>, k: nat)
    requires k < |l| && IsList(next, prev, l[0], l)
    ensures IsList(NextWithout(next, l, k), PrevWithout(prev, l, k), At(Without(l, k), 0), Without(l, k))
  {
    var r := Without(l, k);
    var next', prev' := NextWithout(next, l, k), PrevWithout(prev, l, k);
    forall i: nat | i < |r| ensures Node(next', prev', r, i) {
      var j := if i < k then i else i + 1;
      assert Node(next, prev, l, j) && r[i] == l[j];
      assert At(r, i + 1) == if i + 1 == k then At(l, k + 1) else At(l, j + 1);
      assert At(r, i - 1) == if i == k then At(l, k - 1) else At(l, j - 1);
      assert l[j] == At(l, k - 1) <==> j == k - 1;
      assert l[j] == At(l, k + 1) <==> j == k + 1;
    }
  }

  /** Unlinking an element of one list leaves a list that shares none with it alone. */
  lemma UnlinkedOther(next: Links, prev: Links, l: seq<nat>, k: nat, head: nat, m: seq<nat>)
    requires k < |l| && IsList(next, prev, l[0], l) && IsList(next, prev, head, m)
    requires forall a :: a in l ==> a !in m
    ensures IsList(NextWithout(next, l, k), PrevWithout(prev, l, k), head, m)
  {
    forall a | a in m
      ensures a in next && a in prev && a != At(l, k - 1) && a != At(l, k + 1)
    {
      var i: nat :| i < |m| && m[i] == a;
      assert Node(next, prev, m, i);
    }
    ListKept(next, prev, NextWithout(next, l, k), PrevWithout(prev, l, k), head, m);
  }
}
