/** Families of doubly linked lists that share one set of nodes: the slab lists of kernel/mm/heap.c
    and the run queues of kernel/threading/sched.c. */
module LinkLists {
  import opened Base

  datatype Link = Link(next: nat, prev: nat)

  type Links = map<nat, Link>

  ghost predicate NodeOk(h: Links, s: seq<nat>, i: nat)
    requires i < |s|
  {
    s[i] != NULL && s[i] in h && h[s[i]] == Link(At(s, i + 1), At(s, i - 1))
  }

  /** `s` is the list that starts at `head`; forward and backward links agree. */
  ghost predicate ListOk(h: Links, head: nat, s: seq<nat>) {
    head == At(s, 0) && forall i :: 0 <= i < |s| ==> NodeOk(h, s, i)
  }

  ghost predicate Disjoint(a: seq<nat>, b: seq<nat>) {
    forall x :: x in a ==> x !in b
  }

  ghost predicate Family(h: Links, heads: seq<nat>, lists: seq<seq<nat>>) {
    && |heads| == |lists|
    && (forall l :: 0 <= l < |lists| ==> ListOk(h, heads[l], lists[l]))
    && (forall l, m :: 0 <= l < m < |lists| ==> Disjoint(lists[l], lists[m]))
  }

  lemma Node(h: Links, head: nat, s: seq<nat>, i: nat)
    requires ListOk(h, head, s) && i < |s|
    ensures NodeOk(h, s, i)
  {
  }

  lemma {:induction false} Distinct(h: Links, head: nat, s: seq<nat>, i: nat, j: nat)
    requires ListOk(h, head, s) && i < j < |s|
    ensures s[i] != s[j]
    decreases |s| - j
  {
    Node(h, head, s, i);
    Node(h, head, s, j);
    if j + 1 < |s| {
      Node(h, head, s, i + 1);
      Distinct(h, head, s, i + 1, j + 1);
    } else {
      Node(h, head, s, i + 1);
    }
  }

  lemma Apart(h: Links, heads: seq<nat>, lists: seq<seq<nat>>, l: nat, m: nat)
    requires Family(h, heads, lists) && l < |lists| && m < |lists| && l != m
    ensures Disjoint(lists[l], lists[m])
  {
    if m < l {
      assert Disjoint(lists[m], lists[l]);
    }
  }

  /** A list whose nodes are untouched is still the list it was. */
  lemma Untouched(h: Links, h': Links, head: nat, s: seq<nat>)
    requires ListOk(h, head, s) && forall x :: x in s && x in h ==> x in h' && h'[x] == h[x]
    ensures ListOk(h', head, s)
  {
    forall i | 0 <= i < |s|
      ensures NodeOk(h', s, i)
    {
      Node(h, head, s, i);
    }
  }

  // ---- removal ----

  /** The neighbours of `n` linked to each other. */
  function Bypass(h: Links, n: nat): Links
    requires n in h
  {
    var p, q := h[n].prev, h[n].next;
    var h1 := if p != NULL && p in h then h[p := h[p].(next := q)] else h;
    if q != NULL && q in h1 then h1[q := h1[q].(prev := p)] else h1
  }

  lemma BypassNode(h: Links, head: nat, s: seq<nat>, i: nat, j: nat)
    requires ListOk(h, head, s) && i < |s| && s[i] in h && j < |s| - 1
    ensures NodeOk(Bypass(h, s[i]), Removed(s, i), j)
  {
    hide Removed, ListOk;
    Node(h, head, s, i);
    var j' := if j < i then j else j + 1;
    Node(h, head, s, j');
    if i > 0 {
      Node(h, head, s, i - 1);
      if j' < i - 1 {
        Distinct(h, head, s, j', i - 1);
      } else if j' > i - 1 {
        Distinct(h, head, s, i - 1, j');
      }
    }
    if i + 1 < |s| {
      Node(h, head, s, i + 1);
      if j' < i + 1 {
        Distinct(h, head, s, j', i + 1);
      } else if j' > i + 1 {
        Distinct(h, head, s, i + 1, j');
      }
      if i > 0 {
        Distinct(h, head, s, i - 1, i + 1);
      }
    }
    RemovedAt(s, i, j);
    RemovedAt(s, i, j + 1);
    RemovedAt(s, i, j - 1);
  }

  lemma BypassOk(h: Links, head: nat, s: seq<nat>, i: nat)
    requires ListOk(h, head, s) && i < |s| && s[i] in h
    ensures ListOk(Bypass(h, s[i]), if h[s[i]].prev == NULL then h[s[i]].next else head, Removed(s, i))
  {
    hide NodeOk, Bypass, Removed;
    Ends(h, head, s, i);
    RemovedAt(s, i, 0);
    forall j | 0 <= j < |s| - 1
      ensures NodeOk(Bypass(h, s[i]), Removed(s, i), j)
    {
      BypassNode(h, head, s, i, j);
    }
  }

  lemma Ends(h: Links, head: nat, s: seq<nat>, i: nat)
    requires ListOk(h, head, s) && i < |s| && s[i] in h
    ensures h[s[i]] == Link(At(s, i + 1), At(s, i - 1))
    ensures h[s[i]].prev == NULL <==> i == 0
    ensures h[s[i]].next == NULL <==> i == |s| - 1
  {
    Node(h, head, s, i);
    if i > 0 {
      Node(h, head, s, i - 1);
    }
    if i + 1 < |s| {
      Node(h, head, s, i + 1);
    }
  }

  /** Only nodes of the list change. */
  lemma BypassFrame(h: Links, head: nat, s: seq<nat>, i: nat, x: nat)
    requires ListOk(h, head, s) && i < |s| && s[i] in h && x !in s
    ensures x in Bypass(h, s[i]) <==> x in h
    ensures x in h ==> Bypass(h, s[i])[x] == h[x]
  {
    Ends(h, head, s, i);
    assert i > 0 ==> s[i - 1] in s;
    assert i + 1 < |s| ==> s[i + 1] in s;
  }

  lemma RemovedGone(h: Links, head: nat, s: seq<nat>, i: nat)
    requires ListOk(h, head, s) && i < |s|
    ensures forall x :: x in Removed(s, i) <==> x in s && x != s[i]
  {
    hide ListOk;
    forall j | 0 <= j < |s| && j != i
      ensures s[j] != s[i]
    {
      if j < i {
        Distinct(h, head, s, j, i);
      } else {
        Distinct(h, head, s, i, j);
      }
    }
    var r := Removed(s, i);
    forall x | x in s && x != s[i]
      ensures x in r
    {
      var j :| 0 <= j < |s| && s[j] == x;
      assert r[if j < i then j else j - 1] == x;
    }
  }

  /** Removing a node from one list of a family. */
  lemma FamilyRemove(h: Links, heads: seq<nat>, lists: seq<seq<nat>>, l: nat, i: nat)
    requires Family(h, heads, lists) && l < |lists| && i < |lists[l]| && lists[l][i] in h
    ensures
      var n := lists[l][i];
      Family(Bypass(h, n), heads[l := if h[n].prev == NULL then h[n].next else heads[l]], lists[l := Removed(lists[l], i)])
  {
    hide ListOk, Bypass, Removed;
    var n := lists[l][i];
    var h', lists' := Bypass(h, n), lists[l := Removed(lists[l], i)];
    BypassOk(h, heads[l], lists[l], i);
    RemovedGone(h, heads[l], lists[l], i);
    forall m | 0 <= m < |lists| && m != l
      ensures ListOk(h', heads[m], lists[m])
    {
      Apart(h, heads, lists, m, l);
      forall x | x in lists[m] && x in h
        ensures x in h' && h'[x] == h[x]
      {
        BypassFrame(h, heads[l], lists[l], i, x);
      }
      Untouched(h, h', heads[m], lists[m]);
    }
  }

  // ---- insertion at the front ----

  function Fronted(h: Links, head: nat, n: nat): Links {
    var h1 := h[n := Link(head, NULL)];
    if head != NULL && head in h1 then h1[head := h1[head].(prev := n)] else h1
  }

  lemma FrontedOk(h: Links, head: nat, s: seq<nat>, n: nat)
    requires ListOk(h, head, s) && n != NULL && n !in s
    ensures ListOk(Fronted(h, head, n), n, [n] + s)
  {
    var t, h' := [n] + s, Fronted(h, head, n);
    if s != [] {
      Node(h, head, s, 0);
    }
    forall j | 0 <= j < |t|
      ensures NodeOk(h', t, j)
    {
      if j > 0 {
        Node(h, head, s, j - 1);
        assert s[j - 1] in s;
        if j > 1 {
          Distinct(h, head, s, 0, j - 1);
        }
      }
    }
  }

  lemma FrontedFrame(h: Links, head: nat, s: seq<nat>, n: nat, x: nat)
    requires ListOk(h, head, s) && x !in s && x != n
    ensures (x in Fronted(h, head, n) <==> x in h) && (x in h ==> Fronted(h, head, n)[x] == h[x])
  {
    assert s != [] ==> s[0] in s;
  }

  lemma FamilyFront(h: Links, heads: seq<nat>, lists: seq<seq<nat>>, l: nat, n: nat)
    requires Family(h, heads, lists) && l < |lists| && n != NULL && forall m :: 0 <= m < |lists| ==> n !in lists[m]
    ensures Family(Fronted(h, heads[l], n), heads[l := n], lists[l := [n] + lists[l]])
  {
    hide ListOk, Fronted;
    var h' := Fronted(h, heads[l], n);
    FrontedOk(h, heads[l], lists[l], n);
    forall m | 0 <= m < |lists| && m != l
      ensures ListOk(h', heads[m], lists[m]) && Disjoint(lists[m], [n] + lists[l]) && Disjoint([n] + lists[l], lists[m])
    {
      Apart(h, heads, lists, m, l);
      forall x | x in lists[m] && x in h
        ensures x in h' && h'[x] == h[x]
      {
        FrontedFrame(h, heads[l], lists[l], n, x);
      }
      Untouched(h, h', heads[m], lists[m]);
    }
  }

  // ---- insertion at the back ----

  function Backed(h: Links, tail: nat, n: nat): Links {
    var h1 := h[n := Link(NULL, tail)];
    if tail != NULL && tail in h1 then h1[tail := h1[tail].(next := n)] else h1
  }

  lemma BackedOk(h: Links, head: nat, s: seq<nat>, n: nat)
    requires ListOk(h, head, s) && n != NULL && n !in s
    ensures ListOk(Backed(h, At(s, |s| - 1), n), if s == [] then n else head, s + [n])
  {
    var t, h' := s + [n], Backed(h, At(s, |s| - 1), n);
    if s != [] {
      Node(h, head, s, |s| - 1);
    }
    forall j | 0 <= j < |t|
      ensures NodeOk(h', t, j)
    {
      if j < |s| {
        Node(h, head, s, j);
        assert s[j] in s;
        if j < |s| - 1 {
          Distinct(h, head, s, j, |s| - 1);
        }
      }
    }
  }

  lemma BackedFrame(h: Links, head: nat, s: seq<nat>, n: nat, x: nat)
    requires ListOk(h, head, s) && x !in s && x != n
    ensures (x in Backed(h, At(s, |s| - 1), n) <==> x in h) && (x in h ==> Backed(h, At(s, |s| - 1), n)[x] == h[x])
  {
    assert s != [] ==> s[|s| - 1] in s;
  }

  lemma FamilyBack(h: Links, heads: seq<nat>, lists: seq<seq<nat>>, l: nat, n: nat)
    requires Family(h, heads, lists) && l < |lists| && n != NULL && forall m :: 0 <= m < |lists| ==> n !in lists[m]
    ensures Family(Backed(h, At(lists[l], |lists[l]| - 1), n), heads[l := if lists[l] == [] then n else heads[l]], lists[l := lists[l] + [n]])
  {
    hide ListOk, Backed;
    var h' := Backed(h, At(lists[l], |lists[l]| - 1), n);
    BackedOk(h, heads[l], lists[l], n);
    forall m | 0 <= m < |lists| && m != l
      ensures ListOk(h', heads[m], lists[m]) && Disjoint(lists[m], lists[l] + [n]) && Disjoint(lists[l] + [n], lists[m])
    {
      Apart(h, heads, lists, m, l);
      forall x | x in lists[m] && x in h
        ensures x in h' && h'[x] == h[x]
      {
        BackedFrame(h, heads[l], lists[l], n, x);
      }
      Untouched(h, h', heads[m], lists[m]);
    }
  }
}
