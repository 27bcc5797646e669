/** What user code may observe of private anonymous memory: a page reads as it did at fork time,
    overlaid by the stores of its own process since then. */
module Isolation {
  import opened Base
  import opened Pmm
  import opened Vma
  import opened PageTables
  import opened AddressSpaces

  /** `Cleared`: the pages [lo, hi) of a space were discarded or newly reserved and read as zeros.
      `Forked`: child took over the parent's pages, except those in `lost`. */
  datatype Event =
    | Cleared(space: nat, lo: nat, hi: nat)
    | Stored(space: nat, page: nat, offset: nat, byte: Byte)
    | Forked(parent: nat, child: nat, lost: set<nat>)

  type History = seq<Event>

  /** The bytes a page must show after `h`: independent spaces, each an array of its own. */
  ghost function Expected(h: History, space: nat, page: nat): (r: seq<Byte>)
    ensures |r| == PAGE_SIZE
  {
    if h == [] then Zeros()
    else
      var before := h[..|h| - 1];
      match h[|h| - 1]
      case Cleared(s, lo, hi) => if s == space && lo <= page < hi then Zeros() else Expected(before, space, page)
      case Stored(s, p, offset, b) =>
        if s == space && p == page && offset < PAGE_SIZE then Expected(before, space, page)[offset := b]
        else Expected(before, space, page)
      case Forked(p, c, lost) =>
        if c == space then (if page in lost then Zeros() else Expected(before, p, page))
        else Expected(before, space, page)
  }

  /** The bytes a page really shows; an absent page will be filled with zeros on first use. */
  ghost function Content(st: State, k: Key): seq<Byte> {
    if k in st.leaf && st.leaf[k].frame < |st.mem| && st.mem[st.leaf[k].frame].Data?
    then st.mem[st.leaf[k].frame].bytes
    else Zeros()
  }

  ghost predicate Faithful(h: History, st: State) {
    forall k: Key :: IsPrivateAnonymous(st.mms, k) ==> Content(st, k) == Expected(h, k.space, k.page)
  }

  lemma ExpectedSnoc(h: History, e: Event)
    ensures (h + [e])[..|h + [e]| - 1] == h && (h + [e])[|h + [e]| - 1] == e
  {
  }

  // ---- the isolation theorem ----

  /** Events that can change what `page` of `space` shows. */
  predicate Concerns(e: Event, space: nat, page: nat) {
    match e
    case Cleared(s, lo, hi) => s == space && lo <= page < hi
    case Stored(s, p, offset, _) => s == space && p == page && offset < PAGE_SIZE
    case Forked(_, c, _) => c == space
  }

  ghost function OwnStores(h: History, space: nat, page: nat): seq<(nat, Byte)> {
    if h == [] then []
    else
      var e := h[|h| - 1];
      OwnStores(h[..|h| - 1], space, page) +
      (if e.Stored? && Concerns(e, space, page) then [(e.offset, e.byte)] else [])
  }

  ghost function Overlay(bytes: seq<Byte>, stores: seq<(nat, Byte)>): (r: seq<Byte>)
    ensures |r| == |bytes|
  {
    if stores == [] then bytes
    else
      var below := Overlay(bytes, stores[..|stores| - 1]);
      var last := stores[|stores| - 1];
      if last.0 < |bytes| then below[last.0 := last.1] else below
  }

  /** While a page is neither discarded nor inherited anew, only its own process's stores change it. */
  lemma {:induction false} OnlyOwnStores(h: History, later: History, space: nat, page: nat)
    requires forall i :: 0 <= i < |later| && Concerns(later[i], space, page) ==> later[i].Stored?
    ensures Expected(h + later, space, page) == Overlay(Expected(h, space, page), OwnStores(later, space, page))
  {
    if later == [] {
      assert h + later == h;
    } else {
      var n := |later| - 1;
      var e := later[n];
      OnlyOwnStores(h, later[..n], space, page);
      assert (h + later)[..|h + later| - 1] == h + later[..n];
      assert (h + later)[|h + later| - 1] == e;
      var below := OwnStores(later[..n], space, page);
      if e.Stored? && Concerns(e, space, page) {
        var stores := OwnStores(later, space, page);
        assert stores[..|stores| - 1] == below;
      } else {
        assert OwnStores(later, space, page) == below;
      }
    }
  }

  /** Copy-on-write isolation: after a fork parent and child both read the fork-time bytes, each
      overlaid by its own later stores only. */
  lemma ForkIsolation(h: History, parent: nat, child: nat, lost: set<nat>, later: History, page: nat)
    requires parent != child && page !in lost
    requires forall i :: 0 <= i < |later| && (Concerns(later[i], parent, page) || Concerns(later[i], child, page)) ==> later[i].Stored?
    ensures
      var all := h + [Forked(parent, child, lost)] + later;
      var atFork := Expected(h, parent, page);
      && Expected(all, parent, page) == Overlay(atFork, OwnStores(later, parent, page))
      && Expected(all, child, page) == Overlay(atFork, OwnStores(later, child, page))
  {
    ExpectedSnoc(h, Forked(parent, child, lost));
    OnlyOwnStores(h + [Forked(parent, child, lost)], later, parent, page);
    OnlyOwnStores(h + [Forked(parent, child, lost)], later, child, page);
  }

  // ---- steps ----

  /** Nothing private changed. */
  lemma FaithfulKept(h: History, st: State, st': State)
    requires Faithful(h, st)
    requires forall k: Key :: IsPrivateAnonymous(st'.mms, k) ==>
      IsPrivateAnonymous(st.mms, k) && Content(st', k) == Content(st, k)
    ensures Faithful(h, st')
  {
    forall k: Key | IsPrivateAnonymous(st'.mms, k)
      ensures Content(st', k) == Expected(h, k.space, k.page)
    {
      assert IsPrivateAnonymous(st.mms, k);
    }
  }

  /** A range of one space became zero, nothing else private changed. */
  lemma FaithfulCleared(h: History, st: State, st': State, s: nat, lo: nat, hi: nat)
    requires Faithful(h, st)
    requires forall k: Key :: IsPrivateAnonymous(st'.mms, k) ==>
      if k.space == s && lo <= k.page < hi then Content(st', k) == Zeros()
      else IsPrivateAnonymous(st.mms, k) && Content(st', k) == Content(st, k)
    ensures Faithful(h + [Cleared(s, lo, hi)], st')
  {
    ExpectedSnoc(h, Cleared(s, lo, hi));
    forall k: Key | IsPrivateAnonymous(st'.mms, k)
      ensures Content(st', k) == Expected(h + [Cleared(s, lo, hi)], k.space, k.page)
    {
      assert IsPrivateAnonymous(st.mms, k) ==> Content(st, k) == Expected(h, k.space, k.page);
    }
  }

  /** A store through a writable entry reaches the addressed page and no other private one. */
  lemma FaithfulStored(h: History, st: State, k: Key, offset: nat, b: Byte)
    requires Inv(st) && Faithful(h, st) && k in st.leaf && st.leaf[k].UserWritable() && offset < PAGE_SIZE
    requires DataFrame(st.mem, st.others, st.use, st.leaf[k].frame)
    ensures
      var f := st.leaf[k].frame;
      Faithful(h + [Stored(k.space, k.page, offset, b)], st.(mem := st.mem[f := Data(st.mem[f].bytes[offset := b])]))
  {
    hide Tree, Leaves, Counted, ListsOk;
    var f := st.leaf[k].frame;
    var st' := st.(mem := st.mem[f := Data(st.mem[f].bytes[offset := b])]);
    var e := Stored(k.space, k.page, offset, b);
    ExpectedSnoc(h, e);
    PresentPage(st, k);
    forall l: Key | IsPrivateAnonymous(st'.mms, l)
      ensures Content(st', l) == Expected(h + [e], l.space, l.page)
    {
      assert Content(st, l) == Expected(h, l.space, l.page);
      if l != k && l in st.leaf {
        PresentPage(st, l);
        assert st.leaf[l].frame != f;
      }
    }
  }

  /** The child's pages are the parent's, except the lost ones. */
  lemma FaithfulForked(h: History, st: State, st': State, parent: nat, child: nat, lost: set<nat>)
    requires Faithful(h, st) && parent != child
    requires forall k: Key :: k.space != child && IsPrivateAnonymous(st'.mms, k) ==>
      IsPrivateAnonymous(st.mms, k) && Content(st', k) == Content(st, k)
    requires forall p: nat :: IsPrivateAnonymous(st'.mms, Key(child, p)) ==>
      if p in lost then Content(st', Key(child, p)) == Zeros()
      else IsPrivateAnonymous(st.mms, Key(parent, p)) && Content(st', Key(child, p)) == Content(st, Key(parent, p))
    ensures Faithful(h + [Forked(parent, child, lost)], st')
  {
    ExpectedSnoc(h, Forked(parent, child, lost));
    forall k: Key | IsPrivateAnonymous(st'.mms, k)
      ensures Content(st', k) == Expected(h + [Forked(parent, child, lost)], k.space, k.page)
    {
      if k.space == child {
        assert k == Key(child, k.page);
        if k.page !in lost {
          assert Content(st, Key(parent, k.page)) == Expected(h, parent, k.page);
        }
      } else {
        assert Content(st, k) == Expected(h, k.space, k.page);
      }
    }
  }
}
