/** Creating directory entries (kernel/fs/fat32.c:693-873): what a run of new slots makes visible. */
module DirectoryGrowth {
  import opened Base
  import opened LongNames
  import opened DirectoryScan

  /** Nothing but end marks follows an end mark. */
  ghost predicate EndClean(slots: seq<Slot>) {
    forall i, j :: 0 <= i < j < |slots| && IsEnd(slots[i]) ==> IsEnd(slots[j])
  }

  predicate IsFree(s: Slot) {
    IsEnd(s) || IsDeleted(s)
  }

  /** lfn_entries_needed. */
  function LongCount(name: seq<Byte>): nat {
    (|name| + 12) / 13
  }

  predicate NameOk(name: seq<Byte>) {
    1 <= |name| < NAME_BUFFER - 1 && 0 !in name
  }

  /** A short slot as creation makes it. */
  predicate IsEntry(s: Slot) {
    !IsEnd(s) && !IsLfn(s)
  }

  /** The long-name slots of a new entry, highest order first. */
  function LongSlots(name: seq<Byte>, checksum: Byte, count: nat): (r: seq<Slot>)
    requires count <= LongCount(name) < 64
    ensures |r| == count
    ensures forall i :: 0 <= i < count ==> r[i] == Filled(name, LongCount(name) - i, i == 0, checksum)
  {
    if count == 0 then [] else
      LongSlots(name, checksum, count - 1) + [Filled(name, LongCount(name) - (count - 1), count == 1, checksum)]
  }

  /** The buffer once the characters from `from` on have been gathered. */
  function Partial(name: seq<Byte>, from: nat): (r: seq<Byte>)
    requires from <= |name| < NAME_BUFFER
    ensures |r| == NAME_BUFFER
    ensures forall i :: 0 <= i < NAME_BUFFER ==> r[i] == if from <= i < |name| then name[i] else 0
  {
    Patched(ZeroBytes(NAME_BUFFER), from, name[from..])
  }

  lemma PartialNext(name: seq<Byte>, p: nat)
    requires p < |name| < NAME_BUFFER
    ensures Patched(Partial(name, PieceEnd(name, p)), p, name[p..PieceEnd(name, p)]) == Partial(name, p)
  {
    hide Partial, Patched, PieceEnd;
  }

  lemma PartialNone(name: seq<Byte>)
    requires |name| < NAME_BUFFER
    ensures Partial(name, |name|) == ZeroBytes(NAME_BUFFER)
  {
    hide Partial, ZeroBytes;
  }

  lemma PartialAll(name: seq<Byte>)
    requires NameOk(name)
    ensures Terminated(Partial(name, 0)) == name
  {
    hide Partial;
    forall i | 0 <= i < |name|
      ensures Partial(name, 0)[i] != 0
    {
      assert name[i] in name;
    }
    TerminatedAt(Partial(name, 0), |name|);
  }

  lemma {:induction false} TerminatedAt(buffer: seq<Byte>, n: nat)
    requires n < |buffer| && buffer[n] == 0 && forall i :: 0 <= i < n ==> buffer[i] != 0
    ensures Terminated(buffer) == buffer[..n]
  {
    if n > 0 {
      TerminatedAt(buffer[1..], n - 1);
    }
  }

  lemma FilledFits(name: seq<Byte>, order: nat, last: bool, checksum: Byte)
    requires NameOk(name) && 1 <= order <= LongCount(name)
    ensures order < 64 && Fits(Filled(name, order, last, checksum))
  {
    hide Filled, Chars;
    FilledFields(name, order, last, checksum);
    FilledChars(name, order, last, checksum);
  }

  /** Scanning a filled slot gathers its piece of the name. */
  lemma StepFilled(name: seq<Byte>, order: nat, last: bool, checksum: Byte, st: Scan)
    requires NameOk(name) && 1 <= order <= LongCount(name) && ScanOk(st)
    requires last ==> order == LongCount(name)
    requires !last ==> st == Scan(Partial(name, PieceEnd(name, (order - 1) * 13)), checksum, true)
    ensures order < 64 && Fits(Filled(name, order, last, checksum)) && !IsEnd(Filled(name, order, last, checksum)) && !IsShort(Filled(name, order, last, checksum))
    ensures Step(st, Filled(name, order, last, checksum)) == Scan(Partial(name, (order - 1) * 13), checksum, true)
  {
    hide Filled, Chars, Partial, Patched, ZeroBytes, Fits, Order, StartsRun, IsEnd, IsLfn, IsDeleted;
    FilledFields(name, order, last, checksum);
    FilledFits(name, order, last, checksum);
    FilledChars(name, order, last, checksum);
    PartialNone(name);
    PartialNext(name, (order - 1) * 13);
  }

  /** `added` placed over the slots from `p` on. */
  function Placed(slots: seq<Slot>, p: nat, added: seq<Slot>): (r: seq<Slot>)
    requires p + |added| <= |slots|
    ensures |r| == |slots|
    ensures forall i :: 0 <= i < |slots| ==> r[i] == if p <= i < p + |added| then added[i - p] else slots[i]
  {
    slots[..p] + added + slots[p + |added|..]
  }

  /** All slots of a new entry: the long-name slots and the short one. */
  function NewSlots(name: seq<Byte>, e: Slot): (r: seq<Slot>)
    requires LongCount(name) < 64
    ensures |r| == LongCount(name) + 1 && r[LongCount(name)] == e
    ensures forall i :: 0 <= i < LongCount(name) ==> r[i] == Filled(name, LongCount(name) - i, i == 0, ChecksumOf(e[..11]))
  {
    LongSlots(name, ChecksumOf(e[..11]), LongCount(name)) + [e]
  }

  /** A free run for a new entry at `p`, with everything before it in use. */
  ghost predicate Room(slots: seq<Slot>, p: nat, count: nat) {
    && AllFit(slots) && EndClean(slots) && p + count <= |slots|
    && (forall j :: p <= j < p + count ==> IsFree(slots[j]))
    && (forall j :: 0 <= j < p ==> !IsEnd(slots[j]))
  }

  lemma NewSlotsFit(name: seq<Byte>, e: Slot, i: nat)
    requires NameOk(name) && IsEntry(e) && i <= LongCount(name)
    ensures LongCount(name) < 64 && Fits(NewSlots(name, e)[i]) && !IsEnd(NewSlots(name, e)[i])
  {
    hide Filled, NewSlots;
    if i < LongCount(name) {
      FilledFits(name, LongCount(name) - i, i == 0, ChecksumOf(e[..11]));
      FilledFields(name, LongCount(name) - i, i == 0, ChecksumOf(e[..11]));
    }
  }

  lemma PlacedFit(slots: seq<Slot>, p: nat, name: seq<Byte>, e: Slot)
    requires NameOk(name) && IsEntry(e) && Room(slots, p, LongCount(name) + 1)
    ensures LongCount(name) < 64 && AllFit(Placed(slots, p, NewSlots(name, e))) && EndClean(Placed(slots, p, NewSlots(name, e)))
  {
    hide NewSlots, Placed, Fits, IsEnd;
    var slots' := Placed(slots, p, NewSlots(name, e));
    forall j | 0 <= j < |slots'|
      ensures Fits(slots'[j]) && (p <= j <= p + LongCount(name) ==> !IsEnd(slots'[j]))
    {
      if p <= j <= p + LongCount(name) {
        NewSlotsFit(name, e, j - p);
      }
    }
  }

  lemma EntryShown(slots: seq<Slot>, at: nat, name: seq<Byte>, e: Slot, st: Scan)
    requires NameOk(name) && IsEntry(e) && AllFit(slots) && at < |slots| && slots[at] == e
    requires st == Scan(Partial(name, 0), ChecksumOf(e[..11]), true)
    ensures Visible(slots, at, st) == (if IsDeleted(e) then [] else [Entry(name, at, e)]) + Visible(slots, at + 1, Fresh())
  {
    hide Partial, Step, ChecksumOf, Fits;
    PartialAll(name);
    StepBroken(st, e);
    Forgets(slots, at + 1, Step(st, e), Fresh());
  }

  /** The new run from its slot `j` on: it shows the entry, under its full name. */
  lemma {:induction false} RunShown(slots: seq<Slot>, p: nat, name: seq<Byte>, e: Slot, j: nat, st: Scan)
    requires NameOk(name) && IsEntry(e) && LongCount(name) < 64 && AllFit(slots) && ScanOk(st)
    requires p + LongCount(name) < |slots| && j <= LongCount(name)
    requires forall i :: 0 <= i <= LongCount(name) ==> slots[p + i] == NewSlots(name, e)[i]
    requires 0 < j < LongCount(name) ==> st == Scan(Partial(name, PieceEnd(name, (LongCount(name) - j - 1) * 13)), ChecksumOf(e[..11]), true)
    requires j == LongCount(name) ==> st == Scan(Partial(name, 0), ChecksumOf(e[..11]), true)
    ensures Visible(slots, p + j, st) ==
      (if IsDeleted(e) then [] else [Entry(name, p + LongCount(name), e)]) + Visible(slots, p + LongCount(name) + 1, Fresh())
    decreases LongCount(name) - j
  {
    hide Filled, Partial, NewSlots, Visible, Step, Fits, IsShort, IsEnd, IsDeleted, IsEntry;
    var n := LongCount(name);
    if j == n {
      EntryShown(slots, p + n, name, e, st);
    } else {
      var order := n - j;
      StepFilled(name, order, j == 0, ChecksumOf(e[..11]), st);
      assert NewSlots(name, e)[j] == Filled(name, order, j == 0, ChecksumOf(e[..11]));
      Silent(slots, p + j, st);
      RunShown(slots, p, name, e, j + 1, Step(st, slots[p + j]));
    }
  }

  lemma FreeSlot(s: Slot)
    requires IsFree(s)
    ensures IsEnd(s) || (IsDeleted(s) && !IsShort(s))
  {
  }

  lemma EndsHere(slots: seq<Slot>, from: nat, to: nat, st: Scan)
    requires AllFit(slots) && EndClean(slots) && from < to <= |slots| && ScanOk(st) && IsEnd(slots[from])
    ensures Visible(slots, from, st) == [] == Visible(slots, to, Fresh())
  {
    assert to < |slots| ==> IsEnd(slots[to]);
  }

  /** A free run shows nothing. */
  lemma {:induction false} FreeShown(slots: seq<Slot>, from: nat, to: nat, st: Scan)
    requires AllFit(slots) && EndClean(slots) && from < to <= |slots| && ScanOk(st)
    requires forall j :: from <= j < to ==> IsFree(slots[j])
    ensures Visible(slots, from, st) == Visible(slots, to, Fresh())
    decreases |slots| - from
  {
    hide Step, Visible, Fits, EndClean, Fresh, IsShort, IsEnd, IsDeleted;
    FreeSlot(slots[from]);
    if IsEnd(slots[from]) {
      EndsHere(slots, from, to, st);
    } else {
      StepBroken(st, slots[from]);
      Silent(slots, from, st);
      if from + 1 == to {
        Forgets(slots, to, Step(st, slots[from]), Fresh());
      } else {
        FreeShown(slots, from + 1, to, Step(st, slots[from]));
      }
    }
  }

  /** `shown` has entry `e`, and without it is `before`. An entry whose name begins with the byte of
      the deletion mark does not show. */
  ghost predicate Created(before: seq<Entry>, shown: seq<Entry>, e: Entry) {
    if IsDeleted(e.slot) then shown == before else e in shown && Without(shown, e.at) == before
  }

  lemma OldFromHere(slots: seq<Slot>, slots': seq<Slot>, p: nat, added: seq<Slot>, st: Scan)
    requires added != [] && Room(slots, p, |added|) && ScanOk(st) && slots' == Placed(slots, p, added) && AllFit(slots')
    ensures Visible(slots, p, st) == Visible(slots', p + |added|, Fresh())
  {
    hide Placed, Step, NameOf, Visible, Fits;
    FreeShown(slots, p, p + |added|, st);
    Ahead(slots, slots', p + |added|, Fresh());
  }

  lemma NewFromHere(slots: seq<Slot>, slots': seq<Slot>, p: nat, name: seq<Byte>, e: Slot, st: Scan)
    requires NameOk(name) && IsEntry(e) && ScanOk(st) && LongCount(name) < 64 && p + LongCount(name) + 1 <= |slots|
    requires slots' == Placed(slots, p, NewSlots(name, e)) && AllFit(slots')
    ensures Visible(slots', p, st) ==
      (if IsDeleted(e) then [] else [Entry(name, p + LongCount(name), e)]) + Visible(slots', p + LongCount(name) + 1, Fresh())
  {
    hide NewSlots, Placed, Step, NameOf, Visible, Fits;
    RunShown(slots', p, name, e, 0, st);
  }

  lemma CreatedHere(slots: seq<Slot>, slots': seq<Slot>, p: nat, name: seq<Byte>, e: Slot, st: Scan)
    requires NameOk(name) && IsEntry(e) && Room(slots, p, LongCount(name) + 1) && ScanOk(st) && LongCount(name) < 64
    requires slots' == Placed(slots, p, NewSlots(name, e)) && AllFit(slots')
    ensures Created(Visible(slots, p, st), Visible(slots', p, st), Entry(name, p + LongCount(name), e))
  {
    hide NewSlots, Placed, Visible, IsEntry, IsDeleted, Created, Fits, NameOk, AllFit, EndClean, LongCount, IsFree, IsEnd;
    OldFromHere(slots, slots', p, NewSlots(name, e), st);
    NewFromHere(slots, slots', p, name, e, st);
    CreatedFirst(Entry(name, p + LongCount(name), e), Visible(slots', p + LongCount(name) + 1, Fresh()));
  }

  lemma CreatedFirst(e: Entry, rest: seq<Entry>)
    requires forall k :: 0 <= k < |rest| ==> rest[k].at != e.at
    ensures Created(rest, (if IsDeleted(e.slot) then [] else [e]) + rest, e)
  {
    WithoutOwn(e, rest);
  }

  lemma ShownBefore(slots: seq<Slot>, slots': seq<Slot>, from: nat, st: Scan, e: Entry)
    requires AllFit(slots) && AllFit(slots') && |slots'| == |slots| && ScanOk(st)
    requires from < e.at && from < |slots| && slots'[from] == slots[from] && !IsEnd(slots[from])
    requires Created(Visible(slots, from + 1, Step(st, slots[from])), Visible(slots', from + 1, Step(st, slots[from])), e)
    ensures Created(Visible(slots, from, st), Visible(slots', from, st), e)
  {
    hide Step, NameOf, Without;
    WithoutShown(st, slots[from], from, Visible(slots', from + 1, Step(st, slots[from])), e.at);
  }

  /** Creation shows one more entry, under exactly the name asked for, and nothing else changes. */
  lemma {:induction false} CreatedVisible(slots: seq<Slot>, slots': seq<Slot>, p: nat, name: seq<Byte>, e: Slot, from: nat, st: Scan)
    requires NameOk(name) && IsEntry(e) && Room(slots, p, LongCount(name) + 1) && LongCount(name) < 64
    requires slots' == Placed(slots, p, NewSlots(name, e)) && AllFit(slots') && from <= p && ScanOk(st)
    ensures Created(Visible(slots, from, st), Visible(slots', from, st), Entry(name, p + LongCount(name), e))
    decreases |slots| - from
  {
    hide NewSlots, Placed, NameOf, Visible, Without, Created, Step, Fits;
    if from == p {
      CreatedHere(slots, slots', p, name, e, st);
    } else {
      CreatedVisible(slots, slots', p, name, e, from + 1, Step(st, slots[from]));
      ShownBefore(slots, slots', from, st, Entry(name, p + LongCount(name), e));
    }
  }

  lemma WithoutOwn(e: Entry, rest: seq<Entry>)
    requires forall k :: 0 <= k < |rest| ==> rest[k].at != e.at
    ensures Without([e] + rest, e.at) == rest
  {
    WithoutNone(rest, e.at);
    assert ([e] + rest)[1..] == rest;
  }

  // ---- entries without a long name ----

  predicate IsLongSlot(s: Slot) {
    !IsFree(s) && IsLfn(s)
  }

  /** No run of long-name slots stops short of its entry. */
  ghost predicate RunsComplete(slots: seq<Slot>) {
    forall i :: 0 <= i < |slots| && IsLongSlot(slots[i]) ==> i + 1 < |slots| && !IsFree(slots[i + 1])
  }

  lemma {:induction false} ShortCreated(slots: seq<Slot>, slots': seq<Slot>, p: nat, e: Slot, from: nat, st: Scan)
    requires IsEntry(e) && Room(slots, p, 1) && RunsComplete(slots) && slots' == Placed(slots, p, [e]) && AllFit(slots')
    requires from <= p && ScanOk(st) && (from == p ==> !st.valid)
    ensures Created(Visible(slots, from, st), Visible(slots', from, st), Entry(ShortName(e), p, e))
    decreases |slots| - from
  {
    hide Placed, Fits, Step, ShortName, Without;
    if from == p {
      FreeShown(slots, p, p + 1, st);
      StepBroken(st, e);
      Forgets(slots', p + 1, Step(st, e), Fresh());
      Ahead(slots, slots', p + 1, Fresh());
      WithoutOwn(Entry(ShortName(e), p, e), Visible(slots', p + 1, Fresh()));
    } else {
      StepBroken(st, slots[from]);
      assert from + 1 == p ==> !IsLongSlot(slots[from]) by {
        assert IsFree(slots[p]);
      }
      ShortCreated(slots, slots', p, e, from + 1, Step(st, slots[from]));
      ShownBefore(slots, slots', from, st, Entry(ShortName(e), p, e));
    }
  }

  /** A directory grown by empty clusters shows what it showed. */
  lemma {:induction false} EmptySlots(slots: seq<Slot>, more: seq<Slot>, from: nat, st: Scan)
    requires from <= |slots| && ScanOk(st) && AllFit(slots) && AllFit(slots + more)
    requires forall i :: 0 <= i < |more| ==> IsEnd(more[i])
    ensures Visible(slots + more, from, st) == Visible(slots, from, st)
    decreases |slots| - from
  {
    hide Fits;
    if from < |slots| && !IsEnd(slots[from]) {
      EmptySlots(slots, more, from + 1, Step(st, slots[from]));
    } else if from == |slots| && more != [] {
      assert (slots + more)[from] == more[0];
    }
  }

  // ---- a new entry is found ----

  lemma {:induction false} VisibleOrder(slots: seq<Slot>, from: nat, st: Scan, j: nat, k: nat)
    requires from <= |slots| && AllFit(slots) && ScanOk(st) && j < k < |Visible(slots, from, st)|
    ensures Visible(slots, from, st)[j].at < Visible(slots, from, st)[k].at
    decreases |slots| - from
  {
    hide Step, NameOf, Fits;
    var rest := Visible(slots, from + 1, Step(st, slots[from]));
    if !IsShort(slots[from]) {
      Silent(slots, from, st);
      VisibleOrder(slots, from + 1, Step(st, slots[from]), j, k);
    } else if j > 0 {
      VisibleOrder(slots, from + 1, Step(st, slots[from]), j - 1, k - 1);
    }
  }

  lemma {:induction false} WithoutKeeps(es: seq<Entry>, at: nat, e: Entry)
    requires e in es && e.at != at
    ensures e in Without(es, at)
  {
    if es[0] != e {
      WithoutKeeps(es[1..], at, e);
    }
  }

  /** A created entry is what a lookup of its name finds, if nothing had that name. */
  lemma CreatedFound(slots: seq<Slot>, before: seq<Entry>, e: Entry, key: seq<Byte>)
    requires AllFit(slots) && Created(before, Entries(slots), e) && !IsDeleted(e.slot)
    requires FindName(before, key).None? && Matches(e, key)
    ensures FindName(Entries(slots), key) == Some(e)
  {
    hide Visible, Matches, Without;
    var shown := Entries(slots);
    assert FindName(shown, key).Some?;
    var v := FindName(shown, key).value;
    if v.at != e.at {
      WithoutKeeps(shown, e.at, v);
    } else {
      var j :| 0 <= j < |shown| && shown[j] == v;
      var k :| 0 <= k < |shown| && shown[k] == e;
      if j < k {
        VisibleOrder(slots, 0, Fresh(), j, k);
      } else if k < j {
        VisibleOrder(slots, 0, Fresh(), k, j);
      }
    }
  }
}
