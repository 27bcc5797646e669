/** What a FAT directory shows (kernel/fs/fat32.c:456-565, 1006-1117, 1169-1229): the scan that all
    readers of a directory share, and how deleting and creating entries change its outcome. */
module DirectoryScan {
  import opened Base
  import opened LongNames

  /** The reader's state: the long name gathered so far. */
  datatype Scan = Scan(buffer: seq<Byte>, expected: Byte, valid: bool)

  ghost predicate ScanOk(st: Scan) {
    |st.buffer| == NAME_BUFFER
  }

  ghost predicate AllFit(slots: seq<Slot>) {
    forall i :: 0 <= i < |slots| ==> Fits(slots[i])
  }

  /** A slot that begins a run resets the reader. */
  function Begun(st: Scan, s: Slot): Scan {
    if StartsRun(s) then Scan(ZeroBytes(NAME_BUFFER), SlotChecksum(s), true) else st
  }

  function Gathered(st: Scan, s: Slot): (r: Scan)
    requires |st.buffer| == NAME_BUFFER && Fits(s) && IsLfn(s) && !IsEnd(s) && !IsDeleted(s)
    ensures |r.buffer| == NAME_BUFFER && r.valid == st.valid
  {
    if st.valid && SlotChecksum(s) == st.expected
    then st.(buffer := Patched(st.buffer, (Order(s) - 1) * 13, Chars(s)))
    else st
  }

  /** One slot further. */
  function Step(st: Scan, s: Slot): (r: Scan)
    requires |st.buffer| == NAME_BUFFER && Fits(s) && !IsEnd(s)
    ensures |r.buffer| == NAME_BUFFER
  {
    if IsDeleted(s) || !IsLfn(s) then st.(valid := false) else Gathered(Begun(st, s), s)
  }

  function NameOf(st: Scan, s: Slot): seq<Byte> {
    if st.valid && ChecksumOf(s[..11]) == st.expected then Terminated(st.buffer) else ShortName(s)
  }

  /** A visible entry: its name, where its short slot is, and that slot. */
  datatype Entry = Entry(name: seq<Byte>, at: nat, slot: Slot)

  /** What slot `i` adds to the list. */
  function Shown(st: Scan, s: Slot, i: nat): (r: seq<Entry>)
    ensures forall k :: 0 <= k < |r| ==> r[k].at == i && r[k].slot == s
  {
    if IsShort(s) then [Entry(NameOf(st, s), i, s)] else []
  }

  ghost function Visible(slots: seq<Slot>, from: nat, st: Scan): (r: seq<Entry>)
    requires from <= |slots| && AllFit(slots) && ScanOk(st)
    ensures forall k :: 0 <= k < |r| ==> from <= r[k].at < |slots| && r[k].slot == slots[r[k].at]
    decreases |slots| - from
  {
    if from == |slots| || IsEnd(slots[from]) then []
    else
      Shown(st, slots[from], from) + Visible(slots, from + 1, Step(st, slots[from]))
  }

  /** The reader before the first slot. Its buffer is never read. */
  function Fresh(): (r: Scan)
    ensures |r.buffer| == NAME_BUFFER && !r.valid
  {
    Scan(ZeroBytes(NAME_BUFFER), 0, false)
  }

  ghost function Entries(slots: seq<Slot>): seq<Entry>
    requires AllFit(slots)
  {
    Visible(slots, 0, Fresh())
  }

  // ---- looking up ----

  predicate Matches(e: Entry, key: seq<Byte>) {
    UpperAll(e.name) == UpperAll(key)
  }

  /** Names match exactly if they differ in nothing but the case of letters. */
  lemma MatchesIff(e: Entry, key: seq<Byte>)
    ensures Matches(e, key) <==> |e.name| == |key| && forall i :: 0 <= i < |key| ==> SameLetter(e.name[i], key[i])
  {
    hide UpperAll, Upper, SameLetter;
    forall i | 0 <= i < |key| && i < |e.name|
      ensures UpperAll(e.name)[i] == UpperAll(key)[i] <==> SameLetter(e.name[i], key[i])
    {
      UpperIff(e.name[i], key[i]);
    }
    if Matches(e, key) {
      assert |UpperAll(e.name)| == |UpperAll(key)|;
      forall i | 0 <= i < |key|
        ensures SameLetter(e.name[i], key[i])
      {
        assert UpperAll(e.name)[i] == UpperAll(key)[i];
      }
    }
    if |e.name| == |key| && forall i :: 0 <= i < |key| ==> SameLetter(e.name[i], key[i]) {
      assert UpperAll(e.name) == UpperAll(key);
    }
  }

  /** The first entry with that name, ignoring case. */
  function FindName(es: seq<Entry>, key: seq<Byte>): (r: Option<Entry>)
    ensures r.None? <==> forall k :: 0 <= k < |es| ==> !Matches(es[k], key)
    ensures r.Some? ==> Matches(r.value, key) && r.value in es
  {
    if es == [] then None else if Matches(es[0], key) then Some(es[0]) else FindName(es[1..], key)
  }

  /** The list without the entry at slot `at`. */
  function Without(es: seq<Entry>, at: nat): seq<Entry> {
    if es == [] then [] else (if es[0].at == at then [] else [es[0]]) + Without(es[1..], at)
  }

  lemma {:induction false} WithoutNone(es: seq<Entry>, at: nat)
    requires forall k :: 0 <= k < |es| ==> es[k].at != at
    ensures Without(es, at) == es
  {
    if es != [] {
      WithoutNone(es[1..], at);
    }
  }

  /** What the scan from `from` on shows after a deletion of slot `at`. */
  lemma WithoutShown(st: Scan, s: Slot, i: nat, rest: seq<Entry>, at: nat)
    ensures Without(Shown(st, s, i) + rest, at) == (if i == at then [] else Shown(st, s, i)) + Without(rest, at)
  {
    hide NameOf;
    if IsShort(s) {
      assert (Shown(st, s, i) + rest)[1..] == rest;
    } else {
      assert Shown(st, s, i) + rest == rest;
    }
  }

  // ---- the scan forgets ----

  /** Once a run is broken, what was gathered no longer matters. */
  lemma {:induction false} Forgets(slots: seq<Slot>, from: nat, st: Scan, st': Scan)
    requires from <= |slots| && AllFit(slots) && ScanOk(st) && ScanOk(st') && !st.valid && !st'.valid
    ensures Visible(slots, from, st) == Visible(slots, from, st')
    decreases |slots| - from
  {
    if from < |slots| && !IsEnd(slots[from]) {
      var s := slots[from];
      if !IsDeleted(s) && IsLfn(s) && StartsRun(s) {
        assert Step(st, s) == Step(st', s);
      } else {
        Forgets(slots, from + 1, Step(st, s), Step(st', s));
      }
    }
  }

  /** Only the slots still ahead matter. */
  lemma {:induction false} Ahead(slots: seq<Slot>, slots': seq<Slot>, from: nat, st: Scan)
    requires from <= |slots| == |slots'| && AllFit(slots) && AllFit(slots') && ScanOk(st)
    requires forall i :: from <= i < |slots| ==> slots'[i] == slots[i]
    ensures Visible(slots', from, st) == Visible(slots, from, st)
    decreases |slots| - from
  {
    if from < |slots| && !IsEnd(slots[from]) {
      Ahead(slots, slots', from + 1, Step(st, slots[from]));
    }
  }

  // ---- deleting ----

  function Killed(s: Slot): Slot {
    s[0 := DELETED]
  }

  /** A continuation slot of a run. */
  predicate IsRest(s: Slot) {
    !IsEnd(s) && !IsDeleted(s) && IsLfn(s) && !StartsRun(s)
  }

  /** Slots `start` to `i` are a run of long-name slots and the short entry it belongs to. */
  ghost predicate RunTo(slots: seq<Slot>, start: nat, i: nat) {
    && start <= i < |slots| && IsShort(slots[i])
    && (start < i ==> !IsEnd(slots[start]) && !IsDeleted(slots[start]) && IsLfn(slots[start]) && StartsRun(slots[start]))
    && forall j :: start < j < i ==> IsRest(slots[j])
  }

  /** Some slots of the run are deleted, the first and the last for certain. */
  ghost predicate Deleted(slots: seq<Slot>, slots': seq<Slot>, start: nat, i: nat) {
    && |slots'| == |slots| && start <= i < |slots| && slots'[start] == Killed(slots[start]) && slots'[i] == Killed(slots[i])
    && (forall j :: 0 <= j < |slots| && !(start <= j <= i) ==> slots'[j] == slots[j])
    && (forall j :: start < j < i ==> slots'[j] == slots[j] || slots'[j] == Killed(slots[j]))
  }

  lemma DeletedFit(slots: seq<Slot>, slots': seq<Slot>, start: nat, i: nat)
    requires Deleted(slots, slots', start, i) && AllFit(slots)
    ensures AllFit(slots')
  {
    forall j | 0 <= j < |slots'|
      ensures Fits(slots'[j])
    {
      assert Fits(slots[j]);
    }
  }

  lemma StepBroken(st: Scan, s: Slot)
    requires ScanOk(st) && Fits(s) && !IsEnd(s)
    ensures IsDeleted(s) || IsShort(s) ==> !Step(st, s).valid
    ensures IsRest(s) && !st.valid ==> !Step(st, s).valid
  {
    hide Gathered;
  }

  lemma KilledSlot(s: Slot)
    ensures IsDeleted(Killed(s)) && !IsEnd(Killed(s)) && !IsShort(Killed(s))
  {
  }

  /** At the deleted entry itself. */
  lemma EntrySkipped(slots: seq<Slot>, slots': seq<Slot>, i: nat, st: Scan, st': Scan)
    requires AllFit(slots) && AllFit(slots') && |slots'| == |slots| && i < |slots| && IsShort(slots[i]) && slots'[i] == Killed(slots[i])
    requires forall j :: i < j < |slots| ==> slots'[j] == slots[j]
    requires ScanOk(st) && ScanOk(st')
    ensures Visible(slots', i, st') == Without(Visible(slots, i, st), i)
  {
    hide Step, NameOf, Killed;
    KilledSlot(slots[i]);
    var next, next' := Step(st, slots[i]), Step(st', slots'[i]);
    StepBroken(st, slots[i]);
    StepBroken(st', slots'[i]);
    Ahead(slots, slots', i + 1, next');
    Forgets(slots, i + 1, next, next');
    WithoutNone(Visible(slots, i + 1, next), i);
    WithoutShown(st, slots[i], i, Visible(slots, i + 1, next), i);
  }

  lemma Silent(slots: seq<Slot>, from: nat, st: Scan)
    requires from < |slots| && AllFit(slots) && ScanOk(st) && !IsEnd(slots[from]) && !IsShort(slots[from])
    ensures Visible(slots, from, st) == Visible(slots, from + 1, Step(st, slots[from]))
  {
    hide Step, NameOf;
  }

  lemma RunSlot(slots: seq<Slot>, slots': seq<Slot>, start: nat, i: nat, j: nat, st: Scan)
    requires AllFit(slots') && RunTo(slots, start, i) && Deleted(slots, slots', start, i) && start < j < i && ScanOk(st) && !st.valid
    ensures j < |slots| && |slots'| == |slots| && !IsEnd(slots[j]) && !IsShort(slots[j]) && !IsEnd(slots'[j]) && !IsShort(slots'[j])
    ensures !Step(st, slots'[j]).valid
  {
    hide Step;
    StepBroken(st, slots'[j]);
  }

  lemma RunEnd(slots: seq<Slot>, slots': seq<Slot>, start: nat, i: nat)
    requires RunTo(slots, start, i) && Deleted(slots, slots', start, i)
    ensures |slots'| == |slots| && i < |slots| && IsShort(slots[i]) && slots'[i] == Killed(slots[i])
    ensures forall j :: i < j < |slots| ==> slots'[j] == slots[j]
  {
  }

  /** Inside the run: the old scan arrives at the entry, the new one passes over it. */
  lemma {:induction false} RunSkipped(slots: seq<Slot>, slots': seq<Slot>, start: nat, i: nat, from: nat, st: Scan, st': Scan)
    requires AllFit(slots) && AllFit(slots') && RunTo(slots, start, i) && Deleted(slots, slots', start, i)
    requires start < from <= i && ScanOk(st) && ScanOk(st') && !st'.valid
    ensures Visible(slots', from, st') == Without(Visible(slots, from, st), i)
    decreases i - from
  {
    hide Step, NameOf, Killed, Without, Visible, RunTo, Deleted, IsShort, IsEnd, IsDeleted, Fits, IsRest;
    if from == i {
      RunEnd(slots, slots', start, i);
      EntrySkipped(slots, slots', i, st, st');
    } else {
      RunSlot(slots, slots', start, i, from, st');
      Silent(slots, from, st);
      Silent(slots', from, st');
      RunSkipped(slots, slots', start, i, from + 1, Step(st, slots[from]), Step(st', slots'[from]));
    }
  }

  /** After a deletion the directory shows what it showed before, minus that one entry. */
  lemma {:induction false} DeletedVisible(slots: seq<Slot>, slots': seq<Slot>, start: nat, i: nat, from: nat, st: Scan)
    requires AllFit(slots) && AllFit(slots') && RunTo(slots, start, i) && Deleted(slots, slots', start, i)
    requires from <= start && ScanOk(st) && forall j :: from <= j <= i ==> !IsEnd(slots[j])
    ensures Visible(slots', from, st) == Without(Visible(slots, from, st), i)
    decreases start - from
  {
    hide Step, NameOf, Killed, Without;
    if from == i {
      EntrySkipped(slots, slots', i, st, st);
    } else if from < start {
      var next := Step(st, slots[from]);
      DeletedVisible(slots, slots', start, i, from + 1, next);
      WithoutShown(st, slots[from], from, Visible(slots, from + 1, next), i);
    } else {
      KilledSlot(slots[start]);
      StepBroken(st, slots'[start]);
      Silent(slots, start, st);
      Silent(slots', start, st);
      RunSkipped(slots, slots', start, i, from + 1, Step(st, slots[start]), Step(st, slots'[start]));
    }
  }
}
