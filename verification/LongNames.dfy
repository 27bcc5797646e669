/** Directory slots and the long-name codec of kernel/fs/fat32.c: filling slots on creation and
    extracting their characters on every scan. */
module LongNames {
  import opened Base

  const SLOT_SIZE: nat := 32
  const NAME_BUFFER: nat := 256
  const LFN: Byte := 0x0F
  const DELETED: Byte := 0xE5

  /** A directory record; long-name slots and short entries share the 32 bytes. */
  type Slot = s: seq<Byte> | |s| == SLOT_SIZE witness ZeroBytes(SLOT_SIZE)

  predicate IsEnd(s: Slot) {
    s[0] == 0
  }

  predicate IsDeleted(s: Slot) {
    s[0] == DELETED
  }

  predicate IsLfn(s: Slot) {
    s[11] == LFN
  }

  /** A short entry in use. */
  predicate IsShort(s: Slot) {
    !IsEnd(s) && !IsDeleted(s) && !IsLfn(s)
  }

  /** Sequence number of a long-name slot, and whether it is the first of its run. */
  function Order(s: Slot): (r: nat)
    ensures r < 64 && (s[0] - r) % 64 == 0
  {
    s[0] % 64
  }

  predicate StartsRun(s: Slot)
    ensures StartsRun(s) <==> (s[0] as bv8) & 0x40 != 0
  {
    s[0] / 64 % 2 == 1
  }

  function SlotChecksum(s: Slot): Byte {
    s[13]
  }

  /** Where unit `k` of the 13 is stored. */
  function UnitAt(k: nat): (r: nat)
    requires k < 13
    ensures r + 2 <= SLOT_SIZE
  {
    if k < 5 then 1 + 2 * k else if k < 11 then 14 + 2 * (k - 5) else 28 + 2 * (k - 11)
  }

  function Unit(s: Slot, k: nat): nat
    requires k < 13
  {
    (s[UnitAt(k)] as nat) + 256 * (s[UnitAt(k) + 1] as nat)
  }

  predicate EndsName(unit: nat) {
    unit == 0 || unit == 0xFFFF
  }

  /** How many characters lfn_extract_chars takes from a slot. */
  function Count(s: Slot, from: nat := 0): (r: nat)
    requires from <= 13
    ensures from <= r <= 13
    ensures forall k {:trigger Unit(s, k)} :: from <= k < r ==> !EndsName(Unit(s, k))
    ensures r < 13 ==> EndsName(Unit(s, r))
    decreases 13 - from
  {
    if from == 13 || EndsName(Unit(s, from)) then from else Count(s, from + 1)
  }

  function Chars(s: Slot): (r: seq<Byte>)
    ensures |r| == Count(s)
    ensures forall k :: 0 <= k < |r| ==> r[k] == Unit(s, k) % 256
  {
    CharsUpTo(s, Count(s))
  }

  function CharsUpTo(s: Slot, n: nat): (r: seq<Byte>)
    requires n <= 13
    ensures |r| == n
    ensures forall k :: 0 <= k < n ==> r[k] == Unit(s, k) % 256
  {
    if n == 0 then [] else CharsUpTo(s, n - 1) + [Unit(s, n - 1) % 256]
  }

  /** The slot's characters fall inside the name buffer, with room for the terminator. */
  predicate Fits(s: Slot) {
    IsLfn(s) && !IsEnd(s) && !IsDeleted(s) ==> 1 <= Order(s) && (Order(s) - 1) * 13 + Count(s) < NAME_BUFFER - 1
  }

  /** lfn_extract_chars: the characters of a slot go to their place in the buffer. */
  method ExtractChars(s: Slot, buffer: array<Byte>, start: nat)
    requires buffer.Length == NAME_BUFFER && start + Count(s) <= NAME_BUFFER
    modifies buffer
    ensures buffer[..] == Patched(old(buffer[..]), start, Chars(s))
  {
    hide Patched;
    ghost var was := buffer[..];
    var pos := start;
    for i := 0 to 13
      invariant pos == start + i && i <= Count(s)
      invariant buffer[..] == Patched(was, start, CharsUpTo(s, i))
    {
      if EndsName(Unit(s, i)) {
        assert i == Count(s);
        return;
      }
      buffer[pos] := Unit(s, i) % 256;
      PatchedNext(was, start, CharsUpTo(s, i), Unit(s, i) % 256);
      pos := pos + 1;
    }
  }

  lemma PatchedNext(was: seq<Byte>, at: nat, bytes: seq<Byte>, b: Byte)
    requires at + |bytes| < |was|
    ensures Patched(was, at, bytes)[at + |bytes| := b] == Patched(was, at, bytes + [b])
  {
  }

  /** lfn_checksum: rotate right and add, over 11 bytes. */
  function ChecksumOf(bytes: seq<Byte>): Byte {
    if bytes == [] then 0 else
      var sum := ChecksumOf(bytes[..|bytes| - 1]);
      ((if sum % 2 == 1 then 0x80 else 0) + sum / 2 + bytes[|bytes| - 1]) % 256
  }

  method Checksum(s: Slot) returns (sum: Byte)
    ensures sum == ChecksumOf(s[..11])
  {
    sum := 0;
    for i := 0 to 11
      invariant sum == ChecksumOf(s[..i])
    {
      assert s[..i + 1][..i] == s[..i];
      sum := ((if sum % 2 == 1 then 0x80 else 0) + sum / 2 + s[i]) % 256;
    }
  }

  // ---- C strings ----

  function Terminated(buffer: seq<Byte>): (r: seq<Byte>)
    ensures |r| <= |buffer| && r == buffer[..|r|] && 0 !in r
    ensures |r| < |buffer| ==> buffer[|r|] == 0
  {
    if buffer == [] || buffer[0] == 0 then [] else [buffer[0]] + Terminated(buffer[1..])
  }

  function UpTo(bytes: seq<Byte>, stop: Byte): (r: seq<Byte>)
    ensures |r| <= |bytes|
  {
    if bytes == [] || bytes[0] == stop then [] else [bytes[0]] + UpTo(bytes[1..], stop)
  }

  /** fat_get_short_name: base, and a dot and extension if there is one. */
  function ShortName(s: Slot): seq<Byte> {
    Terminated(UpTo(s[..8], ' ' as nat) + if s[8] == ' ' as nat then [] else ['.' as nat] + UpTo(s[8..11], ' ' as nat))
  }

  function Upper(c: Byte): Byte {
    if 'a' as nat <= c <= 'z' as nat then c - 32 else c
  }

  /** The same letter, whatever its case; anything but letters is only like itself. */
  predicate SameLetter(c: Byte, d: Byte) {
    c == d || ('A' as nat <= c <= 'Z' as nat && d == c + 32) || ('A' as nat <= d <= 'Z' as nat && c == d + 32)
  }

  lemma UpperIff(c: Byte, d: Byte)
    ensures Upper(c) == Upper(d) <==> SameLetter(c, d)
  {
  }

  function UpperAll(s: seq<Byte>): (r: seq<Byte>)
    ensures |r| == |s|
    ensures forall i :: 0 <= i < |s| ==> r[i] == Upper(s[i])
  {
    if s == [] then [] else UpperAll(s[..|s| - 1]) + [Upper(s[|s| - 1])]
  }

  // ---- filling ----

  function UnitFor(name: seq<Byte>, pos: nat): (r: nat)
    ensures r < 0x10000
  {
    if pos < |name| then name[pos] else if pos == |name| then 0 else 0xFFFF
  }

  function Low(name: seq<Byte>, pos: nat): Byte {
    UnitFor(name, pos) % 256
  }

  function High(name: seq<Byte>, pos: nat): Byte {
    UnitFor(name, pos) / 256
  }

  /** fill_lfn_entry. */
  function Filled(name: seq<Byte>, order: nat, last: bool, checksum: Byte): Slot
    requires 1 <= order < 64
  {
    var p := (order - 1) * 13;
    [order + if last then 64 else 0,
     Low(name, p), High(name, p), Low(name, p + 1), High(name, p + 1), Low(name, p + 2), High(name, p + 2),
     Low(name, p + 3), High(name, p + 3), Low(name, p + 4), High(name, p + 4),
     LFN, 0, checksum,
     Low(name, p + 5), High(name, p + 5), Low(name, p + 6), High(name, p + 6), Low(name, p + 7), High(name, p + 7),
     Low(name, p + 8), High(name, p + 8), Low(name, p + 9), High(name, p + 9), Low(name, p + 10), High(name, p + 10),
     0, 0,
     Low(name, p + 11), High(name, p + 11), Low(name, p + 12), High(name, p + 12)]
  }

  /** The bytes of a filled slot: order and last mark, attribute, type and checksum, no cluster; the 13 units hold
      the name, then its end, then the filler. */
  lemma FilledBytes(name: seq<Byte>, order: nat, last: bool, checksum: Byte, k: nat)
    requires 1 <= order < 64 && k < 13
    ensures var s := Filled(name, order, last, checksum);
      && s[0] == order + (if last then 0x40 else 0) && s[11] == 0x0F && s[12] == 0 && s[13] == checksum && s[26] == s[27] == 0
      && var pos := (order - 1) * 13 + k;
      && (pos < |name| ==> s[UnitAt(k)] == name[pos] && s[UnitAt(k) + 1] == 0)
      && (pos == |name| ==> s[UnitAt(k)] == 0 == s[UnitAt(k) + 1])
      && (pos > |name| ==> s[UnitAt(k)] == 0xFF == s[UnitAt(k) + 1])
  {
    hide Filled, UnitAt, UnitFor, Low, High;
    FilledHead(name, order, last, checksum);
    FilledPlace(name, order, last, checksum, k);
    UnitBytes(name, (order - 1) * 13 + k);
  }

  lemma FilledHead(name: seq<Byte>, order: nat, last: bool, checksum: Byte)
    requires 1 <= order < 64
    ensures var s := Filled(name, order, last, checksum);
      s[0] == order + (if last then 0x40 else 0) && s[11] == 0x0F && s[12] == 0 && s[13] == checksum && s[26] == s[27] == 0
  {
    hide UnitFor, Low, High;
  }

  lemma FilledPlace(name: seq<Byte>, order: nat, last: bool, checksum: Byte, k: nat)
    requires 1 <= order < 64 && k < 13
    ensures Filled(name, order, last, checksum)[UnitAt(k)] == Low(name, (order - 1) * 13 + k)
    ensures Filled(name, order, last, checksum)[UnitAt(k) + 1] == High(name, (order - 1) * 13 + k)
  {
    hide UnitFor, Low, High;
  }

  lemma UnitBytes(name: seq<Byte>, pos: nat)
    ensures pos < |name| ==> Low(name, pos) == name[pos] && High(name, pos) == 0
    ensures pos == |name| ==> Low(name, pos) == 0 == High(name, pos)
    ensures pos > |name| ==> Low(name, pos) == 0xFF == High(name, pos)
  {
  }

  lemma FilledUnit(name: seq<Byte>, order: nat, last: bool, checksum: Byte, k: nat)
    requires 1 <= order < 64 && k < 13
    ensures Unit(Filled(name, order, last, checksum), k) == UnitFor(name, (order - 1) * 13 + k)
  {
    hide UnitFor, Filled, UnitAt;
    FilledPlace(name, order, last, checksum, k);
  }

  lemma FilledFields(name: seq<Byte>, order: nat, last: bool, checksum: Byte)
    requires 1 <= order < 64
    ensures
      var s := Filled(name, order, last, checksum);
      IsLfn(s) && !IsEnd(s) && Order(s) == order && (StartsRun(s) <==> last) && SlotChecksum(s) == checksum && !IsDeleted(s)
  {
  }

  function PieceEnd(name: seq<Byte>, p: nat): (r: nat)
    requires p < |name|
    ensures p < r <= |name| && r <= p + 13
  {
    if p + 13 < |name| then p + 13 else |name|
  }

  lemma UnitForEnds(name: seq<Byte>, pos: nat)
    requires 0 !in name
    ensures EndsName(UnitFor(name, pos)) <==> pos >= |name|
    ensures pos < |name| ==> UnitFor(name, pos) % 256 == name[pos]
  {
    assert pos < |name| ==> name[pos] in name;
  }

  /** A filled slot yields its piece of the name. */
  lemma FilledChars(name: seq<Byte>, order: nat, last: bool, checksum: Byte)
    requires 1 <= order < 64 && (order - 1) * 13 < |name| && 0 !in name
    ensures Chars(Filled(name, order, last, checksum)) == name[(order - 1) * 13..PieceEnd(name, (order - 1) * 13)]
  {
    hide Filled, Unit, UnitFor, EndsName, Chars;
    var s, p := Filled(name, order, last, checksum), (order - 1) * 13;
    forall k | 0 <= k < 13
      ensures EndsName(Unit(s, k)) <==> p + k >= |name|
      ensures p + k < |name| ==> Unit(s, k) % 256 == name[p + k]
    {
      FilledUnit(name, order, last, checksum, k);
      UnitForEnds(name, p + k);
    }
    var n := Count(s);
    assert n < 13 ==> EndsName(Unit(s, n));
    assert n > 0 ==> !EndsName(Unit(s, n - 1));
    assert n == PieceEnd(name, p) - p;
  }
}
