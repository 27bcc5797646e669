/** Signal state and signal frames of one process (kernel/syscalls/kill.c). */
module Signals {
  import opened Base

  type Mask = bv32

  type Word = n: nat | n < 0x1_0000_0000_0000_0000

  const NSIG: nat := 32
  const SIGKILL: nat := 9
  const SIGCONT: nat := 18
  const SIGSTOP: nat := 19
  const U64: nat := 0x1_0000_0000_0000_0000

  const SIG_DFL: Word := 0
  const SIG_BLOCK: int := 0
  const SIG_UNBLOCK: int := 1
  const SIG_SETMASK: int := 2
  const SA_NODEFER: bv32 := 0x4000_0000
  const SA_RESETHAND: bv32 := 0x8000_0000

  /** sigmask. */
  function SigMask(sig: nat): Mask
    requires 1 <= sig <= NSIG
  {
    (1 as bv32) << (sig - 1)
  }

  const KERNEL_ONLY: Mask := 0x0004_0100  // SIGKILL and SIGSTOP
  const STOPS: Mask := 0x003C_0000  // SIGSTOP, SIGTSTP, SIGTTIN and SIGTTOU, numbers 19 to 22
  const CONT: Mask := 0x0002_0000  // SIGCONT

  datatype Action = Action(handler: Word, mask: Mask, flags: bv32)

  /** SIGKILL and SIGSTOP are neither blocked nor handled, no handler's mask names them, and SIGCONT is
      not pending together with a stop signal. */
  ghost predicate StateOk(pending: Mask, blocked: Mask, actions: seq<Action>) {
    && |actions| == NSIG && Free(blocked)
    && (forall i :: 0 <= i < NSIG ==> Free(actions[i].mask))
    && actions[SIGKILL - 1].handler == SIG_DFL && actions[SIGSTOP - 1].handler == SIG_DFL
    && Compatible(pending)
  }

  /** Neither SIGKILL nor SIGSTOP. */
  predicate Free(m: Mask) {
    m & KERNEL_ONLY == 0
  }

  predicate Compatible(pending: Mask) {
    pending & CONT == 0 || pending & STOPS == 0
  }

  predicate Has(m: Mask, sig: nat)
    requires 1 <= sig <= NSIG
  {
    m & SigMask(sig) != 0
  }

  function Deliverable(pending: Mask, blocked: Mask): Mask {
    pending & !blocked
  }

  function Without(m: Mask, n: Mask): Mask {
    m & !n
  }

  function Intersection(m: Mask, n: Mask): Mask {
    m & n
  }

  function Union(m: Mask, n: Mask): Mask {
    m | n
  }

  /** signal_send. */
  function Sent(pending: Mask, sig: nat): Mask
    requires 1 <= sig <= NSIG
  {
    var p := if sig == SIGCONT then Without(pending, STOPS) else pending;
    var q := if IsStop(sig) then Without(p, CONT) else p;
    Union(q, SigMask(sig))
  }

  predicate IsStop(sig: nat)
    requires 1 <= sig <= NSIG
  {
    SigMask(sig) & STOPS != 0
  }

  lemma SentOk(pending: Mask, sig: nat)
    requires 1 <= sig <= NSIG && Compatible(pending)
    ensures Compatible(Sent(pending, sig)) && Has(Sent(pending, sig), sig)
  {
    hide SigMask, Compatible, Union, Without, IsStop, Has;
    if sig == SIGCONT {
      SentCont(pending);
    } else if IsStop(sig) {
      SentStop(pending, sig);
    } else {
      SentOther(pending, sig);
    }
    SentHas(pending, sig);
    SentHas(Without(pending, STOPS), sig);
    SentHas(Without(pending, CONT), sig);
  }

  lemma SentIs(pending: Mask, sig: nat)
    requires 1 <= sig <= NSIG
    ensures
      var p := if sig == SIGCONT then Without(pending, STOPS) else pending;
      Sent(pending, sig) == Union(if IsStop(sig) then Without(p, CONT) else p, SigMask(sig))
  {
    hide Without, Union, IsStop, SigMask;
  }

  lemma SentHas(p: Mask, sig: nat)
    requires 1 <= sig <= NSIG
    ensures Has(Union(p, SigMask(sig)), sig)
  {
    SigMaskSet(sig);
    OrHas(p, SigMask(sig));
  }

  lemma SigMaskSet(sig: nat)
    requires 1 <= sig <= NSIG
    ensures SigMask(sig) != 0
  {
  }

  lemma OrHas(p: Mask, m: Mask)
    requires m != 0
    ensures (p | m) & m != 0
  {
  }

  lemma SentCont(pending: Mask)
    ensures !IsStop(SIGCONT) && Compatible(Union(Without(pending, STOPS), SigMask(SIGCONT)))
  {
    assert SigMask(SIGCONT) == CONT;
    hide SigMask;
  }

  lemma NotCont(sig: nat)
    requires 1 <= sig <= NSIG && sig != SIGCONT
    ensures SigMask(sig) & CONT == 0
  {
  }

  lemma SentStop(pending: Mask, sig: nat)
    requires 1 <= sig <= NSIG && sig != SIGCONT
    ensures Compatible(Union(Without(pending, CONT), SigMask(sig)))
  {
    NotCont(sig);
    hide SigMask;
  }

  lemma SentOther(pending: Mask, sig: nat)
    requires 1 <= sig <= NSIG && sig != SIGCONT && !IsStop(sig) && Compatible(pending)
    ensures Compatible(Union(pending, SigMask(sig)))
  {
    NotCont(sig);
    hide SigMask;
  }

  // ---- masks as sets of signals ----

  ghost function SetOf(m: Mask): set<nat> {
    set i: nat | 1 <= i <= NSIG && Has(m, i)
  }

  predicate IsBit(x: Mask) {
    x != 0 && x & (x - 1) == 0
  }

  lemma BitOf(i: nat)
    requires 1 <= i <= NSIG
    ensures IsBit(SigMask(i))
  {
  }

  function Shifted(k: bv32): Mask {
    if k < 32 then (1 as bv32) << k else 0
  }

  function Amount(i: nat): bv32 {
    if i < 32 then i as bv32 else 0
  }

  lemma AmountBack(i: nat)
    requires i < 32
    ensures i as bv32 < 32 && (i as bv32) as nat == i
  {
  }

  lemma AmountIs(i: nat)
    requires i < 32
    ensures Amount(i) < 32 && Amount(i) as nat == i
  {
    AmountBack(i);
  }

  lemma AmountsDiffer(i: nat, j: nat)
    requires i < 32 && j < 32 && i != j
    ensures Amount(i) != Amount(j) && Amount(i) < 32 && Amount(j) < 32
  {
    hide Amount;
    AmountIs(i);
    AmountIs(j);
  }

  lemma ShiftsDiffer(k: bv32, l: bv32)
    requires k < 32 && l < 32 && k != l
    ensures Shifted(k) != Shifted(l)
  {
  }

  lemma BitShifted(i: nat)
    requires 1 <= i <= NSIG
    ensures SigMask(i) == Shifted(Amount(i - 1))
  {
    AmountBack(i - 1);
  }

  lemma BitsDiffer(i: nat, j: nat)
    requires 1 <= i <= NSIG && 1 <= j <= NSIG && i != j
    ensures SigMask(i) != SigMask(j)
  {
    BitShifted(i);
    BitShifted(j);
    hide SigMask, Shifted, Amount;
    AmountsDiffer(i - 1, j - 1);
    ShiftsDiffer(Amount(i - 1), Amount(j - 1));
  }

  lemma BitsApart(i: nat, j: nat)
    requires 1 <= i <= NSIG && 1 <= j <= NSIG
    ensures Has(SigMask(i), j) <==> i == j
  {
    BitOf(i);
    BitOf(j);
    if i != j {
      BitsDiffer(i, j);
    }
    hide SigMask;
    OneBit(SigMask(i), SigMask(j));
  }

  lemma OneBit(x: Mask, y: Mask)
    requires IsBit(x) && IsBit(y)
    ensures x & y != 0 <==> x == y
  {
  }

  lemma StopBits(i: nat)
    requires 1 <= i <= NSIG
    ensures Has(STOPS, i) <==> 19 <= i <= 22
  {
  }

  lemma KernelBits(i: nat)
    requires 1 <= i <= NSIG
    ensures Has(KERNEL_ONLY, i) <==> i == 9 || i == 19
  {
  }

  lemma ContBit(i: nat)
    requires 1 <= i <= NSIG
    ensures Has(CONT, i) <==> i == 18
  {
  }

  /** The named masks hold the signals they are named for. */
  lemma NamedSets()
    ensures SetOf(STOPS) == {19, 20, 21, 22} && SetOf(KERNEL_ONLY) == {9, 19} && SetOf(CONT) == {18}
  {
    hide Has;
    forall i: nat | 1 <= i <= NSIG
      ensures (Has(STOPS, i) <==> 19 <= i <= 22) && (Has(KERNEL_ONLY, i) <==> i == 9 || i == 19) && (Has(CONT, i) <==> i == 18)
    {
      StopBits(i);
      KernelBits(i);
      ContBit(i);
    }
  }

  lemma OneSignal(sig: nat)
    requires 1 <= sig <= NSIG
    ensures SetOf(SigMask(sig)) == {sig}
  {
    hide SigMask, Has;
    forall i: nat | 1 <= i <= NSIG
      ensures Has(SigMask(sig), i) <==> i == sig
    {
      BitsApart(sig, i);
    }
  }

  lemma UnionSet(m: Mask, n: Mask)
    ensures SetOf(Union(m, n)) == SetOf(m) + SetOf(n)
  {
    hide Has, Union;
    forall i: nat | 1 <= i <= NSIG
      ensures Has(Union(m, n), i) <==> Has(m, i) || Has(n, i)
    {
      UnionHas(m, n, i);
    }
  }

  lemma UnionHas(m: Mask, n: Mask, i: nat)
    requires 1 <= i <= NSIG
    ensures Has(Union(m, n), i) <==> Has(m, i) || Has(n, i)
  {
    hide Has, Union;
    if Has(m, i) {
      InFirst(m, n, i);
    } else if Has(n, i) {
      InSecond(m, n, i);
    } else {
      InNeither(m, n, i);
    }
  }

  lemma InFirst(m: Mask, n: Mask, i: nat)
    requires 1 <= i <= NSIG && Has(m, i)
    ensures Has(Union(m, n), i)
  {
    hide SigMask;
  }

  lemma InSecond(m: Mask, n: Mask, i: nat)
    requires 1 <= i <= NSIG && Has(n, i)
    ensures Has(Union(m, n), i)
  {
    hide SigMask;
  }

  lemma InNeither(m: Mask, n: Mask, i: nat)
    requires 1 <= i <= NSIG && !Has(m, i) && !Has(n, i)
    ensures !Has(Union(m, n), i)
  {
    hide SigMask;
  }

  lemma WithoutSet(m: Mask, n: Mask)
    ensures SetOf(Without(m, n)) == SetOf(m) - SetOf(n) == SetOf(Deliverable(m, n))
  {
    hide Has, Without, Deliverable;
    forall i: nat | 1 <= i <= NSIG
      ensures Has(Without(m, n), i) <==> Has(m, i) && !Has(n, i)
    {
      WithoutHas(m, n, i);
    }
    WithoutIs(m, n);
  }

  lemma WithoutHas(m: Mask, n: Mask, i: nat)
    requires 1 <= i <= NSIG
    ensures Has(Without(m, n), i) <==> Has(m, i) && !Has(n, i)
  {
    hide Has, Without;
    if Has(n, i) {
      Taken(m, n, i);
    } else if Has(m, i) {
      Left(m, n, i);
    } else {
      Absent(m, n, i);
    }
  }

  lemma Taken(m: Mask, n: Mask, i: nat)
    requires 1 <= i <= NSIG && Has(n, i)
    ensures !Has(Without(m, n), i)
  {
    BitOf(i);
    hide SigMask;
  }

  lemma Left(m: Mask, n: Mask, i: nat)
    requires 1 <= i <= NSIG && Has(m, i) && !Has(n, i)
    ensures Has(Without(m, n), i)
  {
    hide SigMask;
  }

  lemma Absent(m: Mask, n: Mask, i: nat)
    requires 1 <= i <= NSIG && !Has(m, i)
    ensures !Has(Without(m, n), i)
  {
    hide SigMask;
  }

  lemma WithoutIs(m: Mask, n: Mask)
    ensures Without(m, n) == Deliverable(m, n)
  {
  }

  /** Sending adds the signal; SIGCONT takes pending stop signals away, and a stop signal a pending SIGCONT. */
  lemma SentSet(pending: Mask, sig: nat)
    requires 1 <= sig <= NSIG
    ensures
      var cancelled := if sig == SIGCONT then {19, 20, 21, 22} else if 19 <= sig <= 22 then {18} else {};
      SetOf(Sent(pending, sig)) == SetOf(pending) - cancelled + {sig}
  {
    hide SetOf, Without, Union, SigMask;
    SentIs(pending, sig);
    NamedSets();
    OneSignal(sig);
    StopBits(sig);
    assert IsStop(sig) <==> 19 <= sig <= 22 by {
      StopIs(sig);
    }
    WithoutSet(pending, STOPS);
    WithoutSet(pending, CONT);
    var p := if sig == SIGCONT then Without(pending, STOPS) else pending;
    UnionSet(if IsStop(sig) then Without(p, CONT) else p, SigMask(sig));
  }

  lemma StopIs(sig: nat)
    requires 1 <= sig <= NSIG
    ensures IsStop(sig) <==> Has(STOPS, sig)
  {
    hide SigMask;
    Commutes(SigMask(sig), STOPS);
  }

  lemma Commutes(m: Mask, n: Mask)
    ensures m & n == n & m
  {
  }

  // ---- masks that stay free of SIGKILL and SIGSTOP ----

  lemma Freed(m: Mask)
    ensures Free(Without(m, KERNEL_ONLY)) && (Free(m) ==> Without(m, KERNEL_ONLY) == m)
  {
  }

  lemma FreeTogether(a: Mask, b: Mask)
    requires Free(a)
    ensures Free(Without(a, b)) && (Free(b) ==> Free(Union(a, b)))
  {
  }

  lemma FreeSignal(sig: nat)
    requires 1 <= sig <= NSIG && sig != SIGKILL && sig != SIGSTOP
    ensures Free(SigMask(sig))
  {
  }

  lemma FewerPending(pending: Mask, m: Mask)
    requires Compatible(pending)
    ensures Compatible(Without(pending, m))
  {
  }

  // ---- frames ----

  function Le(n: nat, k: nat): (r: seq<Byte>)
    ensures |r| == k
  {
    if k == 0 then [] else [n % 256] + Le(n / 256, k - 1)
  }

  function Value(bytes: seq<Byte>): nat {
    if bytes == [] then 0 else bytes[0] + 256 * Value(bytes[1..])
  }

  function Power256(k: nat): nat {
    if k == 0 then 1 else 256 * Power256(k - 1)
  }

  lemma {:induction false} LeValue(n: nat, k: nat)
    requires n < Power256(k)
    ensures Value(Le(n, k)) == n
  {
    if k > 0 {
      LeValue(n / 256, k - 1);
      assert Le(n, k)[1..] == Le(n / 256, k - 1);
    }
  }

  function Words(ws: seq<Word>): (r: seq<Byte>)
    ensures |r| == 8 * |ws|
  {
    if ws == [] then [] else Words(ws[..|ws| - 1]) + Le(ws[|ws| - 1], 8)
  }

  lemma {:induction false} WordAt(ws: seq<Word>, k: nat)
    requires k < |ws|
    ensures Words(ws)[8 * k..8 * k + 8] == Le(ws[k], 8)
  {
    if k < |ws| - 1 {
      WordAt(ws[..|ws| - 1], k);
      assert Words(ws)[8 * k..8 * k + 8] == Words(ws[..|ws| - 1])[8 * k..8 * k + 8];
    }
  }

  const FRAME: nat := 296

  /** What a signal frame saves: x0-x30, stack pointer, program counter, processor state and mask. */
  datatype Frame = Frame(words: seq<Word>, mask: Mask, sig: nat)

  function MaskBytes(m: Mask): (r: seq<Byte>)
    ensures |r| == 4
  {
    Le(m as nat, 4)
  }

  /** sigframe_t in memory. */
  function Encoded(f: Frame): (r: seq<Byte>)
    requires |f.words| == 34
    ensures |r| == FRAME
  {
    Words(f.words) + MaskBytes(f.mask) + Le(f.sig, 4) + Le(0xD280_0CE8, 8) + Le(0xD400_0001, 8)
  }

  function WordIn(bytes: seq<Byte>, k: nat): nat
    requires 8 * k + 8 <= |bytes|
  {
    Value(bytes[8 * k..8 * k + 8])
  }

  lemma EncodedWord(f: Frame, k: nat)
    requires |f.words| == 34 && k < 34
    ensures WordIn(Encoded(f), k) == f.words[k]
  {
    hide Words, Le, Value, Power256, MaskBytes;
    WordAt(f.words, k);
    PrefixSlice(Words(f.words), MaskBytes(f.mask) + Le(f.sig, 4) + Le(0xD280_0CE8, 8) + Le(0xD400_0001, 8), Encoded(f), k);
    Powers();
    LeValue(f.words[k], 8);
  }

  lemma MaskSlice(a: seq<Byte>, b: seq<Byte>, c: seq<Byte>, whole: seq<Byte>)
    requires whole == a + b + c && |a| == 272 && |b| == 4
    ensures whole[272..276] == b
  {
  }

  lemma MaskIs(m: Mask)
    ensures MaskBytes(m) == Le(m as nat, 4) && (m as nat) < 0x1_0000_0000
  {
    hide Le;
  }

  lemma PrefixSlice(a: seq<Byte>, b: seq<Byte>, whole: seq<Byte>, k: nat)
    requires whole == a + b && 8 * k + 8 <= |a|
    ensures whole[8 * k..8 * k + 8] == a[8 * k..8 * k + 8]
  {
  }

  lemma Powers()
    ensures Power256(8) == U64 && Power256(4) == 0x1_0000_0000
  {
    assert Power256(2) == 0x1_0000;
    assert Power256(4) == 0x1_0000_0000;
    assert Power256(6) == 0x1_0000_0000_0000;
  }

  lemma EncodedMask(f: Frame)
    requires |f.words| == 34
    ensures Value(Encoded(f)[272..276]) == f.mask as nat
  {
    hide Words, Le, Value, Power256, MaskBytes;
    MaskSlice(Words(f.words), MaskBytes(f.mask), Le(f.sig, 4) + Le(0xD280_0CE8, 8) + Le(0xD400_0001, 8), Encoded(f));
    MaskIs(f.mask);
    Powers();
    LeValue(f.mask as nat, 4);
  }

  /** The words of the trampoline, as instructions: the move that names the system call, a zero word, which is
      no instruction, and only then the call. */
  lemma Trampoline(f: Frame)
    requires |f.words| == 34
    ensures
      var r := Encoded(f);
      && Value(r[280..284]) == 0xD280_0CE8 && Value(r[284..288]) == 0 && Value(r[288..292]) == 0xD400_0001
  {
    hide Words, Le, Value, Power256, MaskBytes;
    var r, head := Encoded(f), Words(f.words) + MaskBytes(f.mask) + Le(f.sig, 4);
    var one, two := Le(0xD280_0CE8, 8), Le(0xD400_0001, 8);
    assert r == head + one + two && |head| == 280;
    assert r[280..284] == one[..4] && r[284..288] == one[4..] && r[288..292] == two[..4];
    Powers();
    LeSplit(0xD280_0CE8, 4, 4);
    LeSplit(0xD400_0001, 4, 4);
    LeValue(0xD280_0CE8, 4);
    LeValue(0xD400_0001, 4);
    LeZero(4);
  }

  /** A number that needs no more than `j` bytes is followed by zeros. */
  lemma {:induction false} LeSplit(n: nat, j: nat, k: nat)
    requires n < Power256(j)
    ensures Le(n, j + k) == Le(n, j) + Le(0, k)
  {
    if j > 0 {
      LeSplit(n / 256, j - 1, k);
    }
  }

  lemma {:induction false} LeZero(k: nat)
    ensures Value(Le(0, k)) == 0
  {
    if k > 0 {
      LeZero(k - 1);
      assert Le(0, k)[1..] == Le(0, k - 1);
    }
  }

  // ---- user memory ----

  type Pages = map<nat, seq<Byte>>

  ghost predicate PagesOk(pages: Pages) {
    forall p :: p in pages ==> |pages[p]| == PAGE_SIZE
  }

  /** `n` bytes at `addr`, over at most two pages. */
  ghost predicate Holds(pages: Pages, addr: nat, bytes: seq<Byte>) {
    var p, at := addr / PAGE_SIZE, addr % PAGE_SIZE;
    var first := if PAGE_SIZE - at >= |bytes| then |bytes| else PAGE_SIZE - at;
    && p in pages && |pages[p]| == PAGE_SIZE && pages[p][at..at + first] == bytes[..first]
    && (first < |bytes| ==>
          p + 1 in pages && |pages[p + 1]| == PAGE_SIZE && |bytes| - first <= PAGE_SIZE && pages[p + 1][..|bytes| - first] == bytes[first..])
  }

  /** The pages after `bytes` have been written at `addr`. */
  ghost function Stored(pages: Pages, addr: nat, bytes: seq<Byte>): Pages
    requires |bytes| <= PAGE_SIZE && addr / PAGE_SIZE in pages && PagesOk(pages)
    requires addr % PAGE_SIZE + |bytes| > PAGE_SIZE ==> addr / PAGE_SIZE + 1 in pages
  {
    var p, at := addr / PAGE_SIZE, addr % PAGE_SIZE;
    if at + |bytes| <= PAGE_SIZE then pages[p := Patched(pages[p], at, bytes)]
    else
      var first := PAGE_SIZE - at;
      pages[p := Patched(pages[p], at, bytes[..first])][p + 1 := Patched(pages[p + 1], 0, bytes[first..])]
  }

  lemma StoredHolds(pages: Pages, addr: nat, bytes: seq<Byte>)
    requires |bytes| <= PAGE_SIZE && addr / PAGE_SIZE in pages && PagesOk(pages)
    requires addr % PAGE_SIZE + |bytes| > PAGE_SIZE ==> addr / PAGE_SIZE + 1 in pages
    ensures PagesOk(Stored(pages, addr, bytes)) && Holds(Stored(pages, addr, bytes), addr, bytes)
  {
  }

  /** Two runs of bytes held at the same place are the same. */
  lemma HoldsSame(pages: Pages, addr: nat, a: seq<Byte>, b: seq<Byte>)
    requires Holds(pages, addr, a) && Holds(pages, addr, b) && |a| == |b|
    ensures a == b
  {
    var at := addr % PAGE_SIZE;
    var first := if PAGE_SIZE - at >= |a| then |a| else PAGE_SIZE - at;
    assert a == a[..first] + a[first..];
    assert b == b[..first] + b[first..];
  }

  lemma OutsideSelf(pages: Pages, at: nat, n: nat)
    ensures SameOutside(pages, pages, at, n)
  {
  }

  /** The two halves of a frame that lies over a page boundary. */
  lemma FirstPart(pages: Pages, at: nat, bytes: seq<Byte>, first: nat)
    requires PagesOk(pages) && at / PAGE_SIZE in pages && first == PAGE_SIZE - at % PAGE_SIZE < |bytes|
    ensures SameOutside(pages, pages[at / PAGE_SIZE := Patched(pages[at / PAGE_SIZE], at % PAGE_SIZE, bytes[..first])], at, |bytes|)
  {
    hide SameOutside, Patched;
    OnePagePatched(pages, at / PAGE_SIZE, at % PAGE_SIZE, bytes[..first]);
    OutsideMore(pages, pages[at / PAGE_SIZE := Patched(pages[at / PAGE_SIZE], at % PAGE_SIZE, bytes[..first])], at, first, at, |bytes|);
  }

  lemma SecondPart(pages: Pages, at: nat, bytes: seq<Byte>, first: nat)
    requires PagesOk(pages) && at / PAGE_SIZE + 1 in pages && first == PAGE_SIZE - at % PAGE_SIZE < |bytes| <= PAGE_SIZE
    ensures SameOutside(pages, pages[at / PAGE_SIZE + 1 := Patched(pages[at / PAGE_SIZE + 1], 0, bytes[first..])], at, |bytes|)
  {
    hide SameOutside, Patched;
    var page := at / PAGE_SIZE + 1;
    assert page * PAGE_SIZE == at + first;
    OnePagePatched(pages, page, 0, bytes[first..]);
    OutsideMore(pages, pages[page := Patched(pages[page], 0, bytes[first..])], at + first, |bytes| - first, at, |bytes|);
  }

  /** Where the frame goes: below the stack pointer, aligned. */
  function FrameAt(sp: Word): (r: Word)
    ensures r % 16 == 0
    ensures sp >= FRAME ==> sp - FRAME - 16 < r <= sp - FRAME
  {
    (sp + U64 - FRAME) % U64 / 16 * 16
  }

  /** Of a page that begins at `base` only bytes within `n` of `at` differ. */
  ghost predicate PageKept(page: seq<Byte>, page': seq<Byte>, base: nat, at: nat, n: nat) {
    |page'| == |page| && forall j :: 0 <= j < |page| && !(at <= base + j < at + n) ==> page'[j] == page[j]
  }

  /** Memory is as it was outside `n` bytes at `at`; a page made meanwhile was zero. */
  ghost predicate SameOutside(pages: Pages, pages': Pages, at: nat, n: nat) {
    && (forall p :: p in pages ==> p in pages' && PageKept(pages[p], pages'[p], p * PAGE_SIZE, at, n))
    && (forall p :: p in pages' && p !in pages ==> p == at / PAGE_SIZE && PageKept(ZeroBytes(PAGE_SIZE), pages'[p], p * PAGE_SIZE, at, n))
  }

  lemma OnePagePatched(pages: Pages, page: nat, offset: nat, bytes: seq<Byte>)
    requires PagesOk(pages) && page in pages && offset + |bytes| <= PAGE_SIZE
    ensures SameOutside(pages, pages[page := Patched(pages[page], offset, bytes)], page * PAGE_SIZE + offset, |bytes|)
  {
    hide Patched;
  }

  lemma OutsideMore(pages: Pages, pages': Pages, at: nat, n: nat, at': nat, n': nat)
    requires SameOutside(pages, pages', at, n) && at' <= at && at + n <= at' + n' && pages'.Keys == pages.Keys
    ensures SameOutside(pages, pages', at', n')
  {
  }

  lemma OutsideTwice(a: Pages, b: Pages, c: Pages, at: nat, n: nat)
    requires SameOutside(a, b, at, n) && SameOutside(b, c, at, n)
    ensures SameOutside(a, c, at, n)
  {
  }

  lemma ZeroPageMade(pages: Pages, at: nat, n: nat)
    requires at / PAGE_SIZE !in pages
    ensures SameOutside(pages, pages[at / PAGE_SIZE := ZeroBytes(PAGE_SIZE)], at, n)
  {
  }

  /** A frame at `at` lies in pages that are present; the first is made so while there is memory. */
  predicate Writable(pages: Pages, at: nat, memory: bool) {
    (at / PAGE_SIZE in pages || memory) && (at % PAGE_SIZE + FRAME <= PAGE_SIZE || at / PAGE_SIZE + 1 in pages)
  }

  predicate Readable(pages: Pages, at: nat) {
    Writable(pages, at, false)
  }

  class Process {
    var pending: Mask
    var blocked: Mask
    const actions: array<Action>
    var x: seq<Word>
    var sp: Word
    var pc: Word
    var pstate: Word
    var pages: Pages

    ghost predicate Valid()
      reads this, actions
    {
      StateOk(pending, blocked, actions[..]) && PagesOk(pages) && |x| == 31
    }

    /** The frame that delivery saves. */
    ghost function Saved(sig: nat): Frame
      reads this
    {
      Frame(x + [sp, pc, pstate], blocked, sig)
    }

    /** signal_create. */
    constructor (x: seq<Word>, sp: Word, pc: Word, pstate: Word, pages: Pages)
      requires PagesOk(pages) && |x| == 31
      ensures Valid() && pending == 0 && blocked == 0
    {
      pending, blocked := 0, 0;
      actions := new Action[NSIG](_ => Action(SIG_DFL, 0, 0));
      this.x, this.sp, this.pc, this.pstate, this.pages := x, sp, pc, pstate, pages;
    }

    /** signal_send. */
    method Send(sig: int) returns (r: int)
      requires Valid()
      modifies this`pending
      ensures Valid()
      ensures if 1 <= sig <= NSIG then r == 0 && pending == Sent(old(pending), sig) else r == -1 && pending == old(pending)
      // SIGCONT (18) and the stop signals (19 to 22) cancel each other
      ensures r == 0 ==>
        var cancelled := if sig == 18 then {19, 20, 21, 22} else if 19 <= sig <= 22 then {18} else {};
        SetOf(pending) == SetOf(old(pending)) - cancelled + {sig as nat}
    {
      hide Compatible, Free, SigMask, Without, Union, IsStop, Has, Sent, PagesOk, SetOf;
      if sig < 1 || sig > NSIG {
        return -1;
      }
      SentOk(pending, sig);
      var now := pending;
      if sig == SIGCONT {
        now := Without(now, STOPS);
      }
      if IsStop(sig) {
        now := Without(now, CONT);
      }
      SentIs(pending, sig);
      SentSet(pending, sig);
      pending := Union(now, SigMask(sig));
      return 0;
    }

    /** signal_dequeue: the lowest pending signal that is not blocked. */
    method Dequeue() returns (sig: nat)
      requires Valid()
      modifies this`pending
      ensures Valid() && sig <= NSIG
      ensures
        var ready := SetOf(old(pending)) - SetOf(blocked);
        if sig == 0 then ready == {} && pending == old(pending)
        else sig in ready && (forall i :: i in ready ==> sig <= i) && SetOf(pending) == SetOf(old(pending)) - {sig}
    {
      hide Compatible, Free, SigMask, Without, Union, Has, Deliverable;
      WithoutSet(pending, blocked);
      var available := Union(Deliverable(pending, blocked), Intersection(pending, KERNEL_ONLY));
      Unblockable(pending, blocked);
      if available == 0 {
        NoneSet();
        return 0;
      }
      for i := 1 to NSIG + 1
        invariant pending == old(pending) && forall j :: 1 <= j < i ==> !Has(available, j)
      {
        if Has(available, i) {
          FewerPending(pending, SigMask(i));
          WithoutSet(pending, SigMask(i));
          OneSignal(i);
          pending := Without(pending, SigMask(i));
          return i;
        }
      }
      return 0;
    }

    /** sys_sigaction, setting an action. */
    method SigAction(sig: int, act: Action) returns (r: int)
      requires Valid()
      modifies actions
      ensures Valid()
      ensures (r == 0 || r == -1) && (r == 0 <==> 1 <= sig <= NSIG && sig != SIGKILL && sig != SIGSTOP)
      ensures r == 0 ==> actions[..] == old(actions[..])[sig - 1 := Action(act.handler, Without(act.mask, KERNEL_ONLY), act.flags)]
      ensures r == 0 ==> SetOf(actions[sig - 1].mask) == SetOf(act.mask) - {9, 19}
      ensures r == -1 ==> actions[..] == old(actions[..])
    {
      hide SetOf;
      WithoutSet(act.mask, KERNEL_ONLY);
      NamedSets();
      if sig < 1 || sig > NSIG || sig == SIGKILL || sig == SIGSTOP {
        return -1;
      }
      Freed(act.mask);
      actions[sig - 1] := Action(act.handler, Without(act.mask, KERNEL_ONLY), act.flags);
      return 0;
    }

    /** sys_sigprocmask, changing the mask. */
    method SigProcMask(how: int, set_: Mask) returns (r: int)
      requires Valid()
      modifies this`blocked
      ensures Valid()
      ensures r == 0 <==> how == SIG_BLOCK || how == SIG_UNBLOCK || how == SIG_SETMASK
      ensures r == -1 ==> blocked == old(blocked)
      ensures r == 0 ==>
        var asked := SetOf(set_) - {9, 19};
        SetOf(blocked) == if how == SIG_BLOCK then SetOf(old(blocked)) + asked else if how == SIG_UNBLOCK then SetOf(old(blocked)) - asked else asked
    {
      hide Free, Without, Union, SetOf;
      NamedSets();
      WithoutSet(set_, KERNEL_ONLY);
      UnionSet(blocked, Without(set_, KERNEL_ONLY));
      WithoutSet(blocked, Without(set_, KERNEL_ONLY));
      var kept := Without(set_, KERNEL_ONLY);
      Freed(set_);
      FreeTogether(blocked, kept);
      if how == SIG_BLOCK {
        blocked := Union(blocked, kept);
      } else if how == SIG_UNBLOCK {
        blocked := Without(blocked, kept);
      } else if how == SIG_SETMASK {
        blocked := kept;
      } else {
        return -1;
      }
      return 0;
    }

    /** Writing the frame: the first page is made present if it is not, the second must be. */
    method StoreFrame(at: nat, bytes: seq<Byte>, memory: bool) returns (ok: bool)
      requires PagesOk(pages) && |bytes| == FRAME
      modifies this`pages
      ensures PagesOk(pages) && (ok ==> Holds(pages, at, bytes))
      ensures ok <==> Writable(old(pages), at, memory)
      ensures SameOutside(old(pages), pages, at, FRAME)
    {
      hide Patched, Holds, SameOutside;
      OutsideSelf(pages, at, FRAME);
      var page, offset := at / PAGE_SIZE, at % PAGE_SIZE;
      if page !in pages {
        if !memory {
          return false;
        }
        ZeroPageMade(pages, at, FRAME);
        pages := pages[page := ZeroBytes(PAGE_SIZE)];
      }
      var first := PAGE_SIZE - offset;
      ghost var before := pages;
      if first >= FRAME {
        StoredHolds(pages, at, bytes);
        OnePagePatched(pages, page, offset, bytes);
        pages := pages[page := Patched(pages[page], offset, bytes)];
      } else {
        PatchedSize(pages[page], offset, bytes[..first]);
        FirstPart(pages, at, bytes, first);
        if page + 1 !in pages {
          pages := pages[page := Patched(pages[page], offset, bytes[..first])];
          OutsideTwice(old(pages), before, pages, at, FRAME);
          return false;
        }
        StoredHolds(pages, at, bytes);
        pages := pages[page := Patched(pages[page], offset, bytes[..first])];
        SecondPart(pages, at, bytes, first);
        OutsideTwice(old(pages), before, pages, at, FRAME);
        pages := pages[page + 1 := Patched(pages[page + 1], 0, bytes[first..])];
        before := before[page := Patched(before[page], offset, bytes[..first])];
      }
      OutsideTwice(old(pages), before, pages, at, FRAME);
      return true;
    }

    /** What a handler blocks while it runs. */
    method BlockDuring(act: Action, sig: nat)
      requires Free(blocked) && Free(act.mask) && 1 <= sig <= NSIG && sig != SIGKILL && sig != SIGSTOP
      modifies this`blocked
      ensures Free(blocked)
      ensures SetOf(blocked) == SetOf(old(blocked)) + SetOf(act.mask) + if act.flags & SA_NODEFER == 0 then {sig} else {}
    {
      hide Free, Union, SigMask, SetOf;
      OneSignal(sig);
      UnionSet(blocked, act.mask);
      UnionSet(Union(blocked, act.mask), SigMask(sig));
      FreeTogether(blocked, act.mask);
      blocked := Union(blocked, act.mask);
      FreeSignal(sig);
      FreeTogether(blocked, SigMask(sig));
      if act.flags & SA_NODEFER == 0 {
        blocked := Union(blocked, SigMask(sig));
      }
    }

    /** setup_signal_frame: the interrupted state is saved on the user stack, over a page boundary if
        need be, and the handler is entered with the signal number. */
    method Deliver(sig: nat, memory: bool) returns (ok: bool)
      requires Valid() && 1 <= sig <= NSIG && sig != SIGKILL && sig != SIGSTOP
      modifies this`pages, this`blocked, this`x, this`sp, this`pc, actions
      ensures Valid() && pstate == old(pstate) && pending == old(pending)
      ensures ok <==> Writable(old(pages), FrameAt(old(sp)), memory)
      ensures !ok ==> blocked == old(blocked) && x == old(x) && sp == old(sp) && pc == old(pc) && actions[..] == old(actions[..])
      ensures ok ==> |old(Saved(sig)).words| == 34 && Holds(pages, sp, Encoded(old(Saved(sig))))
      ensures ok ==> sp == FrameAt(old(sp)) && sp % 16 == 0 && (old(sp) >= FRAME ==> old(sp) - FRAME - 16 < sp <= old(sp) - FRAME)
      // the interrupted program's own memory is untouched
      ensures SameOutside(old(pages), pages, FrameAt(old(sp)), FRAME)
      ensures ok ==> pc == old(actions[sig - 1].handler) && x == old(x)[0 := sig][30 := (sp + 280) % U64]
      // the handler's mask and, unless asked otherwise, the signal itself are blocked meanwhile
      ensures ok ==>
        var act := old(actions[sig - 1]);
        SetOf(blocked) == SetOf(old(blocked)) + SetOf(act.mask) + if act.flags & SA_NODEFER == 0 then {sig} else {}
      ensures ok ==>
        var act := old(actions[sig - 1]);
        actions[..] == old(actions[..])[sig - 1 := if act.flags & SA_RESETHAND != 0 then act.(handler := SIG_DFL) else act]
    {
      hide Encoded, Holds, Free, Union, SigMask, Compatible, PagesOk, Writable, FrameAt, SameOutside, SetOf;
      var act := actions[sig - 1];
      var at := FrameAt(sp);
      ok := StoreFrame(at, Encoded(Frame(x + [sp, pc, pstate], blocked, sig)), memory);
      if !ok {
        return;
      }
      BlockDuring(act, sig);
      pc, sp := act.handler, at;
      x := x[0 := sig][30 := (at + 280) % U64];
      if act.flags & SA_RESETHAND != 0 {
        actions[sig - 1] := act.(handler := SIG_DFL);
      }
    }

    /** Reading a frame back. */
    method LoadFrame(at: nat) returns (r: Option<seq<Byte>>)
      requires PagesOk(pages)
      ensures r.Some? ==> |r.value| == FRAME && Holds(pages, at, r.value)
      ensures (exists bytes :: |bytes| == FRAME && Holds(pages, at, bytes)) ==> r.Some?
      ensures r.Some? <==> Readable(pages, at)
    {
      var page, offset := at / PAGE_SIZE, at % PAGE_SIZE;
      if page !in pages {
        return None;
      }
      var first := PAGE_SIZE - offset;
      if first >= FRAME {
        return Some(pages[page][offset..offset + FRAME]);
      }
      if page + 1 !in pages {
        return None;
      }
      var bytes := pages[page][offset..] + pages[page + 1][..FRAME - first];
      assert bytes[..first] == pages[page][offset..offset + first] && bytes[first..] == pages[page + 1][..FRAME - first];
      return Some(bytes);
    }

    /** sys_sigreturn: the state is what the frame at the stack pointer says, the mask without SIGKILL
        and SIGSTOP. */
    method SigReturn() returns (ok: bool)
      requires Valid()
      modifies this`blocked, this`x, this`sp, this`pc, this`pstate
      ensures Valid() && pages == old(pages) && pending == old(pending)
      ensures ok <==> Readable(pages, old(sp))
      ensures !ok ==> blocked == old(blocked) && x == old(x) && sp == old(sp) && pc == old(pc) && pstate == old(pstate)
      ensures forall f: Frame :: |f.words| == 34 && Holds(pages, old(sp), Encoded(f)) ==>
        ok && x + [sp, pc, pstate] == f.words && blocked == Without(f.mask, KERNEL_ONLY) && SetOf(blocked) == SetOf(f.mask) - {9, 19}
    {
      hide Encoded, Holds, SetOf, Without;
      var r := LoadFrame(sp);
      if r.None? {
        return false;
      }
      var bytes := r.value;
      var mask := LoadMask(bytes);
      var words := LoadWords(bytes);
      forall f: Frame | |f.words| == 34 && Holds(pages, sp, Encoded(f))
        ensures words == f.words && mask == f.mask
      {
        HoldsSame(pages, sp, bytes, Encoded(f));
        EncodedMask(f);
        MaskBack(f.mask);
        forall k | 0 <= k < 34
          ensures words[k] == f.words[k]
        {
          EncodedWord(f, k);
        }
      }
      NamedSets();
      WithoutSet(mask, KERNEL_ONLY);
      x, sp, pc, pstate := words[..31], words[31], words[32], words[33];
      Freed(mask);
      blocked := Without(mask, KERNEL_ONLY);
      assert words[..31] + [words[31], words[32], words[33]] == words;
      return true;
    }

    /** A handler that returns with its frame intact leaves no trace: whatever it did to the registers
        and to the mask, sigreturn from the stack pointer that delivery set restores them all. */
    method Handled(sig: nat, x': seq<Word>, pc': Word, pstate': Word, blocked': Mask, pages': Pages, memory: bool) returns (ok: bool)
      requires Valid() && 1 <= sig <= NSIG && sig != SIGKILL && sig != SIGSTOP
      requires |x'| == 31 && PagesOk(pages') && Free(blocked')
      requires FrameKept(pages', FrameAt(sp), Saved(sig))
      modifies this, actions
      ensures Valid() && (ok <==> Writable(old(pages), FrameAt(old(sp)), memory))
      ensures ok ==> x == old(x) && sp == old(sp) && pc == old(pc) && pstate == old(pstate) && blocked == old(blocked)
    {
      hide Encoded, Holds;
      ghost var saved := Saved(sig);
      ok := Deliver(sig, memory);
      if !ok {
        return;
      }
      x, pc, pstate, blocked, pages := x', pc', pstate', blocked', pages';
      Freed(old(blocked));
      ok := SigReturn();
      assert x + [sp, pc, pstate] == saved.words;
      assert x == saved.words[..31] && sp == saved.words[31] && pc == saved.words[32] && pstate == saved.words[33];
    }
  }

  ghost predicate FrameKept(pages: Pages, at: nat, f: Frame) {
    |f.words| == 34 && Holds(pages, at, Encoded(f))
  }

  lemma PatchedSize(page: seq<Byte>, at: nat, bytes: seq<Byte>)
    requires at + |bytes| <= |page|
    ensures |Patched(page, at, bytes)| == |page|
  {
  }

  lemma MaskBack(m: Mask)
    ensures (m as nat) < 0x1_0000_0000 && (m as nat) as bv32 == m
  {
  }

  /** A signal that cannot be blocked is available even so; with the mask free of them this adds nothing. */
  lemma Unblockable(pending: Mask, blocked: Mask)
    requires Free(blocked)
    ensures Union(Deliverable(pending, blocked), Intersection(pending, KERNEL_ONLY)) == Deliverable(pending, blocked)
  {
  }

  lemma NoneSet()
    ensures forall i :: 1 <= i <= NSIG ==> !Has(0, i)
  {
    forall i | 1 <= i <= NSIG
      ensures !Has(0, i)
    {
      NoBits(SigMask(i));
    }
  }

  lemma NoBits(m: Mask)
    ensures 0 & m == 0
  {
  }

  method LoadMask(bytes: seq<Byte>) returns (m: Mask)
    requires |bytes| == FRAME
    ensures Value(bytes[272..276]) < 0x1_0000_0000 && m == Value(bytes[272..276]) as bv32
  {
    ValueBound(bytes[272..276]);
    Powers();
    m := Value(bytes[272..276]) as bv32;
  }

  lemma {:induction false} ValueBound(bytes: seq<Byte>)
    ensures Value(bytes) < Power256(|bytes|)
  {
    if bytes != [] {
      ValueBound(bytes[1..]);
    }
  }

  method LoadWords(bytes: seq<Byte>) returns (words: seq<Word>)
    requires |bytes| == FRAME
    ensures |words| == 34 && forall k :: 0 <= k < 34 ==> words[k] == WordIn(bytes, k)
  {
    words := [];
    for k := 0 to 34
      invariant |words| == k && forall j :: 0 <= j < k ==> words[j] == WordIn(bytes, j)
    {
      ValueBound(bytes[8 * k..8 * k + 8]);
      Powers();
      words := words + [WordIn(bytes, k)];
    }
  }
}
