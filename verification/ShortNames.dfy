/** Short names (kernel/fs/fat32.c:568-691): how a long name is squeezed into 11 bytes, with a numeric
    tail where the plain form is taken, and why some tail is always left. */
module ShortNames {
  import opened Base
  import opened LongNames

  const SPACE: Byte := ' ' as nat
  const DOT: Byte := '.' as nat
  const TILDE: Byte := '~' as nat
  const UNDERSCORE: Byte := '_' as nat
  const MAX_TAIL: nat := 999_998

  /** Characters that a short name may not hold. */
  function Reserved(): seq<Byte> {
    ['"' as nat, '*' as nat, '+' as nat, ',' as nat, '/' as nat, ':' as nat, ';' as nat, '<' as nat, '=' as nat, '>' as nat,
     '?' as nat, '[' as nat, '\\' as nat, ']' as nat, '|' as nat]
  }

  function Legal(c: Byte): (r: Byte)
    ensures r != 0
  {
    var u := Upper(c);
    if u < 0x20 || u in Reserved() then UNDERSCORE else u
  }

  /** Index of the last dot, or the length if there is none. */
  function LastDot(name: seq<Byte>, n: nat): (r: nat)
    requires n <= |name|
    ensures r <= |name| && (r < |name| ==> name[r] == DOT)
  {
    if n == 0 then |name| else if name[n - 1] == DOT then n - 1 else LastDot(name, n - 1)
  }

  /** The first `most` characters kept of the first `n` of a base name. */
  function Kept(name: seq<Byte>, n: nat, most: nat): (r: seq<Byte>)
    requires n <= |name|
    ensures |r| <= most
  {
    if n == 0 then [] else
      var r := Kept(name, n - 1, most);
      if |r| == most || name[n - 1] == SPACE || name[n - 1] == DOT then r else r + [Legal(name[n - 1])]
  }

  function Spaces(n: nat): (r: seq<Byte>)
    ensures |r| == n && forall i :: 0 <= i < n ==> r[i] == SPACE
  {
    if n == 0 then [] else Spaces(n - 1) + [SPACE]
  }

  function Padded(s: seq<Byte>, n: nat): (r: seq<Byte>)
    requires |s| <= n
    ensures |r| == n && forall i :: 0 <= i < n ==> r[i] == if i < |s| then s[i] else SPACE
  {
    s + Spaces(n - |s|)
  }

  function Digit(d: nat): (r: Byte)
    requires d < 10
    ensures r == '0' as nat + d
  {
    '0' as nat + d
  }

  function Digits(n: nat): seq<Byte> {
    if n == 0 then [] else Digits(n / 10) + [Digit(n % 10)]
  }

  /** The base field with a numeric tail, before padding. */
  function Tailed(base: seq<Byte>, suffix: nat): (r: seq<Byte>)
    requires |base| <= 6 && |Digits(suffix)| <= 7
    ensures |r| <= 8
  {
    var room := 7 - |Digits(suffix)|;
    base[..if |base| > room then room else |base|] + [TILDE] + Digits(suffix)
  }

  function Extension(name: seq<Byte>, from: nat, n: nat): (r: seq<Byte>)
    requires n <= 3 && from + n <= |name|
    ensures |r| == n
  {
    if n == 0 then [] else Extension(name, from, n - 1) + [ExtensionByte(name[from + n - 1])]
  }

  function ExtensionByte(c: Byte): Byte {
    if c == DOT then UNDERSCORE else Legal(c)
  }

  /** How many bytes of extension follow the dot. */
  function ExtensionLength(name: seq<Byte>): (r: nat)
    ensures r <= 3 && (r > 0 ==> LastDot(name, |name|) + 1 + r <= |name|)
  {
    var dot := LastDot(name, |name|);
    if dot >= |name| then 0 else if |name| - dot - 1 < 3 then |name| - dot - 1 else 3
  }

  function ExtensionField(name: seq<Byte>): (r: seq<Byte>)
    ensures |r| == 3
  {
    var n := ExtensionLength(name);
    Padded(if n == 0 then [] else Extension(name, LastDot(name, |name|) + 1, n), 3)
  }

  predicate TailFits(suffix: nat) {
    |Digits(suffix)| <= 6
  }

  function BaseField(name: seq<Byte>, suffix: nat): (r: seq<Byte>)
    requires TailFits(suffix)
    ensures |r| == 8
  {
    var n := LastDot(name, |name|);
    Padded(if suffix == 0 then Kept(name, n, 8) else Tailed(Kept(name, n, 6), suffix), 8)
  }

  /** generate_short_name. */
  function Short(name: seq<Byte>, suffix: nat): (r: seq<Byte>)
    requires TailFits(suffix)
    ensures |r| == 11
  {
    BaseField(name, suffix) + ExtensionField(name)
  }

  // ---- numeric tails are one to one ----

  function Value(digits: seq<Byte>): int {
    if digits == [] then 0 else Value(digits[..|digits| - 1]) * 10 + digits[|digits| - 1] - '0' as nat
  }

  lemma {:induction false} DigitsValue(n: nat)
    ensures Value(Digits(n)) == n
  {
    if n > 0 {
      DigitsValue(n / 10);
      assert Digits(n)[..|Digits(n)| - 1] == Digits(n / 10);
    }
  }

  lemma {:induction false} DigitsOnly(n: nat, i: nat)
    requires i < |Digits(n)|
    ensures '0' as nat <= Digits(n)[i] <= '9' as nat
  {
    if i < |Digits(n / 10)| {
      DigitsOnly(n / 10, i);
    }
  }

  lemma {:induction false} DigitsLength(n: nat, k: nat, limit: nat)
    requires n < limit && limit == Power10(k)
    ensures |Digits(n)| <= k
  {
    if n > 0 {
      DigitsLength(n / 10, k - 1, limit / 10);
    }
  }

  function Power10(k: nat): (r: nat)
    ensures r >= 1
  {
    if k == 0 then 1 else 10 * Power10(k - 1)
  }

  lemma TailsFit(suffix: nat)
    requires suffix <= MAX_TAIL
    ensures TailFits(suffix)
  {
    assert Power10(6) == 1_000_000;
    DigitsLength(suffix, 6, 1_000_000);
  }

  lemma PaddedOneToOne(a: seq<Byte>, b: seq<Byte>, n: nat)
    requires |a| <= n && |b| <= n && a != [] && b != [] && a[|a| - 1] != SPACE && b[|b| - 1] != SPACE
    requires Padded(a, n) == Padded(b, n)
    ensures a == b
  {
    var p := Padded(a, n);
    assert p[|a| - 1] == a[|a| - 1] && p[|b| - 1] == b[|b| - 1];
    assert |a| == |b|;
    forall i | 0 <= i < |a|
      ensures a[i] == b[i]
    {
      assert p[i] == a[i];
    }
  }

  /** The last tilde marks where the number begins. */
  lemma TailedOneToOne(base: seq<Byte>, m: nat, n: nat)
    requires |base| <= 6 && TailFits(m) && TailFits(n) && m > 0 && n > 0 && Tailed(base, m) == Tailed(base, n)
    ensures m == n
  {
    var t, dm, dn := Tailed(base, m), Digits(m), Digits(n);
    var pm, pn := |t| - |dm| - 1, |t| - |dn| - 1;
    assert t[pm] == TILDE && t[pn] == TILDE;
    assert t[pm + 1..] == dm && t[pn + 1..] == dn;
    if pm < pn {
      assert dm[pn - pm - 1] == TILDE;
      DigitsOnly(m, pn - pm - 1);
    } else if pn < pm {
      assert dn[pm - pn - 1] == TILDE;
      DigitsOnly(n, pm - pn - 1);
    }
    DigitsValue(m);
    DigitsValue(n);
  }

  /** Different tails give different short names. */
  lemma ShortOneToOne(name: seq<Byte>, m: nat, n: nat)
    requires 0 < m < n <= MAX_TAIL
    ensures TailFits(m) && TailFits(n) && Short(name, m) != Short(name, n)
  {
    hide Digits, Tailed, Padded, Kept, LastDot, ExtensionField;
    TailsFit(m);
    TailsFit(n);
    if Short(name, m) == Short(name, n) {
      var base := Kept(name, LastDot(name, |name|), 6);
      assert Short(name, m)[..8] == BaseField(name, m) && Short(name, n)[..8] == BaseField(name, n);
      LastDigit(base, m);
      LastDigit(base, n);
      PaddedOneToOne(Tailed(base, m), Tailed(base, n), 8);
      TailedOneToOne(base, m, n);
    }
  }

  lemma LastDigit(base: seq<Byte>, n: nat)
    requires n > 0 && |base| <= 6 && TailFits(n)
    ensures Tailed(base, n) != [] && Tailed(base, n)[|Tailed(base, n)| - 1] != SPACE
  {
    DigitsOnly(n, |Digits(n)| - 1);
  }

  function Candidate(name: seq<Byte>, i: nat): seq<Byte> {
    if TailFits(i) then Short(name, i) else []
  }

  /** The names with tails 1 to `n`. */
  ghost function Tails(name: seq<Byte>, n: nat): set<seq<Byte>> {
    if n == 0 then {} else Tails(name, n - 1) + {Candidate(name, n)}
  }

  lemma {:induction false} TailsHave(name: seq<Byte>, n: nat, s: seq<Byte>)
    requires s in Tails(name, n)
    ensures exists i :: 1 <= i <= n && s == Candidate(name, i)
  {
    hide Candidate;
    if s == Candidate(name, n) {
    } else {
      TailsHave(name, n - 1, s);
    }
  }

  lemma {:induction false} TailsSize(name: seq<Byte>, n: nat)
    requires n <= MAX_TAIL
    ensures |Tails(name, n)| == n
  {
    hide Candidate;
    if n > 0 {
      TailsSize(name, n - 1);
      if Candidate(name, n) in Tails(name, n - 1) {
        TailsHave(name, n - 1, Candidate(name, n));
        var i :| 1 <= i <= n - 1 && Candidate(name, n) == Candidate(name, i);
        CandidateOneToOne(name, i, n);
      }
    }
  }

  lemma CandidateOneToOne(name: seq<Byte>, m: nat, n: nat)
    requires 0 < m < n <= MAX_TAIL
    ensures Candidate(name, m) != Candidate(name, n)
  {
    hide Short, TailFits;
    ShortOneToOne(name, m, n);
  }

  /** Fewer taken names than tails leave a tail free. */
  lemma SomeTailFree(name: seq<Byte>, taken: set<seq<Byte>>)
    requires |taken| < MAX_TAIL
    ensures exists i :: 1 <= i <= MAX_TAIL && TailFits(i) && Short(name, i) !in taken
  {
    hide Tails, Short, TailFits;
    if forall i :: 1 <= i <= MAX_TAIL && TailFits(i) ==> Short(name, i) in taken {
      forall s | s in Tails(name, MAX_TAIL)
        ensures s in taken
      {
        TailsHave(name, MAX_TAIL, s);
        var i :| 1 <= i <= MAX_TAIL && s == Candidate(name, i);
        TailsFit(i);
      }
      TailsSize(name, MAX_TAIL);
      SubsetSize(Tails(name, MAX_TAIL), taken);
    }
  }

  // ---- the generator ----

  lemma {:induction false} KeptFull(name: seq<Byte>, i: nat, n: nat, most: nat)
    requires i <= n <= |name| && |Kept(name, i, most)| == most
    ensures Kept(name, n, most) == Kept(name, i, most)
  {
    if i < n {
      KeptFull(name, i, n - 1, most);
    }
  }

  /** The loop that copies the base name. */
  method CopyBase(name: seq<Byte>, n: nat, most: nat, short: array<Byte>) returns (j: nat)
    requires n <= |name| && most <= 8 && short.Length == 11 && forall k :: 0 <= k < 11 ==> short[k] == SPACE
    modifies short
    ensures j <= 8 && short[..j] == Kept(name, n, most) && j == |Kept(name, n, most)|
    ensures forall k :: j <= k < 11 ==> short[k] == SPACE
  {
    hide Legal, Upper;
    j := 0;
    var i := 0;
    while i < n && j < most
      invariant i <= n && j <= most
      invariant j == |Kept(name, i, most)| && short[..j] == Kept(name, i, most)
      invariant forall k :: j <= k < 11 ==> short[k] == SPACE
    {
      if name[i] != SPACE && name[i] != DOT {
        short[j] := Legal(name[i]);
        j := j + 1;
      }
      i := i + 1;
    }
    if i < n {
      KeptFull(name, i, n, most);
    }
  }

  function Backwards(s: seq<Byte>): (r: seq<Byte>)
    ensures |r| == |s| && forall i :: 0 <= i < |s| ==> r[i] == s[|s| - 1 - i]
  {
    if s == [] then [] else [s[|s| - 1]] + Backwards(s[..|s| - 1])
  }

  /** The digits of a tail, lowest first. */
  method LowestFirst(suffix: nat) returns (digits: seq<Byte>)
    ensures Backwards(digits) == Digits(suffix)
  {
    digits := [];
    var rest := suffix;
    while rest > 0
      invariant Digits(rest) + Backwards(digits) == Digits(suffix)
    {
      ghost var d := digits + [Digit(rest % 10)];
      assert d[..|digits|] == digits;
      assert Digits(rest) + Backwards(digits) == Digits(rest / 10) + Backwards(d);
      digits := digits + [Digit(rest % 10)];
      rest := rest / 10;
    }
  }

  /** The tail goes after the base, or over the end of it. */
  method PutTail(short: array<Byte>, base: seq<Byte>, suffix: nat)
    requires short.Length == 11 && suffix > 0 && TailFits(suffix) && |base| <= 6
    requires short[..|base|] == base && forall k :: |base| <= k < 11 ==> short[k] == SPACE
    modifies short
    ensures short[..8] == Padded(Tailed(base, suffix), 8) && forall k :: 8 <= k < 11 ==> short[k] == SPACE
  {
    hide Digits, Padded;
    var digits := LowestFirst(suffix);
    var n := |digits|;
    var j: nat := |base|;
    if j > 8 - n - 1 {
      j := 8 - n - 1;
    }
    ghost var kept := j;
    assert n == |Backwards(digits)|;
    short[j] := TILDE;
    j := j + 1;
    var i: nat := n;
    while i > 0
      invariant i <= n && n == |Digits(suffix)| && 0 <= kept && kept + 1 + n <= 8 && j == kept + 1 + (n - i)
      invariant forall k :: 0 <= k < kept ==> short[k] == base[k]
      invariant short[kept] == TILDE
      invariant forall k :: 0 <= k < n - i ==> short[kept + 1 + k] == Digits(suffix)[k]
      invariant forall k :: kept + 1 + n <= k < 11 ==> short[k] == SPACE
    {
      i := i - 1;
      short[j] := digits[i];
      j := j + 1;
    }
    ghost var t := Tailed(base, suffix);
    assert |t| == kept + 1 + n;
    forall k | 0 <= k < 8
      ensures short[k] == Padded(t, 8)[k]
    {
      if kept < k < |t| {
        assert short[kept + 1 + (k - kept - 1)] == Digits(suffix)[k - kept - 1];
      }
    }
  }

  /** generate_short_name. */
  method GenerateShortName(name: seq<Byte>, suffix: nat) returns (r: seq<Byte>)
    requires TailFits(suffix)
    ensures r == Short(name, suffix)
  {
    hide Kept, Padded, Tailed, ExtensionByte, TailFits;
    var short := new Byte[11](_ => SPACE);
    var dot := |name|;
    for i := 0 to |name|
      invariant dot == LastDot(name, i)
    {
      if name[i] == DOT {
        dot := i;
      }
    }
    var j := CopyBase(name, dot, if suffix > 0 then 6 else 8, short);
    if suffix > 0 {
      PutTail(short, Kept(name, dot, 6), suffix);
    }
    assert short[..8] == BaseField(name, suffix);
    PutExtension(name, dot, short);
    r := short[..];
    assert r == short[..8] + short[8..];
  }

  method PutExtension(name: seq<Byte>, dot: nat, short: array<Byte>)
    requires dot == LastDot(name, |name|) && short.Length == 11 && forall k :: 8 <= k < 11 ==> short[k] == SPACE
    modifies short
    ensures short[..8] == old(short[..8]) && short[8..] == ExtensionField(name)
  {
    hide LastDot, ExtensionByte, Padded;
    if dot < |name| && dot + 1 < |name| {
      var k := 8;
      var p := dot + 1;
      while p < |name| && k < 11
        invariant p - dot == k - 7 && p <= |name| && k <= 11
        invariant short[..8] == old(short[..8])
        invariant short[8..k] == Extension(name, dot + 1, k - 8)
        invariant forall x :: k <= x < 11 ==> short[x] == SPACE
      {
        short[k] := ExtensionByte(name[p]);
        k, p := k + 1, p + 1;
      }
      assert k - 8 == ExtensionLength(name);
      PaddedIs(short[8..], Extension(name, dot + 1, k - 8), k - 8);
    } else {
      PaddedIs(short[8..], [], 0);
    }
  }

  lemma PaddedIs(field: seq<Byte>, s: seq<Byte>, n: nat)
    requires |field| == 3 && n == |s| <= 3 && field[..n] == s && forall i :: n <= i < 3 ==> field[i] == SPACE
    ensures field == Padded(s, 3)
  {
    forall i | 0 <= i < 3
      ensures field[i] == Padded(s, 3)[i]
    {
      assert i < n ==> field[i] == field[..n][i];
    }
  }

  /** The first byte is never the end mark, and is the deletion mark exactly if the base name's first
      character to be kept is that byte. */
  lemma FirstByte(name: seq<Byte>, suffix: nat)
    requires suffix <= MAX_TAIL
    ensures TailFits(suffix) && Short(name, suffix)[0] != 0
    ensures Short(name, suffix)[0] == DELETED <==>
      Kept(name, LastDot(name, |name|), 1) == [DELETED]
  {
    hide Kept, LastDot, BaseField, ExtensionField, TailFits;
    TailsFit(suffix);
    BaseFirst(name, suffix);
    KeptLegal(name, LastDot(name, |name|), 1);
  }

  /** The first byte of the base field: the first character kept, or what stands where there is none. */
  lemma BaseFirst(name: seq<Byte>, suffix: nat)
    requires TailFits(suffix)
    ensures var one := Kept(name, LastDot(name, |name|), 1);
      BaseField(name, suffix)[0] == if one != [] then one[0] else if suffix == 0 then SPACE else TILDE
  {
    hide Kept, LastDot, Digits, Padded, Tailed;
    var n := LastDot(name, |name|);
    if suffix == 0 {
      KeptFirst(name, n, 8);
    } else {
      KeptFirst(name, n, 6);
      TailedFirst(Kept(name, n, 6), suffix);
    }
  }

  lemma TailedFirst(base: seq<Byte>, suffix: nat)
    requires |base| <= 6 && TailFits(suffix)
    ensures Tailed(base, suffix) != [] && Tailed(base, suffix)[0] == if base != [] then base[0] else TILDE
  {
    hide Digits;
  }

  /** The name of the one byte 0xE5 needs no long slot, and its short form is that of a deleted entry. */
  lemma HiddenName()
    ensures !NeedsLong([DELETED]) && TailFits(0) && Short([DELETED], 0)[0] == DELETED
  {
    var name: seq<Byte> := [DELETED];
    FirstByte(name, 0);
    assert name[1..] == [] && FirstDot(name) == 1;
    assert LastDot(name, 1) == 1;
    assert Kept(name, 0, 1) == [];
  }

  lemma {:induction false} KeptFirst(name: seq<Byte>, n: nat, most: nat)
    requires n <= |name| && most > 0
    ensures var one, all := Kept(name, n, 1), Kept(name, n, most);
      (one == [] <==> all == []) && (all != [] ==> one == [all[0]])
  {
    hide Legal;
    if n > 0 {
      KeptFirst(name, n - 1, most);
    }
  }

  lemma {:induction false} KeptLegal(name: seq<Byte>, n: nat, most: nat)
    requires n <= |name|
    ensures 0 !in Kept(name, n, most)
  {
    if n > 0 {
      KeptLegal(name, n - 1, most);
    }
  }

  // ---- names that need long slots ----

  /** Index of the first dot, or the length. */
  function FirstDot(name: seq<Byte>): (r: nat)
    ensures r <= |name| && (r < |name| ==> name[r] == DOT) && DOT !in name[..r]
  {
    if name == [] || name[0] == DOT then 0 else 1 + FirstDot(name[1..])
  }

  /** needs_lfn. */
  predicate NeedsLong(name: seq<Byte>) {
    var dot := FirstDot(name);
    || |name| > 12
    || (dot < |name| && (dot > 8 || |name| - dot - 1 > 3 || DOT in name[dot + 1..]))
    || (dot == |name| && |name| > 8)
    || (exists i :: 0 <= i < |name| && ('a' as nat <= name[i] <= 'z' as nat || name[i] == SPACE))
  }

  // ---- names that their short form shows ----

  /** Nothing in the name is replaced or dropped when it becomes a short name. */
  ghost predicate IsPlain(name: seq<Byte>) {
    && (name != [] ==> name[|name| - 1] != DOT)
    && forall i :: 0 <= i < |name| ==> name[i] == DOT || Allowed(name[i])
  }

  predicate Allowed(c: Byte) {
    c >= 0x20 && c !in Reserved()
  }

  lemma LegalIff(c: Byte)
    requires !('a' as nat <= c <= 'z' as nat)
    ensures Legal(c) == c <==> Allowed(c)
    ensures Legal(c) != SPACE <==> c != SPACE
  {
  }

  lemma {:induction false} OneDot(name: seq<Byte>, n: nat)
    requires n <= |name| && DOT !in name[n..]
    ensures DOT !in name[..n] ==> LastDot(name, n) == |name|
    ensures n > 0 && name[n - 1] == DOT ==> LastDot(name, |name|) == n - 1 && LastDot(name, n) == n - 1
    ensures DOT !in name ==> LastDot(name, |name|) == |name|
  {
    LastDotSkips(name, n, |name|);
    if n > 0 && DOT !in name[..n] {
      assert name[..n][n - 1] == name[n - 1];
      assert forall i :: 0 <= i < n - 1 ==> name[..n - 1][i] == name[..n][i];
      assert name[n - 1..] == [name[n - 1]] + name[n..];
      OneDot(name, n - 1);
    }
    if DOT !in name {
      assert DOT !in name[..n];
    }
  }

  lemma {:induction false} LastDotSkips(name: seq<Byte>, n: nat, m: nat)
    requires n <= m <= |name| && DOT !in name[n..]
    ensures LastDot(name, m) == LastDot(name, n)
  {
    if n < m {
      assert name[n..][m - 1 - n] == name[m - 1];
      LastDotSkips(name, n, m - 1);
    }
  }

  /** Without dots and spaces every character is kept, in its legal form. */
  lemma {:induction false} KeptAll(name: seq<Byte>, n: nat, most: nat)
    requires n <= |name| && n <= most && SPACE !in name[..n] && DOT !in name[..n]
    ensures |Kept(name, n, most)| == n && forall i :: 0 <= i < n ==> Kept(name, n, most)[i] == Legal(name[i])
  {
    hide Legal;
    if n > 0 {
      assert name[..n][n - 1] == name[n - 1];
      assert forall i :: 0 <= i < n - 1 ==> name[..n - 1][i] == name[..n][i];
      KeptAll(name, n - 1, most);
    }
  }

  lemma {:induction false} ExtensionAt(name: seq<Byte>, from: nat, n: nat)
    requires n <= 3 && from + n <= |name|
    ensures forall i :: 0 <= i < n ==> Extension(name, from, n)[i] == ExtensionByte(name[from + i])
  {
    hide ExtensionByte;
    if n > 0 {
      ExtensionAt(name, from, n - 1);
    }
  }

  /** A padded field reads as what was put in. */
  lemma {:induction false} FieldReads(s: seq<Byte>, field: seq<Byte>)
    requires |s| <= |field| && SPACE !in s && field == s + Spaces(|field| - |s|)
    ensures UpTo(field, SPACE) == s
  {
    if s == [] {
      assert field != [] ==> field[0] == SPACE;
    } else {
      assert field[0] == s[0];
      assert field[1..] == s[1..] + Spaces(|field| - |s|);
      FieldReads(s[1..], field[1..]);
    }
  }

  lemma {:induction false} NoZero(s: seq<Byte>)
    requires 0 !in s
    ensures Terminated(s) == s
  {
    if s != [] {
      assert s[0] in s && forall x :: x in s[1..] ==> x in s;
      NoZero(s[1..]);
    }
  }

  ghost function Legals(s: seq<Byte>): (r: seq<Byte>)
    ensures |r| == |s| && forall i :: 0 <= i < |s| ==> r[i] == Legal(s[i])
  {
    seq(|s|, i requires 0 <= i < |s| => Legal(s[i]))
  }

  /** What follows the first dot. */
  ghost function Tail(name: seq<Byte>): seq<Byte> {
    if FirstDot(name) < |name| then name[FirstDot(name) + 1..] else []
  }

  predicate Upright(s: seq<Byte>) {
    0 !in s && SPACE !in s && forall i :: 0 <= i < |s| ==> !('a' as nat <= s[i] <= 'z' as nat)
  }

  lemma NameParts(name: seq<Byte>)
    requires !NeedsLong(name) && 0 !in name
    ensures Upright(name) && FirstDot(name) <= 8 && |Tail(name)| <= 3 && DOT !in Tail(name)
    ensures LastDot(name, |name|) == FirstDot(name)
  {
    hide LastDot;
    var dot := FirstDot(name);
    if dot < |name| {
      OneDot(name, dot + 1);
    } else {
      assert name[..dot] == name;
      OneDot(name, |name|);
    }
  }

  lemma PlainBase(name: seq<Byte>)
    requires !NeedsLong(name) && 0 !in name
    ensures TailFits(0) && FirstDot(name) <= 8
    ensures BaseField(name, 0) == Legals(name[..FirstDot(name)]) + Spaces(8 - FirstDot(name))
  {
    hide NeedsLong, Legal, Kept, LastDot, Spaces;
    var dot := FirstDot(name);
    NameParts(name);
    KeptAll(name, dot, 8);
    assert Kept(name, dot, 8) == Legals(name[..dot]);
  }

  lemma PlainExtension(name: seq<Byte>)
    requires !NeedsLong(name) && 0 !in name
    ensures |Tail(name)| <= 3 && ExtensionField(name) == Legals(Tail(name)) + Spaces(3 - |Tail(name)|)
  {
    hide NeedsLong, Legal, LastDot, Spaces, Extension;
    var dot, ext := FirstDot(name), Tail(name);
    NameParts(name);
    assert ExtensionLength(name) == |ext|;
    if ext != [] {
      ExtensionAt(name, dot + 1, |ext|);
      forall i | 0 <= i < |ext|
        ensures ExtensionByte(name[dot + 1 + i]) == Legal(ext[i])
      {
        assert name[dot + 1 + i] == ext[i] && ext[i] in ext;
      }
      assert Extension(name, dot + 1, |ext|) == Legals(ext);
    } else {
      assert Legals(ext) == [];
    }
  }

  /** Fields that hold legal forms show them. */
  lemma LegalsRead(s: seq<Byte>, field: seq<Byte>)
    requires Upright(s) && |s| <= |field| && field == Legals(s) + Spaces(|field| - |s|)
    ensures UpTo(field, SPACE) == Legals(s) && 0 !in Legals(s)
    ensures s != [] ==> field[0] != SPACE
    ensures s == [] && field != [] ==> field[0] == SPACE
  {
    hide Legal, UpTo, Spaces;
    forall i | 0 <= i < |s|
      ensures Legals(s)[i] != SPACE
    {
      assert s[i] in s;
      LegalIff(s[i]);
    }
    FieldReads(Legals(s), field);
  }

  lemma LegalsSame(s: seq<Byte>)
    requires Upright(s)
    ensures Legals(s) == s <==> forall i :: 0 <= i < |s| ==> Allowed(s[i])
  {
    hide Legal, Allowed;
    forall i | 0 <= i < |s|
      ensures Legals(s)[i] == s[i] <==> Allowed(s[i])
    {
      LegalIff(s[i]);
    }
    if Legals(s) == s {
      forall i | 0 <= i < |s|
        ensures Allowed(s[i])
      {
        assert Legals(s)[i] == s[i];
      }
    }
  }

  lemma UprightParts(name: seq<Byte>)
    requires Upright(name)
    ensures Upright(name[..FirstDot(name)]) && Upright(Tail(name))
  {
    assert forall x :: x in Tail(name) ==> x in name;
  }

  /** What the plain form of a name that needs no long slots shows. */
  lemma PlainShown(name: seq<Byte>, s: Slot)
    requires !NeedsLong(name) && 0 !in name && TailFits(0) && s[..11] == Short(name, 0)
    ensures ShortName(s) == Legals(name[..FirstDot(name)]) + if Tail(name) == [] then [] else [DOT] + Legals(Tail(name))
  {
    hide NeedsLong, Legal, BaseField, ExtensionField, UpTo, Terminated, Upright, Spaces, Tail, FirstDot;
    var base, ext := name[..FirstDot(name)], Tail(name);
    NameParts(name);
    UprightParts(name);
    PlainBase(name);
    PlainExtension(name);
    assert s[..8] == s[..11][..8] == BaseField(name, 0);
    assert s[8..11] == s[..11][8..] == ExtensionField(name);
    LegalsRead(base, s[..8]);
    LegalsRead(ext, s[8..11]);
    assert s[8] == s[8..11][0];
    NoZero(Legals(base) + if ext == [] then [] else [DOT] + Legals(ext));
  }

  /** A name that needs no long slots shows as asked for exactly if all its characters are legal and it does
      not end in a dot. */
  lemma ShortShows(name: seq<Byte>, s: Slot)
    requires !NeedsLong(name) && 0 !in name && TailFits(0) && s[..11] == Short(name, 0)
    ensures ShortName(s) == name <==> IsPlain(name)
  {
    hide NeedsLong, Legal, Short, ShortName, Allowed, TailFits, Tail, FirstDot, Upright;
    var base, ext := name[..FirstDot(name)], Tail(name);
    NameParts(name);
    UprightParts(name);
    PlainShown(name, s);
    LegalsSame(base);
    LegalsSame(ext);
    Joined(name);
    if FirstDot(name) < |name| && ext == [] {
      assert |Legals(base)| < |name|;
    } else {
      PartsSame(name, base, ext);
    }
  }

  lemma Joined(name: seq<Byte>)
    ensures var base, ext := name[..FirstDot(name)], Tail(name);
      && DOT !in base
      && name == base + (if FirstDot(name) < |name| then [DOT] + ext else [])
      && (FirstDot(name) == |name| ==> ext == [])
      && (FirstDot(name) < |name| && ext == [] ==> name[|name| - 1] == DOT)
  {
    hide FirstDot;
    if FirstDot(name) < |name| {
      CutAt(name, FirstDot(name));
    }
  }

  lemma CutAt(name: seq<Byte>, n: nat)
    requires n < |name|
    ensures name == name[..n] + ([name[n]] + name[n + 1..]) && (name[n + 1..] == [] ==> n == |name| - 1)
  {
  }

  lemma PartsSame(name: seq<Byte>, base: seq<Byte>, ext: seq<Byte>)
    requires DOT !in base && DOT !in ext && name == base + if ext == [] then [] else [DOT] + ext
    ensures name != [] ==> name[|name| - 1] != DOT
    ensures Legals(base) + (if ext == [] then [] else [DOT] + Legals(ext)) == name <==> Legals(base) == base && Legals(ext) == ext
    ensures (forall i :: 0 <= i < |name| ==> name[i] == DOT || Allowed(name[i])) <==>
      (forall i :: 0 <= i < |base| ==> Allowed(base[i])) && (forall i :: 0 <= i < |ext| ==> Allowed(ext[i]))
  {
    hide Legal, Allowed;
    if ext == [] {
      assert Legals(base) + [] == Legals(base) && Legals(ext) == ext && name == base;
    } else {
      SameParts(Legals(base), Legals(ext), base, ext);
      InParts(name, base, ext);
    }
  }

  lemma SameParts(a: seq<Byte>, b: seq<Byte>, c: seq<Byte>, d: seq<Byte>)
    requires |a| == |c| && |b| == |d|
    ensures a + ([DOT] + b) == c + ([DOT] + d) <==> a == c && b == d
  {
    var x, y := a + ([DOT] + b), c + ([DOT] + d);
    assert x[..|a|] == a && y[..|c|] == c && x[|a| + 1..] == b && y[|c| + 1..] == d;
  }

  lemma InParts(name: seq<Byte>, base: seq<Byte>, ext: seq<Byte>)
    requires name == base + ([DOT] + ext) && DOT !in base && DOT !in ext
    ensures (forall i :: 0 <= i < |name| ==> name[i] == DOT || Allowed(name[i])) <==>
      (forall i :: 0 <= i < |base| ==> Allowed(base[i])) && (forall i :: 0 <= i < |ext| ==> Allowed(ext[i]))
  {
    hide Allowed;
    forall i | 0 <= i < |base|
      ensures name[i] == base[i] != DOT
    {
    }
    forall i | 0 <= i < |ext|
      ensures name[|base| + 1 + i] == ext[i] != DOT
    {
    }
  }

  /** The name "A+B" needs no long slots, and its short form shows as "A_B". */
  lemma OtherName(s: Slot)
    requires TailFits(0) && s[..11] == Short(['A' as nat, '+' as nat, 'B' as nat], 0)
    ensures !NeedsLong(['A' as nat, '+' as nat, 'B' as nat]) && ShortName(s) == ['A' as nat, UNDERSCORE, 'B' as nat]
  {
    hide ShortName, Short, TailFits;
    var name: seq<Byte> := ['A' as nat, '+' as nat, 'B' as nat];
    assert name[1..] == ['+' as nat, 'B' as nat] && name[1..][1..] == ['B' as nat] && name[1..][1..][1..] == [];
    assert FirstDot(name) == 3;
    PlainShown(name, s);
    assert name[..3] == name && Legals(name) == ['A' as nat, UNDERSCORE, 'B' as nat];
  }

  // ---- names with a tail ----

  lemma {:induction false} KeptPrefix(name: seq<Byte>, n: nat, few: nat, most: nat)
    requires n <= |name| && few <= most
    ensures var a, b := Kept(name, n, few), Kept(name, n, most);
      |a| <= |b| && a == b[..|a|] && (|a| == |b| || |a| == few)
  {
    hide Legal;
    if n > 0 {
      KeptPrefix(name, n - 1, few, most);
    }
  }

  /** A short name with tail `suffix` has as much of the plain form's base as there is room for, at most six
      characters, then a tilde and the number. */
  lemma TailReads(name: seq<Byte>, suffix: nat)
    requires 0 < suffix && TailFits(suffix) && TailFits(0)
    ensures exists t: nat :: TailAt(BaseField(name, 0), BaseField(name, suffix), t, suffix)
  {
    hide Kept, LastDot, TailFits, Spaces, Tailed, Digits, Value;
    var n := LastDot(name, |name|);
    var base, whole := Kept(name, n, 6), Kept(name, n, 8);
    KeptPrefix(name, n, 6, 8);
    SuffixDigits(suffix);
    TailedParts(base, suffix);
    DigitsValue(suffix);
    var t: nat := if |base| > 7 - |Digits(suffix)| then 7 - |Digits(suffix)| else |base|;
    TailPlaced(base, whole, Digits(suffix), t, BaseField(name, 0), BaseField(name, suffix), suffix);
  }

  lemma TailPlaced(base: seq<Byte>, whole: seq<Byte>, d: seq<Byte>, t: nat, plain: seq<Byte>, b: seq<Byte>, suffix: nat)
    requires |base| <= 6 && |base| <= |whole| <= 8 && base == whole[..|base|] && (|base| == |whole| || |base| == 6)
    requires 1 <= |d| <= 6 && SPACE !in d && Value(d) == suffix && t == if |base| > 7 - |d| then 7 - |d| else |base|
    requires |plain| == 8 && forall i :: 0 <= i < 8 ==> plain[i] == if i < |whole| then whole[i] else SPACE
    requires b == base[..t] + [TILDE] + d + Spaces(7 - t - |d|)
    ensures TailAt(plain, b, t, suffix)
  {
    hide Value, UpTo;
    assert b[t + 1..] == d + Spaces(7 - t - |d|);
    FieldReads(d, b[t + 1..]);
    if t < |base| {
      assert b[7] == d[|d| - 1];
    }
  }

  ghost predicate TailAt(plain: seq<Byte>, b: seq<Byte>, t: nat, suffix: nat) {
    && |plain| == |b| == 8 && t <= 6 && b[..t] == plain[..t] && b[t] == TILDE
    && Value(UpTo(b[t + 1..], SPACE)) == suffix
    && (t == 6 || plain[t] == SPACE || b[7] != SPACE)
  }

  lemma SuffixDigits(suffix: nat)
    requires 0 < suffix && TailFits(suffix)
    ensures 1 <= |Digits(suffix)| <= 6 && SPACE !in Digits(suffix)
  {
    hide Digits;
    DigitsNotEmpty(suffix);
    forall k | 0 <= k < |Digits(suffix)|
      ensures Digits(suffix)[k] != SPACE
    {
      DigitsOnly(suffix, k);
    }
  }

  lemma DigitsNotEmpty(n: nat)
    requires n > 0
    ensures Digits(n) != []
  {
  }

  lemma TailedParts(base: seq<Byte>, suffix: nat)
    requires |base| <= 6 && 1 <= |Digits(suffix)| <= 6
    ensures
      var t: nat := if |base| > 7 - |Digits(suffix)| then 7 - |Digits(suffix)| else |base|;
      Tailed(base, suffix) == base[..t] + [TILDE] + Digits(suffix)
  {
    hide Digits;
  }
}
