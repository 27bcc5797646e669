/** Definitions shared by all parts of the model. */
module Base {
  const PAGE_SIZE: nat := 4096

  type Byte = b: nat | b < 256

  datatype Option<+T> = None | Some(value: T)

  lemma {:induction false} SeqSetSize<T>(s: seq<T>)
    requires forall i, j :: 0 <= i < j < |s| ==> s[i] != s[j]
    ensures |set x | x in s| == |s|
  {
    if s != [] {
      var t := s[..|s| - 1];
      SeqSetSize(t);
      assert s == t + [s[|s| - 1]];
      assert (set x | x in s) == (set x | x in t) + {s[|s| - 1]};
    }
  }

  lemma {:induction false} SubsetSize<T>(a: set<T>, b: set<T>)
    requires a <= b
    ensures |a| <= |b|
  {
    if a != {} {
      var x :| x in a;
      SubsetSize(a - {x}, b - {x});
    }
  }

  /** `bytes` copied into `page` at `at`. */
  function Patched(page: seq<Byte>, at: nat, bytes: seq<Byte>): (r: seq<Byte>)
    requires at + |bytes| <= |page|
    ensures |r| == |page|
    ensures forall j :: 0 <= j < |page| ==> r[j] == if at <= j < at + |bytes| then bytes[j - at] else page[j]
  {
    page[..at] + bytes + page[at + |bytes|..]
  }

  function ZeroBytes(n: nat): (r: seq<Byte>)
    ensures |r| == n && forall i :: 0 <= i < n ==> r[i] == 0
  {
    seq(n, i => ZeroByte())
  }

  function ZeroByte(): Byte {
    0
  }

  /** The null pointer. */
  const NULL: nat := 0

  /** The node at place `i` of a list of nodes, or none. */
  function At(s: seq<nat>, i: int): nat {
    if 0 <= i < |s| then s[i] else NULL
  }

  function Removed(s: seq<nat>, i: nat): seq<nat>
    requires i < |s|
  {
    s[..i] + s[i + 1..]
  }

  lemma RemovedAt(s: seq<nat>, i: nat, j: int)
    requires i < |s|
    ensures |Removed(s, i)| == |s| - 1
    ensures At(Removed(s, i), j) == if j < i then At(s, j) else At(s, j + 1)
  {
    var w := Removed(s, i);
    if 0 <= j < i {
      assert w[j] == s[j];
    } else if i <= j < |w| {
      assert w[j] == s[j + 1];
    }
  }

  function Max(a: nat, b: nat): nat {
    if a < b then b else a
  }

  function Min(a: nat, b: nat): nat {
    if a < b then a else b
  }

  /** Two bytes, the low one first. */
  function Le16(n: nat): (r: seq<Byte>)
    ensures |r| == 2
  {
    [n % 256, n / 256 % 256]
  }

  function U16(s: seq<Byte>, i: nat): nat
    requires i + 2 <= |s|
  {
    (s[i] as nat) + 256 * (s[i + 1] as nat)
  }

  lemma Le16Value(n: nat)
    ensures U16(Le16(n), 0) == n % 0x10000
  {
    TwoBytes(n);
  }

  lemma TwoBytes(n: nat)
    ensures n % 256 + 256 * (n / 256 % 256) == n % 0x10000
  {
    var q := n / 256;
    assert n == 0x10000 * (q / 256) + (256 * (q % 256) + n % 256);
  }
}
