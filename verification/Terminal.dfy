/** Canonical terminal input under the default settings (kernel/drivers/tty.c): the line editor, the read
    ring and canonical reads, without the end-of-file and literal-next keys. */
module Terminal {
  import opened Base

  const BUF_SIZE: nat := 4096
  const MAX_CANON: nat := 255

  const NL: Byte := 10
  const CR: Byte := 13
  const BS: Byte := 8
  const DEL: Byte := 127
  const SPACE: Byte := 32
  const VINTR: Byte := 3
  const VQUIT: Byte := 28
  const VSUSP: Byte := 26
  const VKILL: Byte := 21
  const VEOF: Byte := 4
  const VSTART: Byte := 17
  const VSTOP: Byte := 19
  const VREPRINT: Byte := 18
  const VDISCARD: Byte := 15
  const VWERASE: Byte := 23
  const VLNEXT: Byte := 22
  const VEOL: Byte := 0

  // ---- the line editor, as section 11.1.6 of POSIX.1 XBD describes it ----

  /** The lines finished since the last flush, and the line being edited. */
  datatype Edit = Edit(finished: seq<Byte>, line: seq<Byte>)

  function DropSpaces(line: seq<Byte>): (r: seq<Byte>)
    ensures |r| <= |line| && r == line[..|r|] && (r != [] ==> r[|r| - 1] != SPACE)
    ensures forall i :: |r| <= i < |line| ==> line[i] == SPACE
  {
    if line != [] && line[|line| - 1] == SPACE then DropSpaces(line[..|line| - 1]) else line
  }

  function DropLetters(line: seq<Byte>): (r: seq<Byte>)
    ensures |r| <= |line| && r == line[..|r|] && (r != [] ==> r[|r| - 1] == SPACE)
    ensures forall i :: |r| <= i < |line| ==> line[i] != SPACE
  {
    if line != [] && line[|line| - 1] != SPACE then DropLetters(line[..|line| - 1]) else line
  }

  lemma {:induction false} OnlySpaces(line: seq<Byte>, n: nat)
    requires n <= |line| && (n > 0 ==> line[n - 1] != SPACE) && forall i :: n <= i < |line| ==> line[i] == SPACE
    ensures DropSpaces(line) == line[..n]
  {
    if n < |line| {
      OnlySpaces(line[..|line| - 1], n);
      assert line[..|line| - 1][..n] == line[..n];
    }
  }

  lemma {:induction false} OnlyLetters(line: seq<Byte>, n: nat)
    requires n <= |line| && (n > 0 ==> line[n - 1] == SPACE) && forall i :: n <= i < |line| ==> line[i] != SPACE
    ensures DropLetters(line) == line[..n]
  {
    if n < |line| {
      OnlyLetters(line[..|line| - 1], n);
      assert line[..|line| - 1][..n] == line[..n];
    }
  }

  predicate IsSignal(c: Byte) {
    c == VINTR || c == VQUIT || c == VSUSP
  }

  predicate IsIgnored(c: Byte) {
    c == VSTOP || c == VSTART || c == VREPRINT || c == VDISCARD || c == VEOL
  }

  function Translated(key: Byte): Byte {
    if key == CR then NL else key
  }

  /** One key more. */
  function Typed(e: Edit, key: Byte): Edit {
    var c := Translated(key);
    if IsSignal(c) then Edit([], [])
    else if IsIgnored(c) then e
    else if c == DEL || c == BS then e.(line := if e.line == [] then [] else e.line[..|e.line| - 1])
    else if c == VWERASE then e.(line := DropLetters(DropSpaces(e.line)))
    else if c == VKILL then e.(line := [])
    else if c == NL then Edit(e.finished + e.line + [NL], [])
    else if |e.line| < MAX_CANON - 1 then e.(line := e.line + [c])
    else e
  }

  // ---- the ring ----

  ghost function RingOf(buf: seq<Byte>, head: nat, tail: nat): seq<Byte>
    requires head < |buf| && tail < |buf|
  {
    if tail <= head then buf[tail..head] else buf[tail..] + buf[..head]
  }

  lemma RingPut(buf: seq<Byte>, head: nat, tail: nat, c: Byte)
    requires |buf| == BUF_SIZE && head < BUF_SIZE && tail < BUF_SIZE && (head + 1) % BUF_SIZE != tail
    ensures RingOf(buf[head := c], (head + 1) % BUF_SIZE, tail) == RingOf(buf, head, tail) + [c]
  {
  }

  lemma RingGet(buf: seq<Byte>, head: nat, tail: nat)
    requires |buf| == BUF_SIZE && head < BUF_SIZE && tail < BUF_SIZE && head != tail
    ensures RingOf(buf, head, tail) == [buf[tail]] + RingOf(buf, head, (tail + 1) % BUF_SIZE)
  {
    var next := if tail + 1 == BUF_SIZE then 0 else tail + 1;
    assert (tail + 1) % BUF_SIZE == next;
    RingNext(buf, head, tail, next);
  }

  lemma RingNext(buf: seq<Byte>, head: nat, tail: nat, next: nat)
    requires |buf| == BUF_SIZE && head < BUF_SIZE && tail < BUF_SIZE && head != tail
    requires next == if tail + 1 == BUF_SIZE then 0 else tail + 1
    ensures RingOf(buf, head, tail) == [buf[tail]] + RingOf(buf, head, next)
  {
    var ring, rest := RingOf(buf, head, tail), RingOf(buf, head, next);
    if tail < head {
      assert ring == [buf[tail]] + buf[tail + 1..head];
    } else if tail + 1 < BUF_SIZE {
      CutFirst(buf[tail..], buf[..head]);
      assert buf[tail..][1..] == buf[tail + 1..];
    } else {
      assert buf[tail..] == [buf[tail]] && rest == buf[..head];
    }
  }

  lemma CutFirst(a: seq<Byte>, b: seq<Byte>)
    requires a != []
    ensures a + b == [a[0]] + (a[1..] + b)
  {
  }

  lemma RingLength(buf: seq<Byte>, head: nat, tail: nat)
    requires |buf| == BUF_SIZE && head < BUF_SIZE && tail < BUF_SIZE
    ensures |RingOf(buf, head, tail)| == (head - tail + BUF_SIZE) % BUF_SIZE
    ensures |RingOf(buf, head, tail)| == BUF_SIZE - 1 <==> (head + 1) % BUF_SIZE == tail
    ensures |RingOf(buf, head, tail)| == 0 <==> head == tail
  {
  }

  // ---- counting lines ----

  function Newlines(s: seq<Byte>): nat {
    if s == [] then 0 else Newlines(s[..|s| - 1]) + if s[|s| - 1] == NL then 1 else 0
  }

  lemma {:induction false} NewlinesConcat(a: seq<Byte>, b: seq<Byte>)
    ensures Newlines(a + b) == Newlines(a) + Newlines(b)
  {
    if b == [] {
      assert a + b == a;
    } else {
      NewlinesConcat(a, b[..|b| - 1]);
      assert (a + b)[..|a + b| - 1] == a + b[..|b| - 1];
    }
  }

  lemma {:induction false} NoNewlines(s: seq<Byte>)
    ensures Newlines(s) == 0 <==> NL !in s
  {
    if s != [] {
      NoNewlines(s[..|s| - 1]);
      assert s == s[..|s| - 1] + [s[|s| - 1]];
    }
  }

  /** Neither an end-of-file key nor a null byte. */
  ghost predicate Plain(s: seq<Byte>) {
    forall i :: 0 <= i < |s| ==> s[i] != VEOF && s[i] != VEOL
  }

  ghost predicate Sound(edit: Edit, delivered: seq<Byte>, ring: seq<Byte>, line: seq<Byte>, lines: int, count: int) {
    && edit == Edit(delivered + ring, line)
    && lines == Newlines(ring) && count == |ring| && NL !in line && Plain(ring) && Plain(line)
  }

  lemma SoundPrefix(edit: Edit, delivered: seq<Byte>, ring: seq<Byte>, line: seq<Byte>, lines: int, count: int, line': seq<Byte>)
    requires Sound(edit, delivered, ring, line, lines, count) && |line'| <= |line| && line' == line[..|line'|]
    ensures Sound(edit.(line := line'), delivered, ring, line', lines, count)
  {
    hide Newlines;
    assert line == line' + line[|line'|..];
  }

  lemma SoundTyped(edit: Edit, delivered: seq<Byte>, ring: seq<Byte>, line: seq<Byte>, lines: int, count: int, c: Byte)
    requires Sound(edit, delivered, ring, line, lines, count) && c != NL && c != VEOF && c != VEOL
    ensures Sound(edit.(line := line + [c]), delivered, ring, line + [c], lines, count)
  {
    hide Newlines;
  }

  /** The line goes through whole, or the reader misses bytes. */
  lemma SoundFinished(edit: Edit, delivered: seq<Byte>, ring: seq<Byte>, line: seq<Byte>, lines: int, count: int, ring': seq<Byte>, count': int)
    requires Sound(edit, delivered, ring, line, lines, count) && count' == |ring'|
    requires |ring| + |line| + 1 == |ring'| ==> ring' == ring + (line + [NL])
    ensures Sound(Typed(edit, NL), delivered, ring', [], lines + 1, count') <==> |ring'| == |ring| + |line| + 1
  {
    if |ring| + |line| + 1 == |ring'| {
      NewlinesConcat(ring, line + [NL]);
      NewlinesConcat(line, [NL]);
      NoNewlines(line);
      PlainConcat(ring, line + [NL]);
      PlainConcat(line, [NL]);
      assert Newlines([NL]) == Newlines([]) + 1;
      assert delivered + ring + line + [NL] == delivered + ring';
    } else {
      assert |Typed(edit, NL).finished| == |delivered| + |ring| + |line| + 1;
      assert |delivered + ring'| == |delivered| + |ring'|;
    }
  }

  lemma SoundRead(edit: Edit, delivered: seq<Byte>, ring: seq<Byte>, line: seq<Byte>, lines: int, bytes: seq<Byte>, rest: seq<Byte>, lines': int)
    requires Sound(edit, delivered, ring, line, lines, |ring|) && ring == bytes + rest && lines' == Newlines(rest)
    ensures Sound(edit, delivered + bytes, rest, line, lines', |rest|)
  {
    hide Newlines;
    PlainConcat(bytes, rest);
    assert delivered + bytes + rest == delivered + ring;
  }

  class Tty {
    const readBuf: array<Byte>
    const canonBuf: array<Byte>
    var head: nat
    var tail: nat
    var readCnt: int
    var canonHead: nat
    var canonLines: int
    ghost var edit: Edit
    ghost var delivered: seq<Byte>

    ghost predicate Shaped()
      reads this
    {
      && readBuf.Length == BUF_SIZE && canonBuf.Length == MAX_CANON && readBuf != canonBuf
      && head < BUF_SIZE && tail < BUF_SIZE && canonHead < MAX_CANON
    }

    ghost function Ring(): seq<Byte>
      requires Shaped()
      reads this, readBuf
    {
      RingOf(readBuf[..], head, tail)
    }

    ghost function Line(): seq<Byte>
      requires Shaped()
      reads this, canonBuf
    {
      canonBuf[..canonHead]
    }

    /** What reads have returned since the last flush, followed by the ring, is the finished lines; the
        line buffer is the line being edited; and the line counter counts the newlines in the ring. */
    ghost predicate Valid()
      reads this, readBuf, canonBuf
    {
      Shaped() && Sound(edit, delivered, Ring(), Line(), canonLines, readCnt)
    }

    constructor ()
      ensures Valid() && edit == Edit([], []) && delivered == [] && fresh(readBuf) && fresh(canonBuf)
    {
      readBuf := new Byte[BUF_SIZE](_ => 0);
      canonBuf := new Byte[MAX_CANON](_ => 0);
      head, tail, readCnt, canonHead, canonLines, edit, delivered := 0, 0, 0, 0, 0, Edit([], []), [];
    }

    /** read_buf_put. */
    method Put(c: Byte)
      requires Shaped()
      modifies readBuf, this`head, this`readCnt
      ensures Shaped()
      ensures Ring() == if |old(Ring())| < BUF_SIZE - 1 then old(Ring()) + [c] else old(Ring())
      ensures readCnt == old(readCnt) + |Ring()| - |old(Ring())|
    {
      RingLength(readBuf[..], head, tail);
      if (head + 1) % BUF_SIZE != tail {
        RingPut(readBuf[..], head, tail, c);
        readBuf[head] := c;
        head := (head + 1) % BUF_SIZE;
        readCnt := readCnt + 1;
      }
    }

    /** read_buf_get, of a ring that is not empty. */
    method Get() returns (c: Byte)
      requires Shaped() && head != tail
      modifies this`tail, this`readCnt
      ensures Shaped() && old(Ring()) == [c] + Ring() && readCnt == old(readCnt) - 1
    {
      RingGet(readBuf[..], head, tail);
      c := readBuf[tail];
      tail := (tail + 1) % BUF_SIZE;
      readCnt := readCnt - 1;
    }

    /** finish_canonical_line: as much of the line as there is room for goes to the ring. */
    method FinishLine()
      requires Shaped()
      modifies readBuf, this`head, this`readCnt, this`canonLines, this`canonHead
      ensures Shaped() && canonHead == 0 && canonLines == old(canonLines) + 1
      ensures Ring() == old(Ring()) + old(Line())[..Fitting(|old(Ring())|, |old(Line())|)]
      ensures readCnt == old(readCnt) + |Ring()| - |old(Ring())|
    {
      hide RingOf;
      ghost var ring, line := Ring(), Line();
      RingSize(readBuf[..], head, tail);
      assert line[..0] == [];
      for i := 0 to canonHead
        invariant Shaped() && canonHead == old(canonHead) && canonBuf[..] == old(canonBuf[..]) && canonLines == old(canonLines)
        invariant Ring() == ring + line[..Fitting(|ring|, i)] && readCnt == old(readCnt) + |Ring()| - |ring|
      {
        Put(canonBuf[i]);
        RingSize(readBuf[..], head, tail);
        assert i < |line| && line[..i + 1] == line[..i] + [line[i]];
      }
      canonLines := canonLines + 1;
      canonHead := 0;
    }

    /** The two loops of the word-erase key. */
    method EraseWord()
      requires Shaped()
      modifies this`canonHead
      ensures Shaped() && Line() == DropLetters(DropSpaces(old(Line())))
    {
      hide DropSpaces, DropLetters;
      ghost var line := Line();
      while canonHead > 0 && canonBuf[canonHead - 1] == SPACE
        invariant canonHead <= |line| && forall i :: canonHead <= i < |line| ==> line[i] == SPACE
      {
        assert line[canonHead - 1] == canonBuf[canonHead - 1];
        canonHead := canonHead - 1;
      }
      OnlySpaces(line, canonHead);
      ghost var word := Line();
      assert word == line[..canonHead];
      while canonHead > 0 && canonBuf[canonHead - 1] != SPACE
        invariant canonHead <= |word| && forall i :: canonHead <= i < |word| ==> word[i] != SPACE
      {
        assert word[canonHead - 1] == canonBuf[canonHead - 1];
        canonHead := canonHead - 1;
      }
      OnlyLetters(word, canonHead);
    }

    /** There is room for the line and its newline, in the line buffer and in the ring. */
    ghost predicate LineFits()
      requires Shaped()
      reads this, readBuf, canonBuf
    {
      |Line()| < MAX_CANON - 1 && |Ring()| + |Line()| + 1 < BUF_SIZE
    }

    /** A newline ends the line; it gets through whole exactly if it fits. */
    method Newline()
      requires Valid()
      modifies this, readBuf, canonBuf
      ensures Shaped() && edit == Typed(old(edit), NL) && delivered == old(delivered)
      ensures Valid() <==> old(LineFits())
    {
      hide RingOf, Newlines, Plain, Sound, Typed;
      ghost var ring, line := Ring(), Line();
      RingSize(readBuf[..], head, tail);
      SoundCount(edit, delivered, ring, line, canonLines, readCnt);
      if canonHead < MAX_CANON - 1 {
        canonBuf[canonHead] := NL;
        canonHead := canonHead + 1;
        assert Line() == line + [NL];
      }
      ghost var whole := Line();
      FinishLine();
      assert whole == line + [NL] || |whole| == |line|;
      assert |ring| + |line| + 1 == |Ring()| ==> Ring() == ring + (line + [NL]);
      SoundFinished(edit, delivered, ring, line, old(canonLines), old(readCnt), Ring(), readCnt);
      edit := Typed(edit, NL);
      assert Line() == [];
    }

    /** tty_receive_char: the terminal's state is that of the line editor after one key more, exactly if
        the key does not end a line that does not fit. */
    method Receive(key: Byte)
      requires Valid() && key != VEOF && key != VLNEXT
      modifies this, readBuf, canonBuf
      ensures Shaped() && edit == Typed(old(edit), key) && delivered == if IsSignal(key) then [] else old(delivered)
      ensures Valid() <==> (Translated(key) == NL ==> old(LineFits()))
    {
      hide RingOf, Newlines, Plain, Sound, DropSpaces, DropLetters;
      ghost var ring, line := Ring(), Line();
      SoundLine(edit, delivered, ring, line, canonLines, readCnt);
      var c := key;
      if c == CR {
        c := NL;
      }
      if c == VINTR || c == VQUIT || c == VSUSP {
        canonHead, head, readCnt, canonLines := 0, tail, 0, 0;
        edit, delivered := Edit([], []), [];
        SoundEmpty(readBuf[..], tail);
        assert Line() == [];
      } else if c == VSTOP || c == VSTART {
      } else if c == DEL || c == BS {
        if canonHead > 0 {
          canonHead := canonHead - 1;
          assert Line() == line[..|line| - 1];
        }
        SoundPrefix(edit, delivered, ring, line, canonLines, readCnt, Line());
        edit := edit.(line := Line());
      } else if c == VWERASE {
        EraseWord();
        SoundPrefix(edit, delivered, ring, line, canonLines, readCnt, Line());
        edit := edit.(line := Line());
      } else if c == VKILL {
        canonHead := 0;
        assert Line() == [];
        SoundPrefix(edit, delivered, ring, line, canonLines, readCnt, []);
        edit := edit.(line := []);
      } else if c == VREPRINT || c == VDISCARD || c == VEOL {
      } else if c == NL {
        Newline();
      } else if canonHead < MAX_CANON - 1 {
        canonBuf[canonHead] := c;
        canonHead := canonHead + 1;
        assert Line() == line + [c];
        SoundTyped(edit, delivered, ring, line, canonLines, readCnt, c);
        edit := edit.(line := Line());
      }
    }

    /** The canonical branch of n_tty_read once a line is there: up to the first newline, or as much of
        it as was asked for; the ring never runs empty before that. */
    method ReadLine(count: nat) returns (bytes: seq<Byte>)
      requires Valid() && canonLines > 0 && count > 0
      modifies this
      ensures Valid() && edit == old(edit) && delivered == old(delivered) + bytes && old(Ring()) == bytes + Ring()
      ensures 0 < |bytes| <= count && (|bytes| == count || bytes[|bytes| - 1] == NL) && NL !in bytes[..|bytes| - 1]
    {
      hide RingOf, Newlines, Plain, Sound;
      bytes := [];
      ghost var ring, line, lines := Ring(), Line(), canonLines;
      SoundCount(edit, delivered, ring, line, canonLines, readCnt);
      RingSize(readBuf[..], head, tail);
      NoNewlines(ring);
      var done := false;
      while |bytes| < count && head != tail && !done
        invariant Shaped() && Line() == line && edit == old(edit) && delivered == old(delivered) && readCnt == |Ring()|
        invariant |bytes| <= count && ring == bytes + Ring() && canonLines == Newlines(Ring())
        invariant if done then bytes != [] && bytes[|bytes| - 1] == NL && NL !in bytes[..|bytes| - 1] else NL !in bytes && canonLines > 0
        invariant !done ==> head != tail
        decreases |Ring()|
      {
        var c := Get();
        ReadByte(ring, bytes, c, Ring());
        RingSize(readBuf[..], head, tail);
        NoNewlines(Ring());
        bytes := bytes + [c];
        if c == NL || c == VEOL {
          canonLines := canonLines - 1;
          done := true;
        }
      }
      SoundRead(edit, delivered, ring, line, lines, bytes, Ring(), canonLines);
      delivered := delivered + bytes;
    }
  }

  /** 254 letters and a newline, typed at a fresh terminal: the newline finds no room in the line
      buffer, and the reader does not get the line as it was typed. */
  method OverfullLine() returns (tty: Tty)
    ensures fresh(tty) && tty.Shaped() && !tty.Valid() && tty.delivered == []
    ensures |tty.edit.finished| == MAX_CANON && tty.edit.finished[MAX_CANON - 1] == NL
  {
    hide RingOf, Newlines, Plain;
    tty := new Tty();
    for i := 0 to MAX_CANON - 1
      invariant fresh(tty) && fresh(tty.readBuf) && fresh(tty.canonBuf) && tty.Valid() && tty.delivered == []
      invariant tty.edit.finished == [] && |tty.edit.line| == i
    {
      tty.Receive('a' as nat);
    }
    tty.Receive(NL);
  }

  lemma SoundCount(edit: Edit, delivered: seq<Byte>, ring: seq<Byte>, line: seq<Byte>, lines: int, count: int)
    requires Sound(edit, delivered, ring, line, lines, count)
    ensures count == |ring| && lines == Newlines(ring) && Plain(ring)
  {
  }

  lemma SoundLine(edit: Edit, delivered: seq<Byte>, ring: seq<Byte>, line: seq<Byte>, lines: int, count: int)
    requires Sound(edit, delivered, ring, line, lines, count)
    ensures edit == Edit(delivered + ring, line)
  {
  }

  lemma SoundEmpty(buf: seq<Byte>, tail: nat)
    requires tail < |buf|
    ensures RingOf(buf, tail, tail) == [] && Sound(Edit([], []), [], [], [], 0, 0)
  {
  }

  lemma RingSize(buf: seq<Byte>, head: nat, tail: nat)
    requires |buf| == BUF_SIZE && head < BUF_SIZE && tail < BUF_SIZE
    ensures |RingOf(buf, head, tail)| < BUF_SIZE && (RingOf(buf, head, tail) == [] <==> head == tail)
  {
    RingLength(buf, head, tail);
  }

  lemma ReadByte(ring: seq<Byte>, bytes: seq<Byte>, c: Byte, rest: seq<Byte>)
    requires Plain(ring) && ring == bytes + ([c] + rest)
    ensures c != VEOF && c != VEOL && ring == bytes + [c] + rest
    ensures Newlines([c] + rest) == Newlines(rest) + if c == NL then 1 else 0
  {
    assert ring[|bytes|] == c;
    NewlinesConcat([c], rest);
    assert Newlines([c]) == Newlines([]) + if c == NL then 1 else 0;
  }

  lemma PlainConcat(a: seq<Byte>, b: seq<Byte>)
    ensures Plain(a + b) <==> Plain(a) && Plain(b)
  {
    if Plain(a + b) {
      forall i | 0 <= i < |a|
        ensures a[i] != VEOF && a[i] != VEOL
      {
        assert a[i] == (a + b)[i];
      }
      forall i | 0 <= i < |b|
        ensures b[i] != VEOF && b[i] != VEOL
      {
        assert b[i] == (a + b)[|a| + i];
      }
    }
  }

  /** How many of `n` bytes a ring with `used` bytes takes. */
  function Fitting(used: nat, n: nat): (r: nat)
    ensures r <= n
  {
    if used + n < BUF_SIZE then n else if used < BUF_SIZE - 1 then BUF_SIZE - 1 - used else 0
  }
}
