/** The console input side of console.c: the 512-byte input ring with its
    read, write and edit indices, the line editor `consoleintr`, tab
    completion `autocomplete`, and the copy-out loop of `consoleread`. */
module Console {
  import opened Bytes
  import opened Output
  import opened Trie
  import opened Registry

  /** End of file, typed as Ctrl-D. */
  const EOT: byte := Ctrl('D')
  /** The bytes that end a line for kill-line. */
  const LINE_STOPS: set<byte> := {NEWLINE}
  /** The bytes that end a word for tab completion. */
  const WORD_STOPS: set<byte> := {SPACE, NEWLINE}

  // ---------------------------------------------------------------------
  // The ring

  /** The bytes of ring `b` at the logical indices `lo..hi-1`. */
  function Ring(b: seq<byte>, lo: nat, hi: nat): (s: seq<byte>)
    requires |b| == INPUT_BUF && lo <= hi
    ensures |s| == hi - lo
    ensures forall k :: 0 <= k < |s| ==> s[k] == b[(lo + k) % INPUT_BUF]
  {
    seq(hi - lo, k requires 0 <= k < hi - lo => b[(lo + k) % INPUT_BUF])
  }

  lemma RingSnoc(b: seq<byte>, lo: nat, hi: nat)
    requires |b| == INPUT_BUF && lo <= hi
    ensures Ring(b, lo, hi + 1) == Ring(b, lo, hi) + [b[hi % INPUT_BUF]]
  {
  }

  lemma RingTail(b: seq<byte>, lo: nat, hi: nat)
    requires |b| == INPUT_BUF && lo < hi
    ensures Ring(b, lo, hi)[0] == b[lo % INPUT_BUF] && Ring(b, lo, hi)[1..] == Ring(b, lo + 1, hi)
  {
  }

  /** Two logical indices less than a ring apart use different slots. */
  lemma SlotsDiffer(x: nat, y: nat)
    requires x < y < x + INPUT_BUF
    ensures x % INPUT_BUF != y % INPUT_BUF
  {
    var qx, qy := x / INPUT_BUF, y / INPUT_BUF;
    assert x == INPUT_BUF * qx + x % INPUT_BUF;
    assert y == INPUT_BUF * qy + y % INPUT_BUF;
  }

  /** The ring `b` after `s` is stored at logical indices `at, at+1, ...`. */
  function WriteRing(b: seq<byte>, at: nat, s: seq<byte>): (b': seq<byte>)
    requires |b| == INPUT_BUF
    ensures |b'| == INPUT_BUF
  {
    if s == [] then b
    else WriteRing(b, at, s[..|s| - 1])[(at + |s| - 1) % INPUT_BUF := s[|s| - 1]]
  }

  /** After the write, the ring holds `s` at its indices, and the
      `INPUT_BUF - |s|` indices just before `at` still hold what they held. */
  lemma {:induction false} WriteRingReads(b: seq<byte>, at: nat, s: seq<byte>)
    requires |b| == INPUT_BUF && |s| <= INPUT_BUF
    ensures forall k :: 0 <= k < |s| ==> WriteRing(b, at, s)[(at + k) % INPUT_BUF] == s[k]
    ensures forall x: nat :: at + |s| <= x + INPUT_BUF && x < at ==>
      WriteRing(b, at, s)[x % INPUT_BUF] == b[x % INPUT_BUF]
    decreases |s|
  {
    if s != [] {
      var n := |s|;
      var s' := s[..n - 1];
      WriteRingReads(b, at, s');
      forall k | 0 <= k < n - 1
        ensures WriteRing(b, at, s)[(at + k) % INPUT_BUF] == s[k]
      {
        SlotsDiffer(at + k, at + n - 1);
        assert s'[k] == s[k];
      }
      forall x: nat | at + n <= x + INPUT_BUF && x < at
        ensures WriteRing(b, at, s)[x % INPUT_BUF] == b[x % INPUT_BUF]
      {
        SlotsDiffer(x, at + n - 1);
      }
    }
  }

  /** Storing one more byte of `m`: the ring after `m[len..i + 1]` is the
      ring after `m[len..i]` with `m[i]` at the next index. */
  lemma WriteRingStep(b: seq<byte>, at: nat, m: seq<byte>, len: nat, i: nat)
    requires |b| == INPUT_BUF && len <= i < |m|
    ensures m[len..i + 1] == m[len..i] + [m[i]]
    ensures WriteRing(b, at, m[len..i + 1]) == WriteRing(b, at, m[len..i])[(at + (i - len)) % INPUT_BUF := m[i]]
  {
    assert m[len..i + 1][..i - len] == m[len..i];
  }

  /** Writing the rest of `m` after a word that holds the first `len` bytes
      of `m` leaves the word holding `m`. */
  lemma CompletedWord(b: seq<byte>, start: nat, len: nat, m: seq<byte>)
    requires |b| == INPUT_BUF && len <= |m| < INPUT_BUF
    requires Ring(b, start, start + len) == m[..len]
    ensures Ring(WriteRing(b, start + len, m[len..]), start, start + |m|) == m
  {
    var b' := WriteRing(b, start + len, m[len..]);
    WriteRingReads(b, start + len, m[len..]);
    forall k | 0 <= k < |m| ensures Ring(b', start, start + |m|)[k] == m[k] {
      if k < len {
        assert b[(start + k) % INPUT_BUF] == m[..len][k];
      } else {
        assert m[len..][k - len] == m[k];
      }
    }
  }

  /** The backward scan of kill-line and of `autocomplete`: from `hi` back
      towards `lo`, stopping just after the nearest byte of `stops`. */
  function ScanBack(b: seq<byte>, lo: nat, hi: nat, stops: set<byte>): (s: nat)
    requires |b| == INPUT_BUF && lo <= hi
    ensures lo <= s <= hi
    ensures s == lo || b[(s - 1) % INPUT_BUF] in stops
    ensures forall k :: s <= k < hi ==> b[k % INPUT_BUF] !in stops
    decreases hi - lo
  {
    if hi == lo || b[(hi - 1) % INPUT_BUF] in stops then hi
    else ScanBack(b, lo, hi - 1, stops)
  }

  // ---------------------------------------------------------------------
  // The multi-match listing

  /** `strncmp(a, b, n) == 0` on zero-padded strings. */
  predicate StrNEqual(a: seq<byte>, b: seq<byte>, n: nat) {
    forall k :: 0 <= k < n ==> CharAt(a, k) == CharAt(b, k)
  }

  /** For C strings, comparing the first `|p|` bytes with `p` is asking
      whether `p` is a prefix. */
  lemma StrNEqualPrefix(a: seq<byte>, p: seq<byte>)
    requires NUL !in a && NUL !in p
    ensures StrNEqual(a, p, |p|) <==> IsPrefix(p, a)
  {
    if StrNEqual(a, p, |p|) {
      forall k | 0 <= k < |p| ensures k < |a| && a[k] == p[k] {
        assert CharAt(a, k) == CharAt(p, k);
        assert p[k] in p;
      }
      if |p| > 0 {
        assert CharAt(a, |p| - 1) == CharAt(p, |p| - 1);
        assert p[|p| - 1] in p;
      }
    }
  }

  /** No entry of `table` starts with `p`. */
  predicate NoneStarts(table: seq<seq<byte>>, p: seq<byte>) {
    forall k :: 0 <= k < |table| ==> !IsPrefix(p, table[k])
  }

  /** What the multi-match branch prints for the table: each entry that
      starts with `p`, on its own line, in table order. Nothing is printed
      exactly when no entry starts with `p`. */
  function Listing(table: seq<seq<byte>>, p: seq<byte>): (s: seq<byte>)
    ensures s == [] <==> NoneStarts(table, p)
  {
    if table == [] then []
    else
      var init := table[..|table| - 1];
      var last := table[|table| - 1];
      assert forall k :: 0 <= k < |init| ==> init[k] == table[k];
      Listing(init, p) + (if IsPrefix(p, last) then last + [NEWLINE] else [])
  }

  /** Entries are listed in table order: the listing of a table is the
      listing of its first part followed by that of the rest. */
  lemma {:induction false} ListingAppend(a: seq<seq<byte>>, b: seq<seq<byte>>, p: seq<byte>)
    ensures Listing(a + b, p) == Listing(a, p) + Listing(b, p)
    decreases |b|
  {
    if b == [] {
      assert a + b == a;
    } else {
      var b', x := b[..|b| - 1], b[|b| - 1];
      var piece := if IsPrefix(p, x) then x + [NEWLINE] else [];
      assert (a + b)[..|a + b| - 1] == a + b';
      assert (a + b)[|a + b| - 1] == x;
      assert Listing(a + b, p) == Listing(a + b', p) + piece;
      assert Listing(b, p) == Listing(b', p) + piece;
      ListingAppend(a, b', p);
    }
  }

  /** An entry is listed exactly when `p` starts it. */
  lemma {:induction false} ListingOne(x: seq<byte>, p: seq<byte>)
    ensures Listing([x], p) == if IsPrefix(p, x) then x + [NEWLINE] else []
  {
    assert [x][..0] == [];
  }

  /** `cprintf("%s\n", s)` for a C string `s`. */
  lemma FormatLine(s: seq<byte>)
    requires NUL !in s
    ensures ArgsFit("%s\n", [Str(s)])
    ensures Format("%s\n", [Str(s)]) == s + [NEWLINE]
  {
    var rest: seq<byte> := "\n";
    FormatVerbatim(rest, [], []);
    assert rest + [] == rest;
    assert "%s\n" == ['%', 's'] + rest;
    assert ([Str(s)] + [])[1..] == [];
    FormatConversion('s', rest, Str(s), []);
    assert [Str(s)] + [] == [Str(s)];
  }

  /** `cprintf(lit)` for a literal without conversions. */
  lemma FormatLiteral(lit: seq<byte>)
    requires forall k :: 0 <= k < |lit| ==> lit[k] != '%' && lit[k] != NUL
    ensures ArgsFit(lit, []) && Format(lit, []) == lit
  {
    FormatVerbatim(lit, [], []);
    assert lit + [] == lit;
  }

  /** The bytes the `default` branch of `consoleintr` handles. */
  predicate Typed(c: byte) {
    c != Ctrl('P') && c != Ctrl('U') && c != Ctrl('H') && c != DELETE && c != TAB
  }

  /** What Tab does to the ring `b0`, the edit point `e0` and the output
      `out0`, given the word `p` before the edit point: nothing when the
      word is empty or falls off the trie; the rest of the unique match
      typed and echoed; otherwise a newline, the listing and `> `, or `$`,
      and the uncommitted text again. */
  ghost predicate TabEffect(nodes: seq<TrieNode>, table: seq<seq<byte>>, p: seq<byte>,
                            b0: seq<byte>, e0: nat, out0: seq<byte>,
                            b: seq<byte>, e: nat, w: nat, out: seq<byte>)
  {
    && WellFormed(nodes) && IsName(p) && |b0| == INPUT_BUF && |b| == INPUT_BUF && w <= e
    && var l := Lookup(nodes, p);
    if p == [] || l.None? then
      e == e0 && b == b0 && out == out0
    else if l.value.count == 1 then
      var m := l.value.result;
      && m in table && IsPrefix(p, m)
      && e == e0 + (|m| - |p|)
      && b == WriteRing(b0, e0, m[|p|..])
      && out == out0 + m[|p|..]
    else
      && e == e0 && b == b0
      && out == out0 + [NEWLINE] + (if l.value.count > 1 then Listing(table, p) + "> " else "$") + Ring(b, w, e)
  }

  /** The four outcomes `autocomplete` promises, gathered into one. */
  lemma TabEffectOf(nodes: seq<TrieNode>, table: seq<seq<byte>>, p: seq<byte>,
                    b0: seq<byte>, e0: nat, out0: seq<byte>,
                    b: seq<byte>, e: nat, w: nat, out: seq<byte>)
    requires WellFormed(nodes) && IsName(p) && |b0| == INPUT_BUF && |b| == INPUT_BUF && w <= e
    requires p == [] || Lookup(nodes, p).None? ==> e == e0 && b == b0 && out == out0
    requires var l := Lookup(nodes, p);
      p != [] && l.Some? && l.value.count == 1 ==>
        var m := l.value.result;
        && m in table && IsPrefix(p, m)
        && e == e0 + (|m| - |p|)
        && b == WriteRing(b0, e0, m[|p|..])
        && out == out0 + m[|p|..]
    requires var l := Lookup(nodes, p);
      p != [] && l.Some? && l.value.count > 1 ==>
        e == e0 && b == b0 && out == out0 + [NEWLINE] + Listing(table, p) + "> " + Ring(b, w, e)
    requires var l := Lookup(nodes, p);
      p != [] && l.Some? && l.value.count == 0 ==>
        e == e0 && b == b0 && out == out0 + [NEWLINE] + "$" + Ring(b, w, e)
    ensures TabEffect(nodes, table, p, b0, e0, out0, b, e, w, out)
  {
  }

  // ---------------------------------------------------------------------
  // The reader

  /** What the copy-out loop of `consoleread` does with the committed bytes
      `c`: how many it consumes, which it copies out, and whether it runs
      out of committed bytes while still wanting more. */
  datatype ReadResult = ReadResult(consumed: nat, copied: seq<byte>, starved: bool)

  /** The copy-out loop over committed bytes `c` with `n` bytes still
      wanted; `first` holds while nothing has been copied yet. It never
      consumes more than is committed. */
  function ReadFrom(c: seq<byte>, n: nat, first: bool): (res: ReadResult)
    ensures res.consumed <= |c|
    decreases |c|
  {
    if n == 0 then ReadResult(0, [], false)
    else if c == [] then ReadResult(0, [], true)
    else if c[0] == EOT then ReadResult(if first then 1 else 0, [], false)
    else if c[0] == NEWLINE then ReadResult(1, [NEWLINE], false)
    else
      var rest := ReadFrom(c[1..], n - 1, false);
      ReadResult(rest.consumed + 1, [c[0]] + rest.copied, rest.starved)
  }

  /** What a read delivers: at most `n` leading committed bytes, none of
      them ^D and only the last of them a newline. It consumes what it
      copies, plus a ^D met before anything was copied. It stops short of
      `n` bytes only after a newline, before a ^D, or when the committed
      bytes run out, and it is starved only in the last case. */
  lemma {:induction false} ReadFromSpec(c: seq<byte>, n: nat, first: bool)
    ensures var res := ReadFrom(c, n, first);
      && |res.copied| <= n && |res.copied| <= res.consumed <= |c|
      && res.copied == c[..|res.copied|]
      && EOT !in res.copied
      && (forall k :: 0 <= k < |res.copied| - 1 ==> res.copied[k] != NEWLINE)
      && (res.consumed == |res.copied| ||
          (first && res.copied == [] && res.consumed == 1 && c[0] == EOT))
      && (res.starved ==> res.consumed == |res.copied| == |c| < n && NEWLINE !in res.copied)
      && (!res.starved && |res.copied| < n ==>
          (res.copied != [] && res.copied[|res.copied| - 1] == NEWLINE) ||
          (|res.copied| < |c| && c[|res.copied|] == EOT))
    decreases |c|
  {
    if n != 0 && c != [] && c[0] != EOT && c[0] != NEWLINE {
      var rest := ReadFrom(c[1..], n - 1, false);
      ReadFromSpec(c[1..], n - 1, false);
      var copied := [c[0]] + rest.copied;
      assert ReadFrom(c, n, first) == ReadResult(rest.consumed + 1, copied, rest.starved);
      assert [c[0]] + c[1..][..|rest.copied|] == c[..|rest.copied| + 1];
      assert forall x :: x in copied <==> x == c[0] || x in rest.copied;
    }
  }

  /** A ^D that ends a read which already delivered bytes stays committed,
      so the next read delivers nothing and consumes it. */
  lemma EofRetained(c: seq<byte>, n: nat, m: nat)
    requires m > 0
    requires var res := ReadFrom(c, n, true);
      !res.starved && 0 < |res.copied| < n && res.copied[|res.copied| - 1] != NEWLINE
    ensures var res := ReadFrom(c, n, true);
      && res.consumed == |res.copied| < |c| && c[res.consumed] == EOT
      && ReadFrom(c[res.consumed..], m, true) == ReadResult(1, [], false)
  {
    var res := ReadFrom(c, n, true);
    ReadFromSpec(c, n, true);
    assert c[res.consumed..][0] == c[res.consumed];
  }

  /** The copy-out loop's progress: having consumed the ring `b` from `lo`
      up to `r` and copied `dst`, with `n` bytes still wanted, finishing
      the read from `r` yields `total`. */
  ghost predicate Reading(b: seq<byte>, lo: nat, r: nat, w: nat, n: nat, first: bool,
                          dst: seq<byte>, total: ReadResult)
    requires |b| == INPUT_BUF && lo <= r <= w
  {
    var rest := ReadFrom(Ring(b, r, w), n, first);
    total == ReadResult((r - lo) + rest.consumed, dst + rest.copied, rest.starved)
  }

  /** One iteration of the copy-out loop on the ring `b` between `r` and
      `w`: the read ends at an empty ring, at a ^D or after a newline, and
      otherwise goes on past one copied byte. */
  lemma ReadStep(b: seq<byte>, lo: nat, r: nat, w: nat, n: nat, first: bool,
                 dst: seq<byte>, total: ReadResult)
    requires |b| == INPUT_BUF && lo <= r <= w && n > 0
    requires Reading(b, lo, r, w, n, first, dst, total)
    ensures r == w ==> total == ReadResult(r - lo, dst, true)
    ensures r < w && b[r % INPUT_BUF] == EOT ==>
      total == ReadResult(r - lo + (if first then 1 else 0), dst, false)
    ensures r < w && b[r % INPUT_BUF] == NEWLINE ==>
      total == ReadResult(r + 1 - lo, dst + [NEWLINE], false)
    ensures r < w && b[r % INPUT_BUF] != EOT && b[r % INPUT_BUF] != NEWLINE ==>
      Reading(b, lo, r + 1, w, n - 1, false, dst + [b[r % INPUT_BUF]], total)
  {
    if r < w {
      RingTail(b, r, w);
      var c := b[r % INPUT_BUF];
      if c != EOT && c != NEWLINE {
        var next := ReadFrom(Ring(b, r + 1, w), n - 1, false);
        assert dst + ([c] + next.copied) == (dst + [c]) + next.copied;
      }
    } else {
      assert dst + [] == dst;
    }
  }

  // ---------------------------------------------------------------------
  // The console

  /** The `input` structure, the UART output, and the command registry that
      tab completion consults. */
  class Console {
    /** `input.buf`. */
    const buf: array<byte>
    /** `input.r`: the next byte `consoleread` hands out. */
    var r: nat
    /** `input.w`: the end of the committed bytes. */
    var w: nat
    /** `input.e`: the edit point, where the next typed byte goes. */
    var e: nat
    /** Every byte sent to the UART so far. */
    var out: seq<byte>
    const reg: Registry

    /** The indices are ordered and the committed bytes never exceed the
        ring. The edit point may run further ahead: nothing bounds what a
        unique completion appends. */
    ghost predicate RingValid()
      reads this`r, this`w, this`e
    {
      && buf.Length == INPUT_BUF
      && r <= w <= e
      && w - r <= INPUT_BUF
    }

    ghost predicate Valid()
      reads this`r, this`w, this`e, reg, reg.trie
    {
      RingValid() && reg.Valid()
    }

    constructor (reg: Registry)
      requires reg.Valid()
      ensures Valid() && this.reg == reg && fresh(buf)
      ensures r == 0 && w == 0 && e == 0 && out == []
    {
      buf := new byte[INPUT_BUF](_ => NUL);
      r, w, e := 0, 0, 0;
      out := [];
      this.reg := reg;
    }

    /** Where the word before the edit point begins. */
    function WordStart(): nat
      reads this`w, this`e, buf
      requires buf.Length == INPUT_BUF && w <= e
    {
      ScanBack(buf[..], w, e, WORD_STOPS)
    }

    /** The word before the edit point, the prefix `autocomplete` looks up. */
    function Word(): seq<byte>
      reads this`w, this`e, buf
      requires buf.Length == INPUT_BUF && w <= e
    {
      Ring(buf[..], WordStart(), e)
    }

    /** `autocomplete` has defined behaviour: the word fits the 32-byte
        `prefix` buffer with its terminator, and every byte of it indexes a
        child slot of a trie node. */
    predicate TabDefined()
      reads this`w, this`e, buf
      requires buf.Length == INPUT_BUF && w <= e
    {
      |Word()| < MAX_COMMAND_LENGTH && IsName(Word())
    }

    /** Kill line (^U): erase back to the start of the line, one BACKSPACE
        per erased byte. */
    method KillLine()
      requires RingValid()
      modifies this`e, this`out
      ensures RingValid()
      ensures e == ScanBack(buf[..], w, old(e), LINE_STOPS)
      ensures out == old(out) + Erases(old(e) - e)
    {
      ghost var stop := ScanBack(buf[..], w, e, LINE_STOPS);
      while e != w && buf[(e - 1) % INPUT_BUF] != NEWLINE
        invariant RingValid() && stop <= e <= old(e)
        invariant out == old(out) + Erases(old(e) - e)
        decreases e
      {
        e := e - 1;
        out := out + ConsPutC(BACKSPACE);
      }
    }

    /** Backspace (^H or DEL): erase one byte unless the edit point is at the
        start of the uncommitted text. */
    method Backspace()
      requires RingValid()
      modifies this`e, this`out
      ensures RingValid()
      ensures old(e) != w ==> e == old(e) - 1 && out == old(out) + ERASE
      ensures old(e) == w ==> e == old(e) && out == old(out)
    {
      if e != w {
        e := e - 1;
        out := out + ConsPutC(BACKSPACE);
      }
    }

    /** The default branch of `consoleintr`: store and echo a non-zero byte
        if the ring has room, turning CR into NL, and commit the line on NL,
        on ^D, or when the ring is full. */
    method Put(c: byte)
      requires RingValid()
      modifies this`e, this`w, this`out, buf
      ensures RingValid()
      ensures c == NUL || old(e) - r >= INPUT_BUF ==>
        e == old(e) && w == old(w) && out == old(out) && buf[..] == old(buf[..])
      ensures c != NUL && old(e) - r < INPUT_BUF ==>
        var d := if c == RETURN then NEWLINE else c;
        && e == old(e) + 1
        && buf[..] == old(buf[..])[old(e) % INPUT_BUF := d]
        && out == old(out) + [d]
        && w == (if d == NEWLINE || d == EOT || e == r + INPUT_BUF then e else old(w))
      ensures old(e) - r < INPUT_BUF ==> Ring(buf[..], r, old(e)) == Ring(old(buf[..]), r, old(e))
      ensures old(e) - r <= INPUT_BUF ==> e - r <= INPUT_BUF
    {
      if c != NUL && e - r < INPUT_BUF {
        var d := if c == RETURN then NEWLINE else c;
        forall x | r <= x < e ensures x % INPUT_BUF != e % INPUT_BUF {
          SlotsDiffer(x, e);
        }
        buf[e % INPUT_BUF] := d;
        e := e + 1;
        out := out + ConsPutC(d as int);
        if d == NEWLINE || d == EOT || e == r + INPUT_BUF {
          w := e;
        }
      }
    }

    /** Send the uncommitted text `buf[w..e)` again, as both listing
        branches of `autocomplete` do after their message. */
    method Reprint()
      requires RingValid()
      modifies this`out
      ensures out == old(out) + Ring(buf[..], w, e)
    {
      var i := w;
      while i < e
        invariant w <= i <= e && out == old(out) + Ring(buf[..], w, i)
        decreases e - i
      {
        RingSnoc(buf[..], w, i);
        out := out + ConsPutC(buf[i % INPUT_BUF] as int);
        i := i + 1;
      }
    }

    /** The backward scan of `autocomplete` for the start of the word before
        the edit point. */
    method ScanWord() returns (start: int)
      requires RingValid()
      ensures start == WordStart() as int
    {
      start := e as int - 1;
      while start >= w as int && buf[start % INPUT_BUF] != SPACE && buf[start % INPUT_BUF] != NEWLINE
        invariant w as int - 1 <= start < e
        invariant WordStart() == ScanBack(buf[..], w, start + 1, WORD_STOPS)
        decreases start
      {
        start := start - 1;
      }
      start := start + 1;
    }

    /** The copy of the word into the `prefix` buffer, which takes at most
        `MAX_COMMAND_LENGTH - 1` bytes. */
    method CopyPrefix(start: nat, len: nat) returns (prefix: seq<byte>)
      requires buf.Length == INPUT_BUF
      ensures prefix == Ring(buf[..], start, start + (if len < MAX_COMMAND_LENGTH then len else MAX_COMMAND_LENGTH - 1))
    {
      prefix := [];
      var i := 0;
      while i < len && i < MAX_COMMAND_LENGTH - 1
        invariant i <= len && i <= MAX_COMMAND_LENGTH - 1
        invariant prefix == Ring(buf[..], start, start + i)
        decreases len - i
      {
        RingSnoc(buf[..], start, start + i);
        prefix := prefix + [buf[(start + i) % INPUT_BUF]];
        i := i + 1;
      }
    }

    /** The loop of the unique-match branch of `autocomplete`: store the
        bytes of `m` past the first `len` at the edit point, echoing each.
        The ring's capacity is not checked. */
    method TypeRest(m: seq<byte>, len: nat)
      requires buf.Length == INPUT_BUF && len <= |m|
      modifies this`e, this`out, buf
      ensures e == old(e) + (|m| - len)
      ensures buf[..] == WriteRing(old(buf[..]), old(e), m[len..])
      ensures out == old(out) + m[len..]
    {
      ghost var b0 := buf[..];
      ghost var e0 := e;
      var matchlen := |m|;
      if matchlen > len {
        var i := len;
        while i < matchlen
          invariant buf.Length == INPUT_BUF
          invariant len <= i <= matchlen && e == e0 + (i - len)
          invariant buf[..] == WriteRing(b0, e0, m[len..i])
          invariant out == old(out) + m[len..i]
          decreases matchlen - i
        {
          WriteRingStep(b0, e0, m, len, i);
          assert ConsPutC(m[i] as int) == [m[i]];
          buf[e % INPUT_BUF] := m[i];
          out := out + ConsPutC(m[i] as int);
          e := e + 1;
          i := i + 1;
        }
      }
      assert m[len..] == m[len..|m|];
    }

    /** The unique-match branch of `autocomplete`: the word of `len` bytes
        starting at `start`, which holds the first `len` bytes of the match
        `m`, becomes `m`, and the added bytes are echoed. */
    method Complete(m: seq<byte>, start: nat, len: nat)
      requires RingValid() && start + len == e
      requires len <= |m| < MAX_COMMAND_LENGTH && Ring(buf[..], start, e) == m[..len]
      modifies this`e, this`out, buf
      ensures RingValid()
      ensures e == old(e) + (|m| - len)
      ensures buf[..] == WriteRing(old(buf[..]), old(e), m[len..])
      ensures Ring(buf[..], start, e) == m
      ensures out == old(out) + m[len..]
    {
      ghost var b0 := buf[..];
      TypeRest(m, len);
      CompletedWord(b0, start, len, m);
    }

    /** One table entry of the multi-match listing: printed on its own line
        when its first `|prefix|` bytes are the prefix. */
    method ListEntry(entry: seq<byte>, prefix: seq<byte>)
      requires NUL !in entry && NUL !in prefix
      modifies this`out
      ensures out == old(out) + Listing([entry], prefix)
    {
      ListingOne(entry, prefix);
      StrNEqualPrefix(entry, prefix);
      if StrNEqual(entry, prefix, |prefix|) {
        FormatLine(entry);
        var line := CPrintf("%s\n", [Str(entry)]);
        out := out + line;
      }
    }

    /** The `for` loop of the multi-match branch: every table entry that
        starts with the prefix, in table order. */
    method ListTable(prefix: seq<byte>)
      requires NUL !in prefix
      requires forall k :: 0 <= k < |reg.table| ==> GoodName(reg.table[k])
      modifies this`out
      ensures out == old(out) + Listing(reg.table, prefix)
    {
      var i := 0;
      while i < |reg.table|
        invariant i <= |reg.table| && out == old(out) + Listing(reg.table[..i], prefix)
        decreases |reg.table| - i
      {
        var entry := reg.table[i];
        assert reg.table[..i + 1] == reg.table[..i] + [entry];
        ListingAppend(reg.table[..i], [entry], prefix);
        assert GoodName(entry);
        ListEntry(entry, prefix);
        i := i + 1;
      }
      assert reg.table[..|reg.table|] == reg.table;
    }

    /** The multi-match branch of `autocomplete`: a newline, every table
        entry that starts with the prefix, the prompt, and the uncommitted
        text again. */
    method ListMatches(prefix: seq<byte>)
      requires RingValid() && NUL !in prefix
      requires forall k :: 0 <= k < |reg.table| ==> GoodName(reg.table[k])
      modifies this`out
      ensures out == old(out) + [NEWLINE] + Listing(reg.table, prefix) + "> " + Ring(buf[..], w, e)
    {
      out := out + ConsPutC(NEWLINE as int);
      ListTable(prefix);
      FormatLiteral("> ");
      var prompt := CPrintf("> ", []);
      out := out + prompt;
      Reprint();
    }

    /** The no-match branch of `autocomplete`: a newline, a `$`, and the
        uncommitted text again. */
    method NoMatches()
      requires RingValid()
      modifies this`out
      ensures out == old(out) + [NEWLINE] + "$" + Ring(buf[..], w, e)
    {
      out := out + ConsPutC(NEWLINE as int);
      FormatLiteral("$");
      var dollar := CPrintf("$", []);
      out := out + dollar;
      Reprint();
    }

    /** `autocomplete` on Tab: look the word before the edit point up in the
        trie; complete it when exactly one command starts with it, list the
        commands that do when there are several, and say `$` when the node
        it reaches has no command below it. */
    method Autocomplete()
      requires RingValid() && reg.Valid() && TabDefined()
      modifies this`e, this`out, buf
      ensures RingValid() && IsPrefix(old(out), out)
      ensures var p := old(Word()); p == [] || Lookup(reg.trie.nodes, p).None? ==>
        e == old(e) && buf[..] == old(buf[..]) && out == old(out)
      ensures var p := old(Word()); var l := Lookup(reg.trie.nodes, p);
        p != [] && l.Some? && l.value.count == 1 ==>
          var m := l.value.result;
          && m in reg.table && IsPrefix(p, m)
          && e == old(e) + (|m| - |p|)
          && buf[..] == WriteRing(old(buf[..]), old(e), m[|p|..])
          && Ring(buf[..], old(WordStart()), e) == m
          && out == old(out) + m[|p|..]
      ensures var p := old(Word()); var l := Lookup(reg.trie.nodes, p);
        p != [] && l.Some? && l.value.count > 1 ==>
          && e == old(e) && buf[..] == old(buf[..])
          && out == old(out) + [NEWLINE] + Listing(reg.table, p) + "> " + Ring(buf[..], w, e)
      ensures var p := old(Word()); var l := Lookup(reg.trie.nodes, p);
        p != [] && l.Some? && l.value.count == 0 ==>
          && e == old(e) && buf[..] == old(buf[..])
          && out == old(out) + [NEWLINE] + "$" + Ring(buf[..], w, e)
    {
      ghost var p := Word();
      ghost var b0 := buf[..];
      var start := ScanWord();
      var len := e as int - start;
      if len > 0 {
        var prefix := CopyPrefix(start, len);
        assert prefix == p;
        var res := reg.Matches(prefix);
        if res.Some? {
          if res.value.count == 1 {
            Complete(res.value.result, start, len);
          } else if res.value.count > 1 {
            ListMatches(prefix);
            assert buf[..] == b0;
          } else {
            NoMatches();
            assert buf[..] == b0;
          }
        }
      } else {
        assert p == [];
      }
    }

    /** The `switch` of `consoleintr` on one input byte: ^P lists processes
        (not part of this model), ^U kills the line, ^H and DEL erase a
        byte, Tab completes, and anything else is typed. Reading is never
        affected, committed text stays committed, and the UART output only
        grows. */
    method Key(c: byte)
      requires Valid() && (c == TAB ==> TabDefined())
      modifies this`e, this`w, this`out, buf
      ensures Valid() && old(w) <= w
      ensures IsPrefix(old(out), out)
      ensures c == Ctrl('P') ==>
        e == old(e) && w == old(w) && buf[..] == old(buf[..]) && out == old(out)
      ensures c == Ctrl('U') ==>
        && w == old(w) && buf[..] == old(buf[..])
        && e == ScanBack(buf[..], w, old(e), LINE_STOPS)
        && out == old(out) + Erases(old(e) - e)
      ensures c == Ctrl('H') || c == DELETE ==>
        && w == old(w) && buf[..] == old(buf[..])
        && (old(e) != w ==> e == old(e) - 1 && out == old(out) + ERASE)
        && (old(e) == w ==> e == old(e) && out == old(out))
      ensures c == TAB ==>
        && w == old(w)
        && TabEffect(reg.trie.nodes, reg.table, old(Word()), old(buf[..]), old(e), old(out), buf[..], e, w, out)
      ensures Typed(c) ==>
        if c == NUL || old(e) - r >= INPUT_BUF then
          e == old(e) && w == old(w) && out == old(out) && buf[..] == old(buf[..])
        else
          var d := if c == RETURN then NEWLINE else c;
          && e == old(e) + 1
          && buf[..] == old(buf[..])[old(e) % INPUT_BUF := d]
          && out == old(out) + [d]
          && w == (if d == NEWLINE || d == EOT || e == r + INPUT_BUF then e else old(w))
    {
      if c == Ctrl('P') {
      } else if c == Ctrl('U') {
        KillLine();
      } else if c == Ctrl('H') || c == DELETE {
        Backspace();
      } else if c == TAB {
        ghost var p, b0, e0, out0 := Word(), buf[..], e, out;
        Autocomplete();
        TabEffectOf(reg.trie.nodes, reg.table, p, b0, e0, out0, buf[..], e, w, out);
      } else {
        Put(c);
      }
      assert out[..|old(out)|] == old(out);
    }

    /** `consoleintr` over the bytes `getc` returns before it reports that
        no more input is waiting. It stops early only at a Tab for which
        `autocomplete` has no defined behaviour, and reports how many bytes
        it handled. */
    method ConsoleIntr(input: seq<byte>) returns (done: nat)
      requires Valid()
      modifies this`e, this`w, this`out, buf
      ensures Valid() && old(w) <= w
      ensures done <= |input|
      ensures done < |input| ==> input[done] == TAB && !TabDefined()
      ensures IsPrefix(old(out), out)
    {
      done := 0;
      while done < |input|
        invariant Valid() && old(w) <= w
        invariant done <= |input| && IsPrefix(old(out), out)
        decreases |input| - done
      {
        var c := input[done];
        if c == TAB && !TabDefined() {
          return;
        }
        ghost var out0 := out;
        Key(c);
        PrefixTrans(old(out), out0, out);
        done := done + 1;
      }
    }

    /** `consoleread(ip, dst, n)`: copy committed bytes out from `r`,
        stopping after a newline, at a ^D, or when `n` bytes have been
        copied. A ^D met after other bytes is left for the next call. When
        the committed bytes run out first, the reader sleeps until more are
        committed; a killed reader returns -1 instead. `killed` is
        `proc->killed`, and a reader that would sleep is not modelled. */
    method ConsoleRead(n0: int, killed: bool) returns (ret: int, dst: seq<byte>)
      requires RingValid()
      requires n0 > 0 && !killed ==> !ReadFrom(Ring(buf[..], r, w), n0, true).starved
      modifies this`r
      ensures RingValid()
      ensures n0 <= 0 ==> ret == 0 && dst == [] && r == old(r)
      ensures n0 > 0 ==>
        var res := ReadFrom(Ring(buf[..], old(r), w), n0, true);
        && r == old(r) + res.consumed
        && dst == res.copied
        && ret == (if res.starved then -1 else |res.copied|)
    {
      var target := n0;
      var n := n0;
      dst := [];
      if n0 > 0 {
        ghost var b := buf[..];
        ghost var total := ReadFrom(Ring(b, r, w), n0, true);
        assert Reading(b, r, r, w, n, true, dst, total);
        while n > 0
          invariant buf.Length == INPUT_BUF && old(r) <= r <= w && b == buf[..]
          invariant 0 <= n <= n0 && |dst| == n0 - n
          invariant Reading(b, old(r), r, w, n, n == n0, dst, total)
          decreases n
        {
          ReadStep(b, old(r), r, w, n, n == n0, dst, total);
          if r == w {
            if killed {
              return -1, dst;
            }
            assert false;
          }
          var c := buf[r % INPUT_BUF];
          r := r + 1;
          if c == EOT {
            if n < target {
              r := r - 1;
            }
            break;
          }
          dst := dst + [c];
          n := n - 1;
          if c == NEWLINE {
            break;
          }
        }
        assert total == ReadResult(r - old(r), dst, false);
      }
      ret := target - n;
    }
  }
}
