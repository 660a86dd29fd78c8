/** Character output of console.c: `consputc`, the integer formatter `printint`
    and the format interpreter of `cprintf`. Output that would go to the UART
    is returned as a sequence of bytes. */
module Output {
  import opened Bytes

  /** The pseudo-character `BACKSPACE` that `consputc` expands into an erase. */
  const BACKSPACE: int := 0x100
  const BS: byte := 8 as char
  /** What `consputc(BACKSPACE)` sends: back, overwrite with a blank, back. */
  const ERASE: seq<byte> := [BS, ' ', BS]

  /** `consputc`: one character to the UART, `BACKSPACE` as a visual erase. */
  function ConsPutC(c: int): (s: seq<byte>)
    requires 0 <= c < 0x100 || c == BACKSPACE
    ensures c == BACKSPACE ==> s == ERASE
    ensures c != BACKSPACE ==> |s| == 1 && s[0] as int == c
  {
    if c == BACKSPACE then ERASE else [c as char]
  }

  /** `k` erase sequences, as `k` calls of `consputc(BACKSPACE)` send them. */
  function Erases(k: nat): (s: seq<byte>)
    ensures |s| == 3 * k
    ensures forall j :: 0 <= j < |s| ==> s[j] == ERASE[j % 3]
  {
    if k == 0 then [] else Erases(k - 1) + ERASE
  }

  // ---------------------------------------------------------------------
  // printint

  /** A C `int`. */
  type i32 = x: int | -0x8000_0000 <= x < 0x8000_0000

  const UINT_MODULUS: nat := 0x1_0000_0000

  /** `digits[v]` of the table "0123456789abcdef". */
  function DigitChar(v: nat): (d: byte)
    requires v < 16
  {
    if v < 10 then ('0' as int + v) as char else ('a' as int + v - 10) as char
  }

  /** Inverse of DigitChar on the sixteen digit characters. */
  function DigitValue(d: byte): nat {
    if '0' <= d <= '9' then d as int - '0' as int
    else if 'a' <= d <= 'f' then d as int - 'a' as int + 10
    else 0
  }

  lemma DigitValueOf(v: nat)
    requires v < 16
    ensures DigitValue(DigitChar(v)) == v
  {
  }

  predicate IsDigit(d: byte, base: nat) {
    exists v :: 0 <= v < base && v < 16 && DigitChar(v) == d
  }

  /** The base-`base` digits of `x`, most significant first, without leading zeros. */
  function Digits(x: nat, base: nat): (s: seq<byte>)
    requires base == 10 || base == 16
    ensures 1 <= |s|
    ensures forall k :: 0 <= k < |s| ==> IsDigit(s[k], base)
    ensures x > 0 ==> s[0] != '0'
    decreases x
  {
    if x < base then [DigitChar(x)] else Digits(x / base, base) + [DigitChar(x % base)]
  }

  /** Reads a digit string back into a number (most significant digit first). */
  function ParseDigits(s: seq<byte>, base: nat): nat {
    if s == [] then 0 else ParseDigits(s[..|s| - 1], base) * base + DigitValue(s[|s| - 1])
  }

  /** The C conversion `(uint)xx`: the 32-bit unsigned value with the same
      bits, that is, the one congruent to `xx` modulo 2^32. */
  function AsUint(xx: i32): (u: nat)
    ensures u < UINT_MODULUS && (u - xx) % UINT_MODULUS == 0
  {
    if xx < 0 then xx + UINT_MODULUS else xx
  }

  /** The magnitude `printint` converts: the negation for a negative signed
      value, otherwise the value reinterpreted as a 32-bit unsigned `uint`. */
  function Magnitude(xx: i32, sign: bool): (x: nat)
    ensures x < UINT_MODULUS
  {
    if sign && xx < 0 then -(xx as int) else AsUint(xx)
  }

  /** What `printint(xx, base, sign)` sends. */
  function FormatInt(xx: i32, base: nat, sign: bool): (s: seq<byte>)
    requires base == 10 || base == 16
    ensures 1 <= |s|
    ensures (s[0] == '-') <==> (sign && xx < 0)
    ensures NUL !in s
  {
    (if sign && xx < 0 then ['-'] else []) + Digits(Magnitude(xx, sign), base)
  }

  /** Reads an optionally signed digit string. */
  function ParseInt(s: seq<byte>, base: nat): int {
    if |s| > 0 && s[0] == '-' then 0 - ParseDigits(s[1..], base) else ParseDigits(s, base)
  }

  lemma {:induction false} DigitsRoundTrip(x: nat, base: nat)
    requires base == 10 || base == 16
    ensures ParseDigits(Digits(x, base), base) == x
    decreases x
  {
    if x < base {
      DigitValueOf(x);
      assert ParseDigits([DigitChar(x)], base) == ParseDigits([], base) * base + DigitValue(DigitChar(x));
    } else {
      DigitsRoundTrip(x / base, base);
      DigitValueOf(x % base);
      var d := Digits(x / base, base);
      var s := d + [DigitChar(x % base)];
      assert s[..|s| - 1] == d;
      assert ParseDigits(s, base) == ParseDigits(d, base) * base + DigitValue(DigitChar(x % base));
      assert ParseDigits(s, base) == (x / base) * base + x % base;
    }
  }

  /** What `printint` prints reads back as the value it was given: the signed
      value in signed mode, the 32-bit unsigned reinterpretation otherwise. */
  lemma FormatIntRoundTrip(xx: i32, base: nat, sign: bool)
    requires base == 10 || base == 16
    ensures ParseInt(FormatInt(xx, base, sign), base) == if sign then xx as int else AsUint(xx)
  {
    var x := Magnitude(xx, sign);
    DigitsRoundTrip(x, base);
    var s := FormatInt(xx, base, sign);
    if sign && xx < 0 {
      assert s[1..] == Digits(x, base);
    } else {
      assert s == Digits(x, base);
    }
  }

  function Pow(b: nat, k: nat): nat {
    if k == 0 then 1 else b * Pow(b, k - 1)
  }

  lemma {:induction false} DigitsFit(x: nat, base: nat, k: nat)
    requires base == 10 || base == 16
    requires 1 <= k && x < Pow(base, k)
    ensures |Digits(x, base)| <= k
    decreases k
  {
    if x >= base {
      assert k >= 2 by { assert Pow(base, 1) == base * Pow(base, 0); }
      assert x / base < Pow(base, k - 1);
      DigitsFit(x / base, base, k - 1);
    }
  }

  /** A 32-bit magnitude needs at most ten digits, so `printint`'s 16-byte
      buffer holds the digits and the sign. */
  lemma DigitsOfWord(x: nat, base: nat)
    requires base == 10 || base == 16
    requires x < UINT_MODULUS
    ensures |Digits(x, base)| <= 10
  {
    if base == 10 {
      assert Pow(10, 10) == 10000000000;
      DigitsFit(x, 10, 10);
    } else {
      assert Pow(16, 8) == UINT_MODULUS;
      DigitsFit(x, 16, 8);
    }
  }

  /** Unfolding of Digits as the `do … while` loop of `printint` peels it. */
  lemma DigitsStep(x: nat, base: nat)
    requires base == 10 || base == 16
    ensures Digits(x, base) == (if x / base == 0 then [] else Digits(x / base, base)) + [DigitChar(x % base)]
  {
  }

  /** One round of the `do … while` loop of `printint`: when `x`'s digits are
      the first `|ds| - i` of `ds`, the next digit produced is the one `i`
      places from the end, and `x / base` holds the digits before it. */
  lemma PeelDigit(x: nat, base: nat, ds: seq<byte>, i: nat)
    requires base == 10 || base == 16
    requires i < |ds| && Digits(x, base) == ds[..|ds| - i]
    ensures DigitChar(x % base) == ds[|ds| - 1 - i]
    ensures x / base == 0 ==> i + 1 == |ds|
    ensures x / base != 0 ==> Digits(x / base, base) == ds[..|ds| - i - 1]
  {
    DigitsStep(x, base);
    var d := Digits(x, base);
    assert d[|d| - 1] == DigitChar(x % base);
    if x / base != 0 {
      assert Digits(x / base, base) == d[..|d| - 1];
    }
  }

  /** The `do … while` loop of `printint`: stores the digits of `x` into
      `buf`, least significant first, and returns how many it stored. */
  method ConvertDigits(x0: nat, base: nat, buf: array<byte>) returns (i: nat)
    requires base == 10 || base == 16
    requires buf.Length == 16 && x0 < UINT_MODULUS
    modifies buf
    ensures i == |Digits(x0, base)| <= 10
    ensures forall k {:trigger buf[k]} :: 0 <= k < i ==> buf[k] == Digits(x0, base)[i - 1 - k]
  {
    ghost var ds := Digits(x0, base);
    DigitsOfWord(x0, base);
    var x: nat := x0;
    i := 0;
    // do { buf[i++] = digits[x % base]; } while ((x /= base) != 0);
    while i == 0 || x != 0
      invariant i <= |ds|
      invariant i == 0 || x != 0 ==> Digits(x, base) == ds[..|ds| - i]
      invariant x == 0 && i != 0 ==> i == |ds|
      invariant forall k {:trigger buf[k]} :: 0 <= k < i ==> buf[k] == ds[|ds| - 1 - k]
      decreases |ds| - i
    {
      PeelDigit(x, base, ds, i);
      buf[i] := DigitChar(x % base);
      i := i + 1;
      x := x / base;
    }
  }

  /** `printint`: the digits are produced least significant first into a
      16-byte buffer, the sign appended, and the buffer sent backwards. */
  method PrintInt(xx: i32, base: nat, sign: bool) returns (out: seq<byte>)
    requires base == 10 || base == 16
    ensures out == FormatInt(xx, base, sign)
  {
    var buf := new byte[16];
    var neg := sign && xx < 0;
    var i := ConvertDigits(Magnitude(xx, sign), base, buf);
    ghost var s := FormatInt(xx, base, sign);
    if neg {
      buf[i] := '-';
      i := i + 1;
    }
    assert |s| == i;
    assert forall k {:trigger buf[k]} :: 0 <= k < i ==> buf[k] == s[i - 1 - k];

    out := SendBackwards(buf, i);
    assert forall k :: 0 <= k < |s| ==> out[k] == s[k];
  }

  /** The last loop of `printint`, `while (--i >= 0) consputc(buf[i]);`: the
      first `n` bytes of the buffer, last one first. */
  method SendBackwards(buf: array<byte>, n: nat) returns (out: seq<byte>)
    requires n <= buf.Length
    ensures |out| == n
    ensures forall k :: 0 <= k < n ==> out[k] == buf[n - 1 - k]
  {
    var i := n;
    out := [];
    while i > 0
      invariant 0 <= i <= n
      invariant |out| == n - i
      invariant forall k :: 0 <= k < n - i ==> out[k] == buf[n - 1 - k]
    {
      i := i - 1;
      out := out + [buf[i]];
    }
  }

  // ---------------------------------------------------------------------
  // cprintf

  /** One variadic argument, typed: an `int` for %d, %x and %p; a string,
      or null, for %s. */
  datatype Arg = Int(v: i32) | Str(s: seq<byte>) | NullStr

  /** The C string a `char*` designates: the bytes before the first NUL. */
  function CString(s: seq<byte>): (c: seq<byte>)
    ensures IsPrefix(c, s) && NUL !in c
    ensures NUL !in s ==> c == s
    ensures |c| < |s| ==> s[|c|] == NUL
  {
    if s == [] || s[0] == NUL then [] else [s[0]] + CString(s[1..])
  }

  const NULL_TEXT: seq<byte> := "(null)"

  /** The variadic arguments match the conversions of `fmt`, in order: what a
      caller of `cprintf` must supply. Extra arguments are ignored. */
  predicate ArgsFit(fmt: seq<byte>, args: seq<Arg>)
    decreases |fmt|
  {
    if fmt == [] || fmt[0] == NUL then true
    else if fmt[0] != '%' then ArgsFit(fmt[1..], args)
    else if |fmt| == 1 || fmt[1] == NUL then true
    else if fmt[1] == 'd' || fmt[1] == 'x' || fmt[1] == 'p' then
      |args| > 0 && args[0].Int? && ArgsFit(fmt[2..], args[1..])
    else if fmt[1] == 's' then
      |args| > 0 && !args[0].Int? && ArgsFit(fmt[2..], args[1..])
    else ArgsFit(fmt[2..], args)
  }

  /** What `cprintf(fmt, args…)` sends, interpreted left to right. No NUL
      ever reaches the UART. */
  function Format(fmt: seq<byte>, args: seq<Arg>): (out: seq<byte>)
    requires ArgsFit(fmt, args)
    ensures NUL !in out
    decreases |fmt|
  {
    if fmt == [] || fmt[0] == NUL then []
    else if fmt[0] != '%' then [fmt[0]] + Format(fmt[1..], args)
    else if |fmt| == 1 || fmt[1] == NUL then []
    else
      var c := fmt[1];
      if c == 'd' then FormatInt(args[0].v, 10, true) + Format(fmt[2..], args[1..])
      else if c == 'x' || c == 'p' then FormatInt(args[0].v, 16, false) + Format(fmt[2..], args[1..])
      else if c == 's' then
        (if args[0].NullStr? then NULL_TEXT else CString(args[0].s)) + Format(fmt[2..], args[1..])
      else if c == '%' then ['%'] + Format(fmt[2..], args)
      else ['%', c] + Format(fmt[2..], args)
  }

  /** Bytes other than '%' are sent unchanged, and the arguments are left for
      the rest of the format. */
  lemma {:induction false} FormatVerbatim(lit: seq<byte>, rest: seq<byte>, args: seq<Arg>)
    requires forall k :: 0 <= k < |lit| ==> lit[k] != '%' && lit[k] != NUL
    requires ArgsFit(rest, args)
    ensures ArgsFit(lit + rest, args)
    ensures Format(lit + rest, args) == lit + Format(rest, args)
    decreases |lit|
  {
    if lit != [] {
      var t := lit + rest;
      assert t[0] == lit[0] && t[1..] == lit[1..] + rest;
      FormatVerbatim(lit[1..], rest, args);
      assert Format(t, args) == [lit[0]] + Format(t[1..], args);
      assert lit == [lit[0]] + lit[1..];
    } else {
      assert lit + rest == rest;
    }
  }

  /** Each conversion: %d signed decimal, %x and %p unsigned hexadecimal, %s
      the string or "(null)", %% a percent sign, any other byte echoed after a
      percent sign; a '%' that ends the format ends the output. */
  lemma FormatConversion(c: byte, rest: seq<byte>, a: Arg, args: seq<Arg>)
    requires c != NUL
    ensures Format(['%'], args) == []
    ensures (c == 'd' || c == 'x' || c == 'p') && a.Int? && ArgsFit(rest, args) ==>
      Format(['%', c] + rest, [a] + args) ==
        FormatInt(a.v, if c == 'd' then 10 else 16, c == 'd') + Format(rest, args)
    ensures c == 's' && !a.Int? && ArgsFit(rest, args) ==>
      Format(['%', c] + rest, [a] + args) ==
        (if a.NullStr? then NULL_TEXT else CString(a.s)) + Format(rest, args)
    ensures c == '%' && ArgsFit(rest, args) ==> Format(['%', c] + rest, args) == ['%'] + Format(rest, args)
    ensures c !in {'d', 'x', 'p', 's', '%'} && ArgsFit(rest, args) ==>
      Format(['%', c] + rest, args) == ['%', c] + Format(rest, args)
  {
    assert (['%', c] + rest)[2..] == rest;
    assert ([a] + args)[1..] == args;
  }

  /** The `switch` of `cprintf` on the byte `c` that follows a '%': what it
      prints and how many arguments it takes. */
  method Conversion(c: byte, rest: seq<byte>, args: seq<Arg>) returns (piece: seq<byte>, used: nat)
    requires c != NUL
    requires ArgsFit(['%', c] + rest, args)
    ensures used <= |args| && ArgsFit(rest, args[used..])
    ensures Format(['%', c] + rest, args) == piece + Format(rest, args[used..])
  {
    assert (['%', c] + rest)[2..] == rest;
    if c == 'd' || c == 'x' || c == 'p' || c == 's' {
      var a := args[0];
      assert args == [a] + args[1..];
      FormatConversion(c, rest, a, args[1..]);
      if c == 'd' {
        piece := PrintInt(a.v, 10, true);
      } else if c == 'x' || c == 'p' {
        piece := PrintInt(a.v, 16, false);
      } else {
        piece := if a.NullStr? then NULL_TEXT else CString(a.s);
      }
      used := 1;
    } else {
      FormatConversion(c, rest, NullStr, args);
      if c == '%' {
        piece := ['%'];
      } else {
        // Print unknown % sequence to draw attention.
        piece := ['%', c];
      }
      used := 0;
    }
  }

  /** One pass of the `cprintf` loop at `fmt[i]`: a plain byte, a trailing
      '%', or a conversion, with `args[argp..]` not yet used. */
  method FormatStep(fmt: seq<byte>, i: nat, args: seq<Arg>, argp: nat)
    returns (piece: seq<byte>, next: nat, nextArg: nat)
    requires i < |fmt| && fmt[i] != NUL && argp <= |args|
    requires ArgsFit(fmt[i..], args[argp..])
    ensures i < next <= |fmt| && argp <= nextArg <= |args|
    ensures ArgsFit(fmt[next..], args[nextArg..])
    ensures Format(fmt[i..], args[argp..]) == piece + Format(fmt[next..], args[nextArg..])
  {
    var c := fmt[i];
    var s := fmt[i..];
    var a := args[argp..];
    if c != '%' {
      assert s == [c] + fmt[i + 1..];
      FormatVerbatim([c], fmt[i + 1..], a);
      piece, next, nextArg := [c], i + 1, argp;
    } else if i + 1 == |fmt| || fmt[i + 1] == NUL {
      // A lone trailing '%': nothing more is printed.
      assert s[0] == '%' && (|s| == 1 || s[1] == NUL);
      assert fmt[i + 1..] == [] || fmt[i + 1..][0] == NUL;
      piece, next, nextArg := [], i + 1, argp;
    } else {
      assert s == ['%', fmt[i + 1]] + fmt[i + 2..];
      var used;
      piece, used := Conversion(fmt[i + 1], fmt[i + 2..], a);
      assert a[used..] == args[argp + used..];
      next, nextArg := i + 2, argp + used;
    }
  }

  /** `cprintf`: the format loop. The lock and the null-format panic are not
      modelled. */
  method CPrintf(fmt: seq<byte>, args: seq<Arg>) returns (out: seq<byte>)
    requires ArgsFit(fmt, args)
    ensures out == Format(fmt, args)
  {
    out := [];
    var i := 0;
    var argp := 0;
    assert fmt[0..] == fmt && args[0..] == args;
    while i < |fmt| && fmt[i] != NUL
      invariant i <= |fmt| && argp <= |args|
      invariant ArgsFit(fmt[i..], args[argp..])
      invariant out + Format(fmt[i..], args[argp..]) == Format(fmt, args)
      decreases |fmt| - i
    {
      var piece;
      piece, i, argp := FormatStep(fmt, i, args, argp);
      out := out + piece;
    }
    assert fmt[i..] == [] || fmt[i..][0] == NUL;
  }
}
