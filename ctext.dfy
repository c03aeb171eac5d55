/** The text the guest runtime's formatter produces (emu/slib.cpp:180-259 and emu.c:29-89),
    as byte strings: C strings up to their NUL, numerals in base 10 and 16, and the output
    of `printf`'s scan of its format string. The runtimes' methods are proved against these
    functions; the lemmas here say what the text is. */
module CText {
  import opened Wrappers
  import opened Words

  const NUL: u8 := 0
  const PERCENT: u8 := '%' as int
  const NEWLINE: u8 := '\n' as int

  /** The bytes of a string literal: each character's low byte, which for ASCII is
      its code. */
  function Ascii(s: string): (r: seq<u8>)
    ensures |r| == |s|
  {
    seq(|s|, i requires 0 <= i < |s| => (s[i] as int) % 256)
  }

  /** A byte string with its terminator, as a C string literal is laid out. */
  function CString(s: seq<u8>): (r: seq<u8>)
  {
    s + [NUL]
  }

  // ---------------------------------------------------------------------
  // C strings

  /** What `print_str` emits for a string: the bytes before the first NUL. */
  function UntilNul(s: seq<u8>): (r: seq<u8>)
    requires NUL in s
    ensures |r| < |s| && r == s[..|r|] && s[|r|] == NUL && NUL !in r
  {
    if s[0] == NUL then [] else [s[0]] + UntilNul(s[1..])
  }

  /** A string without NUL reads back as itself once terminated. */
  lemma {:induction false} UntilNulOfCString(s: seq<u8>)
    requires NUL !in s
    ensures UntilNul(CString(s)) == s
  {
    if s != [] {
      assert CString(s)[1..] == CString(s[1..]);
      UntilNulOfCString(s[1..]);
    }
  }

  /** The text ends at the first NUL: a string without NUL, then a NUL, reads as the
      string. */
  lemma {:induction false} UntilNulPrefix(p: seq<u8>, q: seq<u8>)
    requires NUL !in p && |q| > 0 && q[0] == NUL
    ensures UntilNul(p + q) == p
    decreases |p|
  {
    if p != [] {
      assert (p + q)[1..] == p[1..] + q;
      UntilNulPrefix(p[1..], q);
    } else {
      assert p + q == q;
    }
  }

  /** The step of the `print_str` loop: a non-NUL byte is emitted, then the rest. */
  lemma UntilNulStep(s: seq<u8>, k: nat)
    requires k < |s| && NUL in s[k..] && s[k] != NUL
    ensures NUL in s[k + 1..]
    ensures UntilNul(s[k..]) == [s[k]] + UntilNul(s[k + 1..])
  {
    assert s[k..][1..] == s[k + 1..];
  }

  /** The same step as the `print_str` loop sees it: output so far, one byte, the rest. */
  lemma EmitStep(before: seq<u8>, s: seq<u8>, k: nat)
    requires k < |s| && NUL in s[k..] && s[k] != NUL
    ensures NUL in s[k + 1..]
    ensures (before + [s[k]]) + UntilNul(s[k + 1..]) == before + UntilNul(s[k..])
  {
    UntilNulStep(s, k);
  }

  // ---------------------------------------------------------------------
  // Numerals

  /** `hex_chars` of emu/slib.cpp:221, the string "0123456789abcdef". */
  const HEX_CHARS: seq<u8> :=
    [0x30, 0x31, 0x32, 0x33, 0x34, 0x35, 0x36, 0x37, 0x38, 0x39,
     0x61, 0x62, 0x63, 0x64, 0x65, 0x66]

  /** The character of digit d: `d + '0'` below ten, as the decimal loops write it,
      and 'a' to 'f' above. */
  function DigitChar(d: nat): (c: u8)
    requires d < 16
  {
    if d < 10 then 0x30 + d else 0x61 + (d - 10)
  }

  /** `hex_chars[d]` is the character of digit d. */
  lemma HexCharsTable(d: nat)
    requires d < 16
    ensures HEX_CHARS[d] == DigitChar(d)
  {
  }

  /** The number of digits of n in a base: the count `while (t > 0) { len++; t /= b; }`
      reaches. */
  function Width(n: nat, base: nat): (w: nat)
    requires 2 <= base
    ensures n == 0 <==> w == 0
    decreases n
  {
    if n == 0 then 0 else 1 + Width(n / base, base)
  }

  /** The digits of n in base 10 or 16, most significant first; none for 0. */
  function Numeral(n: nat, base: nat): (r: seq<u8>)
    requires 2 <= base <= 16
    ensures |r| == Width(n, base)
    decreases n
  {
    if n == 0 then [] else Numeral(n / base, base) + [DigitChar(n % base)]
  }

  /** The number of digits of n > 0 and of n / base, as the counting loop sees them
      with `if t > 0`. */
  lemma WidthStep(n: int, base: nat)
    requires n > 0 && 2 <= base <= 16
    ensures n / base >= 0
    ensures Width(n, base) == 1 + Width(if n / base > 0 then n / base else 0, base)
    ensures Numeral(n, base) == Numeral(if n / base > 0 then n / base else 0, base) + [DigitChar(n % base)]
  {
  }

  /** The step of a loop that writes a numeral from its last digit: with the numeral
      of n at digits[..len], its last digit sits at len - 1 and the numeral of
      n / base before it. */
  lemma NumeralLast(digits: seq<u8>, n: int, len: nat, base: nat)
    requires n > 0 && 2 <= base <= 16 && len <= |digits| && Numeral(n, base) == digits[..len]
    ensures len == Width(n, base) >= 1
    ensures digits[len - 1] == DigitChar(n % base)
    ensures Numeral(if n / base > 0 then n / base else 0, base) == digits[..len - 1]
    ensures len - 1 == Width(if n / base > 0 then n / base else 0, base)
  {
    WidthStep(n, base);
    assert digits[len - 1] == digits[..len][len - 1];
    assert digits[..len][..len - 1] == digits[..len - 1];
  }

  /** Writing c at position j of a buffer puts it in front of the suffix after j. */
  lemma WriteBefore(a: seq<u8>, j: nat, c: u8, end: nat)
    requires j < end <= |a|
    ensures a[j := c][j..end] == [c] + a[j + 1..end]
  {
  }

  /** `print_int(i)`: "0" for 0, the decimal digits of a positive value, nothing for a
      negative one (emu/slib.cpp:192-217, emu.c:37-69). */
  function DecimalText(i: int): (r: seq<u8>)
  {
    if i == 0 then [DigitChar(0)] else if i > 0 then Numeral(i, 10) else []
  }

  /** `print_int`'s two parts: the "0" of its first branch, then the digit buffer. */
  lemma DecimalTextParts(i: int)
    ensures DecimalText(i) == (if i == 0 then [DigitChar(0)] else []) + (if i > 0 then Numeral(i, 10) else [])
  {
    if i == 0 {
      assert [DigitChar(0)] + [] == [DigitChar(0)];
    } else {
      assert [] + DecimalText(i) == DecimalText(i);
    }
  }

  /** The digits `print_address` writes for addr: at least one, no leading zeros. */
  function HexDigits(addr: nat): (r: seq<u8>)
    ensures |r| >= 1
  {
    if addr == 0 then [DigitChar(0)] else Numeral(addr, 16)
  }

  /** `print_address(addr)`: "0x" and the lowercase hexadecimal digits of addr (the
      intended output of emu/slib.cpp:219-236). */
  function HexText(addr: nat): (r: seq<u8>)
  {
    ['0' as int, 'x' as int] + HexDigits(addr)
  }

  /** The first pass of the do-while writes the last digit, zero included. */
  lemma HexDigitsLast(addr: nat)
    ensures HexDigits(addr) == Numeral(addr / 16, 16) + [DigitChar(addr % 16)]
  {
    if addr == 0 {
      assert [] + [DigitChar(0)] == [DigitChar(0)];
    }
  }

  /** Peeling the last digit of a numeral off in front of digits already written. */
  lemma NumeralPeel(n: nat, base: nat, written: seq<u8>)
    requires n > 0 && 2 <= base <= 16
    ensures Numeral(n, base) + written == Numeral(n / base, base) + ([DigitChar(n % base)] + written)
  {
  }

  /** "0x" and the digits contain no NUL. */
  lemma HexTextHasNoNul(addr: nat)
    ensures NUL !in HexText(addr)
  {
    NumeralIsCanonical(addr, 16);
  }

  /** The value of a digit character; 16 for a byte that is none. */
  function DigitValue(c: u8): (d: nat)
    ensures d <= 16
  {
    if 0x30 <= c <= 0x39 then c - 0x30 else if 0x61 <= c <= 0x66 then c - 0x61 + 10 else 16
  }

  /** The number a string of digits denotes in a base. */
  function ValueOf(s: seq<u8>, base: nat): (v: nat)
    decreases |s|
  {
    if s == [] then 0 else ValueOf(s[..|s| - 1], base) * base + DigitValue(s[|s| - 1])
  }

  /** A digit character denotes its place in `hex_chars`. */
  lemma DigitValueOfChar(d: nat)
    requires d < 16
    ensures DigitValue(DigitChar(d)) == d
  {
  }

  /** Every character of a numeral is a digit of its base, none is a NUL, and a
      non-empty numeral does not start with '0'. */
  lemma {:induction false} NumeralIsCanonical(n: nat, base: nat)
    requires 2 <= base <= 16
    ensures forall k :: 0 <= k < |Numeral(n, base)| ==> DigitValue(Numeral(n, base)[k]) < base
    ensures NUL !in Numeral(n, base)
    ensures n > 0 ==> Numeral(n, base)[0] != DigitChar(0)
    decreases n
  {
    if n > 0 {
      NumeralIsCanonical(n / base, base);
      DigitValueOfChar(n % base);
      if n / base == 0 {
        assert n % base == n;
      }
    }
  }

  /** Reading a numeral back gives the number: the rendering loses nothing. */
  lemma {:induction false} NumeralRoundTrip(n: nat, base: nat)
    requires 2 <= base <= 16
    ensures ValueOf(Numeral(n, base), base) == n
    decreases n
  {
    if n > 0 {
      var q, d := n / base, n % base;
      QuotientSmaller(n, base);
      var front := Numeral(q, base);
      assert Numeral(n, base) == front + [DigitChar(d)];
      ValueOfSnoc(front, DigitChar(d), base);
      NumeralRoundTrip(q, base);
      DigitValueOfChar(d);
      assert ValueOf(Numeral(n, base), base) == ValueOf(front, base) * base + d;
      DivModSplit(n, base);
    }
  }

  lemma ValueOfSnoc(s: seq<u8>, c: u8, base: nat)
    ensures ValueOf(s + [c], base) == ValueOf(s, base) * base + DigitValue(c)
  {
    assert (s + [c])[..|s|] == s;
  }

  lemma DivModSplit(n: int, b: int)
    requires b > 0
    ensures n == (n / b) * b + n % b
  {
  }

  lemma QuotientSmaller(n: int, b: int)
    requires n > 0 && b >= 2
    ensures 0 <= n / b < n
  {
    var q := n / b;
    assert n == b * q + n % b;
  }

  function Power(b: nat, k: nat): nat
  {
    if k == 0 then 1 else b * Power(b, k - 1)
  }

  lemma {:induction false} PowerAdd(b: nat, i: nat, j: nat)
    ensures Power(b, i + j) == Power(b, i) * Power(b, j)
    decreases i
  {
    if i > 0 {
      PowerAdd(b, i - 1, j);
      assert Power(b, i + j) == b * Power(b, i - 1 + j);
    }
  }

  /** Numbers below base^k have at most k digits. */
  lemma {:induction false} WidthBound(n: nat, base: nat, k: nat)
    requires 2 <= base && n < Power(base, k)
    ensures Width(n, base) <= k
    decreases k
  {
    if n > 0 {
      assert k > 0;
      var q := n / base;
      assert q < Power(base, k - 1);
      WidthBound(q, base, k - 1);
    }
  }

  /** A 64-bit address has at most 16 hexadecimal digits; a positive 32-bit int at most
      10 decimal ones. */
  lemma WidthOfWords(addr: u64, i: i32)
    ensures Width(addr, 16) <= 16
    ensures i > 0 ==> Width(i, 10) <= 10
  {
    assert Power(16, 2) == 0x100;
    PowerAdd(16, 2, 2);
    PowerAdd(16, 4, 4);
    PowerAdd(16, 8, 8);
    WidthBound(addr, 16, 16);
    if i > 0 {
      assert Power(10, 2) == 100;
      PowerAdd(10, 2, 2);
      assert Power(10, 5) == 100_000;
      PowerAdd(10, 5, 5);
      WidthBound(i, 10, 10);
    }
  }

  /** The text of a value printed with `%i` is its decimal numeral: "0" and the digits
      of a positive value read back as the value, and a negative value prints
      nothing. */
  lemma DecimalTextValue(i: int)
    ensures i >= 0 ==> ValueOf(DecimalText(i), 10) == i
    ensures i >= 0 ==> |DecimalText(i)| >= 1
    ensures i < 0 ==> DecimalText(i) == []
  {
    if i > 0 {
      NumeralRoundTrip(i, 10);
    } else if i == 0 {
      DigitValueOfChar(0);
      assert [DigitChar(0)][..0] == [];
    }
  }

  /** The text of `%p` is "0x" followed by the address in hexadecimal. */
  lemma HexTextValue(addr: nat)
    ensures HexText(addr)[..2] == ['0' as int, 'x' as int]
    ensures ValueOf(HexText(addr)[2..], 16) == addr
    ensures 3 <= |HexText(addr)|
  {
    var digits := HexText(addr)[2..];
    assert digits == HexDigits(addr);
    if addr == 0 {
      DigitValueOfChar(0);
      assert digits == [DigitChar(0)];
      assert digits[..0] == [];
    } else {
      NumeralRoundTrip(addr, 16);
      assert digits == Numeral(addr, 16);
    }
  }

  // ---------------------------------------------------------------------
  // printf

  /** A `printf` argument, of the kind the directive that consumes it reads. */
  datatype Arg = Str(s: seq<u8>) | Int(i: i32) | Ptr(p: u64)

  function Prepend(p: seq<u8>, r: Option<seq<u8>>): Option<seq<u8>>
  {
    if r.Some? then Some(p + r.value) else None
  }

  /** Output so far followed by text and the rest is the output with the text added,
      followed by the rest. */
  lemma AppendPrepend(before: seq<u8>, text: seq<u8>, r: Option<seq<u8>>)
    requires r.Some?
    ensures before + Prepend(text, r).value == (before + text) + r.value
  {
  }

  /** Whether `printf` reads the next character after a `%` as a directive that
      consumes an argument: `s` and `i`, and `p` where the runtime supports it. */
  predicate IsDirective(c: u8, pointers: bool)
  {
    c == 's' as int || c == 'i' as int || (pointers && c == 'p' as int)
  }

  /** The text `printf(fmt, args...)` emits, fmt read up to its NUL; None where the C
      code's behaviour is undefined: a format without NUL, a `%` right before the NUL,
      or a directive without an argument of its kind. `%` followed by any other
      character emits nothing for either. `pointers` says whether `%p` is a directive
      (emu/slib.cpp:251-252) or not (emu.c). */
  function Format(fmt: seq<u8>, args: seq<Arg>, pointers: bool): (r: Option<seq<u8>>)
    decreases |fmt|
  {
    if |fmt| == 0 then None
    else if fmt[0] == NUL then Some([])
    else if fmt[0] != PERCENT then Prepend([fmt[0]], Format(fmt[1..], args, pointers))
    else if |fmt| == 1 || fmt[1] == NUL then None
    else if !IsDirective(fmt[1], pointers) then Format(fmt[2..], args, pointers)
    else if |args| == 0 then None
    else
      var text := ArgText(fmt[1], args[0]);
      if text.None? then None else Prepend(text.value, Format(fmt[2..], args[1..], pointers))
  }

  /** The text one directive prints for its argument, None for an argument of the
      wrong kind. */
  function ArgText(d: u8, a: Arg): (r: Option<seq<u8>>)
  {
    if d == 's' as int then (if a.Str? && NUL in a.s then Some(UntilNul(a.s)) else None)
    else if d == 'i' as int then (if a.Int? then Some(DecimalText(a.i)) else None)
    else if a.Ptr? then Some(HexText(a.p))
    else None
  }

  /** The number of arguments a format's directives consume. */
  function Consumed(fmt: seq<u8>, pointers: bool): nat
    decreases |fmt|
  {
    if |fmt| < 2 || fmt[0] == NUL then 0
    else if fmt[0] != PERCENT then Consumed(fmt[1..], pointers)
    else if fmt[1] == NUL then 0
    else if IsDirective(fmt[1], pointers) then 1 + Consumed(fmt[2..], pointers)
    else Consumed(fmt[2..], pointers)
  }

  /** A format without `%` is emitted verbatim up to its NUL, whatever the arguments. */
  lemma {:induction false} FormatVerbatim(fmt: seq<u8>, args: seq<Arg>, pointers: bool)
    requires NUL in fmt && PERCENT !in fmt
    ensures Format(fmt, args, pointers) == Some(UntilNul(fmt))
    decreases |fmt|
  {
    if fmt[0] != NUL {
      assert NUL in fmt[1..] by {
        var j :| 0 <= j < |fmt| && fmt[j] == NUL;
        assert fmt[1..][j - 1] == NUL;
      }
      FormatVerbatim(fmt[1..], args, pointers);
    }
  }

  /** A stretch of literal characters before the rest of a format is emitted first. */
  lemma {:induction false} FormatLiteralPrefix(lit: seq<u8>, rest: seq<u8>, args: seq<Arg>, pointers: bool)
    requires NUL !in lit && PERCENT !in lit
    ensures Format(lit + rest, args, pointers) == Prepend(lit, Format(rest, args, pointers))
    decreases |lit|
  {
    if lit != [] {
      assert (lit + rest)[1..] == lit[1..] + rest;
      FormatLiteralPrefix(lit[1..], rest, args, pointers);
      var f := Format(rest, args, pointers);
      if f.Some? {
        assert [lit[0]] + (lit[1..] + f.value) == lit + f.value;
      }
    } else {
      assert lit + rest == rest;
      var f := Format(rest, args, pointers);
      if f.Some? {
        assert [] + f.value == f.value;
      }
    }
  }

  /** A directive before the rest of a format prints its argument's text first and
      uses up that one argument. */
  lemma FormatDirectivePrefix(d: u8, rest: seq<u8>, a: Arg, args: seq<Arg>, pointers: bool)
    requires IsDirective(d, pointers) && ArgText(d, a).Some?
    ensures Format([PERCENT, d] + rest, [a] + args, pointers)
         == Prepend(ArgText(d, a).value, Format(rest, args, pointers))
  {
    var f := [PERCENT, d] + rest;
    assert f[2..] == rest;
    assert ([a] + args)[1..] == args;
  }

  /** Each directive consumes exactly one argument: a format that prints is given at
      least as many arguments as it has directives, and arguments after those are
      ignored. */
  lemma {:induction false} FormatConsumes(fmt: seq<u8>, args: seq<Arg>, extra: seq<Arg>, pointers: bool)
    requires Format(fmt, args, pointers).Some?
    ensures Consumed(fmt, pointers) <= |args|
    ensures Format(fmt, args + extra, pointers) == Format(fmt, args, pointers)
    decreases |fmt|
  {
    if fmt[0] != NUL {
      if fmt[0] != PERCENT {
        FormatConsumes(fmt[1..], args, extra, pointers);
      } else if !IsDirective(fmt[1], pointers) {
        FormatConsumes(fmt[2..], args, extra, pointers);
      } else {
        assert (args + extra)[1..] == args[1..] + extra;
        assert (args + extra)[0] == args[0];
        FormatConsumes(fmt[2..], args[1..], extra, pointers);
      }
    }
  }

  /** One step of `printf`'s scan at position k with argument a next: a literal
      character, a directive with its argument, or a `%` and a character that is
      none. */
  lemma FormatStep(fmt: seq<u8>, k: nat, args: seq<Arg>, a: nat, pointers: bool)
    requires k < |fmt| && a <= |args| && fmt[k] != NUL
    requires Format(fmt[k..], args[a..], pointers).Some?
    ensures fmt[k] != PERCENT ==>
      Format(fmt[k..], args[a..], pointers) == Prepend([fmt[k]], Format(fmt[k + 1..], args[a..], pointers))
    ensures fmt[k] == PERCENT ==> k + 2 < |fmt| + 1 && k + 1 < |fmt| && fmt[k + 1] != NUL
    ensures fmt[k] == PERCENT && !IsDirective(fmt[k + 1], pointers) ==>
      Format(fmt[k..], args[a..], pointers) == Format(fmt[k + 2..], args[a..], pointers)
    ensures fmt[k] == PERCENT && IsDirective(fmt[k + 1], pointers) ==>
      a < |args| && ArgText(fmt[k + 1], args[a]).Some? &&
      Format(fmt[k..], args[a..], pointers)
        == Prepend(ArgText(fmt[k + 1], args[a]).value, Format(fmt[k + 2..], args[a + 1..], pointers))
  {
    var f := fmt[k..];
    assert f[1..] == fmt[k + 1..];
    if fmt[k] == PERCENT {
      assert f[2..] == fmt[k + 2..];
      if IsDirective(fmt[k + 1], pointers) {
        assert args[a..][1..] == args[a + 1..];
      }
    }
  }
}
