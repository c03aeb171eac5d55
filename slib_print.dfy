/** The formatter of emu/slib.cpp:176-259. Every character goes to the memory-mapped
    console port at CONSOLE_OFFSET with one byte write; `Console.out` is the sequence of
    bytes written there. */
module SlibPrint {
  import opened Words
  import opened CText

  /** The console port's address (emu/slib.cpp:178). */
  const CONSOLE_OFFSET: nat := 0x4

  /** sizeof(void *) on the RV64 target. */
  const ADDRESS_BYTES: nat := 8

  /** The size of `print_address`'s buffer: two digits per pointer byte, "0x" and NUL. */
  const ADDRESS_BUFFER: nat := 2 * ADDRESS_BYTES + 3

  /** What `print_address` as written prints when the stack bytes under its buffer are
      `stack`: "0x" lands at buffer[0..2] and the d digits at buffer[18 - d..18], so
      the bytes between are printed as they were, up to the first NUL among them. */
  function AddressAsWritten(addr: u64, stack: seq<u8>): (r: seq<u8>)
    requires |stack| == ADDRESS_BUFFER
  {
    WidthOfWords(addr, 0);
    var digits := HexDigits(addr);
    UntilNul(['0' as int, 'x' as int] + stack[2..18 - |digits|] + digits + [NUL])
  }

  class Console {
    var out: seq<u8>

    constructor()
      ensures out == []
    {
      out := [];
    }

    /** `print_char(c)`: `CONSOLE_OUT = c`. */
    method PrintChar(c: u8)
      modifies this
      ensures out == old(out) + [c]
    {
      out := out + [c];
    }

    /** `print_str(str)` for `str` pointing at s[start]: every byte up to the NUL. */
    method PrintStr(s: seq<u8>, start: nat)
      requires start <= |s| && NUL in s[start..]
      modifies this
      ensures out == old(out) + UntilNul(s[start..])
    {
      var k := start;
      while s[k] != NUL
        invariant start <= k < |s| && NUL in s[k..]
        invariant old(out) + UntilNul(s[start..]) == out + UntilNul(s[k..])
        decreases |s| - k
      {
        EmitStep(out, s, k);
        PrintChar(s[k]);
        k := k + 1;
      }
      assert s[k..][0] == NUL;
    }

    /** `print_address(addr)` with "0x" written right before the digits, as
        intended: "0x" and the digits. */
    method PrintAddress(addr: u64)
      modifies this
      ensures out == old(out) + HexText(addr)
    {
      var buffer := new u8[ADDRESS_BUFFER];
      ghost var zeros: seq<u8> := buffer[..];
      var idx := FillHex(buffer, addr);
      ghost var filled: seq<u8> := buffer[..];
      buffer[idx] := 'x' as int;
      buffer[idx - 1] := '0' as int;
      assert buffer[..] == filled[idx := 'x' as int][idx - 1 := '0' as int];
      PrefixTwo(filled, idx - 1, '0' as int, 'x' as int);
      SuffixAfter(zeros[..idx + 1], CString(HexDigits(addr)));
      assert buffer[..][idx - 1..] == CString(HexText(addr));
      HexTextHasNoNul(addr);
      UntilNulOfCString(HexText(addr));
      PrintStr(buffer[..], idx - 1);
    }

    /** `print_address(addr)` as written: "0x" goes to buffer[1] and buffer[0]
        whatever the number of digits, and the buffer is printed from buffer[0], so
        the bytes between hold what the stack held there, `stack`. */
    method PrintAddressAsWritten(addr: u64, stack: seq<u8>)
      requires |stack| == ADDRESS_BUFFER
      modifies this
      ensures out == old(out) + AddressAsWritten(addr, stack)
    {
      var buffer := new u8[ADDRESS_BUFFER](j requires 0 <= j < ADDRESS_BUFFER => stack[j]);
      assert buffer[..] == stack;
      var idx := FillHex(buffer, addr);
      ghost var digits := HexDigits(addr);
      ghost var filled: seq<u8> := buffer[..];
      buffer[1] := 'x' as int;
      buffer[0] := '0' as int;
      assert buffer[..] == filled[1 := 'x' as int][0 := '0' as int];
      StackPrefix(stack, idx, digits, filled);
      assert AddressAsWritten(addr, stack) == UntilNul(buffer[..]);
      assert buffer[..][0..] == buffer[..];
      PrintStr(buffer[..], 0);
    }

    /** `printf(fmt, args...)`: literal characters are printed as they come; `%s`,
        `%i` and `%p` print the next argument; `%` and any other character print
        nothing. */
    method Printf(fmt: seq<u8>, args: seq<Arg>)
      requires Format(fmt, args, true).Some?
      modifies this
      ensures out == old(out) + Format(fmt, args, true).value
    {
      var k, a := 0, 0;
      while fmt[k] != NUL
        invariant k < |fmt| && a <= |args|
        invariant Format(fmt[k..], args[a..], true).Some?
        invariant old(out) + Format(fmt, args, true).value == out + Format(fmt[k..], args[a..], true).value
        decreases |fmt| - k
      {
        FormatStep(fmt, k, args, a, true);
        if fmt[k] == PERCENT {
          k := k + 1;
          if fmt[k] == 's' as int {
            assert args[a].s[0..] == args[a].s;
            AppendPrepend(out, UntilNul(args[a].s), Format(fmt[k + 1..], args[a + 1..], true));
            PrintStr(args[a].s, 0);
            a := a + 1;
          } else if fmt[k] == 'i' as int {
            AppendPrepend(out, DecimalText(args[a].i), Format(fmt[k + 1..], args[a + 1..], true));
            PrintInt(args[a].i);
            a := a + 1;
          } else if fmt[k] == 'p' as int {
            AppendPrepend(out, HexText(args[a].p), Format(fmt[k + 1..], args[a + 1..], true));
            PrintAddress(args[a].p);
            a := a + 1;
          }
        } else {
          AppendPrepend(out, [fmt[k]], Format(fmt[k + 1..], args[a..], true));
          PrintChar(fmt[k]);
        }
        k := k + 1;
      }
      assert fmt[k..][0] == NUL;
    }

    /** `print_int(i)`: 0 prints "0" first through a buffer of its own; then the
        digit buffer is printed, empty unless i > 0. */
    method PrintInt(i: i32)
      modifies this
      ensures out == old(out) + DecimalText(i)
    {
      if i == 0 {
        var zero := new u8[2];
        zero[0] := '0' as int;
        zero[1] := NUL;
        assert zero[..] == CString([DigitChar(0)]) && zero[..][0..] == zero[..];
        UntilNulOfCString([DigitChar(0)]);
        PrintStr(zero[..], 0);
      }
      var str := DigitBuffer(i);
      ghost var digits := Numeral(if i > 0 then i else 0, 10);
      NumeralIsCanonical(if i > 0 then i else 0, 10);
      UntilNulOfCString(digits);
      assert str[..][0..] == str[..];
      PrintStr(str[..], 0);
      DecimalTextParts(i);
    }
  }

  /** The loop of `print_address`: `buffer[idx--] = '\0'`, then one hexadecimal digit
      of addr per pass, least significant first, into descending positions, while
      digits remain and `idx > 1`. `digits` are the digits of addr, zero included
      (at most 16 of them); they end at buffer[17], idx is the position before the
      first of them, and the bytes up to idx keep what they held. */
  method FillHex(buffer: array<u8>, addr: u64) returns (idx: nat)
    requires buffer.Length == ADDRESS_BUFFER
    modifies buffer
    ensures 1 <= idx && idx + 1 + |HexDigits(addr)| == ADDRESS_BUFFER - 1
    ensures buffer[..] == old(buffer[..])[..idx + 1] + CString(HexDigits(addr))
  {
    ghost var digits := HexDigits(addr);
    assert |digits| <= 16 && digits == Numeral(addr / 16, 16) + [DigitChar(addr % 16)] by {
      WidthOfWords(addr, 0);
      HexDigitsLast(addr);
    }
    idx := buffer.Length - 1;
    buffer[idx] := NUL;
    idx := idx - 1;
    var a: nat := addr;
    // do { ... } while (addr && idx > 1): the first pass
    HexCharsTable(a % 16);
    buffer[idx] := HEX_CHARS[a % 16];
    assert Numeral(a / 16, 16) + buffer[17..18] == digits by {
      assert buffer[17..18] == [DigitChar(a % 16)];
    }
    idx := idx - 1;
    a := a / 16;
    while a != 0 && idx > 1
      invariant 1 <= idx <= 16
      invariant Numeral(a, 16) + buffer[idx + 1..18] == digits
      invariant buffer[18] == NUL
      invariant forall j :: 0 <= j <= idx ==> buffer[j] == old(buffer[j])
      decreases a
    {
      ghost var before := buffer[..];
      HexCharsTable(a % 16);
      buffer[idx] := HEX_CHARS[a % 16];
      assert Numeral(a / 16, 16) + buffer[idx..18] == digits by {
        NumeralPeel(a, 16, before[idx + 1..18]);
        WriteBefore(before, idx, DigitChar(a % 16), 18);
        assert buffer[..] == before[idx := DigitChar(a % 16)];
      }
      idx := idx - 1;
      a := a / 16;
    }
    assert a == 0;
    ghost var o := old(buffer[..]);
    assert forall j :: 0 <= j <= idx ==> buffer[..][j] == o[j];
    Assemble(buffer[..], o, idx, digits);
  }

  /** The digit loops of `print_int(i)`: count the digits of i, then fill `char
      str[len]` from its last digit down; the buffer has one byte more here, for the
      NUL the code writes at `str[len]`. */
  method DigitBuffer(i: i32) returns (str: array<u8>)
    ensures fresh(str)
    ensures str[..] == CString(Numeral(if i > 0 then i else 0, 10))
  {
    ghost var digits := Numeral(if i > 0 then i else 0, 10);
    var len := 0;
    var t := i;
    while t > 0
      invariant len + Width(if t > 0 then t else 0, 10) == |digits|
    {
      WidthStep(t, 10);
      len := len + 1;
      t := t / 10;
    }
    str := new u8[len + 1];
    str[len] := NUL;
    var n := i;
    while n > 0
      invariant 0 <= len <= |digits| && str.Length == |digits| + 1
      invariant len == Width(if n > 0 then n else 0, 10)
      invariant str[|digits|] == NUL
      invariant Numeral(if n > 0 then n else 0, 10) == digits[..len]
      invariant forall j :: len <= j < |digits| ==> str[j] == digits[j]
    {
      NumeralLast(digits, n, len, 10);

      len := len - 1;
      str[len] := n % 10 + '0' as int;
      assert str[len] == digits[len];
      assert forall j :: len + 1 <= j < |digits| ==> str[j] == digits[j];
      n := n / 10;
    }
    assert str[..] == CString(digits);
  }

  /** Writing y, x at positions j, j + 1 of a buffer puts them in front of the rest. */
  lemma PrefixTwo(s: seq<u8>, j: nat, y: u8, x: u8)
    requires j + 2 <= |s|
    ensures s[j + 1 := x][j := y][j..] == [y, x] + s[j + 2..]
  {
  }

  /** The part of p + q after p is q. */
  lemma SuffixAfter(p: seq<u8>, q: seq<u8>)
    ensures (p + q)[|p|..] == q
  {
  }

  /** A buffer that keeps o up to idx and holds a C string after it. */
  lemma Assemble(b: seq<u8>, o: seq<u8>, idx: nat, digits: seq<u8>)
    requires |b| == |o| == ADDRESS_BUFFER && idx < ADDRESS_BUFFER - 1
    requires forall j :: 0 <= j <= idx ==> b[j] == o[j]
    requires b[idx + 1..ADDRESS_BUFFER - 1] == digits && b[ADDRESS_BUFFER - 1] == NUL
    ensures b == o[..idx + 1] + CString(digits)
  {
    assert b == b[..idx + 1] + b[idx + 1..ADDRESS_BUFFER - 1] + [b[ADDRESS_BUFFER - 1]];
  }

  /** `print_address` as written: with the digits filled in after the stack bytes up
      to idx, "0x" over the first two of these gives "0x", the stack bytes from 2 to
      idx, and the digits. */
  lemma StackPrefix(stack: seq<u8>, idx: nat, digits: seq<u8>, filled: seq<u8>)
    requires 1 <= idx < |stack| && filled == stack[..idx + 1] + CString(digits)
    ensures filled[1 := 'x' as int][0 := '0' as int] == ['0' as int, 'x' as int] + stack[2..idx + 1] + digits + [NUL]
  {
    PrefixTwo(filled, 0, '0' as int, 'x' as int);
    assert filled[2..] == stack[2..idx + 1] + CString(digits);
  }

  // ---------------------------------------------------------------------
  // `print_address` as written

  /** 16^15 = 2^60, the least address with 16 hexadecimal digits. */
  lemma SixteenDigits()
    ensures Power(16, 15) == 0x1000_0000_0000_0000
  {
    assert Power(16, 1) == 16;
    assert Power(16, 2) == 0x100;
    PowerAdd(16, 2, 2);
    PowerAdd(16, 4, 4);
    PowerAdd(16, 8, 4);
    PowerAdd(16, 12, 2);
    PowerAdd(16, 14, 1);
  }

  /** Numbers of at least base^k have more than k digits. */
  lemma {:induction false} WidthAbove(n: nat, base: nat, k: nat)
    requires 2 <= base && n >= Power(base, k)
    ensures Width(n, base) > k
    decreases k
  {
    if k > 0 {
      var q := n / base;
      QuotientAtLeast(n, base, Power(base, k - 1));
      WidthAbove(q, base, k - 1);
    }
  }

  lemma QuotientAtLeast(n: int, b: int, p: int)
    requires b > 0 && p >= 0 && n >= b * p
    ensures n / b >= p
  {
    var q, r := n / b, n % b;
    assert n == b * q + r && r < b;
    assert b * (q + 1) == b * q + b;
    if q + 1 <= p {
      MulMono(b, q + 1, p);
    }
  }

  lemma MulMono(b: int, x: int, y: int)
    requires b >= 0 && x <= y
    ensures b * x <= b * y
  {
    assert b * y - b * x == b * (y - x);
  }

  /** With 16 digits, the digits meet "0x" and `print_address` as written prints
      what was intended. */
  lemma AddressAsWrittenFull(addr: u64, stack: seq<u8>)
    requires |stack| == ADDRESS_BUFFER && addr >= 0x1000_0000_0000_0000
    ensures AddressAsWritten(addr, stack) == HexText(addr)
  {
    WidthOfWords(addr, 0);
    SixteenDigits();
    WidthAbove(addr, 16, 15);
    assert |HexDigits(addr)| == 16;
    assert stack[2..18 - |HexDigits(addr)|] == [];
    HexTextHasNoNul(addr);
    UntilNulOfCString(HexText(addr));
    assert ['0' as int, 'x' as int] + stack[2..2] + HexDigits(addr) + [NUL] == CString(HexText(addr));
  }

  /** With fewer digits, the byte buffer[2] is the stack's; when it is NUL, as in
      a zeroed stack, `print_address` as written prints only "0x". */
  lemma AddressAsWrittenShort(addr: u64, stack: seq<u8>)
    requires |stack| == ADDRESS_BUFFER && addr < 0x1000_0000_0000_0000 && stack[2] == NUL
    ensures AddressAsWritten(addr, stack) == ['0' as int, 'x' as int]
  {
    WidthOfWords(addr, 0);
    SixteenDigits();
    WidthBound(addr, 16, 15);
    var digits := HexDigits(addr);
    assert |digits| < 16;
    var rest := stack[2..18 - |digits|] + digits + [NUL];
    assert ['0' as int, 'x' as int] + stack[2..18 - |digits|] + digits + [NUL] == ['0' as int, 'x' as int] + rest;
    UntilNulPrefix(['0' as int, 'x' as int], rest);
  }

  /** The address 0x10 with a zeroed stack prints "0x", not "0x10". */
  lemma AddressAsWrittenExample()
    ensures AddressAsWritten(0x10, seq(ADDRESS_BUFFER, _ => NUL)) == ['0' as int, 'x' as int]
    ensures HexText(0x10) == ['0' as int, 'x' as int, '1' as int, '0' as int]
  {
    AddressAsWrittenShort(0x10, seq(ADDRESS_BUFFER, _ => NUL));
    assert Numeral(1, 16) == [DigitChar(1)];
    assert HexDigits(0x10) == Numeral(1, 16) + [DigitChar(0)];
  }
}
