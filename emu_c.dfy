/** The bare-metal C program emu.c: a bump allocator over a 12000-byte heap mapped at
    address 0x8, a console port at 0x4 written one byte at a time, `print_int` and
    `printf` that take their digit buffers from that heap, and a `main` that fills a
    ten-element `int` array and prints it. `Runtime.heap[j]` is the byte at address
    HEAP_ADDRESS + j, `Runtime.out` the bytes written to the console port. */
module EmuC {
  import opened Words
  import opened Wrappers
  import opened CText

  /** `MEMORY_SIZE` of emu.c: the heap's size in bytes. */
  const MEMORY_SIZE: nat := 12000

  /** `HEAP`: the address of the heap's first byte. */
  const HEAP_ADDRESS: nat := 0x8

  const NULL: nat := 0

  /** sizeof(int) on the RV64 target. */
  const INT_SIZE: nat := 4

  /** The length of the array `arr` allocates. */
  const ARR_LENGTH: nat := 10

  /** `malloc(bytes)` with `next_memory` at next: the next value of `next_memory` and
      the pointer returned, NULL when the request does not fit. */
  function Bump(next: nat, bytes: nat): (r: (nat, nat))
  {
    if next + bytes > MEMORY_SIZE then (next, NULL) else (next + bytes, HEAP_ADDRESS + next)
  }

  /** m with the bytes from p replaced by b. */
  function Splice(m: seq<u8>, p: nat, b: seq<u8>): (r: seq<u8>)
    requires p + |b| <= |m|
    ensures |r| == |m|
  {
    m[..p] + b + m[p + |b|..]
  }

  /** The bytes `print_int(i)` leaves in the heap: "0" and its NUL in the buffer of the
      zero case, then the digit buffer, which holds only a NUL unless i > 0. */
  function IntBytes(i: i32): (r: seq<u8>)
  {
    (if i == 0 then CString([DigitChar(0)]) else []) + CString(Numeral(if i > 0 then i else 0, 10))
  }

  /** The bytes of every `print_int` of ints, one after the other. */
  function AllBytes(ints: seq<i32>): (r: seq<u8>)
  {
    if |ints| == 0 then [] else AllBytes(ints[..|ints| - 1]) + IntBytes(ints[|ints| - 1])
  }

  /** The `int` arguments `printf(fmt, args...)` passes to `print_int`, in order. */
  function Printed(fmt: seq<u8>, args: seq<Arg>): (r: seq<i32>)
    decreases |fmt|
  {
    if |fmt| < 2 || fmt[0] == NUL then []
    else if fmt[0] != PERCENT then Printed(fmt[1..], args)
    else if fmt[1] == NUL then []
    else if !IsDirective(fmt[1], false) then Printed(fmt[2..], args)
    else if |args| == 0 then []
    else (if fmt[1] == 'i' as int && args[0].Int? then [args[0].i] else []) + Printed(fmt[2..], args[1..])
  }

  /** The four bytes of an `int` store, least significant first. */
  function IntLE(v: i32): (r: seq<u8>)
  {
    ToBytes(AsU32(v), INT_SIZE)
  }

  /** The bytes of `x[0..n]` after `x[i] = i + 1` for every i < n. */
  function ArrBytes(n: nat): (r: seq<u8>)
    requires n < TWO_31
    ensures |r| == INT_SIZE * n
  {
    if n == 0 then [] else ArrBytes(n - 1) + IntLE(n)
  }

  class Runtime {
    /** `next_memory`: the offset of the first heap byte not yet handed out. */
    var nextMemory: nat
    const heap: array<u8>
    var out: seq<u8>

    ghost predicate Valid()
      reads this
    {
      heap.Length == MEMORY_SIZE && nextMemory <= MEMORY_SIZE
    }

    /** The program's start: nothing allocated, nothing printed, the heap holding
        whatever the memory held. */
    constructor(initial: seq<u8>)
      requires |initial| == MEMORY_SIZE
      ensures nextMemory == 0 && out == [] && heap[..] == initial && fresh(heap) && Valid()
    {
      nextMemory := 0;
      out := [];
      heap := new u8[MEMORY_SIZE](j requires 0 <= j < MEMORY_SIZE => initial[j]);
    }

    /** `malloc(bytes)`. */
    method Malloc(bytes: nat) returns (p: nat)
      requires Valid()
      modifies this
      ensures (nextMemory, p) == Bump(old(nextMemory), bytes)
      ensures out == old(out) && Valid()
    {
      if nextMemory + bytes > MEMORY_SIZE {
        return NULL;
      }
      p := HEAP_ADDRESS + nextMemory;
      nextMemory := nextMemory + bytes;
    }

    /** `print_char(c)`: `CONSOLE_OUT = c`. */
    method PrintChar(c: u8)
      modifies this
      ensures out == old(out) + [c] && nextMemory == old(nextMemory)
    {
      out := out + [c];
    }

    /** `print_str(str)` for `str` pointing at s[start]: every byte up to the NUL. */
    method PrintStr(s: seq<u8>, start: nat)
      requires start <= |s| && NUL in s[start..]
      modifies this
      ensures out == old(out) + UntilNul(s[start..]) && nextMemory == old(nextMemory)
    {
      var k := start;
      while s[k] != NUL
        invariant start <= k < |s| && NUL in s[k..]
        invariant old(out) + UntilNul(s[start..]) == out + UntilNul(s[k..])
        invariant nextMemory == old(nextMemory)
        decreases |s| - k
      {
        EmitStep(out, s, k);
        PrintChar(s[k]);
        k := k + 1;
      }
    }

    /** `print_int(i)`: 0 prints "0" from a 2-byte buffer first; then the digits are
        counted, a buffer of one byte more is taken, filled from its NUL down and
        printed. Every buffer comes from `malloc`, which must not run out: the code
        writes through the pointer it gets whether it is NULL or not. */
    method PrintInt(i: i32)
      requires Valid() && nextMemory + |IntBytes(i)| <= MEMORY_SIZE
      modifies this, heap
      ensures Valid() && nextMemory == old(nextMemory) + |IntBytes(i)|
      ensures heap[..] == Splice(old(heap[..]), old(nextMemory), IntBytes(i))
      ensures out == old(out) + DecimalText(i)
    {
      ghost var zero: seq<u8> := if i == 0 then CString([DigitChar(0)]) else [];
      ghost var digits := Numeral(if i > 0 then i else 0, 10);
      assert IntBytes(i) == zero + CString(digits);
      if i == 0 {
        PrintZero();
      }
      assert nextMemory == old(nextMemory) + |zero| && heap[..] == Splice(old(heap[..]), old(nextMemory), zero);
      assert out == old(out) + (if i == 0 then [DigitChar(0)] else []);
      PrintDigits(i);
      assert heap[..] == Splice(old(heap[..]), old(nextMemory), IntBytes(i)) by {
        SpliceAppend(old(heap[..]), old(nextMemory), zero, CString(digits));
      }
      assert out == old(out) + DecimalText(i) by {
        DecimalTextParts(i);
      }
    }

    /** The rest of `print_int`: the digits of i counted, a buffer of one byte more
        taken from `malloc`, filled and printed; only its NUL for i <= 0. */
    method PrintDigits(i: i32)
      requires Valid() && nextMemory + Width(if i > 0 then i else 0, 10) + 1 <= MEMORY_SIZE
      modifies this, heap
      ensures Valid() && nextMemory == old(nextMemory) + Width(if i > 0 then i else 0, 10) + 1
      ensures heap[..] == Splice(old(heap[..]), old(nextMemory), CString(Numeral(if i > 0 then i else 0, 10)))
      ensures out == old(out) + Numeral(if i > 0 then i else 0, 10)
    {
      ghost var digits := Numeral(if i > 0 then i else 0, 10);
      var len := 0;
      var t := i;
      while t > 0
        modifies {}
        invariant len + Width(if t > 0 then t else 0, 10) == |digits|
      {
        WidthStep(t, 10);
        len := len + 1;
        t := t / 10;
      }
      assert len == |digits|;
      var str := Malloc(len + 1);
      ghost var at := old(nextMemory);
      assert str == HEAP_ADDRESS + at;
      FillDigits(str - HEAP_ADDRESS, len, i);
      ghost var h: seq<u8> := heap[..];
      assert h == Splice(old(heap[..]), at, CString(digits));
      assert NUL in h[at..] && UntilNul(h[at..]) == digits by {
        NumeralIsCanonical(if i > 0 then i else 0, 10);
        SpliceText(old(heap[..]), at, digits);
      }
      PrintStr(heap[..], str - HEAP_ADDRESS);
    }

    /** The first branch of `print_int` for 0: `malloc(2)`, "0" and its NUL written
        there and printed. */
    method PrintZero()
      requires Valid() && nextMemory + 2 <= MEMORY_SIZE
      modifies this, heap
      ensures Valid() && nextMemory == old(nextMemory) + 2
      ensures heap[..] == Splice(old(heap[..]), old(nextMemory), CString([DigitChar(0)]))
      ensures out == old(out) + [DigitChar(0)]
    {
      var str := Malloc(2);
      heap[str - HEAP_ADDRESS] := '0' as int;
      heap[str - HEAP_ADDRESS + 1] := NUL;
      assert heap[..] == Splice(old(heap[..]), old(nextMemory), CString([DigitChar(0)]));
      SpliceText(old(heap[..]), old(nextMemory), [DigitChar(0)]);
      PrintStr(heap[..], str - HEAP_ADDRESS);
    }

    /** The fill loop of `print_int`: `str[len] = '\0'`, then the digits of i from the
        last down to `str[0]`. */
    method FillDigits(at: nat, len: nat, i: i32)
      requires len == Width(if i > 0 then i else 0, 10) && at + len + 1 <= heap.Length
      modifies heap
      ensures heap[..] == Splice(old(heap[..]), at, CString(Numeral(if i > 0 then i else 0, 10)))
    {
      ghost var digits := Numeral(if i > 0 then i else 0, 10);
      heap[at + len] := NUL;
      var k := len;
      var n := i;
      while n > 0
        invariant 0 <= k <= len
        invariant k == Width(if n > 0 then n else 0, 10)
        invariant Numeral(if n > 0 then n else 0, 10) == digits[..k]
        invariant heap[at + len] == NUL
        invariant forall j :: at + k <= j < at + len ==> heap[j] == digits[j - at]
        invariant forall j :: 0 <= j < heap.Length && !(at + k <= j <= at + len) ==> heap[j] == old(heap[j])
      {
        assert && k >= 1 && digits[k - 1] == n % 10 + '0' as int
               && Numeral(if n / 10 > 0 then n / 10 else 0, 10) == digits[..k - 1]
               && k - 1 == Width(if n / 10 > 0 then n / 10 else 0, 10) by {
          NumeralLast(digits, n, k, 10);
        }
        k := k - 1;
        heap[at + k] := n % 10 + '0' as int;
        n := n / 10;
      }
      SpliceOf(heap[..], old(heap[..]), at, CString(digits));
    }

    /** `printf(fmt, args...)` of emu.c: literal bytes are printed as they are, `%s`
        prints a string and `%i` an integer through `print_int`; `%` and any other byte
        print nothing. The heap grows by the buffers of the integers printed. */
    method Printf(fmt: seq<u8>, args: seq<Arg>)
      requires Valid() && Format(fmt, args, false).Some?
      requires nextMemory + |AllBytes(Printed(fmt, args))| <= MEMORY_SIZE
      modifies this, heap
      ensures Valid() && out == old(out) + Format(fmt, args, false).value
      ensures nextMemory == old(nextMemory) + |AllBytes(Printed(fmt, args))|
      ensures heap[..] == Splice(old(heap[..]), old(nextMemory), AllBytes(Printed(fmt, args)))
    {
      var k, a := 0, 0;
      while fmt[k] != NUL
        invariant Valid() && k < |fmt| && a <= |args|
        invariant Format(fmt[k..], args[a..], false).Some?
        invariant old(out) + Format(fmt, args, false).value == out + Format(fmt[k..], args[a..], false).value
        invariant nextMemory + |AllBytes(Printed(fmt[k..], args[a..]))|
               == old(nextMemory) + |AllBytes(Printed(fmt, args))|
        invariant Splice(heap[..], nextMemory, AllBytes(Printed(fmt[k..], args[a..])))
               == Splice(old(heap[..]), old(nextMemory), AllBytes(Printed(fmt, args)))
        decreases |fmt| - k
      {
        k, a := PrintfStep(fmt, args, k, a);
      }
      assert fmt[k..][0] == NUL;
      assert Splice(heap[..], nextMemory, []) == heap[..];
    }

    /** One pass of `printf`'s loop at fmt[k] with argument a next: a literal byte is
        printed; `%s` and `%i` print their argument; `%` and any other byte print
        nothing. The pass ends past what it read. */
    method PrintfStep(fmt: seq<u8>, args: seq<Arg>, k: nat, a: nat) returns (k': nat, a': nat)
      requires Valid() && k < |fmt| && a <= |args| && fmt[k] != NUL
      requires Format(fmt[k..], args[a..], false).Some?
      requires nextMemory + |AllBytes(Printed(fmt[k..], args[a..]))| <= MEMORY_SIZE
      modifies this, heap
      ensures Valid() && k < k' < |fmt| && a <= a' <= |args|
      ensures Format(fmt[k'..], args[a'..], false).Some?
      ensures old(out) + Format(fmt[k..], args[a..], false).value == out + Format(fmt[k'..], args[a'..], false).value
      ensures nextMemory + |AllBytes(Printed(fmt[k'..], args[a'..]))|
           == old(nextMemory) + |AllBytes(Printed(fmt[k..], args[a..]))|
      ensures Splice(heap[..], nextMemory, AllBytes(Printed(fmt[k'..], args[a'..])))
           == Splice(old(heap[..]), old(nextMemory), AllBytes(Printed(fmt[k..], args[a..])))
    {
      FormatStep(fmt, k, args, a, false);
      PrintedStep(fmt, k, args, a);
      k', a' := k + 1, a;
      if fmt[k] == PERCENT {
        k' := k + 2;
        if fmt[k + 1] == 's' as int {
          assert args[a].s[0..] == args[a].s;
          AppendPrepend(out, UntilNul(args[a].s), Format(fmt[k + 2..], args[a + 1..], false));
          PrintStr(args[a].s, 0);
          a' := a + 1;
        } else if fmt[k + 1] == 'i' as int {
          IntArgStep(heap[..], nextMemory, args[a].i, Printed(fmt[k + 2..], args[a + 1..]));
          AppendPrepend(out, DecimalText(args[a].i), Format(fmt[k + 2..], args[a + 1..], false));
          PrintInt(args[a].i);
          a' := a + 1;
        }
      } else {
        AppendPrepend(out, [fmt[k]], Format(fmt[k + 1..], args[a..], false));
        PrintChar(fmt[k]);
      }
    }

    /** `x[i] = v` for the `int` at heap offset at: its four bytes, least significant
        first. */
    method StoreInt(at: nat, v: i32)
      requires at + INT_SIZE <= heap.Length
      modifies heap
      ensures heap[..] == Splice(old(heap[..]), at, IntLE(v))
    {
      var w := AsU32(v);
      heap[at] := w % 256;
      heap[at + 1] := (w / 0x100) % 256;
      heap[at + 2] := (w / 0x1_0000) % 256;
      heap[at + 3] := (w / 0x100_0000) % 256;
      IntLEBytes(v);
      SpliceFour(old(heap[..]), heap[..], at, IntLE(v));
    }

    /** `arr()`: `malloc(sizeof(int) * 10)` and then `x[i] = i + 1` for i from 0 to 9.
        The loop writes through the pointer without a NULL check, so the array must
        fit. */
    method Arr() returns (x: nat)
      requires Valid() && nextMemory + INT_SIZE * ARR_LENGTH <= MEMORY_SIZE
      modifies this, heap
      ensures Valid() && out == old(out)
      ensures x == HEAP_ADDRESS + old(nextMemory) && nextMemory == old(nextMemory) + INT_SIZE * ARR_LENGTH
      ensures heap[..] == Splice(old(heap[..]), old(nextMemory), ArrBytes(ARR_LENGTH))
    {
      x := Malloc(INT_SIZE * ARR_LENGTH);
      var at := x - HEAP_ADDRESS;
      assert heap[..] == Splice(old(heap[..]), at, ArrBytes(0));
      var i := 0;
      while i < ARR_LENGTH
        invariant 0 <= i <= ARR_LENGTH && Valid() && out == old(out)
        invariant nextMemory == old(nextMemory) + INT_SIZE * ARR_LENGTH
        invariant heap[..] == Splice(old(heap[..]), at, ArrBytes(i))
      {
        StoreInt(at + INT_SIZE * i, i + 1);
        SpliceAppend(old(heap[..]), at, ArrBytes(i), IntLE(i + 1));
        i := i + 1;
      }
    }
  }

  // ---------------------------------------------------------------------
  // Bytes in the heap

  /** Replacing a run and then the run right after it replaces both at once. */
  lemma SpliceAppend(m: seq<u8>, p: nat, a: seq<u8>, b: seq<u8>)
    requires p + |a| + |b| <= |m|
    ensures Splice(Splice(m, p, a), p + |a|, b) == Splice(m, p, a + b)
  {
    var s := Splice(m, p, a);
    assert s[..p + |a|] == m[..p] + a;
    assert s[p + |a| + |b|..] == m[p + |a| + |b|..];
  }

  /** Four byte writes from p replace the four bytes there. */
  lemma SpliceFour(m: seq<u8>, m': seq<u8>, p: nat, b: seq<u8>)
    requires |b| == 4 && p + 4 <= |m|
    requires m' == m[p := b[0]][p + 1 := b[1]][p + 2 := b[2]][p + 3 := b[3]]
    ensures m' == Splice(m, p, b)
  {
    var s := Splice(m, p, b);
    forall j | 0 <= j < |m|
      ensures m'[j] == s[j]
    {
      if p <= j < p + 4 {
        assert s[j] == b[j - p];
      }
    }
  }

  /** The bytes of an `int` store: its value modulo 2^32 taken apart in base 256. */
  lemma IntLEBytes(v: i32)
    ensures var w := AsU32(v);
      IntLE(v) == [w % 256, (w / 0x100) % 256, (w / 0x1_0000) % 256, (w / 0x100_0000) % 256]
  {
    assert Pow256(1) == 0x100 && Pow256(2) == 0x1_0000 && Pow256(3) == 0x100_0000;
  }

  /** The buffers of a `print_int` of x and then of the rest, written from p: first
      x's, then the rest's right after them. */
  lemma IntArgStep(m: seq<u8>, p: nat, x: i32, rest: seq<i32>)
    requires p + |AllBytes([x] + rest)| <= |m|
    ensures AllBytes([x] + rest) == IntBytes(x) + AllBytes(rest)
    ensures Splice(m, p, AllBytes([x] + rest)) == Splice(Splice(m, p, IntBytes(x)), p + |IntBytes(x)|, AllBytes(rest))
  {
    AllBytesAppend([x], rest);
    AllBytesOne(x);
    SpliceAppend(m, p, IntBytes(x), AllBytes(rest));
  }

  /** Writing from p leaves the bytes before p alone. */
  lemma SpliceKeepsPrefix(m: seq<u8>, p: nat, b: seq<u8>, q: nat)
    requires q <= p && p + |b| <= |m|
    ensures Splice(m, p, b)[..q] == m[..q]
  {
  }

  /** A string written with its NUL at p is what `print_str` prints from p. */
  lemma SpliceText(m: seq<u8>, p: nat, s: seq<u8>)
    requires NUL !in s && p + |s| + 1 <= |m|
    ensures NUL in Splice(m, p, CString(s))[p..]
    ensures UntilNul(Splice(m, p, CString(s))[p..]) == s
  {
    var q := [NUL] + m[p + |s| + 1..];
    assert Splice(m, p, CString(s))[p..] == s + q;
    UntilNulPrefix(s, q);
    assert (s + q)[|s|] == NUL;
  }

  /** Bytes that hold b from p and m elsewhere are m with b spliced in at p. */
  lemma SpliceOf(s: seq<u8>, m: seq<u8>, p: nat, b: seq<u8>)
    requires |s| == |m| && p + |b| <= |m|
    requires forall j :: p <= j < p + |b| ==> s[j] == b[j - p]
    requires forall j :: 0 <= j < |m| && !(p <= j < p + |b|) ==> s[j] == m[j]
    ensures s == Splice(m, p, b)
  {
    var r := Splice(m, p, b);
    forall j | 0 <= j < |m|
      ensures s[j] == r[j]
    {
      if p <= j < p + |b| {
        assert r[j] == b[j - p];
      }
    }
  }

  // ---------------------------------------------------------------------
  // Properties

  /** `malloc` hands out NULL exactly when the request does not fit, and then changes
      nothing; otherwise the block starts at `next_memory` and the pointer moves past
      it, never beyond the heap's end. */
  lemma BumpFits(next: nat, bytes: nat)
    requires next <= MEMORY_SIZE
    ensures var (n, p) := Bump(next, bytes);
      && (p == NULL <==> next + bytes > MEMORY_SIZE)
      && (p == NULL ==> n == next)
      && (p != NULL ==> p == HEAP_ADDRESS + next && n == next + bytes)
      && next <= n <= MEMORY_SIZE
  {
  }

  /** Two successive `malloc`s that both succeed return adjacent, disjoint blocks
      inside the heap; a failed one leaves the next block where it would have been. */
  lemma BumpContiguous(next: nat, b1: nat, b2: nat)
    requires next <= MEMORY_SIZE
    ensures var (n1, p1) := Bump(next, b1);
      var (n2, p2) := Bump(n1, b2);
      && (p1 != NULL && p2 != NULL ==>
          && p2 == p1 + b1
          && HEAP_ADDRESS <= p1 && p2 + b2 <= HEAP_ADDRESS + MEMORY_SIZE)
      && (p1 == NULL ==> Bump(n1, b2) == Bump(next, b2))
  {
  }

  /** A request that fails makes every larger request fail too: memory is never
      given back. */
  lemma BumpNullMonotone(next: nat, b1: nat, b2: nat)
    requires b1 <= b2 && Bump(next, b1).1 == NULL
    ensures Bump(next, b2).1 == NULL
  {
  }

  /** The bytes `print_int` leaves behind read back, up to their first NUL, as the
      text it printed; their number is 3 for 0, one more than the digits for i > 0 and
      1 below 0. */
  lemma IntBytesText(i: i32)
    ensures NUL in IntBytes(i) && UntilNul(IntBytes(i)) == DecimalText(i)
    ensures |IntBytes(i)| == if i == 0 then 3 else if i > 0 then Width(i, 10) + 1 else 1
  {
    var digits := Numeral(if i > 0 then i else 0, 10);
    NumeralIsCanonical(if i > 0 then i else 0, 10);
    if i == 0 {
      UntilNulPrefix([DigitChar(0)], [NUL, NUL]);
      assert IntBytes(i) == [DigitChar(0)] + [NUL, NUL];
    } else {
      assert IntBytes(i) == CString(digits);
      UntilNulOfCString(digits);
    }
  }

  /** The buffers of two runs of `print_int`s one after the other. */
  lemma {:induction false} AllBytesAppend(a: seq<i32>, b: seq<i32>)
    ensures AllBytes(a + b) == AllBytes(a) + AllBytes(b)
    decreases |b|
  {
    if |b| == 0 {
      assert a + b == a;
    } else {
      var b' := b[..|b| - 1];
      assert (a + b)[..|a + b| - 1] == a + b';
      AllBytesAppend(a, b');
    }
  }

  /** A single `print_int` leaves its own buffers. */
  lemma AllBytesOne(i: i32)
    ensures AllBytes([i]) == IntBytes(i)
  {
    assert [i][..0] == [];
  }

  /** A format without `%` prints no integer and takes no heap. */
  lemma {:induction false} PrintedVerbatim(fmt: seq<u8>, args: seq<Arg>)
    requires PERCENT !in fmt
    ensures Printed(fmt, args) == []
    decreases |fmt|
  {
    if |fmt| >= 2 && fmt[0] != NUL {
      PrintedVerbatim(fmt[1..], args);
    }
  }

  /** One step of the `printf` scan at position k with argument a next, for the
      integers printed: a literal byte, `%` and a byte that is no directive, and `%s`
      print none, `%i` prints its argument. */
  lemma PrintedStep(fmt: seq<u8>, k: nat, args: seq<Arg>, a: nat)
    requires k < |fmt| && a <= |args| && fmt[k] != NUL
    requires Format(fmt[k..], args[a..], false).Some?
    ensures fmt[k] != PERCENT ==> Printed(fmt[k..], args[a..]) == Printed(fmt[k + 1..], args[a..])
    ensures fmt[k] == PERCENT && !IsDirective(fmt[k + 1], false) ==>
      Printed(fmt[k..], args[a..]) == Printed(fmt[k + 2..], args[a..])
    ensures fmt[k] == PERCENT && fmt[k + 1] == 's' as int ==>
      Printed(fmt[k..], args[a..]) == Printed(fmt[k + 2..], args[a + 1..])
    ensures fmt[k] == PERCENT && fmt[k + 1] == 'i' as int ==>
      args[a].Int? && Printed(fmt[k..], args[a..]) == [args[a].i] + Printed(fmt[k + 2..], args[a + 1..])
  {
    FormatStep(fmt, k, args, a, false);
    var f := fmt[k..];
    assert f[1..] == fmt[k + 1..];
    if fmt[k] == PERCENT {
      assert f[2..] == fmt[k + 2..];
      if IsDirective(fmt[k + 1], false) {
        assert args[a..][1..] == args[a + 1..];
        assert args[a..][0] == args[a];
      }
    }
  }

  /** An `int` stored and loaded again is the same `int`. */
  lemma IntLERoundTrip(v: i32)
    ensures |IntLE(v)| == INT_SIZE && AsI32(LittleEndian(IntLE(v))) == v
  {
    LittleEndianToBytes(AsU32(v), INT_SIZE);
    assert Pow256(INT_SIZE) == TWO_32;
  }

  /** Element j of the array `arr` fills sits in bytes 4j to 4j + 4 and holds j + 1. */
  lemma {:induction false} ArrSlot(n: nat, j: nat)
    requires j < n < TWO_31
    ensures ArrBytes(n)[INT_SIZE * j..INT_SIZE * j + INT_SIZE] == IntLE(j + 1)
    ensures AsI32(LittleEndian(ArrBytes(n)[INT_SIZE * j..INT_SIZE * j + INT_SIZE])) == j + 1
  {
    if j == n - 1 {
      assert ArrBytes(n)[INT_SIZE * j..INT_SIZE * j + INT_SIZE] == IntLE(n);
    } else {
      ArrSlot(n - 1, j);
      assert ArrBytes(n)[INT_SIZE * j..INT_SIZE * j + INT_SIZE]
          == ArrBytes(n - 1)[INT_SIZE * j..INT_SIZE * j + INT_SIZE];
    }
    IntLERoundTrip(j + 1);
  }

  // ---------------------------------------------------------------------
  // The program of emu.c:100-108

  /** The format "%i\n". */
  const INT_LINE: seq<u8> := ['%' as int, 'i' as int, '\n' as int, NUL]

  /** The format "int: %i, + %s". */
  const SUMMARY: seq<u8> := CString(Ascii("int: %i, + %s"))

  /** The string "Hello, World!". */
  const GREETING: seq<u8> := CString(Ascii("Hello, World!"))

  /** The text of `main`'s loop after i lines: "1\n" to "i\n". */
  function Lines(i: nat): (r: seq<u8>)
    requires i < TWO_31
  {
    if i == 0 then [] else Lines(i - 1) + DecimalText(i) + [NEWLINE]
  }

  /** Line i + 1 follows the first i. */
  lemma LinesNext(i: nat, text: seq<u8>)
    requires i + 1 < TWO_31 && text == Lines(i)
    ensures text + (DecimalText(i + 1) + [NEWLINE]) == Lines(i + 1)
  {
  }

  /** The heap `main`'s loop has used after i lines: the array, two bytes for each of
      1 to 9 and three for 10. */
  function LinesUse(i: nat): nat
  {
    INT_SIZE * ARR_LENGTH + 2 * i + (if i >= 10 then 1 else 0)
  }

  /** For an element 1 to 10, `printf("%i\n", v)` prints its decimal text and a newline
      and takes two heap bytes, three for 10. */
  lemma LineOfElement(v: i32)
    requires 1 <= v <= 10
    ensures Format(INT_LINE, [Int(v)], false) == Some(DecimalText(v) + [NEWLINE])
    ensures AllBytes(Printed(INT_LINE, [Int(v)])) == IntBytes(v)
    ensures |IntBytes(v)| == if v == 10 then 3 else 2
  {
    IntLineFormat(v);
    AllBytesOne(v);
    IntBytesText(v);
    if v == 10 {
      assert Width(1, 10) == 1;
    }
  }

  /** `printf("%i\n", v)` prints v and a newline, and v is its only integer. */
  lemma IntLineFormat(v: i32)
    ensures Format(INT_LINE, [Int(v)], false) == Some(DecimalText(v) + [NEWLINE])
    ensures Printed(INT_LINE, [Int(v)]) == [v]
  {
    var rest: seq<u8> := [NEWLINE, NUL];
    assert INT_LINE == [PERCENT, 'i' as int] + rest;
    FormatVerbatim(rest, [], false);
    FormatDirectivePrefix('i' as int, rest, Int(v), [], false);
    assert [Int(v)] + [] == [Int(v)];
    assert UntilNul(rest) == [NEWLINE] by {
      UntilNulPrefix([NEWLINE], [NUL]);
    }
    PrintedVerbatim(rest, []);
    assert INT_LINE[2..] == rest;
    assert [Int(v)][1..] == [];
  }

  /** A format of literal text, `%i`, literal text and `%s` prints the text, the
      integer, the text and the string, and the integer is the only one it prints. */
  lemma FormatIntThenStr(head: seq<u8>, middle: seq<u8>, x: i32, s: seq<u8>)
    requires NUL !in head && PERCENT !in head && NUL !in middle && PERCENT !in middle && NUL in s
    ensures Format(head + [PERCENT, 'i' as int] + middle + [PERCENT, 's' as int, NUL], [Int(x), Str(s)], false)
         == Some(head + DecimalText(x) + middle + UntilNul(s))
    ensures Printed(head + [PERCENT, 'i' as int] + middle + [PERCENT, 's' as int, NUL], [Int(x), Str(s)]) == [x]
  {
    var tail: seq<u8> := [PERCENT, 's' as int, NUL];
    var r2 := middle + tail;
    var r1 := [PERCENT, 'i' as int] + r2;
    assert head + [PERCENT, 'i' as int] + middle + tail == head + r1;
    assert Format(tail, [Str(s)], false) == Some(UntilNul(s)) by {
      assert tail == [PERCENT, 's' as int] + [NUL];
      FormatVerbatim([NUL], [], false);
      FormatDirectivePrefix('s' as int, [NUL], Str(s), [], false);
      assert [Str(s)] + [] == [Str(s)];
      assert UntilNul(s) + [] == UntilNul(s);
    }
    assert Format(r2, [Str(s)], false) == Some(middle + UntilNul(s)) by {
      FormatLiteralPrefix(middle, tail, [Str(s)], false);
    }
    assert Format(r1, [Int(x), Str(s)], false) == Some(DecimalText(x) + (middle + UntilNul(s))) by {
      FormatDirectivePrefix('i' as int, r2, Int(x), [Str(s)], false);
      assert [Int(x)] + [Str(s)] == [Int(x), Str(s)];
    }
    assert Format(head + r1, [Int(x), Str(s)], false) == Some(head + DecimalText(x) + middle + UntilNul(s)) by {
      FormatLiteralPrefix(head, r1, [Int(x), Str(s)], false);
      Associate(head, DecimalText(x), middle, UntilNul(s));
    }
    assert Printed(tail, [Str(s)]) == [] by {
      assert tail[2..] == [NUL];
    }
    assert Printed(r2, [Str(s)]) == [] by {
      PrintedLiteral(middle, tail, [Str(s)]);
    }
    assert Printed(r1, [Int(x), Str(s)]) == [x] by {
      assert r1[2..] == r2;
      assert [Int(x), Str(s)][1..] == [Str(s)];
    }
    PrintedLiteral(head, r1, [Int(x), Str(s)]);
  }

  /** Four runs of bytes joined right to left are joined left to right. */
  lemma Associate(a: seq<u8>, b: seq<u8>, c: seq<u8>, d: seq<u8>)
    ensures a + (b + (c + d)) == a + b + c + d
  {
    assert b + (c + d) == (b + c) + d;
  }

  /** The format "int: %i, + %s" is "int: ", `%i`, ", + " and `%s`. */
  lemma SummaryParts()
    ensures SUMMARY == Ascii("int: ") + [PERCENT, 'i' as int] + Ascii(", + ") + [PERCENT, 's' as int, NUL]
    ensures NUL !in Ascii("int: ") && PERCENT !in Ascii("int: ")
    ensures NUL !in Ascii(", + ") && PERCENT !in Ascii(", + ")
  {
  }

  /** `printf("int: %i, + %s", 69, "Hello, World!")` prints "int: 69, + Hello,
      World!"; 69 is its only integer and takes three heap bytes. */
  lemma SummaryFormat()
    ensures Format(SUMMARY, [Int(69), Str(GREETING)], false) == Some(Ascii("int: 69, + Hello, World!"))
    ensures Printed(SUMMARY, [Int(69), Str(GREETING)]) == [69]
    ensures AllBytes([69]) == IntBytes(69) && |IntBytes(69)| == 3
  {
    AllBytesOne(69);
    IntBytesText(69);
    assert Width(6, 10) == 1;
    SummaryParts();
    UntilNulOfCString(Ascii("Hello, World!"));
    FormatIntThenStr(Ascii("int: "), Ascii(", + "), 69, GREETING);
    SummaryOutput();
  }

  /** 69 in decimal, between "int: " and ", + ", and the greeting after them. */
  lemma SummaryOutput()
    ensures Ascii("int: ") + DecimalText(69) + Ascii(", + ") + Ascii("Hello, World!")
         == Ascii("int: 69, + Hello, World!")
  {
    assert DecimalText(69) == [DigitChar(6), DigitChar(9)] by {
      assert Numeral(6, 10) == [DigitChar(6)];
    }
  }

  /** Literal bytes in front of a format print no integer. */
  lemma {:induction false} PrintedLiteral(lit: seq<u8>, rest: seq<u8>, args: seq<Arg>)
    requires NUL !in lit && PERCENT !in lit && |rest| > 0
    ensures Printed(lit + rest, args) == Printed(rest, args)
    decreases |lit|
  {
    if lit != [] {
      assert (lit + rest)[1..] == lit[1..] + rest;
      PrintedLiteral(lit[1..], rest, args);
    } else {
      assert lit + rest == rest;
    }
  }

  /** Lines 1 to 3. */
  lemma LinesThree()
    ensures Lines(3) == [0x31, NEWLINE, 0x32, NEWLINE, 0x33, NEWLINE]
  {
  }

  /** Lines 4 to 6 follow. */
  lemma LinesSix()
    ensures Lines(6) == Lines(3) + [0x34, NEWLINE, 0x35, NEWLINE, 0x36, NEWLINE]
  {
  }

  /** Lines 7 to 9 follow. */
  lemma LinesNine()
    ensures Lines(9) == Lines(6) + [0x37, NEWLINE, 0x38, NEWLINE, 0x39, NEWLINE]
  {
  }

  /** Line 10 has two digits. */
  lemma LinesTenth()
    ensures Lines(10) == Lines(9) + [0x31, 0x30, NEWLINE]
  {
    assert Numeral(1, 10) == [0x31];
  }

  /** The bytes of "1\n" to "10\n". */
  lemma LinesTenBytes()
    ensures Lines(10) == [0x31, NEWLINE, 0x32, NEWLINE, 0x33, NEWLINE, 0x34, NEWLINE, 0x35, NEWLINE,
                          0x36, NEWLINE, 0x37, NEWLINE, 0x38, NEWLINE, 0x39, NEWLINE, 0x31, 0x30, NEWLINE]
  {
    LinesThree();
    LinesSix();
    LinesNine();
    LinesTenth();
  }

  /** The string "1\n" to "10\n" as bytes. */
  lemma TenLinesAscii()
    ensures Ascii("1\n2\n3\n4\n5\n6\n7\n8\n9\n10\n")
         == [0x31, NEWLINE, 0x32, NEWLINE, 0x33, NEWLINE, 0x34, NEWLINE, 0x35, NEWLINE,
             0x36, NEWLINE, 0x37, NEWLINE, 0x38, NEWLINE, 0x39, NEWLINE, 0x31, 0x30, NEWLINE]
  {
  }

  /** The ten lines are "1\n" to "10\n". */
  lemma LinesTen()
    ensures Lines(10) == Ascii("1\n2\n3\n4\n5\n6\n7\n8\n9\n10\n")
  {
    LinesTenBytes();
    TenLinesAscii();
  }

  /** One pass of `main`'s loop: `printf("%i\n", a[i])`, with a[i] loaded from the
      heap. */
  method MainLine(rt: Runtime, a: nat, i: nat)
    requires rt.Valid() && i < ARR_LENGTH && a == HEAP_ADDRESS
    requires rt.nextMemory == LinesUse(i) && rt.out == Lines(i)
    requires rt.heap[..INT_SIZE * ARR_LENGTH] == ArrBytes(ARR_LENGTH)
    modifies rt, rt.heap
    ensures rt.Valid() && rt.nextMemory == LinesUse(i + 1) && rt.out == Lines(i + 1)
    ensures rt.heap[..INT_SIZE * ARR_LENGTH] == ArrBytes(ARR_LENGTH)
  {
    var at := a - HEAP_ADDRESS + INT_SIZE * i;
    ArrSlot(ARR_LENGTH, i);
    assert rt.heap[at..at + INT_SIZE] == ArrBytes(ARR_LENGTH)[INT_SIZE * i..INT_SIZE * i + INT_SIZE];
    var v := AsI32(LittleEndian(rt.heap[at..at + INT_SIZE]));
    assert v == i + 1;
    LineOfElement(v);
    ghost var before: seq<u8> := rt.heap[..];
    ghost var text := rt.out;
    rt.Printf(INT_LINE, [Int(v)]);
    SpliceKeepsPrefix(before, LinesUse(i), IntBytes(v), INT_SIZE * ARR_LENGTH);
    LinesNext(i, text);
  }

  /** `main()` from the program's start: `arr()`, `printf("%i\n", a[i])` for each of
      its ten elements, then `printf("int: %i, + %s", 69, "Hello, World!")`. The
      final `assert(6 % 4 == 2)` holds, so it does not read address 0. The array
      stays intact in the first 40 heap bytes, 64 bytes are used in all. */
  method EmuMain(initial: seq<u8>) returns (rt: Runtime)
    requires |initial| == MEMORY_SIZE
    ensures rt.Valid() && rt.nextMemory == 64
    ensures rt.out == Ascii("1\n2\n3\n4\n5\n6\n7\n8\n9\n10\n") + Ascii("int: 69, + Hello, World!")
    ensures rt.heap[..INT_SIZE * ARR_LENGTH] == ArrBytes(ARR_LENGTH)
  {
    rt := new Runtime(initial);
    var a := rt.Arr();
    assert rt.heap[..INT_SIZE * ARR_LENGTH] == ArrBytes(ARR_LENGTH);
    var i := 0;
    while i < ARR_LENGTH
      invariant 0 <= i <= ARR_LENGTH && rt.Valid()
      invariant rt.nextMemory == LinesUse(i)
      invariant rt.heap[..INT_SIZE * ARR_LENGTH] == ArrBytes(ARR_LENGTH)
      invariant rt.out == Lines(i)
    {
      MainLine(rt, a, i);
      i := i + 1;
    }
    SummaryFormat();
    ghost var before: seq<u8> := rt.heap[..];
    rt.Printf(SUMMARY, [Int(69), Str(GREETING)]);
    SpliceKeepsPrefix(before, LinesUse(ARR_LENGTH), IntBytes(69), INT_SIZE * ARR_LENGTH);
    LinesTen();
    // assert(6 % 4 == 2): C's remainder of two positive operands is Dafny's
    assert 6 % 4 == 2;
  }
}
