/** The header-chain allocator of emu/slib.cpp:58-174. Every block starts with an
    `Alloc` header (size, is_free, offset, next) placed at HEAP + offset; the head
    header sits at offset 0 and the chain is followed through `next`. Blocks are
    appended after the tail or reused whole once freed, never split or merged.

    The chain is a sequence of headers in `next` order; the bytes from HEAP on are an
    array indexed by offset, of which the model writes only payloads (what the
    headers' own bytes hold there is not modelled). */
module SlibHeap {
  import opened Wrappers
  import opened Words
  import opened SlibMem

  /** The region the headers' offsets address; 64 kB (emu/slib.cpp:59). */
  const MEMORY_SIZE: nat := 64000
  /** HEAP is address 0x8 (emu/slib.cpp:62-63). */
  const HEAP_OFFSET: nat := 0x8
  /** sizeof(Alloc) on RV64: two u16, a u32 and a pointer. */
  const ALLOC_SIZE: nat := 16
  /** The size the first call gives the head header (emu/slib.cpp:122). */
  const HEAD_SIZE: nat := 16

  datatype Header = Header(size: u16, isFree: bool, offset: u32)

  /** The address `malloc` hands out for a header: HEAP + offset + sizeof(Alloc). */
  function Address(h: Header): nat
  {
    HEAP_OFFSET + h.offset + ALLOC_SIZE
  }

  /** Where the payload starts, and where the block ends, as offsets from HEAP. */
  function PayloadStart(h: Header): nat
  {
    h.offset + ALLOC_SIZE
  }

  function End(h: Header): nat
  {
    h.offset + h.size
  }

  /** The chain once the first call has set up the head: the head is 16 bytes at
      offset 0 and occupied, each block starts where the one before ends, every
      block after the head has a header and a payload that is a positive multiple of
      4, and every block ends inside the region. */
  ghost predicate Chained(c: seq<Header>)
  {
    && |c| >= 1
    && c[0] == Header(HEAD_SIZE, false, 0)
    && (forall i :: 1 <= i < |c| ==> c[i].offset == End(c[i - 1]))
    && (forall i :: 1 <= i < |c| ==> c[i].size >= ALLOC_SIZE + 4 && (c[i].size - ALLOC_SIZE) % 4 == 0)
    && (forall i :: 0 <= i < |c| ==> End(c[i]) <= MEMORY_SIZE)
  }

  /** The headers in `next` order and the bytes from HEAP on. */
  datatype HeapState = HeapState(chain: seq<Header>, mem: seq<u8>)

  /** A chain is either the head alone, as memory held it before the first call, or
      a chain the first call set up. */
  ghost predicate ValidHeap(s: HeapState)
  {
    |s.mem| == MEMORY_SIZE && |s.chain| >= 1 && (|s.chain| == 1 || Chained(s.chain))
  }

  /** `if (!head->next)`: while the head is the only header, each call sets it to
      size 16, offset 0, occupied. */
  function FirstCall(c: seq<Header>): (r: seq<Header>)
    requires |c| >= 1
    ensures |r| == |c|
  {
    if |c| == 1 then [Header(HEAD_SIZE, false, 0)] else c
  }

  /** The walk `while (head->next) { if (head->is_free == 1) break; head = head->next; }`
      from header i: it stops at the first free header, or at the tail. */
  function Walk(c: seq<Header>, i: nat): (k: nat)
    requires i < |c|
    ensures i <= k < |c|
    ensures k < |c| - 1 ==> c[k].isFree
    ensures forall j :: i <= j < k ==> !c[j].isFree
    decreases |c| - i
  {
    if i == |c| - 1 || c[i].isFree then i else Walk(c, i + 1)
  }

  /** `bytes + (4 - bytes % 4)`: rounded up to a multiple of 4, and 4 more when it is
      one already. */
  function Aligned(bytes: nat): nat
  {
    bytes + (4 - bytes % 4)
  }

  /** The header `allocate` appends after the tail a: `sizeof(Alloc) + aligned_bytes`
      in a u16, `a->offset + a->size` in a u32. */
  function NewHeader(a: Header, bytes: nat): (h: Header)
  {
    Header((ALLOC_SIZE + Aligned(bytes)) % 0x1_0000, false, End(a) % 0x1_0000_0000)
  }

  /** The trap check of `reuse_allocation`: `(uint8_t)bytes <= a->size - sizeof(Alloc)`
      fails. The `assert` macro then reads address 0, the emulator's null trap. */
  predicate ReuseTraps(a: Header, bytes: nat)
  {
    UChar(bytes) > a.size - ALLOC_SIZE
  }

  datatype Outcome = Outcome(state: HeapState, result: Result<nat>)

  /** `malloc(bytes)` (emu/slib.cpp:117-141), with DEBUG set (emu/slib.h:4): after the
      first-call set-up, the walk picks a header; a free one is reused, clearing the
      flag and zeroing its payload, or traps when the request is too big; otherwise
      a block is appended after the tail and the tail's own payload is zeroed. */
  function MallocS(s: HeapState, bytes: nat): (o: Outcome)
    requires ValidHeap(s)
  {
    var c := FirstCall(s.chain);
    var k := Walk(c, 0);
    var a := c[k];
    var zeroed := SetBytes(s.mem, PayloadStart(a), 0, a.size - ALLOC_SIZE);
    if a.isFree then
      if ReuseTraps(a, bytes) then Outcome(HeapState(c, s.mem), Panic("null trap"))
      else Outcome(HeapState(c[k := a.(isFree := false)], zeroed), Ok(Address(a)))
    else
      var h := NewHeader(a, bytes);
      Outcome(HeapState(c + [h], zeroed), Ok(Address(h)))
  }

  /** The request an append can take: the new block ends inside the region. Code
      has no such check; past it the headers would leave the region. */
  ghost predicate Fits(s: HeapState, bytes: nat)
    requires |s.chain| >= 1
  {
    var c := FirstCall(s.chain);
    var k := Walk(c, 0);
    c[k].isFree || End(c[k]) + ALLOC_SIZE + Aligned(bytes) <= MEMORY_SIZE
  }

  /** The i-th byte of `free`'s poison pattern, `switch (i % 4)`. */
  function PoisonByte(i: nat): (b: u8)
  {
    match i % 4
    case 0 => 0xDE
    case 1 => 0xAD
    case 2 => 0xBE
    case _ => 0xEF
  }

  /** m with the n bytes from p overwritten by the pattern DE AD BE EF. */
  function Poisoned(m: seq<u8>, p: nat, n: nat): (r: seq<u8>)
    requires p + n <= |m|
  {
    seq(|m|, j requires 0 <= j < |m| => PoisonedAt(m, p, n, j))
  }

  function PoisonedAt(m: seq<u8>, p: nat, n: nat, j: nat): (b: u8)
    requires j < |m|
  {
    if p <= j < p + n then PoisonByte(j - p) else m[j]
  }

  /** The index of the header whose block `malloc` handed out at address block, or
      |c| when there is none. */
  function HeaderOf(c: seq<Header>, block: nat, i: nat): (k: nat)
    requires i <= |c|
    ensures i <= k <= |c|
    ensures k < |c| ==> Address(c[k]) == block
    ensures forall j :: i <= j < k ==> Address(c[j]) != block
    decreases |c| - i
  {
    if i == |c| then i else if Address(c[i]) == block then i else HeaderOf(c, block, i + 1)
  }

  /** `free(block)` may be called on: a block `malloc` handed out, after the head. */
  ghost predicate Freeable(s: HeapState, block: nat)
  {
    var k := HeaderOf(s.chain, block, 0);
    1 <= k < |s.chain|
  }

  /** `free(block)` (emu/slib.cpp:143-174), with DEBUG set: the header at
      block - sizeof(Alloc) becomes free and its whole payload is poisoned. The
      loop as written counts in a `uint8_t` and never ends on a payload of 256
      bytes or more (`PoisonLoopAsWrittenNeverEnds`); this is the loop with a
      counter wide enough for any payload. */
  function FreeS(s: HeapState, block: nat): (r: HeapState)
    requires ValidHeap(s) && Freeable(s, block)
  {
    var k := HeaderOf(s.chain, block, 0);
    var a := s.chain[k];
    HeapState(s.chain[k := a.(isFree := true)], Poisoned(s.mem, PayloadStart(a), a.size - ALLOC_SIZE))
  }

  /** The heap before any call: the head header as zeroed memory holds it, no `next`. */
  function Initial(): (s: HeapState)
  {
    HeapState([Header(0, false, 0)], seq(MEMORY_SIZE, _ => 0))
  }

  // ---------------------------------------------------------------------
  // The code

  class Heap {
    /** The headers from `alloc` on, in `next` order. */
    var chain: seq<Header>
    /** The bytes from HEAP on. */
    const memory: array<u8>

    function State(): HeapState
      reads this, memory
    {
      HeapState(chain, memory[..])
    }

    ghost predicate Valid()
      reads this, memory
    {
      ValidHeap(State())
    }

    constructor()
      ensures State() == Initial() && Valid() && fresh(memory)
    {
      chain := [Header(0, false, 0)];
      memory := new u8[MEMORY_SIZE](_ => 0);
      new;
      assert memory[..] == seq(MEMORY_SIZE, _ => 0);
    }

    /** `allocate(a, bytes)` for a the tail, header k: append the new header, zero a's
        payload, link it. */
    method Allocate(k: nat, bytes: nat)
      requires Chained(chain) && k == |chain| - 1 && memory.Length == MEMORY_SIZE
      modifies this, memory
      ensures chain == old(chain) + [NewHeader(old(chain)[k], bytes)]
      ensures memory[..] == SetBytes(old(memory[..]), PayloadStart(old(chain)[k]), 0, old(chain)[k].size - ALLOC_SIZE)
    {
      var a := chain[k];
      var h := Header((ALLOC_SIZE + Aligned(bytes)) % 0x1_0000, false, (a.offset + a.size) % 0x1_0000_0000);
      Memset(memory, a.offset + ALLOC_SIZE, 0, a.size - ALLOC_SIZE);
      chain := chain + [h];
    }

    /** `reuse_allocation(a, bytes)` for header k: trap when the request is too big,
        otherwise clear the flag and zero the payload. */
    method ReuseAllocation(k: nat, bytes: nat) returns (trapped: bool)
      requires Chained(chain) && k < |chain| && memory.Length == MEMORY_SIZE
      modifies this, memory
      ensures trapped == ReuseTraps(old(chain)[k], bytes)
      ensures trapped ==> chain == old(chain) && memory[..] == old(memory[..])
      ensures !trapped ==> chain == old(chain)[k := old(chain)[k].(isFree := false)]
      ensures !trapped ==> memory[..] == SetBytes(old(memory[..]), PayloadStart(old(chain)[k]), 0, old(chain)[k].size - ALLOC_SIZE)
    {
      var a := chain[k];
      if UChar(bytes) > a.size - ALLOC_SIZE {
        return true;
      }
      chain := chain[k := a.(isFree := false)];
      Memset(memory, a.offset + ALLOC_SIZE, 0, a.size - ALLOC_SIZE);
      trapped := false;
    }

    /** `malloc(bytes)`. */
    method Malloc(bytes: nat) returns (r: Result<nat>)
      requires Valid() && Fits(State(), bytes)
      modifies this, memory
      ensures Outcome(State(), r) == MallocS(old(State()), bytes)
      ensures Valid()
    {
      ghost var s := State();
      if |chain| == 1 {
        chain := [Header(HEAD_SIZE, false, 0)];
      }
      var k := 0;
      while k < |chain| - 1
        invariant k < |chain| && Walk(chain, k) == Walk(chain, 0)
        decreases |chain| - k
      {
        if chain[k].isFree {
          break;
        }
        k := k + 1;
      }
      assert k == Walk(chain, 0);
      if chain[k].isFree {
        var a := chain[k];
        var trapped := ReuseAllocation(k, bytes);
        if trapped {
          r := Panic("null trap");
        } else {
          r := Ok(HEAP_OFFSET + a.offset + ALLOC_SIZE);
        }
      } else {
        Allocate(k, bytes);
        r := Ok(HEAP_OFFSET + chain[k + 1].offset + ALLOC_SIZE);
      }
      MallocValid(s, bytes);
    }

    /** `free(block)`, its poison loop counting past 255. */
    method Free(block: nat)
      requires Valid() && Freeable(State(), block)
      modifies this, memory
      ensures State() == FreeS(old(State()), block)
      ensures Valid()
    {
      ghost var s := State();
      var k := HeaderOf(chain, block, 0);
      var a := chain[k];
      chain := chain[k := a.(isFree := true)];
      var n := a.size - ALLOC_SIZE;
      var i: nat := 0;
      while i < n
        modifies memory
        invariant i <= n
        invariant forall j :: PayloadStart(a) <= j < PayloadStart(a) + i ==> memory[j] == PoisonByte(j - PayloadStart(a))
        invariant forall j :: 0 <= j < memory.Length && !(PayloadStart(a) <= j < PayloadStart(a) + i) ==> memory[j] == old(memory[j])
        decreases n - i
      {
        var b: u8;
        match i % 4 {
          case 0 => b := 0xDE;
          case 1 => b := 0xAD;
          case 2 => b := 0xBE;
          case _ => b := 0xEF;
        }
        memory[a.offset + ALLOC_SIZE + i] := b;
        i := i + 1;
      }
      assert memory[..] == Poisoned(s.mem, PayloadStart(a), n);
      FreeValid(s, block);
    }
  }

  // ---------------------------------------------------------------------
  // Properties

  /** The payload an append gets is a multiple of 4 and strictly bigger than the
      request; a request that is a multiple of 4 gets 4 bytes more. */
  lemma AlignedBounds(bytes: nat)
    ensures Aligned(bytes) % 4 == 0
    ensures bytes < Aligned(bytes) <= bytes + 4
    ensures bytes % 4 == 0 ==> Aligned(bytes) == bytes + 4
  {
  }

  /** Blocks follow one another: a block ends where or before any later one starts,
      so offsets strictly increase and payloads never overlap. */
  lemma {:induction false} Disjoint(c: seq<Header>, i: nat, j: nat)
    requires Chained(c) && i < j < |c|
    ensures End(c[i]) <= c[j].offset
    ensures c[i].offset < c[j].offset
    decreases j - i
  {
    if i + 1 < j {
      Disjoint(c, i + 1, j);
    }
  }

  /** The chain stays valid across `malloc`, as long as an appended block fits. */
  lemma MallocValid(s: HeapState, bytes: nat)
    requires ValidHeap(s) && Fits(s, bytes)
    ensures ValidHeap(MallocS(s, bytes).state)
  {
    var c := FirstCall(s.chain);
    var k := Walk(c, 0);
    if c[k].isFree {
      FlagKeepsChain(c, k, false);
    } else {
      AlignedBounds(bytes);
      AppendKeepsChain(c, NewHeader(c[k], bytes));
    }
  }

  /** Setting a flag after the head keeps a chain. */
  lemma FlagKeepsChain(c: seq<Header>, k: nat, free: bool)
    requires Chained(c) && 1 <= k < |c|
    ensures Chained(c[k := c[k].(isFree := free)])
  {
    var c' := c[k := c[k].(isFree := free)];
    assert forall i :: 0 <= i < |c'| ==> c'[i].offset == c[i].offset && c'[i].size == c[i].size;
  }

  /** A block that starts where the tail ends, with a positive payload that is a
      multiple of 4, and that ends inside the region, extends a chain. */
  lemma AppendKeepsChain(c: seq<Header>, h: Header)
    requires Chained(c) && h.offset == End(c[|c| - 1])
    requires h.size >= ALLOC_SIZE + 4 && (h.size - ALLOC_SIZE) % 4 == 0 && End(h) <= MEMORY_SIZE
    ensures Chained(c + [h])
  {
    var c' := c + [h];
    assert forall i :: 0 <= i < |c| ==> c'[i] == c[i];
    assert forall i :: 1 <= i < |c'| ==> c'[i].offset == End(c'[i - 1]) by {
      forall i | 1 <= i < |c'|
        ensures c'[i].offset == End(c'[i - 1])
      {
        if i < |c| {
          assert c'[i] == c[i] && c'[i - 1] == c[i - 1];
        }
      }
    }
  }

  /** The chain stays valid across `free`, which changes only the header's flag. */
  lemma FreeValid(s: HeapState, block: nat)
    requires ValidHeap(s) && Freeable(s, block)
    ensures ValidHeap(FreeS(s, block))
  {
    FlagKeepsChain(s.chain, HeaderOf(s.chain, block, 0), true);
  }

  /** The first call sets up the head and appends the first block after it, at
      offset 16, handing out address 40. */
  lemma MallocFirstCall(s: HeapState, bytes: nat)
    requires ValidHeap(s) && |s.chain| == 1 && ALLOC_SIZE + Aligned(bytes) < 0x1_0000
    ensures MallocS(s, bytes).state.chain == [Header(HEAD_SIZE, false, 0), Header(ALLOC_SIZE + Aligned(bytes), false, HEAD_SIZE)]
    ensures MallocS(s, bytes).state.mem == s.mem
    ensures MallocS(s, bytes).result == Ok(40)
  {
  }

  /** When no header before the tail is free and the tail is occupied, `malloc`
      appends a block right after the tail, with a payload of the aligned request,
      and hands out its payload's address; the tail's payload is zeroed (a DEBUG
      quirk: the new block's own payload is left as it was), no other byte changes. */
  lemma MallocAppends(s: HeapState, bytes: nat)
    requires ValidHeap(s) && Fits(s, bytes)
    requires var c := FirstCall(s.chain); forall j :: 0 <= j < |c| ==> !c[j].isFree
    ensures var c := FirstCall(s.chain); var t := c[|c| - 1]; var o := MallocS(s, bytes);
      && |o.state.chain| == |c| + 1 && o.state.chain[..|c|] == c
      && var h := o.state.chain[|c|];
      && h.offset == End(t) && h.size == ALLOC_SIZE + Aligned(bytes) && !h.isFree
      && o.result == Ok(Address(h))
      && o.state.mem[PayloadStart(t)..End(t)] == seq(t.size - ALLOC_SIZE, _ => 0)
      && o.state.mem[..PayloadStart(t)] == s.mem[..PayloadStart(t)]
      && o.state.mem[End(t)..] == s.mem[End(t)..]
  {
    var c := FirstCall(s.chain);
    var k := Walk(c, 0);
    assert k == |c| - 1;
    AlignedBounds(bytes);
    SetBytesReads(s.mem, PayloadStart(c[k]), 0, c[k].size - ALLOC_SIZE);
  }

  /** When header k is the first free one, `malloc` traps exactly when the request,
      truncated to a byte, exceeds its payload; otherwise it hands out the same
      address the block had, clears only the flag and zeroes only that payload. */
  lemma MallocReuses(s: HeapState, bytes: nat, k: nat)
    requires ValidHeap(s) && |s.chain| > 1 && k < |s.chain| && s.chain[k].isFree
    requires forall j :: 0 <= j < k ==> !s.chain[j].isFree
    ensures var o := MallocS(s, bytes); var a := s.chain[k];
      && (o.result.Panic? <==> UChar(bytes) > a.size - ALLOC_SIZE)
      && (o.result.Panic? ==> o.state == s)
      && (o.result.Ok? ==>
          && o.result.value == Address(a)
          && o.state.chain == s.chain[k := Header(a.size, false, a.offset)]
          && o.state.mem == SetBytes(s.mem, PayloadStart(a), 0, a.size - ALLOC_SIZE))
  {
    assert Walk(s.chain, 0) == k;
  }

  /** `(uint8_t)bytes`: for a reused block, asking for 256 bytes more makes no
      difference, so a request larger than the payload can pass the check. */
  lemma ReuseTruncates(s: HeapState, bytes: nat)
    requires ValidHeap(s)
    requires var c := FirstCall(s.chain); c[Walk(c, 0)].isFree
    ensures MallocS(s, bytes + 256) == MallocS(s, bytes)
  {
    assert UChar(bytes + 256) == UChar(bytes);
  }

  /** `free` frees exactly the block at its address: only that header's flag
      changes, its payload reads DE AD BE EF repeated, and no other byte changes. */
  lemma FreePoisons(s: HeapState, block: nat)
    requires ValidHeap(s) && Freeable(s, block)
    ensures var k := HeaderOf(s.chain, block, 0); var a := s.chain[k]; var r := FreeS(s, block);
      && Address(a) == block
      && r.chain == s.chain[k := Header(a.size, true, a.offset)]
      && (forall i :: 0 <= i < a.size - ALLOC_SIZE ==> r.mem[PayloadStart(a) + i] == PoisonByte(i))
      && (forall j :: 0 <= j < |s.mem| && !(PayloadStart(a) <= j < End(a)) ==> r.mem[j] == s.mem[j])
  {
  }

  /** Freeing a block when no block is free, then asking for no more than its
      payload, hands the same address out again. */
  lemma FreeThenMalloc(s: HeapState, block: nat, bytes: nat)
    requires ValidHeap(s) && Freeable(s, block)
    requires forall j :: 0 <= j < |s.chain| ==> !s.chain[j].isFree
    requires UChar(bytes) <= s.chain[HeaderOf(s.chain, block, 0)].size - ALLOC_SIZE
    ensures ValidHeap(FreeS(s, block))
    ensures MallocS(FreeS(s, block), bytes).result == Ok(block)
  {
    var k := HeaderOf(s.chain, block, 0);
    var f := FreeS(s, block);
    FreeValid(s, block);
    assert forall j :: 0 <= j < k ==> !f.chain[j].isFree;
    MallocReuses(f, bytes, k);
  }

  // ---------------------------------------------------------------------
  // The poison loop of `free` as written

  /** The guard `i < a->size - sizeof(Alloc)` of the poison loop, with the counter
      `uint8_t i` as written. */
  predicate PoisonLoopGoesOn(i: u8, payload: nat)
  {
    i < payload
  }

  /** `i++` on a `uint8_t`. */
  function NextCounter(i: u8): u8
  {
    (i + 1) % 256
  }

  /** With a payload of 256 bytes or more, every value the `uint8_t` counter can
      hold passes the guard, and so does the value after it: the loop as written
      never ends. */
  lemma PoisonLoopAsWrittenNeverEnds(i: u8, payload: nat)
    requires payload >= 256
    ensures PoisonLoopGoesOn(i, payload) && PoisonLoopGoesOn(NextCounter(i), payload)
  {
  }

  /** `malloc(252)` on the heap before any call hands out a block at 40 with a
      256-byte payload; in `free` of it the counter passes the guard at 255 and
      wraps to 0, so the poison loop as written never ends. */
  lemma PoisonLoopAsWrittenExample()
    ensures var o := MallocS(Initial(), 252);
      && o.result == Ok(40) && ValidHeap(o.state) && Freeable(o.state, 40)
      && var a := o.state.chain[HeaderOf(o.state.chain, 40, 0)];
      && a.size - ALLOC_SIZE == 256
      && PoisonLoopGoesOn(255, a.size - ALLOC_SIZE) && NextCounter(255) == 0
  {
    MallocFirstCall(Initial(), 252);
    var c := MallocS(Initial(), 252).state.chain;
    assert HeaderOf(c, 40, 0) == 1;
  }
}
