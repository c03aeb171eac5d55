/** The fixed-capacity `Vec` of emu/slib.h:19-25 and emu/slib.cpp:39-56: a capacity, a
    length and an item size (all `uint32_t`) and a data pointer from `malloc`.
    `push_vec` copies one item to the next free slot while there is one. */
module SlibVec {
  import opened Wrappers
  import opened Words
  import opened SlibMem
  import opened SlibHeap

  /** The fields of a `Vec` as a value. */
  datatype VecValue = VecValue(cap: u32, len: u32, itemSize: u32, data: nat)

  /** `item_size * init_capacity` in `uint32_t`, passed to `malloc(int)`. */
  function Request(itemSize: u32, cap: u32): nat
  {
    (itemSize * cap) % TWO_32
  }

  /** The slot `(uint8_t *)vec->data + (vec->len * vec->item_size)`, as an offset from
      HEAP; the product is a `uint32_t`. */
  function Slot(v: VecValue): int
  {
    v.data - HEAP_OFFSET + (v.len * v.itemSize) % TWO_32
  }

  /** A push can write its slot: the slot lies inside the bytes from HEAP on. */
  predicate SlotInRegion(v: VecValue, size: nat)
  {
    0 <= Slot(v) && Slot(v) + v.itemSize <= size
  }

  /** `push_vec(vec, item)`: with room left, the item's bytes are copied to its slot
      and the length grows by one; otherwise nothing changes. */
  function PushS(v: VecValue, mem: seq<u8>, item: seq<u8>): (r: (VecValue, seq<u8>))
    requires |item| == v.itemSize && v.len <= v.cap
    requires v.len < v.cap ==> SlotInRegion(v, |mem|)
  {
    if v.len < v.cap then (v.(len := v.len + 1), CopyBytes(mem, Slot(v), item, v.itemSize))
    else (v, mem)
  }

  class Vec {
    var cap: u32
    var len: u32
    var itemSize: u32
    var data: nat

    function Value(): VecValue
      reads this
    {
      VecValue(cap, len, itemSize, data)
    }

    ghost predicate Valid()
      reads this
    {
      len <= cap
    }

    /** `Vec vec = {}` with the given capacity, item size and data pointer. */
    constructor(itemSize: u32, cap: u32, data: nat)
      ensures Value() == VecValue(cap, 0, itemSize, data) && Valid()
    {
      this.cap := cap;
      this.len := 0;
      this.itemSize := itemSize;
      this.data := data;
    }

    /** `push_vec(vec, item)`. */
    method Push(heap: Heap, item: seq<u8>)
      requires Valid() && |item| == itemSize
      requires len < cap ==> SlotInRegion(Value(), heap.memory.Length)
      modifies this, heap.memory
      ensures (Value(), heap.memory[..]) == PushS(old(Value()), old(heap.memory[..]), item)
      ensures Valid()
    {
      if len < cap {
        Memcpy(heap.memory, data - HEAP_OFFSET + (len * itemSize) % TWO_32, item, itemSize);
        len := len + 1;
      }
    }
  }

  /** `new_vec(item_size, init_capacity)`: a `Vec` of length 0 whose data is what
      `malloc(item_size * init_capacity)` returns. A product of 2^31 or more would
      reach `malloc` as a negative `int`. */
  method NewVec(heap: Heap, itemSize: u32, cap: u32) returns (r: Result<Vec>)
    requires heap.Valid() && Request(itemSize, cap) < TWO_31 && Fits(heap.State(), Request(itemSize, cap))
    modifies heap, heap.memory
    ensures Outcome(heap.State(), if r.Ok? then Ok(r.value.data) else Panic(r.reason))
      == MallocS(old(heap.State()), Request(itemSize, cap))
    ensures heap.Valid()
    ensures r.Ok? ==> fresh(r.value) && r.value.Value() == VecValue(cap, 0, itemSize, r.value.data)
  {
    var p := heap.Malloc((itemSize * cap) % TWO_32);
    if p.Panic? {
      return Panic(p.reason);
    }
    var v := new Vec(itemSize, cap, p.value);
    r := Ok(v);
  }

  // ---------------------------------------------------------------------
  // Properties

  /** `len <= cap` holds after every push, and a push never touches the capacity, the
      item size or the data pointer. */
  lemma PushKeepsBound(v: VecValue, mem: seq<u8>, item: seq<u8>)
    requires |item| == v.itemSize && v.len <= v.cap
    requires v.len < v.cap ==> SlotInRegion(v, |mem|)
    ensures var (w, _) := PushS(v, mem, item);
      w.len <= w.cap && w.cap == v.cap && w.itemSize == v.itemSize && w.data == v.data
  {
  }

  /** With room left, the item reads back from its slot and nothing outside the slot
      changes; when full, the push changes nothing at all. */
  lemma PushCopiesItem(v: VecValue, mem: seq<u8>, item: seq<u8>)
    requires |item| == v.itemSize && v.len <= v.cap
    requires v.len < v.cap ==> SlotInRegion(v, |mem|)
    ensures var (w, m) := PushS(v, mem, item);
      && (v.len < v.cap ==>
          && w.len == v.len + 1
          && m[Slot(v)..Slot(v) + v.itemSize] == item
          && m[..Slot(v)] == mem[..Slot(v)] && m[Slot(v) + v.itemSize..] == mem[Slot(v) + v.itemSize..])
      && (v.len == v.cap ==> w == v && m == mem)
  {
    if v.len < v.cap {
      CopyBytesReads(mem, Slot(v), item, v.itemSize);
      assert item[..v.itemSize] == item;
    }
  }

  /** Slot k of a vector sits k items after its data, so successive pushes fill
      successive, non-overlapping slots (while the product does not wrap). */
  lemma SlotsFollow(v: VecValue)
    requires v.len + 1 < TWO_32 && (v.len + 1) * v.itemSize < TWO_32
    ensures Slot(v.(len := v.len + 1)) == Slot(v) + v.itemSize
  {
    assert (v.len + 1) * v.itemSize == v.len * v.itemSize + v.itemSize;
  }

  // ---------------------------------------------------------------------
  // The program of emu/emu.cpp:19-26

  /** The chain after `new_vec(1, 4)`: the head, then the vector's block at offset 16
      with 8 payload bytes (4 rounded up, plus 4). */
  const VEC_CHAIN: seq<Header> := [Header(HEAD_SIZE, false, 0), Header(24, false, 16)]

  /** `new_vec(sizeof(uint8_t), 4)` on the heap before any call: the data is at
      address 40 and no byte changes. */
  lemma EmuCppNewVec()
    ensures ValidHeap(Initial()) && Request(1, 4) == 4
    ensures MallocS(Initial(), 4) == Outcome(HeapState(VEC_CHAIN, Initial().mem), Ok(40))
  {
    MallocFirstCall(Initial(), 4);
  }

  /** Pushing 25 and then 69 fills the first two slots, bytes 32 and 33 from HEAP. */
  lemma EmuCppPushes(mem: seq<u8>)
    requires |mem| == MEMORY_SIZE
    ensures var (v1, m1) := PushS(VecValue(4, 0, 1, 40), mem, [25]);
      && v1 == VecValue(4, 1, 1, 40) && SlotInRegion(v1, |m1|)
      && var (v2, m2) := PushS(v1, m1, [69]);
      && v2 == VecValue(4, 2, 1, 40) && m2 == mem[32 := 25][33 := 69]
  {
    CopyOneByte(mem, 32, 25);
    CopyOneByte(mem[32 := 25], 33, 69);
  }

  /** `free(v.data)` frees the vector's block and poisons its 8 bytes. */
  lemma EmuCppFree(mem: seq<u8>)
    requires |mem| == MEMORY_SIZE
    ensures ValidHeap(HeapState(VEC_CHAIN, mem)) && Freeable(HeapState(VEC_CHAIN, mem), 40)
    ensures FreeS(HeapState(VEC_CHAIN, mem), 40).chain == [Header(HEAD_SIZE, false, 0), Header(24, true, 16)]
    ensures FreeS(HeapState(VEC_CHAIN, mem), 40).mem[32..40] == [0xDE, 0xAD, 0xBE, 0xEF, 0xDE, 0xAD, 0xBE, 0xEF]
  {
    var s := HeapState(VEC_CHAIN, mem);
    assert HeaderOf(s.chain, 40, 0) == 1;
    FreePoisons(s, 40);
    var m := FreeS(s, 40).mem;
    assert forall i :: 0 <= i < 8 ==> m[32 + i] == PoisonByte(i);
  }

  /** A following `malloc(1)` reuses the freed block and hands out 40 again. */
  lemma EmuCppReuse(mem: seq<u8>)
    requires |mem| == MEMORY_SIZE
    ensures ValidHeap(HeapState([Header(HEAD_SIZE, false, 0), Header(24, true, 16)], mem))
    ensures MallocS(HeapState([Header(HEAD_SIZE, false, 0), Header(24, true, 16)], mem), 1).result == Ok(40)
  {
    MallocReuses(HeapState([Header(HEAD_SIZE, false, 0), Header(24, true, 16)], mem), 1, 1);
  }

  /** `new_vec(1, 4)`, push 25, push 69, then `free(v.data)`, from the heap before any
      call. */
  method EmuCpp() returns (heap: Heap, v: Vec)
    ensures heap.Valid() && v.Value() == VecValue(4, 2, 1, 40)
    ensures heap.chain == [Header(HEAD_SIZE, false, 0), Header(24, true, 16)]
    ensures heap.memory[32..40] == [0xDE, 0xAD, 0xBE, 0xEF, 0xDE, 0xAD, 0xBE, 0xEF]
    ensures MallocS(heap.State(), 1).result == Ok(40)
  {
    heap := new Heap();
    EmuCppNewVec();
    var r := NewVec(heap, 1, 4);
    v := r.value;
    EmuCppPushes(heap.memory[..]);
    v.Push(heap, [25]);
    v.Push(heap, [69]);
    EmuCppFree(heap.memory[..]);
    heap.Free(v.data);
    EmuCppReuse(heap.memory[..]);
  }
}
