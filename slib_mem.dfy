/** The byte helpers of emu/slib.cpp:10-28, over one array of bytes: `memset` writes a
    byte n times from a position, `memcpy` copies a run of bytes to a position. A
    pointer into the array is an index. */
module SlibMem {
  import opened Words

  /** m with the n bytes from p set to v. */
  function SetBytes(m: seq<u8>, p: nat, v: u8, n: nat): (r: seq<u8>)
    requires p + n <= |m|
  {
    seq(|m|, j requires 0 <= j < |m| => if p <= j < p + n then v else m[j])
  }

  /** m with the n bytes from d replaced by the first n bytes of src. */
  function CopyBytes(m: seq<u8>, d: nat, src: seq<u8>, n: nat): (r: seq<u8>)
    requires d + n <= |m| && n <= |src|
  {
    seq(|m|, j requires 0 <= j < |m| => if d <= j < d + n then src[j - d] else m[j])
  }

  /** `(unsigned char)c`: C's conversion keeps c modulo 256. */
  function UChar(c: int): (b: u8)
  {
    c % 256
  }

  /** `memset(s, c, n)`: `while (n--) *p++ = (unsigned char)c;`. */
  method Memset(a: array<u8>, s: nat, c: int, n: nat)
    requires s + n <= a.Length
    modifies a
    ensures a[..] == SetBytes(old(a[..]), s, UChar(c), n)
  {
    var p := s;
    var left := n;
    while left > 0
      invariant s <= p && p + left == s + n
      invariant forall j :: s <= j < p ==> a[j] == UChar(c)
      invariant forall j :: 0 <= j < a.Length && !(s <= j < p) ==> a[j] == old(a[j])
    {
      a[p] := UChar(c);
      p := p + 1;
      left := left - 1;
    }
  }

  /** The iterations of `for (int i = 0; i < bytes; i++)`. */
  function Count(bytes: int): (n: nat)
    ensures bytes >= 0 ==> n == bytes
    ensures bytes < 0 ==> n == 0
  {
    if bytes > 0 then bytes else 0
  }

  /** `memcpy(dst, src, bytes)`: `for (i = 0; i < bytes; i++) d[i] = s[i];`, with the
      source bytes given as a value; a negative count copies nothing. */
  method Memcpy(a: array<u8>, d: nat, src: seq<u8>, bytes: int)
    requires Count(bytes) <= |src| && d + Count(bytes) <= a.Length
    modifies a
    ensures a[..] == CopyBytes(old(a[..]), d, src, Count(bytes))
  {
    var i := 0;
    while i < bytes
      invariant 0 <= i <= Count(bytes)
      invariant forall j :: d <= j < d + i ==> a[j] == src[j - d]
      invariant forall j :: 0 <= j < a.Length && !(d <= j < d + i) ==> a[j] == old(a[j])
    {
      a[d + i] := src[i];
      i := i + 1;
    }
  }

  // ---------------------------------------------------------------------
  // Properties

  /** After `memset`, the n bytes read v and no other byte changed. */
  lemma SetBytesReads(m: seq<u8>, p: nat, v: u8, n: nat)
    requires p + n <= |m|
    ensures |SetBytes(m, p, v, n)| == |m|
    ensures SetBytes(m, p, v, n)[p..p + n] == seq(n, _ => v)
    ensures SetBytes(m, p, v, n)[..p] == m[..p]
    ensures SetBytes(m, p, v, n)[p + n..] == m[p + n..]
  {
  }

  /** Setting the same bytes twice is setting them once; setting none changes nothing. */
  lemma SetBytesIdempotent(m: seq<u8>, p: nat, v: u8, n: nat)
    requires p + n <= |m|
    ensures SetBytes(SetBytes(m, p, v, n), p, v, n) == SetBytes(m, p, v, n)
    ensures SetBytes(m, p, v, 0) == m
  {
  }

  /** After `memcpy`, the destination reads back the source and no other byte
      changed. */
  lemma CopyBytesReads(m: seq<u8>, d: nat, src: seq<u8>, n: nat)
    requires d + n <= |m| && n <= |src|
    ensures |CopyBytes(m, d, src, n)| == |m|
    ensures CopyBytes(m, d, src, n)[d..d + n] == src[..n]
    ensures CopyBytes(m, d, src, n)[..d] == m[..d]
    ensures CopyBytes(m, d, src, n)[d + n..] == m[d + n..]
  {
  }

  /** Copying a one-byte buffer is writing that byte. */
  lemma CopyOneByte(m: seq<u8>, d: nat, b: u8)
    requires d < |m|
    ensures CopyBytes(m, d, [b], 1) == m[d := b]
  {
  }

  /** `(unsigned char)c` keeps the low byte and is the identity on bytes. */
  lemma UCharLowByte(c: int)
    ensures 0 <= UChar(c) < 256
    ensures 0 <= c < 256 ==> UChar(c) == c
    ensures UChar(c + 256) == UChar(c)
  {
  }
}
