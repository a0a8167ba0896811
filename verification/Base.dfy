/** Machine integers, byte strings and list facts shared by every component. */
module Base {

  type byte = x: int | 0 <= x < 0x100
  type u16 = x: int | 0 <= x < 0x1_0000
  type u32 = x: int | 0 <= x < 0x1_0000_0000
  type u64 = x: int | 0 <= x < 0x1_0000_0000_0000_0000

  /** Conversion to a narrower machine integer, and unsigned wrap-around. */
  function ToU16(x: int): u16 {
    x % 0x1_0000
  }

  function ToU32(x: int): u32 {
    x % 0x1_0000_0000
  }

  function ToU64(x: int): u64 {
    x % 0x1_0000_0000_0000_0000
  }

  /** Bytes of plaintext carried by one ring-buffer record and stored in one pool chunk. */
  const CHUNK_SIZE := 512

  /** Where chunk i of a write starts. Products and quotients by the chunk size are taken here, and
      by its literal, which keeps them linear. */
  function ChunkStart(i: int): int {
    i * 512
  }

  function WholeChunks(n: nat): nat {
    n / 512
  }

  datatype Option<+T> = None | Some(value: T)

  function Min(a: int, b: int): int {
    if a < b then a else b
  }

  function Max(a: int, b: int): int {
    if a < b then b else a
  }

  ghost predicate NoDup<T>(s: seq<T>) {
    forall i, j :: 0 <= i < j < |s| ==> s[i] != s[j]
  }

  /** The indices 0, 1, ..., n-1. */
  ghost function Range(n: nat): (s: set<nat>)
    ensures forall i: nat :: i in s <==> i < n
    ensures |s| == n
  {
    if n == 0 then {} else Range(n - 1) + {n - 1}
  }

  lemma {:induction false} SubsetSize<T>(a: set<T>, b: set<T>)
    requires a <= b
    ensures |a| <= |b|
    ensures |a| == |b| ==> a == b
  {
    if a == {} {
    } else {
      var x :| x in a;
      SubsetSize(a - {x}, b - {x});
    }
  }

  /** A set of indices below n that has n members is all of them. */
  lemma {:induction false} FullRange(s: set<nat>, n: nat)
    requires s <= Range(n)
    ensures |s| <= n
    ensures |s| == n <==> s == Range(n)
  {
    SubsetSize(s, Range(n));
  }
}
