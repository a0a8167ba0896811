/** The slab of 512-byte chunks with its FIFO of free indices, and the per-write slot table. */
module ChunkPools {
  import opened Base
  import Spec = ReassemblySpec

  /** The first n bytes of chunk c, clamped as `Slice` clamps them. */
  ghost function SliceOf(rows: seq<seq<byte>>, c: int, n: nat): seq<byte> {
    if 0 <= c < |rows| then rows[c][..Min(n, |rows[c]|)] else []
  }

  function Zeros(n: nat): seq<byte> {
    seq(n, _ => 0)
  }

  /** Queueing one index on the bounded free list; a full list refuses it. */
  function Push(free: seq<int>, c: int, cap: nat): seq<int> {
    if 0 <= c < cap && |free| < cap then free + [c] else free
  }

  /** The free list after every filled slot has been released in order. */
  function PushAll(free: seq<int>, idxs: seq<int>, cap: nat): seq<int> {
    if idxs == [] then free else
    var n := |idxs| - 1;
    var before := PushAll(free, idxs[..n], cap);
    if idxs[n] >= 0 then Push(before, idxs[n], cap) else before
  }

  /** The chunk indices in the filled slots, in slot order. */
  function ChunksIn(idxs: seq<int>): seq<int> {
    if idxs == [] then [] else
    var n := |idxs| - 1;
    ChunksIn(idxs[..n]) + (if idxs[n] >= 0 then [idxs[n]] else [])
  }

  ghost function FilledSlots(idxs: seq<int>): set<nat> {
    set i: nat | i < |idxs| && idxs[i] >= 0
  }

  /** When the list has room nothing is refused: the held chunks are appended, once each. */
  lemma {:induction false} PushAllFits(free: seq<int>, idxs: seq<int>, cap: nat)
    requires forall i :: 0 <= i < |idxs| ==> idxs[i] < cap
    requires |free| + |ChunksIn(idxs)| <= cap
    ensures PushAll(free, idxs, cap) == free + ChunksIn(idxs)
  {
    if idxs == [] {
    } else {
      PushAllFits(free, idxs[..|idxs| - 1], cap);
    }
  }

  lemma {:induction false} ChunksInSize(idxs: seq<int>)
    ensures |ChunksIn(idxs)| == |FilledSlots(idxs)|
  {
    if idxs == [] {
      assert FilledSlots(idxs) == {};
    } else {
      var n := |idxs| - 1;
      ChunksInSize(idxs[..n]);
      assert FilledSlots(idxs) == FilledSlots(idxs[..n]) + (if idxs[n] >= 0 then {n} else {});
    }
  }

  /** Membership: the listed chunks are exactly the non-negative slot values. */
  lemma {:induction false} ChunksInMembers(idxs: seq<int>, c: int)
    ensures c in ChunksIn(idxs) <==> c >= 0 && c in idxs
  {
    if idxs == [] {
    } else {
      var n := |idxs| - 1;
      ChunksInMembers(idxs[..n], c);
      assert idxs == idxs[..n] + [idxs[n]];
    }
  }

  lemma {:induction false} ChunksInNoDup(idxs: seq<int>)
    requires forall i, j :: 0 <= i < j < |idxs| && idxs[i] >= 0 ==> idxs[i] != idxs[j]
    ensures NoDup(ChunksIn(idxs))
  {
    if idxs == [] {
    } else {
      var n := |idxs| - 1;
      ChunksInNoDup(idxs[..n]);
      ChunksInMembers(idxs[..n], idxs[n]);
    }
  }

  /** A prefix lists no more chunks than the whole, and strictly fewer before a filled slot. */
  lemma {:induction false} ChunksInGrow(idxs: seq<int>, i: nat)
    requires i <= |idxs|
    ensures |ChunksIn(idxs[..i])| <= |ChunksIn(idxs)|
    ensures i < |idxs| && idxs[i] >= 0 ==> |ChunksIn(idxs[..i])| < |ChunksIn(idxs)|
  {
    if i == |idxs| {
      assert idxs[..i] == idxs;
    } else {
      var n := |idxs| - 1;
      ChunksInGrow(idxs[..n], i);
      assert idxs[..n][..i] == idxs[..i];
    }
  }

  class ChunkPool {
    const chunks: array2<byte>
    var free: seq<int>
    var misses: nat
    /** The chunks as values, for specifications. */
    ghost var rows: seq<seq<byte>>
    /** How often a release found the free list full. */
    ghost var refused: nat

    function Cap(): nat {
      chunks.Length0
    }

    ghost predicate Valid()
      reads this, chunks
    {
      && chunks.Length1 == CHUNK_SIZE
      && |rows| == Cap()
      && |free| <= Cap()
      && (forall i :: 0 <= i < |rows| ==> |rows[i]| == CHUNK_SIZE)
      && (forall i, j :: 0 <= i < |rows| && 0 <= j < CHUNK_SIZE ==> rows[i][j] == chunks[i, j])
      && (forall j :: 0 <= j < |free| ==> 0 <= free[j] < Cap())
    }

    constructor (requestedBytes: int)
      ensures Valid() && fresh(chunks)
      ensures Cap() == (var total := if requestedBytes < CHUNK_SIZE then 0x400_0000 else requestedBytes;
                        Max(WholeChunks(total), 1024))
      ensures free == seq(Cap(), i => i) && misses == 0 && refused == 0
    {
      var totalBytes := requestedBytes;
      if totalBytes < CHUNK_SIZE {
        totalBytes := 0x400_0000;
      }
      var n := WholeChunks(totalBytes);
      if n < 1024 {
        n := 1024;
      }
      chunks := new byte[n, CHUNK_SIZE]((_, _) => 0);
      rows := seq(n, _ => Zeros(CHUNK_SIZE));
      misses, refused := 0, 0;
      free := [];
      new;
      for i := 0 to n
        invariant chunks.Length0 == n && fresh(chunks)
        invariant chunks.Length1 == CHUNK_SIZE && |rows| == n
        invariant forall i :: 0 <= i < |rows| ==> |rows[i]| == CHUNK_SIZE
        invariant forall i, j :: 0 <= i < |rows| && 0 <= j < CHUNK_SIZE ==> rows[i][j] == chunks[i, j]
        invariant free == seq(i, j => j)
        invariant misses == 0 && refused == 0
      {
        free := free + [i];
      }
    }

    /** Copies src into the chunk at the head of the free list and zeroes the rest of it;
        -1 when no chunk is free. */
    method Alloc(src: seq<byte>) returns (idx: int)
      requires Valid()
      modifies this`free, this`misses, this`rows, chunks
      ensures Valid()
      ensures old(free) == [] ==>
                idx == -1 && free == [] && rows == old(rows) && misses == old(misses) + 1
      ensures old(free) != [] ==>
                && idx == old(free)[0] && free == old(free)[1..] && misses == old(misses)
                && rows == old(rows)[idx := (var n := Min(|src|, CHUNK_SIZE); src[..n] + Zeros(CHUNK_SIZE - n))]
    {
      if free == [] {
        misses := misses + 1;
        return -1;
      }
      idx := free[0];
      free := free[1..];
      var n := |src|;
      if n > CHUNK_SIZE {
        n := CHUNK_SIZE;
      }
      for i := 0 to n
        modifies chunks
        invariant forall j :: 0 <= j < i ==> chunks[idx, j] == src[j]
        invariant forall r, j :: 0 <= r < Cap() && r != idx && 0 <= j < CHUNK_SIZE ==> chunks[r, j] == old(chunks[r, j])
      {
        chunks[idx, i] := src[i];
      }
      for i := n to CHUNK_SIZE
        modifies chunks
        invariant forall j :: 0 <= j < n ==> chunks[idx, j] == src[j]
        invariant forall j :: n <= j < i ==> chunks[idx, j] == 0
        invariant forall r, j :: 0 <= r < Cap() && r != idx && 0 <= j < CHUNK_SIZE ==> chunks[r, j] == old(chunks[r, j])
      {
        chunks[idx, i] := 0;
      }
      rows := rows[idx := src[..n] + Zeros(CHUNK_SIZE - n)];
    }

    /** The first n bytes of a chunk; nothing for an index outside the slab. */
    method Slice(idx: int, n: int) returns (r: seq<byte>)
      requires Valid()
      ensures r == SliceOf(rows, idx, Max(n, 0))
    {
      if idx < 0 || idx >= chunks.Length0 {
        return [];
      }
      var m := n;
      if m < 0 {
        m := 0;
      }
      if m > CHUNK_SIZE {
        m := CHUNK_SIZE;
      }
      r := seq(m, j requires 0 <= j < CHUNK_SIZE reads this, chunks => chunks[idx, j]);
    }

    method Release(idx: int)
      requires Valid()
      modifies this`free, this`refused
      ensures Valid()
      ensures free == Push(old(free), idx, Cap())
      ensures refused == old(refused) + (if 0 <= idx < Cap() && |old(free)| >= Cap() then 1 else 0)
    {
      if idx < 0 || idx >= chunks.Length0 {
        return;
      }
      if |free| < chunks.Length0 {
        free := free + [idx];
      } else {
        refused := refused + 1;
      }
    }
  }

  /** The fragments found through the slots of one write. */
  ghost function FragsOf(idxs: seq<int>, lens: seq<u16>, rows: seq<seq<byte>>): map<nat, seq<byte>> {
    map i: nat | i < |idxs| && i < |lens| && idxs[i] >= 0 :: SliceOf(rows, idxs[i], lens[i])
  }

  lemma {:induction false} FragAt(idxs: seq<int>, lens: seq<u16>, rows: seq<seq<byte>>, i: nat)
    requires i < |idxs| == |lens| && idxs[i] >= 0
    ensures i in FragsOf(idxs, lens, rows) && FragsOf(idxs, lens, rows)[i] == SliceOf(rows, idxs[i], lens[i])
  {
  }

  class FragSlots {
    var idxs: seq<int>
    var lens: seq<u16>
    var count: nat

    ghost predicate Valid()
      reads this
    {
      && |idxs| == |lens| && count == |FilledSlots(idxs)|
      && (forall i :: 0 <= i < |idxs| ==> idxs[i] >= -1)
    }

    constructor (fragCnt: u32)
      ensures Valid() && count == 0
      ensures idxs == seq(fragCnt, _ => -1) && lens == seq(fragCnt, _ => 0)
    {
      idxs := seq(fragCnt, _ => -1);
      lens := seq(fragCnt, _ => 0);
      count := 0;
      new;
      assert FilledSlots(idxs) == {};
    }

    /** Fills an empty slot; refuses an index outside the table or already filled. */
    method Put(fragIdx: u32, poolIdx: int, n: nat) returns (isNew: bool)
      requires Valid() && poolIdx >= 0
      modifies this
      ensures Valid()
      ensures isNew <==> fragIdx < |old(idxs)| && old(idxs)[fragIdx] < 0
      ensures isNew ==> && idxs == old(idxs)[fragIdx := poolIdx]
                        && lens == old(lens)[fragIdx := ToU16(n)]
                        && count == old(count) + 1
      ensures !isNew ==> unchanged(this)
    {
      if fragIdx >= |idxs| {
        return false;
      }
      if idxs[fragIdx] >= 0 {
        return false;
      }
      idxs := idxs[fragIdx := poolIdx];
      lens := lens[fragIdx := ToU16(n)];
      count := count + 1;
      assert FilledSlots(idxs) == FilledSlots(old(idxs)) + {fragIdx};
      return true;
    }

    method Has(fragIdx: u32) returns (b: bool)
      requires Valid()
      ensures b <==> fragIdx in FilledSlots(idxs)
    {
      b := fragIdx < |idxs| && idxs[fragIdx] >= 0;
    }

    /** True exactly when there is a slot and no slot is empty. */
    method Complete() returns (b: bool)
      requires Valid()
      ensures b <==> |idxs| > 0 && |FilledSlots(idxs)| == |idxs|
      ensures b <==> |idxs| > 0 && forall i :: 0 <= i < |idxs| ==> idxs[i] >= 0
    {
      FullRange(FilledSlots(idxs), |idxs|);
      b := count == |idxs| && |idxs| > 0;
      if b {
        forall i | 0 <= i < |idxs| ensures idxs[i] >= 0 {
          assert i in Range(|idxs|);
        }
      } else if forall i :: 0 <= i < |idxs| ==> idxs[i] >= 0 {
        assert FilledSlots(idxs) == Range(|idxs|);
      }
    }

    /** Hands every held chunk back to the pool and empties the slots. */
    method ReleaseAll(pool: ChunkPool)
      requires Valid() && pool.Valid()
      requires forall i :: 0 <= i < |idxs| ==> idxs[i] < pool.Cap()
      modifies this, pool`free, pool`refused
      ensures Valid() && pool.Valid() && count == 0
      ensures idxs == seq(|old(idxs)|, _ => -1) && lens == old(lens)
      ensures pool.free == PushAll(old(pool.free), old(idxs), pool.Cap())
      ensures |old(pool.free)| + |ChunksIn(old(idxs))| <= pool.Cap() ==> pool.refused == old(pool.refused)
    {
      ghost var was := idxs;
      ghost var fits := |pool.free| + |ChunksIn(was)| <= pool.Cap();
      for i := 0 to |idxs|
        invariant |idxs| == |was| && lens == old(lens) && pool.Valid()
        invariant forall j :: 0 <= j < i ==> idxs[j] == -1
        invariant forall j :: i <= j < |was| ==> idxs[j] == was[j]
        invariant pool.free == PushAll(old(pool.free), was[..i], pool.Cap())
        invariant fits ==> |pool.free| + |ChunksIn(was)| <= pool.Cap() + |ChunksIn(was[..i])|
        invariant fits ==> pool.refused == old(pool.refused)
      {
        assert was[..i + 1][..i] == was[..i];
        ChunksInGrow(was, i);
        var idx := idxs[i];
        if idx >= 0 {
          pool.Release(idx);
          idxs := idxs[i := -1];
        }
      }
      count := 0;
      assert FilledSlots(idxs) == {};
      assert was[..|was|] == was;
    }

    /** The stored pieces in slot order; nothing if a slot is empty. */
    method Join(pool: ChunkPool) returns (res: Option<seq<byte>>)
      requires Valid() && pool.Valid()
      ensures res.None? <==> exists i :: 0 <= i < |idxs| && idxs[i] < 0
      ensures res.Some? ==> res.value == Spec.Concat(FragsOf(idxs, lens, pool.rows), |idxs|)
    {
      hide FragsOf, SliceOf;
      var out: seq<byte> := [];
      ghost var frags := FragsOf(idxs, lens, pool.rows);
      for i := 0 to |idxs|
        invariant forall j :: 0 <= j < i ==> idxs[j] >= 0
        invariant out == Spec.Concat(frags, i)
      {
        if idxs[i] < 0 {
          return None;
        }
        var piece := pool.Slice(idxs[i], lens[i]);
        FragAt(idxs, lens, pool.rows, i);
        out := out + piece;
      }
      return Some(out);
    }

    /** The stored pieces in slot order, cut to totalLen; nothing if a slot is empty. */
    method Assemble(pool: ChunkPool, totalLen: u32) returns (res: Option<seq<byte>>)
      requires Valid() && pool.Valid()
      ensures res.None? <==> exists i :: 0 <= i < |idxs| && idxs[i] < 0
      ensures res.Some? ==>
                res.value == Spec.Trim(Spec.Concat(FragsOf(idxs, lens, pool.rows), |idxs|), totalLen)
    {
      var out := Join(pool);
      if out.None? {
        return None;
      }
      if totalLen > 0 && ToU32(|out.value|) > totalLen {
        return Some(out.value[..totalLen]);
      }
      return out;
    }

    method HaveCount() returns (n: nat)
      requires Valid()
      ensures n == |FilledSlots(idxs)|
    {
      n := count;
    }
  }
}
