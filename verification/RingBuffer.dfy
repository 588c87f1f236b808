/** The cyclic chunk buffers of net.c: a byte queue in a doubly linked ring of equal chunks.
    Chunks are numbered in the order in which they were taken from `malloc`. */
module RingBuffer {

  import opened Wrappers

  // ---------- rings and what they hold ----------

  function NextIndex(i: nat, n: nat): nat {
    if i + 1 == n then 0 else i + 1
  }

  /** The chunks of `ring` are different, and both links follow its order, around its end. */
  ghost predicate Linked(ring: seq<nat>, next: seq<nat>, prev: seq<nat>) {
    && |next| == |prev|
    && (forall i | 0 <= i < |ring| :: ring[i] < |next|)
    && (forall i, j | 0 <= i < j < |ring| :: ring[i] != ring[j])
    && forall i | 0 <= i < |ring| ::
         next[ring[i]] == ring[NextIndex(i, |ring|)] && prev[ring[NextIndex(i, |ring|)]] == ring[i]
  }

  /** All bytes of the first chunks of a ring. */
  ghost function Bytes(ring: seq<nat>, data: seq<seq<int>>): seq<int>
    requires forall i | 0 <= i < |ring| :: ring[i] < |data|
  {
    if ring == [] then [] else Bytes(ring[..|ring| - 1], data) + data[ring[|ring| - 1]]
  }

  ghost predicate Chunks(ring: seq<nat>, data: seq<seq<int>>, size: nat) {
    && (forall i | 0 <= i < |data| :: |data[i]| == size)
    && (forall i | 0 <= i < |ring| :: ring[i] < |data|)
  }

  /** The bytes of the ring from its first chunk up to place `wp` of chunk `w`. */
  ghost function Before(ring: seq<nat>, data: seq<seq<int>>, size: nat, w: nat, wp: nat): seq<int>
    requires Chunks(ring, data, size) && w < |ring| && wp <= size
  {
    Bytes(ring[..w], data) + data[ring[w]][..wp]
  }

  lemma {:induction false} BytesLength(ring: seq<nat>, data: seq<seq<int>>, size: nat)
    requires Chunks(ring, data, size)
    ensures |Bytes(ring, data)| == |ring| * size
  {
    if ring != [] {
      BytesLength(ring[..|ring| - 1], data, size);
      assert |ring| * size == (|ring| - 1) * size + size;
    }
  }

  /** A chunk that is not among them does not matter. */
  lemma {:induction false} BytesElsewhere(ring: seq<nat>, data: seq<seq<int>>, c: nat, bytes: seq<int>)
    requires c < |data| && (forall i | 0 <= i < |ring| :: ring[i] < |data| && ring[i] != c)
    ensures Bytes(ring, data[c := bytes]) == Bytes(ring, data)
  {
    if ring != [] {
      BytesElsewhere(ring[..|ring| - 1], data, c, bytes);
    }
  }

  lemma {:induction false} BytesFromFirst(ring: seq<nat>, data: seq<seq<int>>)
    requires ring != [] && forall i | 0 <= i < |ring| :: ring[i] < |data|
    ensures Bytes(ring, data) == data[ring[0]] + Bytes(ring[1..], data)
  {
    if |ring| == 1 {
      assert ring[..0] == [] && ring[1..] == [];
    } else {
      var front, last := ring[..|ring| - 1], ring[|ring| - 1];
      BytesFromFirst(front, data);
      assert front[1..] == ring[1..][..|ring| - 2] && ring[1..][|ring| - 2] == last;
      assert Bytes(ring[1..], data) == Bytes(front[1..], data) + data[last];
      assert data[ring[0]] + Bytes(front[1..], data) + data[last] == data[ring[0]] + (Bytes(front[1..], data) + data[last]);
    }
  }

  lemma BeforeLength(ring: seq<nat>, data: seq<seq<int>>, size: nat, w: nat, wp: nat)
    requires Chunks(ring, data, size) && w < |ring| && wp <= size
    ensures |Before(ring, data, size, w, wp)| == w * size + wp
  {
    BytesLength(ring[..w], data, size);
  }

  /** The end of a chunk is the beginning of the next. */
  lemma BeforeNextChunk(ring: seq<nat>, data: seq<seq<int>>, size: nat, w: nat)
    requires Chunks(ring, data, size) && w + 1 < |ring|
    ensures Before(ring, data, size, w, size) == Before(ring, data, size, w + 1, 0)
  {
    assert ring[..w + 1][..w] == ring[..w];
  }

  /** Writing behind a place, in its chunk or a later one, leaves what is before the place. */
  lemma WriteBehind(ring: seq<nat>, data: seq<seq<int>>, size: nat, w: nat, wp: nat, v: nat, bytes: seq<int>)
    requires Chunks(ring, data, size) && w <= v < |ring| && wp <= size && |bytes| == size
    requires forall i, j | 0 <= i < j < |ring| :: ring[i] != ring[j]
    requires v == w ==> bytes[..wp] == data[ring[w]][..wp]
    ensures Chunks(ring, data[ring[v] := bytes], size)
    ensures Before(ring, data[ring[v] := bytes], size, w, wp) == Before(ring, data, size, w, wp)
  {
    BytesElsewhere(ring[..w], data, ring[v], bytes);
  }

  /** Bytes that are written at a place come to stand before the place after them. */
  lemma WriteAt(ring: seq<nat>, data: seq<seq<int>>, size: nat, w: nat, wp: nat, bytes: seq<int>)
    requires Chunks(ring, data, size) && w < |ring| && wp + |bytes| <= size
    requires forall i, j | 0 <= i < j < |ring| :: ring[i] != ring[j]
    ensures var chunk := data[ring[w]][..wp] + bytes + data[ring[w]][wp + |bytes|..];
            && Chunks(ring, data[ring[w] := chunk], size)
            && Before(ring, data[ring[w] := chunk], size, w, wp + |bytes|) == Before(ring, data, size, w, wp) + bytes
  {
    var chunk := data[ring[w]][..wp] + bytes + data[ring[w]][wp + |bytes|..];
    BytesElsewhere(ring[..w], data, ring[w], chunk);
    assert chunk[..wp + |bytes|] == data[ring[w]][..wp] + bytes;
  }

  /** What is before a place begins with the first chunk. */
  lemma BeforeFirst(ring: seq<nat>, data: seq<seq<int>>, size: nat, w: nat, wp: nat)
    requires Chunks(ring, data, size) && w < |ring| && wp <= size
    ensures w > 0 ==> Before(ring, data, size, w, wp) == data[ring[0]] + Before(ring[1..], data, size, w - 1, wp)
    ensures w == 0 ==> Before(ring, data, size, w, wp) == data[ring[0]][..wp]
  {
    if w > 0 {
      BytesFromFirst(ring[..w], data);
      assert ring[..w][1..] == ring[1..][..w - 1];
    } else {
      assert ring[..0] == [];
    }
  }

  lemma {:induction false} BytesOfPrefix(ring: seq<nat>, data: seq<seq<int>>, more: seq<seq<int>>)
    requires data <= more && forall i | 0 <= i < |ring| :: ring[i] < |data|
    ensures Bytes(ring, more) == Bytes(ring, data)
  {
    if ring != [] {
      BytesOfPrefix(ring[..|ring| - 1], data, more);
    }
  }

  /** More chunks, in the heap and at the end of the ring, do not matter. */
  lemma BeforeGrown(ring: seq<nat>, longer: seq<nat>, data: seq<seq<int>>, more: seq<seq<int>>, size: nat, w: nat, wp: nat)
    requires Chunks(ring, data, size) && Chunks(longer, more, size) && ring <= longer && data <= more
    requires w < |ring| && wp <= size
    ensures Before(longer, more, size, w, wp) == Before(ring, data, size, w, wp)
  {
    assert longer[..w] == ring[..w];
    BytesOfPrefix(ring[..w], data, more);
  }

  /** What is read from the first chunk is what comes first behind the read position. */
  lemma FrontOf(ring: seq<nat>, data: seq<seq<int>>, size: nat, w: nat, wp: nat, rp: nat, count: nat)
    requires Chunks(ring, data, size) && w < |ring| && wp <= size && rp + count <= size
    requires rp + count <= |Before(ring, data, size, w, wp)|
    ensures ring[0] < |data| && |data[ring[0]]| == size
    ensures var s := Before(ring, data, size, w, wp);
            s[rp..][..count] == data[ring[0]][rp..rp + count] && s[rp..][count..] == s[rp + count..]
  {
    BeforeFirst(ring, data, size, w, wp);
    var s, chunk := Before(ring, data, size, w, wp), data[ring[0]];
    hide Before, Bytes;
    var l, r := s[rp..][..count], chunk[rp..rp + count];
    forall k | 0 <= k < |l| ensures l[k] == r[k] {
      assert l[k] == s[rp + k] == chunk[rp + k];
    }
  }

  /** The ring read from its second chunk on has lost the bytes of the first. */
  lemma TurnedBytes(ring: seq<nat>, data: seq<seq<int>>, size: nat, w: nat, wp: nat)
    requires Chunks(ring, data, size) && 0 < w < |ring| && wp <= size
    ensures Chunks(ring[1..] + [ring[0]], data, size)
    ensures Before(ring, data, size, w, wp) == data[ring[0]] + Before(ring[1..] + [ring[0]], data, size, w - 1, wp)
    ensures |data[ring[0]]| == size
  {
    BeforeFirst(ring, data, size, w, wp);
    BeforeGrown(ring[1..], ring[1..] + [ring[0]], data, data, size, w - 1, wp);
  }

  lemma OneMore(n: int, size: int)
    ensures (n + 1) * size == n * size + size
  {
  }

  // ---------- links ----------

  /** The links after `insert_chunk_before` has put `c` before the first chunk, behind the last. */
  lemma LinkedBehind(ring: seq<nat>, next: seq<nat>, prev: seq<nat>, c: nat)
    requires Linked(ring, next, prev) && ring != [] && c < |next| && c !in ring
    ensures prev[ring[0]] == ring[|ring| - 1]
    ensures Linked(ring + [c], next[ring[|ring| - 1] := c][c := ring[0]], prev[c := ring[|ring| - 1]][ring[0] := c])
  {
    var n := |ring|;
    assert NextIndex(n - 1, n) == 0;
    var longer := ring + [c];
    var next', prev' := next[ring[n - 1] := c][c := ring[0]], prev[c := ring[n - 1]][ring[0] := c];
    forall i | 0 <= i < n + 1
      ensures next'[longer[i]] == longer[NextIndex(i, n + 1)] && prev'[longer[NextIndex(i, n + 1)]] == longer[i]
    {
      if i < n - 1 {
        assert NextIndex(i, n) == i + 1;
      }
    }
  }

  /** The ring may be read from its second chunk on. */
  lemma LinkedTurned(ring: seq<nat>, next: seq<nat>, prev: seq<nat>)
    requires Linked(ring, next, prev) && |ring| > 1
    ensures Linked(ring[1..] + [ring[0]], next, prev)
  {
    var n := |ring|;
    var turned := ring[1..] + [ring[0]];
    TurnedAt(ring);
    forall i | 0 <= i < n
      ensures next[turned[i]] == turned[NextIndex(i, n)] && prev[turned[NextIndex(i, n)]] == turned[i]
    {
      var k := NextIndex(i, n);
      assert next[ring[k]] == ring[NextIndex(k, n)] && prev[ring[NextIndex(k, n)]] == ring[k];
    }
  }

  /** The links after `free_buf_chunk` has taken the first chunk out. */
  lemma LinkedWithoutFirst(ring: seq<nat>, next: seq<nat>, prev: seq<nat>)
    requires Linked(ring, next, prev) && ring != []
    ensures next[ring[0]] < |next| && prev[ring[0]] < |next|
    ensures |ring| > 1 ==> next[ring[0]] == ring[1]
    ensures Linked(ring[1..], next[prev[ring[0]] := next[ring[0]]], prev[next[ring[0]] := prev[ring[0]]])
  {
    var n := |ring|;
    var rest := ring[1..];
    assert next[ring[0]] == ring[NextIndex(0, n)];
    assert NextIndex(n - 1, n) == 0 && prev[ring[0]] == ring[n - 1];
    var after, before := next[ring[n - 1] := ring[NextIndex(0, n)]], prev[ring[NextIndex(0, n)] := ring[n - 1]];
    forall i | 0 <= i < |rest|
      ensures after[rest[i]] == rest[NextIndex(i, |rest|)] && before[rest[NextIndex(i, |rest|)]] == rest[i]
    {
      assert next[ring[i + 1]] == ring[NextIndex(i + 1, n)] && prev[ring[NextIndex(i + 1, n)]] == ring[i + 1];
    }
  }

  lemma NotNegative(n: nat, size: nat)
    ensures n * size >= 0
  {
  }

  lemma FirstInside(ring: seq<nat>, next: seq<nat>, prev: seq<nat>)
    requires Linked(ring, next, prev) && ring != []
    ensures ring[0] < |next|
  {
  }

  lemma TotalIsZero(n: nat, size: nat)
    requires size > 0
    ensures n * size > 0 <==> n > 0
  {
    if n > 0 {
      OneMore(n - 1, size);
    }
  }

  lemma TurnedAt(ring: seq<nat>)
    requires |ring| > 1
    ensures var turned := ring[1..] + [ring[0]];
            && |turned| == |ring|
            && (forall i | 0 <= i < |ring| :: turned[i] == ring[NextIndex(i, |ring|)])
            && ((forall i, j | 0 <= i < j < |ring| :: ring[i] != ring[j])
                ==> forall i, j | 0 <= i < j < |ring| :: turned[i] != turned[j])
  {
  }

  lemma Singleton(c: nat, next: seq<nat>, prev: seq<nat>, data: seq<seq<int>>, size: nat)
    requires c < |next| == |prev| == |data| && Chunks([], data, size)
    ensures Linked([c], next[c := c], prev[c := c]) && Chunks([c], data, size)
    ensures Before([c], data, size, 0, 0) == []
  {
  }

  lemma LinkedMore(ring: seq<nat>, next: seq<nat>, prev: seq<nat>, c: nat)
    requires Linked(ring, next, prev)
    ensures Linked(ring, next + [c], prev + [c])
  {
  }

  // ---------- the buffer ----------

  /** How `copy_to_buffer` ends: done, for want of a chunk, or at the null chunk. */
  datatype Copied = AllCopied | NoChunk | NullChunk

  class Buffer {
    const chunkSize: nat
    /** The links and the data of all chunks that `malloc` has given; how many more it will give. */
    var next: seq<nat>
    var prev: seq<nat>
    var data: seq<seq<int>>
    var spare: nat
    /** The list of free chunks.  The source keeps it in their `next` links. */
    var free: seq<nat>
    var totalSize: nat
    var bytesInBuffer: nat
    var readChunk: Option<nat>
    var readPosition: nat
    var writeChunk: Option<nat>
    var writePosition: nat
    /** The ring from the read chunk on, and the place of the write chunk in it. */
    ghost var ring: seq<nat>
    ghost var w: nat

    ghost predicate Heap()
      reads this
    {
      && chunkSize > 0 && |next| == |data| && Linked(ring, next, prev) && Chunks(ring, data, chunkSize)
      && (forall i | 0 <= i < |free| :: free[i] < |data| && free[i] !in ring)
      && (forall i, j | 0 <= i < j < |free| :: free[i] != free[j])
      && totalSize == |ring| * chunkSize
    }

    /** `bytes_in_buffer` is the distance from the read to the write position along the ring. */
    ghost predicate Valid()
      reads this
    {
      && Heap() && readPosition <= chunkSize && writePosition <= chunkSize
      && (writeChunk.None? <==> ring == [])
      && (ring == [] ==> readChunk.None? && bytesInBuffer == 0 && readPosition == writePosition == w == 0)
      && (ring != [] ==>
            && w < |ring| && readChunk == Some(ring[0]) && writeChunk == Some(ring[w])
            && readPosition <= w * chunkSize + writePosition
            && bytesInBuffer == w * chunkSize + writePosition - readPosition)
    }

    /** The unread bytes: what is in the ring between the read and the write position. */
    ghost function Contents(): (s: seq<int>)
      requires Valid()
      reads this
      ensures |s| == bytesInBuffer
    {
      if ring == [] then []
      else
        BeforeLength(ring, data, chunkSize, w, writePosition);
        Before(ring, data, chunkSize, w, writePosition)[readPosition..]
    }

    /** How many bytes can be written from place `p` of chunk `v` on: what is left of the ring, and all chunks
        that are to be had. */
    ghost function RoomFrom(v: nat, p: nat): int
      reads this
    {
      (|ring| - v + |free| + spare) * chunkSize - p
    }

    ghost function Room(): int
      reads this
    {
      RoomFrom(w, writePosition)
    }

    constructor (size: nat, chunks: nat)
      requires size > 0
      ensures Valid() && Contents() == [] && chunkSize == size && spare == chunks && free == []
    {
      chunkSize := size;
      next, prev, data, spare, free := [], [], [], chunks, [];
      totalSize, bytesInBuffer := 0, 0;
      readChunk, readPosition, writeChunk, writePosition := None, 0, None, 0;
      ring, w := [], 0;
    }

    /** A chunk from the free list, else from `malloc`, which may fail. */
    method TakeChunk() returns (c: Option<nat>)
      requires Heap()
      modifies this`next, this`prev, this`data, this`spare, this`free
      ensures Heap() && old(data) <= data && |next| == |prev|
      ensures c.None? <==> old(free) == [] && old(spare) == 0
      ensures c.None? ==> data == old(data) && next == old(next) && prev == old(prev) && free == [] && spare == 0
      ensures c.Some? ==> c.value < |data| && c.value !in ring && c.value !in free
      ensures |free| + spare + (if c.Some? then 1 else 0) == |old(free)| + old(spare)
      ensures old(free) != [] ==> c == Some(old(free)[0]) && free == old(free)[1..] && spare == old(spare)
    {
      if free != [] {
        c := Some(free[0]);
        free := free[1..];
      } else if spare > 0 {
        spare := spare - 1;
        c := Some(|data|);
        LinkedMore(ring, next, prev, |data|);
        next, prev, data := next + [|data|], prev + [|data|], data + [seq(chunkSize, _ => 0)];
      } else {
        c := None;
      }
    }

    /** `insert_chunk_before`, for the read chunk: the new chunk comes last in the ring. */
    method InsertChunkBefore(rc: nat) returns (c: Option<nat>)
      requires Heap() && ring != [] && rc == ring[0]
      modifies this`next, this`prev, this`data, this`spare, this`free, this`totalSize, this`ring
      ensures Heap() && old(data) <= data
      ensures ring == if c.Some? then old(ring) + [c.value] else old(ring)
      ensures c.None? <==> old(free) == [] && old(spare) == 0
      ensures |ring| + |free| + spare == |old(ring)| + |old(free)| + old(spare)
      ensures old(free) != [] ==> c == Some(old(free)[0]) && spare == old(spare)
    {
      c := TakeChunk();
      if c.None? {
        return;
      }
      var newChunk := c.value;
      LinkedBehind(ring, next, prev, newChunk);
      hide Linked, NextIndex;
      next := next[prev[rc] := newChunk];
      prev := prev[newChunk := prev[rc]];
      prev := prev[rc := newChunk];
      next := next[newChunk := rc];
      totalSize := totalSize + chunkSize;
      ring := ring + [newChunk];
    }

    /** `free_buf_chunk`: the chunk is taken out of the ring and put first in the list of free chunks. */
    method FreeChunk(c: nat)
      requires Heap() && ring != [] && c == ring[0]
      modifies this`next, this`prev, this`free, this`totalSize, this`ring
      ensures Heap() && ring == old(ring)[1..] && free == [c] + old(free)
      ensures old(next)[c] < |next| && (ring != [] ==> ring[0] == old(next)[c])
    {
      LinkedWithoutFirst(ring, next, prev);
      hide Linked, NextIndex;
      OneMore(|ring| - 1, chunkSize);
      var before, after := prev[c], next[c];
      next := next[before := after];
      prev := prev[after := before];
      totalSize := totalSize - chunkSize;
      free := [c] + free;
      ring := ring[1..];
    }

    /** `release_buffer`: all chunks become free, for this buffer or another one to take, and nothing is left to read. */
    method ReleaseBuffer()
      requires Valid()
      modifies this
      ensures Valid() && Contents() == [] && writeChunk.None? && totalSize == 0 && spare == old(spare)
      ensures forall c :: c in free <==> c in old(free) || c in old(ring)
      ensures |free| == |old(free)| + |old(ring)|
    {
      hide Linked, Chunks, Before, Bytes;
      if readChunk.Some? {
        var current := readChunk.value;
        var going := true;
        while going
          invariant Heap() && spare == old(spare) && (ring != [] ==> current == ring[0])
          invariant going == (ring != []) && |free| + |ring| == |old(free)| + |old(ring)|
          invariant forall c :: c in free || c in ring <==> c in old(free) || c in old(ring)
          decreases |ring|
        {
          ghost var was := ring;
          var toRelease := current;
          FirstInside(ring, next, prev);
          current := next[toRelease];
          FreeChunk(toRelease);
          assert was == [toRelease] + ring;
          TotalIsZero(|ring|, chunkSize);
          going := totalSize > 0;
        }
      }
      readChunk, readPosition, writeChunk, writePosition := None, 0, None, 0;
      totalSize, bytesInBuffer := 0, 0;
      w := 0;
    }

    /** `init_buffer`: the first chunk of a ring, linked to itself. */
    method InitBuffer() returns (ok: bool)
      requires Valid()
      modifies this`next, this`prev, this`data, this`spare, this`free, this`totalSize, this`ring, this`readChunk, this`writeChunk
      ensures Valid() && Contents() == old(Contents())
      ensures ok <==> writeChunk.Some?
      ensures ok <==> old(writeChunk.Some? || free != [] || spare > 0)
      ensures Room() == old(Room())
    {
      hide Linked, Chunks, Before, Bytes;
      if writeChunk.Some? {
        return true;
      }
      var c := TakeChunk();
      if c.None? {
        return false;
      }
      Singleton(c.value, next, prev, data, chunkSize);
      prev := prev[c.value := c.value];
      next := next[c.value := c.value];
      totalSize := totalSize + chunkSize;
      readChunk, writeChunk := c, c;
      ring := [c.value];
      return true;
    }

    /** Between the write position and place `p` of chunk `v` stand the bytes of `added`, behind all
        that was in the ring up to the write position, `whole`. */
    ghost predicate Ahead(v: nat, p: nat, whole: seq<int>, added: seq<int>)
      reads this
    {
      && Valid() && w <= v < |ring| && p <= chunkSize && (v == w ==> writePosition <= p)
      && Before(ring, data, chunkSize, w, writePosition) == whole
      && Before(ring, data, chunkSize, v, p) == whole + added
    }

    /** The change to the next chunk: the following one, or a new one if that is being read from. */
    method NextWriteChunk(wc: nat, rc: nat, ghost v: nat, ghost whole: seq<int>, ghost added: seq<int>)
      returns (next_wc: Option<nat>)
      requires Ahead(v, chunkSize, whole, added) && rc == ring[0] && wc == ring[v]
      modifies this`next, this`prev, this`data, this`spare, this`free, this`totalSize, this`ring
      ensures next_wc.Some? ==> Ahead(v + 1, 0, whole, added) && next_wc.value == ring[v + 1]
      ensures next_wc.None? ==> Ahead(v, chunkSize, whole, added)
      ensures next_wc.None? <==> v + 1 == |old(ring)| && old(free) == [] && old(spare) == 0
      ensures next_wc.Some? ==> RoomFrom(v + 1, 0) == old(RoomFrom(v, chunkSize))
      ensures next_wc.None? ==> old(RoomFrom(v, chunkSize)) == 0
      ensures old(ring) <= ring
    {
      hide Linked, Chunks, Before;
      ghost var ring0, data0 := ring, data;
      NextInRing(ring, next, prev, v);
      OneMore(|ring| - v - 1 + |free| + spare, chunkSize);
      if next[wc] == rc {
        next_wc := InsertChunkBefore(rc);
        BeforeGrown(ring0, ring, data0, data, chunkSize, w, writePosition);
        BeforeGrown(ring0, ring, data0, data, chunkSize, v, chunkSize);
      } else {
        next_wc := Some(next[wc]);
      }
      if next_wc.Some? {
        BeforeNextChunk(ring, data, chunkSize, v);
      }
    }

    /** `memcpy` into the write chunk. */
    method CopyIn(wc: nat, wp: nat, bytes: seq<int>, ghost v: nat, ghost whole: seq<int>, ghost added: seq<int>)
      requires Ahead(v, wp, whole, added) && wc == ring[v] && wp + |bytes| <= chunkSize
      modifies this`data
      ensures Ahead(v, wp + |bytes|, whole, added + bytes)
      ensures RoomFrom(v, wp + |bytes|) == old(RoomFrom(v, wp)) - |bytes|
    {
      var chunk := data[wc][..wp] + bytes + data[wc][wp + |bytes|..];
      WriteAt(ring, data, chunkSize, v, wp, bytes);
      assert v == w ==> chunk[..writePosition] == data[wc][..writePosition];
      WriteBehind(ring, data, chunkSize, w, writePosition, v, chunk);
      data := data[wc := chunk];
      assert (whole + added) + bytes == whole + (added + bytes);
    }

    /** What is ahead of the write position is not yet in the buffer. */
    lemma AheadContents(v: nat, p: nat, whole: seq<int>, added: seq<int>)
      requires Ahead(v, p, whole, added)
      ensures Valid() && readPosition <= |whole| && Contents() == whole[readPosition..] && v < |ring|
      ensures readChunk == Some(ring[0]) && bytesInBuffer == |whole| - readPosition
      ensures 0 < chunkSize && p <= chunkSize
    {
      BeforeLength(ring, data, chunkSize, w, writePosition);
    }

    /** The end of `copy_to_buffer`: the write position moves to where the copying has come. */
    method Settle(bib: nat, wp: nat, wc: nat, ghost v: nat, ghost whole: seq<int>, ghost added: seq<int>)
      requires Ahead(v, wp, whole, added) && wc == ring[v] && bib == bytesInBuffer + |added|
      modifies this`bytesInBuffer, this`writePosition, this`writeChunk, this`w
      ensures Valid() && Contents() == old(Contents()) + added
    {
      AheadContents(v, wp, whole, added);
      BeforeLength(ring, data, chunkSize, w, writePosition);
      BeforeLength(ring, data, chunkSize, v, wp);
      bytesInBuffer, writePosition, writeChunk := bib, wp, Some(wc);
      w := v;
      assert (whole + added)[readPosition..] == whole[readPosition..] + added;
    }

    /** `copy_to_buffer`.  All bytes are appended if there is room for them, in the rest of the ring and in
        the chunks that are to be had; if not, nothing has been added.  The source calls `init_buffer`
        without looking at its answer: when not even a first chunk is to be had it writes to the null one,
        unless there is nothing to write. */
    method CopyToBuffer(bytes: seq<int>) returns (r: Copied)
      requires Valid()
      modifies this
      ensures Valid() && Contents() == if r.AllCopied? then old(Contents()) + bytes else old(Contents())
      ensures r.AllCopied? <==> |bytes| <= old(Room())
      ensures r.NullChunk? <==> bytes != [] && old(writeChunk.None? && free == [] && spare == 0)
    {
      NoRoom();
      var initialized := InitBuffer();
      if writeChunk.None? {
        assert Contents() + [] == Contents();
        return if bytes == [] then AllCopied else NullChunk;
      }
      var bib, wp, rc, wc := bytesInBuffer, writePosition, readChunk.value, writeChunk.value;
      ghost var whole := Before(ring, data, chunkSize, w, writePosition);
      var ok := CopyLoop(bytes, bib, wp, rc, wc, whole);
      r := if ok then AllCopied else NoChunk;
    }

    /** Without any chunk there is no room. */
    lemma NoRoom()
      requires Valid()
      ensures writeChunk.None? && free == [] && spare == 0 ==> Room() == 0
    {
    }

    /** The loop of `copy_to_buffer`, on copies of the fields. */
    method CopyLoop(bytes: seq<int>, bib0: nat, wp0: nat, rc: nat, wc0: nat, ghost whole: seq<int>) returns (ok: bool)
      requires Ahead(w, wp0, whole, []) && wp0 == writePosition && rc == ring[0] && wc0 == ring[w] && bib0 == bytesInBuffer
      modifies this
      ensures Valid() && Contents() == if ok then old(Contents()) + bytes else old(Contents())
      ensures ok <==> |bytes| <= old(Room())
    {
      hide Linked, Chunks, Before, Valid, Heap, Ahead, Contents, RoomFrom;
      var bib: nat, wp: nat, wc: nat, done: nat := bib0, wp0, wc0, 0;
      ghost var v: nat := w;
      AheadContents(v, wp, whole, []);
      assert bytes[..0] == [];
      RoomIsNatural(v, wp, whole, []);
      while done < |bytes|
        invariant done <= |bytes| && v < |ring| && 0 < chunkSize && wp <= chunkSize && Ahead(v, wp, whole, bytes[..done])
        invariant rc == ring[0] && wc == ring[v] && bib == bytesInBuffer + done
        invariant readPosition == old(readPosition) && bytesInBuffer == old(bytesInBuffer)
        invariant 0 <= RoomFrom(v, wp) == old(Room()) - done
        decreases |bytes| - done
      {
        if wp == chunkSize {
          var nextChunk := NextWriteChunk(wc, rc, v, whole, bytes[..done]);
          if nextChunk.None? {
            AheadContents(v, wp, whole, bytes[..done]);
            return false;
          }
          wc, wp, v := nextChunk.value, 0, v + 1;
        }
        var bytesToCopy := if chunkSize - wp > |bytes| - done then |bytes| - done else chunkSize - wp;
        CopyIn(wc, wp, bytes[done..done + bytesToCopy], v, whole, bytes[..done]);
        assert bytes[..done] + bytes[done..done + bytesToCopy] == bytes[..done + bytesToCopy];
        bib := bib + bytesToCopy;
        wp := wp + bytesToCopy;
        done := done + bytesToCopy;
        RoomIsNatural(v, wp, whole, bytes[..done]);
      }
      assert bytes[..done] == bytes;
      AheadContents(v, wp, whole, bytes);
      Settle(bib, wp, wc, v, whole, bytes);
      return true;
    }

    lemma RoomIsNatural(v: nat, p: nat, whole: seq<int>, added: seq<int>)
      requires Ahead(v, p, whole, added)
      ensures RoomFrom(v, p) >= 0
    {
      OneMore(|ring| - v - 1 + |free| + spare, chunkSize);
      NotNegative(|ring| - v - 1 + |free| + spare, chunkSize);
    }

    // ---------- reading ----------

    /** The change to the next read chunk: the ring is then read from there on. */
    method NextReadChunk(rc: nat) returns (c: nat)
      requires Valid() && bytesInBuffer > 0 && readPosition == chunkSize && rc == ring[0]
      modifies this`readChunk, this`readPosition, this`ring, this`w
      ensures Valid() && Contents() == old(Contents()) && ring != [] && c == ring[0] && readPosition == 0
      ensures bytesInBuffer == old(bytesInBuffer)
    {
      hide Linked, Chunks, Before, Bytes;
      BeforeLength(ring, data, chunkSize, w, writePosition);
      NextInRing(ring, next, prev, 0);
      LinkedTurned(ring, next, prev);
      TurnedBytes(ring, data, chunkSize, w, writePosition);
      OneMore(w - 1, chunkSize);
      ghost var turned := ring[1..] + [ring[0]];
      BeforeLength(turned, data, chunkSize, w - 1, writePosition);
      c := next[rc];
      readChunk, readPosition := Some(c), 0;
      ring, w := turned, w - 1;
    }

    /** `memcpy` out of the read chunk. */
    method CopyOut(rc: nat, count: nat) returns (bytes: seq<int>)
      requires Valid() && ring != [] && rc == ring[0] && readPosition + count <= chunkSize && count <= bytesInBuffer
      modifies this`readPosition, this`bytesInBuffer
      ensures Valid() && bytes == old(Contents())[..count] && Contents() == old(Contents())[count..]
      ensures readPosition == old(readPosition) + count && bytesInBuffer == old(bytesInBuffer) - count
    {
      hide Linked, Chunks, Before;
      BeforeLength(ring, data, chunkSize, w, writePosition);
      FrontOf(ring, data, chunkSize, w, writePosition, readPosition, count);
      bytes := data[rc][readPosition..readPosition + count];
      readPosition := readPosition + count;
      bytesInBuffer := bytesInBuffer - count;
    }

    /** `copy_from_buffer`, which presumes that there is enough in the buffer. */
    method CopyFromBuffer(numberOfBytes: nat) returns (bytes: seq<int>)
      requires Valid() && numberOfBytes <= bytesInBuffer
      modifies this
      ensures Valid() && bytes == old(Contents())[..numberOfBytes] && Contents() == old(Contents())[numberOfBytes..]
    {
      hide Valid, Contents;
      bytes := [];
      var left: nat := numberOfBytes;
      ReadBounds();
      if left == 0 {
        assert Contents()[0..] == Contents() && Contents()[..0] == [];
        return;
      }
      var rc := readChunk.value;
      while left > 0
        invariant left <= numberOfBytes && Valid() && left <= bytesInBuffer
        invariant ring != [] && rc == ring[0] && 0 < chunkSize && readPosition <= chunkSize
        invariant |bytes| == numberOfBytes - left && bytes + Contents() == old(Contents())
        decreases left
      {
        if readPosition == chunkSize {
          rc := NextReadChunk(rc);
        }
        var bytesToCopy := if chunkSize - readPosition > left then left else chunkSize - readPosition;
        ghost var contents := Contents();
        var more := CopyOut(rc, bytesToCopy);
        Joined(bytes, contents, bytesToCopy);
        bytes := bytes + more;
        left := left - bytesToCopy;
      }
      Parts(bytes, Contents());
    }

    lemma ReadBounds()
      requires Valid()
      ensures 0 < chunkSize && readPosition <= chunkSize
      ensures bytesInBuffer > 0 ==> ring != [] && readChunk == Some(ring[0])
    {
    }
  }

  lemma Joined(a: seq<int>, b: seq<int>, k: nat)
    requires k <= |b|
    ensures (a + b[..k]) + b[k..] == a + b
  {
  }

  lemma Parts(a: seq<int>, b: seq<int>)
    ensures (a + b)[..|a|] == a && (a + b)[|a|..] == b
  {
  }

  /** The link of a chunk leads to the read chunk just from the last one. */
  lemma NextInRing(ring: seq<nat>, next: seq<nat>, prev: seq<nat>, v: nat)
    requires Linked(ring, next, prev) && v < |ring|
    ensures ring[v] < |next| && (next[ring[v]] == ring[0] <==> v + 1 == |ring|)
    ensures v + 1 < |ring| ==> next[ring[v]] == ring[v + 1]
  {
  }
}
