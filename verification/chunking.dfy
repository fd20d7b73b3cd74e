/**
 * The pieces a stream is cut into when it is read `size` bytes at a time
 * until a read comes back empty, and the laws those pieces obey.
 */
module Chunking {
  type Byte = bv8

  function Min(a: int, b: int): int {
    if a < b then a else b
  }

  /**
   * The successive non-empty results of `read(size)` on a stream holding
   * `data`: each read takes `size` bytes, or whatever is left.
   */
  function Chunks(data: seq<Byte>, size: nat): seq<seq<Byte>>
    requires size > 0
    decreases |data|
  {
    if |data| == 0 then []
    else
      var n := Min(size, |data|);
      [data[..n]] + Chunks(data[n..], size)
  }

  /** The largest `Py_ssize_t` of a 64-bit platform, the largest size `read` accepts. */
  const SsizeMax: int := 0x7FFF_FFFF_FFFF_FFFF

  /**
   * Whether `read(n)` on a file opened with `open(path, 'rb')` raises
   * instead of reading: `ValueError` for a size below -1, `OverflowError`
   * for one that does not fit in a `Py_ssize_t`.
   */
  predicate ReadRejects(n: int) {
    n < -1 || n > SsizeMax
  }

  /**
   * How many bytes an accepted `read(n)` returns when `available` are left:
   * `n` of them when that many are left, otherwise all of them, and all of
   * them for `n == -1`.
   */
  function ReadLen(n: int, available: nat): (k: nat)
    requires !ReadRejects(n)
    ensures k <= available
    ensures 0 <= n <= available ==> k == n
    ensures n == -1 || n >= available ==> k == available
  {
    if n == -1 then available else Min(n, available)
  }

  /**
   * The successive non-empty results of `read(size)` for any integer size:
   * `-1` reads everything at once, a zero size returns nothing at all, so
   * reading stops at once, and a size `read` rejects reads no chunk.
   */
  function ReadChunks(data: seq<Byte>, size: int): seq<seq<Byte>> {
    if ReadRejects(size) then []
    else if size > 0 then Chunks(data, size)
    else if size == -1 && data != [] then [data]
    else []
  }

  /** The chunks written back to back. */
  function Flatten(chunks: seq<seq<Byte>>): seq<Byte> {
    if chunks == [] then [] else chunks[0] + Flatten(chunks[1..])
  }

  /** Concatenating the chunks in order gives back the stream's content. */
  lemma {:induction false} ChunksRoundTrip(data: seq<Byte>, size: nat)
    requires size > 0
    ensures Flatten(Chunks(data, size)) == data
    decreases |data|
  {
    if |data| > 0 {
      var n := Min(size, |data|);
      ChunksRoundTrip(data[n..], size);
      assert data[..n] + data[n..] == data;
    }
  }

  /**
   * Reading with any non-zero size `read` accepts gives back the whole
   * content; a zero size, or one `read` rejects, yields no chunk at all.
   */
  lemma ReadChunksRoundTrip(data: seq<Byte>, size: int)
    ensures size != 0 && !ReadRejects(size) ==> Flatten(ReadChunks(data, size)) == data
    ensures size == 0 || ReadRejects(size) ==> ReadChunks(data, size) == []
  {
    if ReadRejects(size) {
    } else if size > 0 {
      ChunksRoundTrip(data, size);
    } else if size == -1 && data != [] {
      assert Flatten([data]) == data + Flatten([]);
    }
  }

  /** No read in the loop returns an empty chunk. */
  lemma ReadChunksNonEmpty(data: seq<Byte>, size: int)
    ensures forall i :: 0 <= i < |ReadChunks(data, size)| ==> |ReadChunks(data, size)[i]| > 0
  {
    if size > 0 && !ReadRejects(size) {
      ChunksBounded(data, size);
    }
  }

  /** Euclidean division is determined by quotient and remainder. */
  lemma DivMod(l: int, size: int, q: int, m: int)
    requires size > 0 && 0 <= m < size && l == q * size + m
    ensures l / size == q && l % size == m
  {
    var q', m' := l / size, l % size;
    assert l == q' * size + m';
    assert (q' - q) * size == m - m' by {
      assert q' * size - q * size == (q' - q) * size;
    }
    MulSign(q' - q, size);
  }

  lemma MulSign(a: int, size: int)
    requires size > 0
    ensures a >= 1 ==> a * size >= size
    ensures a <= -1 ==> a * size <= -size
  {
  }

  /** There are ceil(L / size) chunks: none for an empty stream. */
  lemma {:induction false} ChunkCount(data: seq<Byte>, size: nat)
    requires size > 0
    ensures |Chunks(data, size)| == (|data| + size - 1) / size
    decreases |data|
  {
    if |data| > 0 {
      var n := Min(size, |data|);
      ChunkCount(data[n..], size);
      assert |Chunks(data, size)| == 1 + |Chunks(data[n..], size)|;
      CeilDivStep(|data|, size);
    }
  }

  /** Taking `min(size, L)` units off a positive `L` takes one off `ceil(L / size)`. */
  lemma CeilDivStep(l: int, size: int)
    requires size > 0 && l > 0
    ensures (l + size - 1) / size == 1 + (l - Min(size, l) + size - 1) / size
  {
    if l >= size {
      var q, m := (l - 1) / size, (l - 1) % size;
      assert l - 1 == q * size + m;
      assert (q + 1) * size == q * size + size;
      DivMod(l + size - 1, size, q + 1, m);
    } else {
      DivMod(l + size - 1, size, 1, l - 1);
      DivMod(size - 1, size, 0, size - 1);
    }
  }

  /** Every chunk is non-empty and at most `size` bytes. */
  lemma {:induction false} ChunksBounded(data: seq<Byte>, size: nat)
    requires size > 0
    ensures forall i :: 0 <= i < |Chunks(data, size)| ==> 0 < |Chunks(data, size)[i]| <= size
    decreases |data|
  {
    if |data| > 0 {
      var n := Min(size, |data|);
      ChunksBounded(data[n..], size);
      var cs := Chunks(data, size);
      forall i | 0 <= i < |cs| ensures 0 < |cs[i]| <= size {
        if i > 0 {
          assert cs[i] == Chunks(data[n..], size)[i - 1];
        }
      }
    }
  }

  /** Every chunk but the last holds exactly `size` bytes. */
  lemma {:induction false} ChunksFull(data: seq<Byte>, size: nat)
    requires size > 0
    ensures forall i :: 0 <= i < |Chunks(data, size)| - 1 ==> |Chunks(data, size)[i]| == size
    decreases |data|
  {
    if |data| > 0 {
      var n := Min(size, |data|);
      ChunksFull(data[n..], size);
      var cs := Chunks(data, size);
      forall i | 0 <= i < |cs| - 1 ensures |cs[i]| == size {
        if i > 0 {
          assert cs[i] == Chunks(data[n..], size)[i - 1];
        } else {
          assert |data[n..]| > 0;
        }
      }
    }
  }

  /** The last chunk holds `L mod size` bytes, or `size` bytes when that is zero. */
  lemma {:induction false} LastChunk(data: seq<Byte>, size: nat)
    requires size > 0 && |data| > 0
    ensures |Chunks(data, size)| > 0
    ensures var cs := Chunks(data, size);
      |cs[|cs| - 1]| == if |data| % size == 0 then size else |data| % size
    decreases |data|
  {
    var n := Min(size, |data|);
    var rest := data[n..];
    var cs := Chunks(data, size);
    if |data| > size {
      LastChunk(rest, size);
      var q := (|data| - size) / size;
      DivMod(|data|, size, q + 1, (|data| - size) % size);
      assert cs[|cs| - 1] == Chunks(rest, size)[|Chunks(rest, size)| - 1];
    } else if |data| == size {
      DivMod(|data|, size, 1, 0);
      assert Chunks(rest, size) == [];
    } else {
      DivMod(|data|, size, 0, |data|);
      assert Chunks(rest, size) == [];
    }
  }

  /** Chunk `i` (0-based) is the byte range `[i * size, min((i + 1) * size, L))`. */
  lemma {:induction false} ChunkAt(data: seq<Byte>, size: nat, i: nat)
    requires size > 0
    requires i < |Chunks(data, size)|
    ensures i * size < |data|
    ensures Chunks(data, size)[i] == data[i * size .. Min((i + 1) * size, |data|)]
    decreases i
  {
    if i > 0 {
      var rest := data[Min(size, |data|)..];
      ChunkAt(rest, size, i - 1);
      assert Chunks(data, size)[i] == Chunks(rest, size)[i - 1];
      ChunkAtStep(data, size, i, Chunks(rest, size)[i - 1]);
    }
  }

  /**
   * Chunk `i - 1` of the stream after the first full chunk, as a byte
   * range of that rest, is chunk `i` as a byte range of the whole stream.
   */
  lemma ChunkAtStep(data: seq<Byte>, size: nat, i: nat, c: seq<Byte>)
    requires 0 < size <= |data| && i > 0
    requires (i - 1) * size < |data[size..]|
    requires c == data[size..][(i - 1) * size .. Min(i * size, |data[size..]|)]
    ensures i * size < |data|
    ensures c == data[i * size .. Min((i + 1) * size, |data|)]
  {
    var lo := (i - 1) * size;
    assert lo + size == i * size && i * size + size == (i + 1) * size by { MulStep(i, size); }
    ShiftedChunk(data, size, lo, c);
  }

  lemma MulStep(i: nat, size: nat)
    requires i > 0
    ensures (i - 1) * size + size == i * size && i * size + size == (i + 1) * size
  {
  }

  /** A chunk-sized window of the stream after its first chunk is the window `size` bytes further on. */
  lemma ShiftedChunk(data: seq<Byte>, size: nat, lo: nat, c: seq<Byte>)
    requires size <= |data| && lo < |data| - size
    requires c == data[size..][lo .. Min(lo + size, |data| - size)]
    ensures c == data[size + lo .. Min(size + lo + size, |data|)]
  {
  }

  /** A stream whose length is a multiple of `size` yields L / size full chunks. */
  lemma ExactMultiple(data: seq<Byte>, size: nat)
    requires size > 0 && |data| % size == 0
    ensures |Chunks(data, size)| == |data| / size
    ensures forall i :: 0 <= i < |Chunks(data, size)| ==> |Chunks(data, size)[i]| == size
  {
    ChunkCount(data, size);
    ChunksFull(data, size);
    if |data| > 0 {
      LastChunk(data, size);
    }
    var q := |data| / size;
    assert |data| + size - 1 == q * size + (size - 1);
    DivMod(|data| + size - 1, size, q, size - 1);
  }
}
