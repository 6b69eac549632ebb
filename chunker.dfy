/**
 * The chunker of `file_to_images`: the list comprehension
 * `[data[i : i + chunk_size] for i in range(0, len(data), chunk_size)]`.
 */
module Chunker {
  import opened ByteStrings

  function Min(a: int, b: int): int { if a <= b then a else b }

  /** Python's `s[lo:hi]` for non-negative bounds: both ends are clipped to `len(s)`. */
  function Slice<T>(s: seq<T>, lo: nat, hi: nat): (r: seq<T>)
    ensures lo < |s| && lo < hi ==> |r| == Min(hi, |s|) - lo
    ensures lo >= |s| || hi <= lo ==> r == []
    ensures forall k :: 0 <= k < |r| ==> lo + k < |s| && r[k] == s[lo + k]
  {
    if lo >= |s| || hi <= lo then [] else s[lo..Min(hi, |s|)]
  }

  /**
   * The chunks whose start offsets are `range(i, len(data), c)`. Each one
   * holds at least one and at most `c` bytes.
   */
  function ChunksFrom(data: seq<Byte>, c: nat, i: nat): (r: seq<seq<Byte>>)
    requires c > 0
    ensures forall k :: 0 <= k < |r| ==> 0 < |r[k]| <= c
    decreases |data| - i
  {
    if i >= |data| then [] else [Slice(data, i, i + c)] + ChunksFrom(data, c, i + c)
  }

  /** The chunk list of `file_to_images` (ExfilQR.py line 28). */
  function Chunk(data: seq<Byte>, c: nat): (r: seq<seq<Byte>>)
    requires c > 0
    ensures forall k :: 0 <= k < |r| ==> 0 < |r[k]| <= c
    ensures r == [] <==> data == []
  {
    ChunksFrom(data, c, 0)
  }

  /** Ceiling division for a positive divisor. */
  function CeilDiv(n: nat, c: nat): nat
    requires c > 0
  {
    (n + c - 1) / c
  }

  /** Multiplying by a non-negative c keeps a strict gap of at least one c. */
  lemma MulStrict(a: int, b: int, c: nat)
    ensures a < b ==> a * c + c <= b * c
  {
    if a < b {
      var d := b - a - 1;
      assert d * c >= 0;
      assert b * c == a * c + d * c + c;
    }
  }

  /** Integer division is pinned down by the quotient's defining bounds. */
  lemma DivUnique(x: int, c: nat, q: int)
    requires c > 0
    requires q * c <= x < q * c + c
    ensures x / c == q
  {
    var q', m := x / c, x % c;
    assert x == q' * c + m && 0 <= m < c;
    MulStrict(q', q, c);
    MulStrict(q, q', c);
  }

  /** Adding one divisor raises the quotient by exactly one. */
  lemma DivStep(n: nat, c: nat)
    requires c > 0
    ensures (n + c) / c == n / c + 1
  {
    var q := n / c;
    assert q * c <= n < q * c + c;
    assert (q + 1) * c == q * c + c;
    DivUnique(n + c, c, q + 1);
  }

  /** One more factor of c adds c to the product. */
  lemma MulSucc(k: int, c: int)
    ensures (k + 1) * c == k * c + c
  {
  }

  /** ceil(n / c) blocks of c cover n, and one block fewer does not. */
  lemma CeilDivBound(n: nat, c: nat)
    requires c > 0
    ensures CeilDiv(n, c) * c >= n
    ensures n > 0 ==> (CeilDiv(n, c) - 1) * c < n
  {
    var x := n + c - 1;
    var q, m := x / c, x % c;
    assert x == q * c + m && 0 <= m < c;
    MulSucc(q - 1, c);
  }

  /** The chunk count from offset i is ceil((len(data) - i) / c), or zero past the end. */
  lemma {:induction false} ChunksFromCount(data: seq<Byte>, c: nat, i: nat)
    requires c > 0
    ensures |ChunksFrom(data, c, i)| == if i >= |data| then 0 else CeilDiv(|data| - i, c)
    decreases |data| - i
  {
    if i < |data| {
      ChunksFromCount(data, c, i + c);
      var n := |data| - i;
      if i + c >= |data| {
        DivUnique(n + c - 1, c, 1);
      } else {
        DivStep(n - 1, c);
        assert CeilDiv(n, c) == CeilDiv(n - c, c) + 1;
      }
    }
  }

  /** There are ceil(len(data) / c) chunks; none for empty input. */
  lemma ChunkCount(data: seq<Byte>, c: nat)
    requires c > 0
    ensures |Chunk(data, c)| == CeilDiv(|data|, c)
    ensures |data| == 0 ==> |Chunk(data, c)| == 0
  {
    ChunksFromCount(data, c, 0);
  }

  /** The k-th chunk from offset i is the byte range starting at i + k*c, clipped at the end. */
  lemma {:induction false} ChunksFromAt(data: seq<Byte>, c: nat, i: nat, k: nat)
    requires c > 0
    requires k < |ChunksFrom(data, c, i)|
    ensures i + k * c < |data|
    ensures ChunksFrom(data, c, i)[k] == data[i + k * c .. Min(i + (k + 1) * c, |data|)]
    decreases k
  {
    if k > 0 {
      ChunksFromAt(data, c, i + c, k - 1);
      MulSucc(k - 1, c);
      MulSucc(k, c);
    }
  }

  /** Chunk k is the byte range [k*c, min((k+1)*c, len(data))) of the input. */
  lemma ChunkAt(data: seq<Byte>, c: nat)
    requires c > 0
    ensures forall k :: 0 <= k < |Chunk(data, c)| ==>
              k * c < |data| && Chunk(data, c)[k] == data[k * c .. Min((k + 1) * c, |data|)]
  {
    forall k | 0 <= k < |Chunk(data, c)|
      ensures k * c < |data| && Chunk(data, c)[k] == data[k * c .. Min((k + 1) * c, |data|)]
    {
      ChunksFromAt(data, c, 0, k);
    }
  }

  /** Chunk k is the Python slice `data[k*c : (k+1)*c]`. */
  lemma ChunkSlices(data: seq<Byte>, c: nat)
    requires c > 0
    ensures forall k :: 0 <= k < |Chunk(data, c)| ==> Chunk(data, c)[k] == Slice(data, k * c, (k + 1) * c)
  {
    ChunkAt(data, c);
    forall k | 0 <= k < |Chunk(data, c)|
      ensures Chunk(data, c)[k] == Slice(data, k * c, (k + 1) * c)
    {
      MulSucc(k, c);
    }
  }

  /**
   * Every chunk but the last holds exactly `c` bytes; the last holds what is
   * left over, between 1 and `c` bytes.
   */
  lemma ChunkSizes(data: seq<Byte>, c: nat)
    requires c > 0
    ensures var r := Chunk(data, c);
            forall k :: 0 <= k < |r| - 1 ==> |r[k]| == c
    ensures var r := Chunk(data, c);
            r != [] ==> |r[|r| - 1]| == |data| - (|r| - 1) * c && 0 < |r[|r| - 1]| <= c
  {
    forall k | 0 <= k < |Chunk(data, c)| - 1
      ensures |Chunk(data, c)[k]| == c
    {
      FullChunk(data, c, k);
    }
    if Chunk(data, c) != [] {
      LastChunk(data, c);
    }
  }

  /** A chunk that has a successor holds exactly c bytes. */
  lemma FullChunk(data: seq<Byte>, c: nat, k: nat)
    requires c > 0
    requires k + 1 < |Chunk(data, c)|
    ensures |Chunk(data, c)[k]| == c
  {
    ChunksFromAt(data, c, 0, k);
    ChunksFromAt(data, c, 0, k + 1);
    MulSucc(k, c);
  }

  /** The last chunk holds the bytes after the (n-1) full chunks. */
  lemma LastChunk(data: seq<Byte>, c: nat)
    requires c > 0
    requires Chunk(data, c) != []
    ensures var r := Chunk(data, c);
            |r[|r| - 1]| == |data| - (|r| - 1) * c
  {
    var last := |Chunk(data, c)| - 1;
    ChunksFromAt(data, c, 0, last);
    ChunkCount(data, c);
    CeilDivBound(|data|, c);
    assert (last + 1) * c >= |data|;
  }

  /** Joining the chunks from offset i gives the input from i on. */
  lemma {:induction false} ConcatChunksFrom(data: seq<Byte>, c: nat, i: nat)
    requires c > 0
    requires i <= |data|
    ensures Concat(ChunksFrom(data, c, i)) == data[i..]
    decreases |data| - i
  {
    if i < |data| {
      var rest := ChunksFrom(data, c, i + c);
      assert ChunksFrom(data, c, i) == [Slice(data, i, i + c)] + rest;
      assert Concat(ChunksFrom(data, c, i)) == Slice(data, i, i + c) + Concat(rest);
      if i + c >= |data| {
        assert rest == [];
        assert Slice(data, i, i + c) == data[i..];
      } else {
        ConcatChunksFrom(data, c, i + c);
        assert Slice(data, i, i + c) == data[i..i + c];
        assert data[i..] == data[i..i + c] + data[i + c..];
      }
    }
  }

  /** Joining the chunks in order gives back the input exactly. */
  lemma ChunkConcat(data: seq<Byte>, c: nat)
    requires c > 0
    ensures Concat(Chunk(data, c)) == data
  {
    ConcatChunksFrom(data, c, 0);
    assert data[0..] == data;
  }

  /** Any cut of data[i..] with the chunker's sizes is the chunk list from offset i. */
  lemma {:induction false} ChunksFromUnique(data: seq<Byte>, c: nat, i: nat, parts: seq<seq<Byte>>)
    requires c > 0
    requires i <= |data|
    requires Concat(parts) == data[i..]
    requires forall k :: 0 <= k < |parts| ==> 0 < |parts[k]| <= c
    requires forall k :: 0 <= k < |parts| - 1 ==> |parts[k]| == c
    ensures parts == ChunksFrom(data, c, i)
    decreases |parts|
  {
    if parts == [] {
      assert data[i..] == [];
    } else {
      assert Concat(parts) == parts[0] + Concat(parts[1..]);
      if |parts| == 1 {
        assert parts[1..] == [];
        assert parts[0] == data[i..];
        assert i + c >= |data|;
        assert Slice(data, i, i + c) == data[i..];
        assert parts == [Slice(data, i, i + c)];
      } else {
        assert Concat(parts[1..]) != [] by {
          assert parts[1..] == [parts[1]] + parts[2..];
          assert Concat(parts[1..]) == parts[1] + Concat(parts[2..]);
        }
        assert |parts[0]| == c;
        assert i + c < |data|;
        assert parts[0] == data[i..i + c] by {
          assert data[i..][..c] == data[i..i + c];
        }
        assert Concat(parts[1..]) == data[i + c..] by {
          assert data[i..][c..] == data[i + c..];
        }
        ChunksFromUnique(data, c, i + c, parts[1..]);
        assert Slice(data, i, i + c) == data[i..i + c];
        assert parts == [parts[0]] + parts[1..];
      }
    }
  }

  /**
   * The chunk list is the only way to cut the input into pieces of `c` bytes
   * followed by one non-empty piece of at most `c` bytes.
   */
  lemma ChunkUnique(data: seq<Byte>, c: nat, parts: seq<seq<Byte>>)
    requires c > 0
    requires Concat(parts) == data
    requires forall k :: 0 <= k < |parts| ==> 0 < |parts[k]| <= c
    requires forall k :: 0 <= k < |parts| - 1 ==> |parts[k]| == c
    ensures parts == Chunk(data, c)
  {
    assert data[0..] == data;
    ChunksFromUnique(data, c, 0, parts);
  }

  /** A 2500-byte file in 1024-byte chunks gives chunks of 1024, 1024 and 452 bytes. */
  lemma DefaultChunkSizeExample(data: seq<Byte>)
    requires |data| == 2500
    ensures var r := Chunk(data, 1024);
            |r| == 3 && |r[0]| == 1024 && |r[1]| == 1024 && |r[2]| == 452
  {
    ChunkCount(data, 1024);
    ChunkSizes(data, 1024);
  }
}
