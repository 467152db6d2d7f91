/**
 * The positional chunker of document_utils.py: the comprehensions
 * `[t[i:i + k] for i in range(0, len(t), k)]` with k = 200 in pass 1 and
 * k = 16000 in pass 2. Slices are cut at character offsets 0, k, 2k, ...,
 * with no regard for word or sentence boundaries.
 */
module Chunker {

  /** `''.join(parts)`: the parts laid end to end. */
  function Concat(parts: seq<string>): string {
    if parts == [] then "" else parts[0] + Concat(parts[1..])
  }

  function Min(a: int, b: int): int {
    if a <= b then a else b
  }

  /** The slices of `s` at offsets 0, k, 2k, ... */
  function Chunk(s: string, k: nat): seq<string>
    requires k > 0
    decreases |s|
  {
    if |s| <= k then (if s == "" then [] else [s])
    else [s[..k]] + Chunk(s[k..], k)
  }

  /** No chunk is empty, none is longer than k and all but the last are
      exactly k long. */
  lemma {:induction false} ChunkSizes(s: string, k: nat)
    requires k > 0
    ensures forall i :: 0 <= i < |Chunk(s, k)| ==> 0 < |Chunk(s, k)[i]| <= k
    ensures forall i :: 0 <= i < |Chunk(s, k)| - 1 ==> |Chunk(s, k)[i]| == k
    decreases |s|
  {
    if |s| > k {
      var t := s[k..];
      ChunkSizes(t, k);
      assert Chunk(s, k) == [s[..k]] + Chunk(t, k);
    }
  }

  /** Laid end to end in order, the chunks give back the text: no character
      is lost, repeated or moved. */
  lemma {:induction false} ChunkRoundTrip(s: string, k: nat)
    requires k > 0
    ensures Concat(Chunk(s, k)) == s
    decreases |s|
  {
    if |s| > k {
      var t := s[k..];
      ChunkRoundTrip(t, k);
      assert Chunk(s, k) == [s[..k]] + Chunk(t, k);
      assert s == s[..k] + t;
    }
  }

  lemma MulSucc(m: nat, k: nat)
    ensures (m + 1) * k == m * k + k
  {
  }

  /** There are ceil(|s| / k) chunks, one per offset in `range(0, len(s), k)`:
      n chunks of at most k characters cover |s|, and n - 1 do not. */
  lemma {:induction false} ChunkCount(s: string, k: nat)
    requires k > 0
    ensures |s| <= |Chunk(s, k)| * k
    ensures |Chunk(s, k)| == 0 || (|Chunk(s, k)| - 1) * k < |s|
  {
    if |s| <= k {
      MulSucc(0, k);
    } else {
      var m := |Chunk(s[k..], k)|;
      ChunkCount(s[k..], k);
      assert m >= 1;
      MulSucc(m, k);
      MulSucc(m - 1, k);
    }
  }

  /** The offset i*k of the i-th chunk, as the sum of i steps of k. */
  function Offset(i: nat, k: nat): nat {
    if i == 0 then 0 else Offset(i - 1, k) + k
  }

  lemma {:induction false} OffsetIsProduct(i: nat, k: nat)
    ensures Offset(i, k) == i * k
  {
    if i > 0 {
      OffsetIsProduct(i - 1, k);
      MulSucc(i - 1, k);
    }
  }

  lemma SliceOfSuffix(s: string, k: nat, j: nat, m: nat)
    requires k <= |s| && j <= m <= |s| - k
    ensures s[k..][j..m] == s[k + j..k + m]
  {
    assert forall x :: 0 <= x < m - j ==> s[k..][j..m][x] == s[k + j..k + m][x];
  }

  /** Chunk i is the slice `s[i*k : i*k + k]`, exactly what the comprehension
      builds for the offset i*k. */
  lemma {:induction false} ChunkAt(s: string, k: nat, i: nat)
    requires k > 0 && i < |Chunk(s, k)|
    ensures Offset(i, k) < |s|
    ensures Chunk(s, k)[i] == s[Offset(i, k)..Min(Offset(i, k) + k, |s|)]
  {
    if i > 0 {
      var t := s[k..];
      assert |s| > k;
      assert Chunk(s, k) == [s[..k]] + Chunk(t, k);
      ChunkAt(t, k, i - 1);
      var j := Offset(i - 1, k);
      var m := Min(j + k, |t|);
      assert Min(j + k + k, |s|) == m + k;
      SliceOfSuffix(s, k, j, m);
    }
  }
}
