/**
 * Batching shared by the index rebuild (a `for i in range(0, n, k)` loop over
 * `values[i:i+k]`) and by the WAL clean-up (id lists cut into chunks of 100).
 */
module Chunking {

  function Min(a: nat, b: nat): nat { if a <= b then a else b }

  /** The consecutive slices `s[i..i+k]`, `i = 0, k, 2k, ...`, the last one possibly shorter. */
  function Chunks<T>(s: seq<T>, k: nat): seq<seq<T>>
    requires k > 0
    decreases |s|
  {
    if |s| == 0 then [] else [s[..Min(k, |s|)]] + Chunks(s[Min(k, |s|)..], k)
  }

  function Flatten<T>(ss: seq<seq<T>>): seq<T>
  {
    if ss == [] then [] else ss[0] + Flatten(ss[1..])
  }

  lemma FlattenAppend<T>(a: seq<seq<T>>, b: seq<seq<T>>)
    ensures Flatten(a + b) == Flatten(a) + Flatten(b)
  {
    if a == [] {
      assert a + b == b;
    } else {
      assert (a + b)[1..] == a[1..] + b;
      FlattenAppend(a[1..], b);
    }
  }

  /** Concatenating the chunks gives back the whole sequence: nothing is lost or repeated. */
  lemma {:induction false} ChunksCover<T>(s: seq<T>, k: nat)
    requires k > 0
    ensures Flatten(Chunks(s, k)) == s
  {
    if |s| > 0 {
      var n := Min(k, |s|);
      ChunksCover(s[n..], k);
      assert s[..n] + s[n..] == s;
    }
  }

  /** Every chunk is non-empty and holds at most `k` elements. */
  lemma {:induction false} ChunksBounded<T>(s: seq<T>, k: nat)
    requires k > 0
    ensures forall c | c in Chunks(s, k) :: 0 < |c| <= k
  {
    if |s| > 0 {
      ChunksBounded(s[Min(k, |s|)..], k);
    }
  }

  lemma MulStep(j: nat, k: nat)
    ensures j * k + k == (j + 1) * k
  {
  }

  /** Chunk `j` is exactly the slice `s[j*k .. min((j+1)*k, |s|)]`, as the source's range loop takes it. */
  lemma {:induction false} ChunkAt<T>(s: seq<T>, k: nat, j: nat)
    requires k > 0 && j < |Chunks(s, k)|
    ensures j * k < |s|
    ensures Chunks(s, k)[j] == s[j * k .. Min((j + 1) * k, |s|)]
    decreases |s|
  {
    if j > 0 {
      var rest := s[Min(k, |s|)..];
      assert |s| > k && Chunks(s, k)[j] == Chunks(rest, k)[j - 1] by {
        assert Chunks(s, k) == [s[..Min(k, |s|)]] + Chunks(rest, k);
      }
      ChunkAt(rest, k, j - 1);
      ShiftBounds(|s|, k, j);
      SliceShift(s, k, (j - 1) * k, Min(j * k, |rest|));
    }
  }

  /** The bounds of chunk `j - 1` of `s[k..]`, shifted by `k`, are those of chunk `j` of `s`. */
  lemma ShiftBounds(n: nat, k: nat, j: nat)
    requires 0 < k < n && 0 < j && (j - 1) * k < n - k
    ensures j * k < n
    ensures (j - 1) * k + k == j * k
    ensures Min(j * k, n - k) + k == Min((j + 1) * k, n)
  {
    MulStep(j - 1, k);
    MulStep(j, k);
  }

  lemma SliceShift<T>(s: seq<T>, n: nat, a: nat, b: nat)
    requires n <= |s| && a <= b <= |s| - n
    ensures s[n..][a..b] == s[a + n..b + n]
  {
  }

  /** The chunks of `s[i..]` start with the slice a `range` step at `i` takes. */
  lemma ChunksStep<T>(s: seq<T>, i: nat, j: nat, k: nat)
    requires k > 0 && i < |s| && j == Min(i + k, |s|)
    ensures Chunks(s[i..], k) == [s[i..j]] + Chunks(s[j..], k)
  {
    var t := s[i..];
    assert Min(k, |t|) == j - i;
    assert t[..j - i] == s[i..j];
    assert t[j - i..] == s[j..];
  }
}
