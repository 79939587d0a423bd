/**
 * The hnswlib index as the rebuild uses it: an object holding a label ->
 * vector map (with its labels in insertion order) and the construction
 * parameters, filled with `add_items` and flushed with `persist_dirty`.
 */
module HnswIndex {
  import opened Wrappers
  import opened Storage

  /** The map after storing `items[i]` under `labels[i]`, in order; a repeated label keeps its last vector. */
  function Assign(m: map<int, Vector>, labels: seq<int>, items: seq<Vector>): (r: map<int, Vector>)
    requires |labels| == |items|
    ensures forall l :: l in r <==> l in m || l in labels
  {
    if labels == [] then m
    else Assign(m, labels[..|labels| - 1], items[..|items| - 1])[labels[|labels| - 1] := items[|items| - 1]]
  }

  lemma {:induction false} AssignAppend(m: map<int, Vector>, a: seq<int>, x: seq<Vector>, b: seq<int>, y: seq<Vector>)
    requires |a| == |x| && |b| == |y|
    ensures Assign(m, a + b, x + y) == Assign(Assign(m, a, x), b, y)
  {
    if b == [] {
      assert a + b == a && x + y == x;
    } else {
      var b', y' := b[..|b| - 1], y[..|y| - 1];
      assert (a + b)[..|a + b| - 1] == a + b';
      assert (x + y)[..|x + y| - 1] == x + y';
      AssignAppend(m, a, x, b', y');
    }
  }

  /** The vectors `get_items` returns for `labels`, all of which `src` holds. */
  function Fetch(src: map<int, Vector>, labels: seq<int>): (r: seq<Vector>)
    requires forall i | 0 <= i < |labels| :: labels[i] in src
    ensures |r| == |labels| && forall i | 0 <= i < |labels| :: r[i] == src[labels[i]]
  {
    seq(|labels|, i requires 0 <= i < |labels| => src[labels[i]])
  }

  lemma FetchAppend(src: map<int, Vector>, a: seq<int>, b: seq<int>)
    requires forall i | 0 <= i < |a| :: a[i] in src
    requires forall i | 0 <= i < |b| :: b[i] in src
    ensures forall i | 0 <= i < |a + b| :: (a + b)[i] in src
    ensures Fetch(src, a + b) == Fetch(src, a) + Fetch(src, b)
  {
    assert forall i | 0 <= i < |a + b| :: (a + b)[i] in src by {
      forall i | 0 <= i < |a + b|
        ensures (a + b)[i] in src
      {
        if i >= |a| {
          assert (a + b)[i] == b[i - |a|];
        }
      }
    }
  }

  /**
   * Storing the source's own vectors under `labels` leaves every one of them
   * mapped to its source vector, and nothing else changes.
   */
  lemma {:induction false} AssignFetched(m: map<int, Vector>, src: map<int, Vector>, labels: seq<int>)
    requires forall i | 0 <= i < |labels| :: labels[i] in src
    ensures forall l | l in labels :: Assign(m, labels, Fetch(src, labels))[l] == src[l]
    ensures forall l | l in m && l !in labels :: Assign(m, labels, Fetch(src, labels))[l] == m[l]
  {
    if labels != [] {
      var init := labels[..|labels| - 1];
      assert Fetch(src, labels)[..|labels| - 1] == Fetch(src, init);
      AssignFetched(m, src, init);
      assert labels == init + [labels[|labels| - 1]];
    }
  }

  /** The labels of `labels` not in `seen`, first occurrences only, in order. */
  function NewLabels(seen: seq<int>, labels: seq<int>): (r: seq<int>)
    decreases |labels|
  {
    if labels == [] then []
    else
      var init := NewLabels(seen, labels[..|labels| - 1]);
      var l := labels[|labels| - 1];
      if l in seen || l in init then init else init + [l]
  }

  lemma {:induction false} NewLabelsSpec(seen: seq<int>, labels: seq<int>)
    ensures Distinct(NewLabels(seen, labels))
    ensures forall l :: l in NewLabels(seen, labels) <==> l in labels && l !in seen
  {
    if labels != [] {
      var init := labels[..|labels| - 1];
      NewLabelsSpec(seen, init);
      assert labels == init + [labels[|labels| - 1]];
    }
  }

  /** One `add_items` step keeps the label list duplicate-free and in step with the map. */
  lemma AddStep(ids0: seq<int>, vectors0: map<int, Vector>, labels: seq<int>, items: seq<Vector>, k: nat,
                ids: seq<int>, vectors: map<int, Vector>)
    requires |items| == |labels| && k < |labels|
    requires Distinct(ids) && forall l :: l in ids <==> l in vectors
    requires forall l :: l in ids0 <==> l in vectors0
    requires vectors == Assign(vectors0, labels[..k], items[..k])
    requires ids == ids0 + NewLabels(ids0, labels[..k])
    ensures var l := labels[k];
      var ids' := if l !in vectors then ids + [l] else ids;
      var vectors' := vectors[l := items[k]];
      && Distinct(ids') && (forall x :: x in ids' <==> x in vectors')
      && vectors' == Assign(vectors0, labels[..k + 1], items[..k + 1])
      && ids' == ids0 + NewLabels(ids0, labels[..k + 1])
  {
    var l, seen := labels[k], NewLabels(ids0, labels[..k]);
    assert labels[..k + 1][..k] == labels[..k] && items[..k + 1][..k] == items[..k];
    assert NewLabels(ids0, labels[..k + 1]) == if l in ids0 || l in seen then seen else seen + [l];
    assert l in ids <==> l in ids0 || l in seen;
    if l !in vectors {
      assert (ids0 + seen) + [l] == ids0 + (seen + [l]);
    }
  }

  /**
   * An hnswlib `Index` opened for writing. `persisted` is what `persist_dirty`
   * last wrote to the persistence location, None before the first flush.
   */
  class TargetIndex {
    const space: string
    const dim: int
    const journal: Journal
    var maxElements: int
    var efConstruction: int
    var m: int
    var numThreads: int
    var ef: int
    var ids: seq<int>
    var vectors: map<int, Vector>
    var dirty: bool
    var persisted: Option<IndexData>

    /** `ids` lists each stored label once. */
    ghost predicate Valid()
      reads this
    {
      Distinct(ids) && forall l :: l in ids <==> l in vectors
    }

    /** What the index looks like once reloaded from disk: every position is live. */
    function Snapshot(): (r: IndexData)
      reads this
      ensures r.ids == ids && r.vectors == vectors && r.elementCount == |ids|
    {
      IndexData(ids, vectors, |ids|)
    }

    /** `hnswlib.Index(space, dim)`. */
    constructor (space: string, dim: int, journal: Journal)
      ensures this.space == space && this.dim == dim && this.journal == journal
      ensures ids == [] && vectors == map[] && !dirty && persisted == None && Valid()
    {
      this.space := space;
      this.dim := dim;
      this.journal := journal;
      maxElements, efConstruction, m, numThreads, ef := 0, 200, 16, 1, 10;
      ids, vectors, dirty, persisted := [], map[], false, None;
    }

    /** `init_index(max_elements, ef_construction, M, is_persistent_index=True, ...)`. */
    method InitIndex(maxElements: int, efConstruction: int, m: int)
      modifies this`maxElements, this`efConstruction, this`m
      ensures this.maxElements == maxElements && this.efConstruction == efConstruction && this.m == m
    {
      this.maxElements, this.efConstruction, this.m := maxElements, efConstruction, m;
    }

    method SetNumThreads(n: int)
      modifies this`numThreads
      ensures numThreads == n
    {
      numThreads := n;
    }

    method SetEf(ef: int)
      modifies this`ef
      ensures this.ef == ef
    {
      this.ef := ef;
    }

    /** `add_items(items, labels)`: a new label is appended, a known one has its vector replaced. */
    method AddItems(items: seq<Vector>, labels: seq<int>)
      requires Valid() && |items| == |labels|
      modifies this`ids, this`vectors, this`dirty
      ensures Valid()
      ensures vectors == Assign(old(vectors), labels, items)
      ensures ids == old(ids) + NewLabels(old(ids), labels)
      ensures dirty == (old(dirty) || labels != [])
    {
      var ids0, vectors0 := ids, vectors;
      var newIds, newVectors := ids, vectors;
      for k := 0 to |labels|
        invariant Distinct(newIds) && forall l :: l in newIds <==> l in newVectors
        invariant newVectors == Assign(vectors0, labels[..k], items[..k])
        invariant newIds == ids0 + NewLabels(ids0, labels[..k])
        invariant dirty == old(dirty)
      {
        AddStep(ids0, vectors0, labels, items, k, newIds, newVectors);
        var l := labels[k];
        if l !in newVectors {
          newIds := newIds + [l];
        }
        newVectors := newVectors[l := items[k]];
      }
      assert labels[..|labels|] == labels && items[..|items|] == items;
      ids, vectors := newIds, newVectors;
      dirty := dirty || labels != [];
    }

    /** `persist_dirty()`: the stored data reaches the persistence directory. */
    method PersistDirty()
      modifies this`dirty, this`persisted, journal`events
      ensures !dirty && persisted == Some(Snapshot())
      ensures journal.events == old(journal.events) + [Flushed]
    {
      dirty := false;
      persisted := Some(Snapshot());
      journal.events := journal.events + [Flushed];
    }
  }
}
