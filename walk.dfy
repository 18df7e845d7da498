/** Entry aggregation: every root is walked to the maximum depth, the
    walker's error items are dropped and the roots' entries are put one
    after the other. The directory walker itself is a parameter `walker`:
    `walker(root, depth)` is what a depth-bounded walk of `root` yields. */
module Walk {
  import opened Types

  /** The entries of a walk, with its error items dropped
      (`filter_map(|e| e.ok())`). */
  function Successes(items: seq<WalkItem>): (r: seq<Entry>)
    ensures |r| <= |items|
    ensures forall e :: e in r <==> Found(e) in items
  {
    if items == [] then []
    else
      (if items[0].Found? then [items[0].entry] else []) + Successes(items[1..])
  }

  /** One item: an entry is kept, an error is dropped. */
  lemma SuccessesOne(item: WalkItem)
    ensures Successes([item]) == if item.Found? then [item.entry] else []
  {
    assert [item][1..] == [];
  }

  /** Dropping errors from two runs of items one after the other keeps the
      entries of the first run, then those of the second: walk order and
      repetitions are kept. */
  lemma {:induction false} SuccessesAppend(x: seq<WalkItem>, y: seq<WalkItem>)
    ensures Successes(x + y) == Successes(x) + Successes(y)
    decreases |x|
  {
    if x == [] {
      assert x + y == y;
    } else {
      assert (x + y)[0] == x[0];
      assert (x + y)[1..] == x[1..] + y;
      SuccessesAppend(x[1..], y);
    }
  }

  /** The entries of all roots, in root order. */
  function AllEntries(roots: seq<Path>, depth: nat, walker: (Path, nat) -> seq<WalkItem>): seq<Entry>
  {
    if roots == [] then []
    else AllEntries(roots[..|roots| - 1], depth, walker) + Successes(walker(roots[|roots| - 1], depth))
  }

  /** Walks every root in turn and appends its entries to one vector. */
  method EntryBuilder(roots: seq<Path>, depth: nat, walker: (Path, nat) -> seq<WalkItem>)
    returns (entries: seq<Entry>)
    ensures entries == AllEntries(roots, depth, walker)
  {
    entries := [];
    for i := 0 to |roots|
      invariant entries == AllEntries(roots[..i], depth, walker)
    {
      var found := Successes(walker(roots[i], depth));
      assert roots[..i + 1][..i] == roots[..i];
      entries := entries + found;
    }
    assert roots[..|roots|] == roots;
  }

  /** Walking two lists of roots one after the other is walking their
      concatenation: the result keeps root order. */
  lemma {:induction false} AllEntriesAppend(a: seq<Path>, b: seq<Path>, depth: nat, walker: (Path, nat) -> seq<WalkItem>)
    ensures AllEntries(a + b, depth, walker) == AllEntries(a, depth, walker) + AllEntries(b, depth, walker)
    decreases |b|
  {
    if b == [] {
      assert a + b == a;
    } else {
      var b', r := b[..|b| - 1], b[|b| - 1];
      assert (a + b)[..|a + b| - 1] == a + b';
      assert (a + b)[|a + b| - 1] == r;
      assert AllEntries(a + b, depth, walker) == AllEntries(a + b', depth, walker) + Successes(walker(r, depth));
      assert AllEntries(b, depth, walker) == AllEntries(b', depth, walker) + Successes(walker(r, depth));
      AllEntriesAppend(a, b', depth, walker);
    }
  }

  /** A single root yields exactly its successful walk entries, in walk order. */
  lemma OneRoot(root: Path, depth: nat, walker: (Path, nat) -> seq<WalkItem>)
    ensures AllEntries([root], depth, walker) == Successes(walker(root, depth))
  {
  }

  /** Every collected entry was found by the walk of some root. */
  lemma {:induction false} CollectedWasFound(roots: seq<Path>, depth: nat, walker: (Path, nat) -> seq<WalkItem>, e: Entry)
    requires e in AllEntries(roots, depth, walker)
    ensures exists k :: 0 <= k < |roots| && Found(e) in walker(roots[k], depth)
    decreases |roots|
  {
    var n := |roots| - 1;
    var front := roots[..n];
    if e in AllEntries(front, depth, walker) {
      CollectedWasFound(front, depth, walker, e);
      var k :| 0 <= k < |front| && Found(e) in walker(front[k], depth);
      assert roots[k] == front[k];
    } else {
      assert e in Successes(walker(roots[n], depth));
    }
  }

  /** Every entry the walk of one of the roots found is collected. */
  lemma {:induction false} FoundIsCollected(roots: seq<Path>, depth: nat, walker: (Path, nat) -> seq<WalkItem>, e: Entry, k: nat)
    requires k < |roots| && Found(e) in walker(roots[k], depth)
    ensures e in AllEntries(roots, depth, walker)
    decreases |roots|
  {
    var n := |roots| - 1;
    var front := roots[..n];
    if k < n {
      assert front[k] == roots[k];
      FoundIsCollected(front, depth, walker, e, k);
    } else {
      assert e in Successes(walker(roots[n], depth));
    }
  }

  /** An entry is collected exactly when the walk of some root found it. */
  lemma AllEntriesMember(roots: seq<Path>, depth: nat, walker: (Path, nat) -> seq<WalkItem>, e: Entry)
    ensures e in AllEntries(roots, depth, walker) <==>
            exists k :: 0 <= k < |roots| && Found(e) in walker(roots[k], depth)
  {
    if e in AllEntries(roots, depth, walker) {
      CollectedWasFound(roots, depth, walker, e);
    }
    if exists k :: 0 <= k < |roots| && Found(e) in walker(roots[k], depth) {
      var k :| 0 <= k < |roots| && Found(e) in walker(roots[k], depth);
      FoundIsCollected(roots, depth, walker, e, k);
    }
  }

  /** The walker keeps within `depth` for the given roots. */
  ghost predicate WithinDepth(roots: seq<Path>, depth: nat, walker: (Path, nat) -> seq<WalkItem>)
  {
    forall k, e :: 0 <= k < |roots| && Found(e) in walker(roots[k], depth) ==> e.depth <= depth
  }

  /** When the walker keeps within the maximum depth, so does every
      collected entry; with depth 0 only entries of depth 0 remain. */
  lemma AllEntriesDepth(roots: seq<Path>, depth: nat, walker: (Path, nat) -> seq<WalkItem>)
    requires WithinDepth(roots, depth, walker)
    ensures forall e :: e in AllEntries(roots, depth, walker) ==> e.depth <= depth
  {
  }
}
