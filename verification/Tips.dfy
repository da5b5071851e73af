/** The depth-first search for the tip (consensus/engine.go, GetTip). */
module Tips {
  import opened Validators
  import opened Votes
  import opened Blocks
  import opened ChainIndexes
  import opened Consensus

  /** The block tree as the search relies on it: children lists are right, and a validated block is
      one higher than its stored parent. */
  ghost predicate SearchTree(store: Store) {
    ChildrenOK(store) && forall h :: OneHigher(store, h)
  }

  ghost predicate OneHigher(store: Store, h: Hash) {
    h in store && store[h].status.IsValid() && store[h].block.parent in store ==>
      store[h].block.height == store[store[h].block.parent].block.height + 1
  }

  lemma {:induction false} ReachesIsHigher(store: Store, flagged: bool, from: Hash, h: Hash)
    requires Reaches(store, flagged, from, h)
    ensures Eligible(store, flagged, from)
    ensures store[from].block.height <= store[h].block.height
    decreases store[h].block.height
  {
    if h != from { ReachesIsHigher(store, flagged, from, store[h].block.parent); }
  }

  /** What the search knows about a block it has seen: it is the start, or it hangs below a block
      that was expanded. */
  ghost predicate SeenOK(store: Store, flagged: bool, from: Hash, visited: set<Hash>, h: Hash) {
    && h in store
    && (h == from
        || (var p := store[h].block.parent; p in visited && Reaches(store, flagged, from, p)))
  }

  /** An expanded block: when it is eligible it is reached, and its children have been seen. */
  ghost predicate ExpandedOK(
    store: Store, flagged: bool, from: Hash, stack: seq<Hash>, visited: set<Hash>, h: Hash) {
    Eligible(store, flagged, h) ==>
      Reaches(store, flagged, from, h) && forall c :: c in store[h].children ==> c in visited || c in stack
  }

  ghost predicate SearchOK(store: Store, flagged: bool, from: Hash, stack: seq<Hash>, visited: set<Hash>) {
    && NoDuplicates(stack)
    && (from in visited || from in stack)
    && visited <= store.Keys
    && (forall h :: h in stack ==> h !in visited && SeenOK(store, flagged, from, visited, h))
    && (forall h :: h in visited ==>
          SeenOK(store, flagged, from, visited, h) && ExpandedOK(store, flagged, from, stack, visited, h))
  }

  lemma SeenIsReached(store: Store, flagged: bool, from: Hash, visited: set<Hash>, h: Hash)
    requires SearchTree(store) && SeenOK(store, flagged, from, visited, h) && Eligible(store, flagged, h)
    ensures Reaches(store, flagged, from, h)
  {
    assert OneHigher(store, h);
  }

  /** A child of a block that is expanded for the first time has not been seen. */
  lemma ChildIsNew(store: Store, flagged: bool, from: Hash, stack: seq<Hash>, visited: set<Hash>, h: Hash, c: Hash)
    requires SearchTree(store) && SearchOK(store, flagged, from, stack, visited)
    requires h in stack && Reaches(store, flagged, from, h) && c in store[h].children
    ensures IsChildOf(store, c, h) && c !in stack && c !in visited
  {
    assert ChildListOK(store, h);
    assert IsChildOf(store, c, h);
    ReachesIsHigher(store, flagged, from, h);
    assert OneHigher(store, from);
    assert h !in visited;
  }

  lemma PopKeeps(store: Store, flagged: bool, from: Hash, stack: seq<Hash>, visited: set<Hash>)
    requires SearchTree(store) && SearchOK(store, flagged, from, stack, visited) && stack != []
    requires !Eligible(store, flagged, stack[|stack| - 1])
    ensures SearchOK(store, flagged, from, stack[..|stack| - 1], visited + {stack[|stack| - 1]})
  {
    var rest, h := stack[..|stack| - 1], stack[|stack| - 1];
    assert forall x :: x in stack <==> x in rest || x == h;
    assert h !in rest;
    forall x | x in visited ensures ExpandedOK(store, flagged, from, rest, visited + {h}, x) {
      assert ExpandedOK(store, flagged, from, stack, visited, x);
    }
    forall x | x in stack || x in visited ensures SeenOK(store, flagged, from, visited + {h}, x) {
      assert SeenOK(store, flagged, from, visited, x);
    }
  }

  lemma ExpandKeeps(store: Store, flagged: bool, from: Hash, stack: seq<Hash>, visited: set<Hash>)
    requires SearchTree(store) && SearchOK(store, flagged, from, stack, visited) && stack != []
    requires Eligible(store, flagged, stack[|stack| - 1])
    ensures var h := stack[|stack| - 1];
            Reaches(store, flagged, from, h)
            && SearchOK(store, flagged, from, stack[..|stack| - 1] + store[h].children, visited + {h})
  {
    var rest, h := stack[..|stack| - 1], stack[|stack| - 1];
    var cs := store[h].children;
    var stack', visited' := rest + cs, visited + {h};
    assert forall x :: x in stack <==> x in rest || x == h;
    assert h !in rest;
    SeenIsReached(store, flagged, from, visited, h);
    assert ChildListOK(store, h);
    forall c | c in cs ensures c !in rest && c !in visited' && SeenOK(store, flagged, from, visited', c) {
      ChildIsNew(store, flagged, from, stack, visited, h, c);
    }
    JoinNoDuplicates(rest, cs);
    forall x | x in rest || x in visited' ensures SeenOK(store, flagged, from, visited', x) {
      assert SeenOK(store, flagged, from, visited, x);
    }
    forall x | x in visited' ensures ExpandedOK(store, flagged, from, stack', visited', x) {
      if x != h { assert ExpandedOK(store, flagged, from, stack, visited, x); }
    }
  }

  lemma JoinNoDuplicates<T(!new)>(a: seq<T>, b: seq<T>)
    requires NoDuplicates(a) && NoDuplicates(b) && forall x :: x in b ==> x !in a
    ensures NoDuplicates(a + b)
  {
    forall i, j | 0 <= i < j < |a + b| ensures (a + b)[i] != (a + b)[j] {
      if i < |a| <= j { assert b[j - |a|] in b; }
    }
  }

  /** When the stack is empty every reachable block has been expanded. */
  lemma {:induction false} AllExpanded(store: Store, flagged: bool, from: Hash, visited: set<Hash>, x: Hash)
    requires SearchTree(store) && SearchOK(store, flagged, from, [], visited) && Reaches(store, flagged, from, x)
    ensures x in visited
    decreases store[x].block.height
  {
    if x != from {
      var p := store[x].block.parent;
      AllExpanded(store, flagged, from, visited, p);
      assert ExpandedOK(store, flagged, from, [], visited, p);
      assert ChildListOK(store, p) && OneHigher(store, x);
      assert IsChildOf(store, x, p) && WellHeighted(store, x, p);
    }
  }

  /** The best tip among the blocks expanded so far. */
  ghost predicate BestSoFar(store: Store, flagged: bool, from: Hash, visited: set<Hash>, tip: Hash) {
    && tip in store
    && (tip == from || Reaches(store, flagged, from, tip))
    && (forall x :: x in visited && Eligible(store, flagged, x) ==>
          store[x].block.height <= store[tip].block.height)
  }

  /** Finds a highest block reachable from `from` through eligible blocks. */
  method FindTip(store: Store, flagged: bool, from: Hash) returns (tip: Hash)
    requires SearchTree(store) && from in store
    ensures tip in store
    ensures tip == from || Reaches(store, flagged, from, tip)
    ensures forall x :: Reaches(store, flagged, from, x) ==> store[x].block.height <= store[tip].block.height
  {
    tip := from;
    var stack := [from];
    ghost var visited: set<Hash> := {};
    while |stack| > 0
      invariant SearchOK(store, flagged, from, stack, visited)
      invariant BestSoFar(store, flagged, from, visited, tip)
      decreases store.Keys - visited
    {
      var h := stack[|stack| - 1];
      assert SeenOK(store, flagged, from, visited, h) && h !in visited;
      var curr := store[h];
      if !curr.status.IsValid() || (!flagged && curr.hasValidatorUpdate) {
        PopKeeps(store, flagged, from, stack, visited);
        stack, visited := stack[..|stack| - 1], visited + {h};
        continue;
      }
      ExpandKeeps(store, flagged, from, stack, visited);
      if curr.block.height > store[tip].block.height { tip := h; }
      stack, visited := stack[..|stack| - 1] + curr.children, visited + {h};
    }
    forall x | Reaches(store, flagged, from, x) ensures store[x].block.height <= store[tip].block.height {
      assert stack == [];
      AllExpanded(store, flagged, from, visited, x);
    }
  }
}
