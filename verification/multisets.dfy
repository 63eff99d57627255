/** Small facts of multiset arithmetic used to combine the row and id counts
    of a tree before and after an edit. Each is proved element by element. */
module Multisets {

  /** A nested replacement. One level down, a sibling sequence `before`
      became `after` when its child `oldChild` became `newChild`. That child
      in turn traded `oldSub` for `newSub`. With the enclosing node's own
      part `own` added on both sides, the whole trades `oldSub` for `newSub`. */
  lemma NestedReplace<T>(own: multiset<T>, after: multiset<T>, before: multiset<T>, oldChild: multiset<T>,
                         newChild: multiset<T>, oldSub: multiset<T>, newSub: multiset<T>)
    requires after + oldChild == before + newChild
    requires newChild + oldSub == oldChild + newSub
    ensures (own + after) + oldSub == (own + before) + newSub
  {
    forall x ensures ((own + after) + oldSub)[x] == ((own + before) + newSub)[x] {
      assert (after + oldChild)[x] == (before + newChild)[x];
      assert (newChild + oldSub)[x] == (oldChild + newSub)[x];
    }
  }

  /** A folder's row went from `oldRow` to `newRow`, and `added` joined its
      children `kept`. Cancelling the children, the tree gained exactly
      `added` and the row change. */
  lemma AddedWithRowChange<T>(after: multiset<T>, before: multiset<T>, oldRow: multiset<T>, newRow: multiset<T>,
                              kept: multiset<T>, added: multiset<T>)
    requires after + (oldRow + kept) == before + (newRow + (kept + added))
    ensures after + oldRow == (before + newRow) + added
  {
    forall y ensures (after + oldRow)[y] == ((before + newRow) + added)[y] {
      assert (after + (oldRow + kept))[y] == (before + (newRow + (kept + added)))[y];
    }
  }

  /** As `AddedWithRowChange`, when the folder's own part `own` is the same
      before and after (as its id is). */
  lemma Added<T>(after: multiset<T>, before: multiset<T>, own: multiset<T>, kept: multiset<T>, added: multiset<T>)
    requires after + (own + kept) == before + (own + (kept + added))
    ensures after == before + added
  {
    forall y ensures after[y] == (before + added)[y] {
      assert (after + (own + kept))[y] == (before + (own + (kept + added)))[y];
    }
  }

  /** A folder's row went from `oldRow` to `newRow`, and its children went
      from `children` to `rest`, which is `children` without `removed`.
      The tree lost exactly `removed`, apart from the row change. */
  lemma RemovedWithRowChange<T>(after: multiset<T>, before: multiset<T>, removed: multiset<T>, oldRow: multiset<T>,
                                newRow: multiset<T>, rest: multiset<T>, children: multiset<T>)
    requires after + (oldRow + children) == before + (newRow + rest)
    requires rest + removed == children
    ensures (after + removed) + oldRow == before + newRow
  {
    forall y ensures ((after + removed) + oldRow)[y] == (before + newRow)[y] {
      assert (after + (oldRow + children))[y] == (before + (newRow + rest))[y];
      assert (rest + removed)[y] == children[y];
    }
  }

  /** As `RemovedWithRowChange`, when the folder's own part `own` is the
      same before and after. */
  lemma Removed<T>(after: multiset<T>, before: multiset<T>, removed: multiset<T>, own: multiset<T>,
                   rest: multiset<T>, children: multiset<T>)
    requires after + (own + children) == before + (own + rest)
    requires rest + removed == children
    ensures after + removed == before
  {
    forall y ensures (after + removed)[y] == before[y] {
      assert (after + (own + children))[y] == (before + (own + rest))[y];
      assert (rest + removed)[y] == children[y];
    }
  }

  /** Trading `oldRow` for `newRow` next to a common part `common` trades
      `oldRow` for `newRow`. */
  lemma Swap<T>(after: multiset<T>, before: multiset<T>, oldRow: multiset<T>, newRow: multiset<T>,
                common: multiset<T>)
    requires after + (oldRow + common) == before + (newRow + common)
    ensures after + oldRow == before + newRow
  {
    forall y ensures (after + oldRow)[y] == (before + newRow)[y] {
      assert (after + (oldRow + common))[y] == (before + (newRow + common))[y];
    }
  }

  /** A queue step: the queue `all` is its head's own part `head`, the
      head's children `kids` and the rest of the queue `rest`. The next
      queue `next` (rest, then kids) is `all` without `head`. */
  lemma Rotate<T>(all: multiset<T>, head: multiset<T>, kids: multiset<T>, rest: multiset<T>, next: multiset<T>)
    requires all == (head + kids) + rest
    requires next == rest + kids
    ensures all == next + head
  {
    forall y ensures all[y] == (next + head)[y] {
      assert all[y] == ((head + kids) + rest)[y];
      assert next[y] == (rest + kids)[y];
    }
  }

  /** A move as two steps. The detach takes `start` to `middle`: `item`
      leaves, and the old parent's row goes from `oldFrom` to `newFrom`. The
      insert takes `middle` to `end`: `item` comes back, and the
      destination's row goes from `oldTo` to `newTo`. Overall, both rows
      changed and nothing else did. */
  lemma MoveRows<T>(end: multiset<T>, middle: multiset<T>, start: multiset<T>, item: multiset<T>,
                    oldFrom: multiset<T>, newFrom: multiset<T>, oldTo: multiset<T>, newTo: multiset<T>)
    requires end + oldTo == (middle + newTo) + item
    requires (middle + item) + oldFrom == start + newFrom
    ensures (end + oldTo) + oldFrom == (start + newTo) + newFrom
  {
    forall y ensures ((end + oldTo) + oldFrom)[y] == ((start + newTo) + newFrom)[y] {
      assert (end + oldTo)[y] == ((middle + newTo) + item)[y];
      assert ((middle + item) + oldFrom)[y] == (start + newFrom)[y];
    }
  }

  /** As `MoveRows`, when the node stays in the same folder. The detach
      changes that folder's row from `oldRow` to `midRow`, and the insert
      changes `midRow` to `newRow`. */
  lemma MoveRowsSameParent<T>(end: multiset<T>, middle: multiset<T>, start: multiset<T>, item: multiset<T>,
                              oldRow: multiset<T>, midRow: multiset<T>, newRow: multiset<T>)
    requires end + midRow == (middle + newRow) + item
    requires (middle + item) + oldRow == start + midRow
    ensures end + oldRow == start + newRow
  {
    forall y ensures (end + oldRow)[y] == (start + newRow)[y] {
      assert (end + midRow)[y] == ((middle + newRow) + item)[y];
      assert ((middle + item) + oldRow)[y] == (start + midRow)[y];
    }
  }

  /** Two sums that differ only in their middle part: the first plus the
      second's middle part equals the second plus the first's. */
  lemma Exchange<T>(after: multiset<T>, before: multiset<T>, prefix: multiset<T>, suffix: multiset<T>,
                    oldPart: multiset<T>, newPart: multiset<T>)
    requires before == prefix + oldPart + suffix
    requires after == prefix + newPart + suffix
    ensures after + oldPart == before + newPart
  {
    forall y ensures (after + oldPart)[y] == (before + newPart)[y] {
      assert before[y] == (prefix + oldPart + suffix)[y];
      assert after[y] == (prefix + newPart + suffix)[y];
    }
  }

  /** A sum with `added` placed between its parts is the sum plus `added`. */
  lemma Insertion<T>(after: multiset<T>, before: multiset<T>, prefix: multiset<T>, suffix: multiset<T>,
                     added: multiset<T>)
    requires after == (prefix + added) + suffix
    requires before == prefix + suffix
    ensures after == before + added
  {
    forall y ensures after[y] == (before + added)[y] {
      assert after[y] == ((prefix + added) + suffix)[y];
      assert before[y] == (prefix + suffix)[y];
    }
  }

  /** What is contained in a part is contained in every sum around it. */
  lemma Within<T>(part: multiset<T>, whole: multiset<T>, left: multiset<T>, right: multiset<T>,
                  outer: multiset<T>)
    requires part <= whole
    ensures part <= left + whole + right
    ensures part <= outer + (left + whole + right)
  {
    forall e ensures part[e] <= (left + whole + right)[e] && part[e] <= (outer + (left + whole + right))[e] {
      assert part[e] <= whole[e];
    }
  }

  /** Cancellation: equal sums with a common part have equal remainders. */
  lemma Cancel<T>(a: multiset<T>, b: multiset<T>, common: multiset<T>)
    requires a + common == b + common
    ensures a == b
  {
    forall y ensures a[y] == b[y] {
      assert (a + common)[y] == (b + common)[y];
    }
  }
}
