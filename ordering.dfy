/**
 * Display order of the zone list: the entries of `selectedTimes` as stored, or reversed
 * when the reverse flag is set, and the drag-and-drop reorder (`onDragEnd`), which moves
 * one displayed entry to the place of another with `arrayMove` and stores the result.
 */
module Ordering {
  import opened Wrappers
  import opened OrderedObject

  /** `Array.prototype.reverse`: the k-th element is the k-th from the end. */
  function Reversed<T>(s: seq<T>): (r: seq<T>)
    ensures |r| == |s|
    ensures forall k :: 0 <= k < |s| ==> r[k] == s[|s| - 1 - k]
  {
    seq(|s|, k requires 0 <= k < |s| => s[|s| - 1 - k])
  }

  /** Reversing twice restores the original order. */
  lemma ReversedTwice<T>(s: seq<T>)
    ensures Reversed(Reversed(s)) == s
  {
    assert forall k | 0 <= k < |s| :: Reversed(Reversed(s))[k] == s[k];
  }

  /** The reversal of a non-empty list is the reversed rest followed by the first element. */
  lemma ReversedCons<T>(s: seq<T>)
    requires s != []
    ensures Reversed(s) == Reversed(s[1..]) + [s[0]]
  {
    assert forall k | 0 <= k < |s| :: Reversed(s)[k] == (Reversed(s[1..]) + [s[0]])[k];
  }

  /** Reversal only reorders. */
  lemma {:induction false} ReversedPermutes<T>(s: seq<T>)
    ensures multiset(Reversed(s)) == multiset(s)
  {
    if s != [] {
      ReversedPermutes(s[1..]);
      ReversedCons(s);
      assert s == [s[0]] + s[1..];
    }
  }

  /** Reversing an object's entries reverses its key list and keeps the keys unique. */
  lemma ReversedEntries(e: Entries)
    ensures Keys(Reversed(e)) == Reversed(Keys(e))
    ensures forall k :: k in Keys(Reversed(e)) <==> k in Keys(e)
    ensures UniqueKeys(e) ==> UniqueKeys(Reversed(e))
  {
    ReversedKeys(e);
    ReversedKeySet(e);
    if UniqueKeys(e) {
      ReversedUnique(e);
    }
  }

  lemma ReversedKeys(e: Entries)
    ensures Keys(Reversed(e)) == Reversed(Keys(e))
  {
    assert forall k | 0 <= k < |e| :: Keys(Reversed(e))[k] == Reversed(Keys(e))[k];
  }

  lemma ReversedKeySet(e: Entries)
    ensures forall k :: k in Keys(Reversed(e)) <==> k in Keys(e)
  {
    ReversedKeys(e);
    ReversedPermutes(Keys(e));
    forall k ensures k in Reversed(Keys(e)) <==> k in Keys(e) {
      assert k in Reversed(Keys(e)) <==> k in multiset(Reversed(Keys(e)));
      assert k in Keys(e) <==> k in multiset(Keys(e));
    }
  }

  lemma ReversedUnique(e: Entries)
    requires UniqueKeys(e)
    ensures UniqueKeys(Reversed(e))
  {
    forall i, j | 0 <= i < j < |e| ensures Reversed(e)[i].0 != Reversed(e)[j].0 {
      assert Reversed(e)[i] == e[|e| - 1 - i] && Reversed(e)[j] == e[|e| - 1 - j];
    }
  }

  /** Where the i-th element of `Move(s, from, to)` comes from. */
  function MoveSource(from: nat, to: nat, i: nat): nat
  {
    if i == to then from
    else
      var j := if i < to then i else i - 1;
      if j < from then j else j + 1
  }

  /**
   * `arrayMove(s, from, to)`: take the element at `from` out and insert it so that it
   * stands at `to`; everything else keeps its relative order.
   */
  function Move<T>(s: seq<T>, from: nat, to: nat): (r: seq<T>)
    requires from < |s| && to < |s|
    ensures |r| == |s| && r[to] == s[from]
    ensures forall i :: 0 <= i < |s| ==> MoveSource(from, to, i) < |s| && r[i] == s[MoveSource(from, to, i)]
  {
    var rest := s[..from] + s[from + 1..];
    rest[..to] + [s[from]] + rest[to..]
  }

  /** Moving only reorders. */
  lemma MovePermutes<T>(s: seq<T>, from: nat, to: nat)
    requires from < |s| && to < |s|
    ensures multiset(Move(s, from, to)) == multiset(s)
  {
    var p, x, q := s[..from], s[from], s[from + 1..];
    var rest := p + q;
    var a, b := rest[..to], rest[to..];
    assert s == p + [x] + q;
    assert rest == a + b;
    assert Move(s, from, to) == a + [x] + b;
    calc {
      multiset(Move(s, from, to));
      multiset(a) + multiset([x]) + multiset(b);
      multiset(rest) + multiset([x]);
      multiset(p) + multiset(q) + multiset([x]);
      multiset(s);
    }
  }

  /** Moving an element onto its own place changes nothing. */
  lemma MoveInPlace<T>(s: seq<T>, i: nat)
    requires i < |s|
    ensures Move(s, i, i) == s
  {
    forall k | 0 <= k < |s| ensures Move(s, i, i)[k] == s[k] {
      assert MoveSource(i, i, k) == k;
    }
  }

  /** Moving the element back from `to` to `from` undoes the move. */
  lemma MoveBack<T>(s: seq<T>, from: nat, to: nat)
    requires from < |s| && to < |s|
    ensures Move(Move(s, from, to), to, from) == s
  {
    var m := Move(s, from, to);
    forall k | 0 <= k < |s| ensures Move(m, to, from)[k] == s[k] {
      assert MoveSource(from, to, MoveSource(to, from, k)) == k;
    }
  }

  /** Moving an entry keeps an object's keys unique. */
  lemma MoveKeepsKeysUnique(e: Entries, from: nat, to: nat)
    requires UniqueKeys(e) && from < |e| && to < |e|
    ensures UniqueKeys(Move(e, from, to))
  {
    var r := Move(e, from, to);
    forall i, j | 0 <= i < j < |r| ensures r[i].0 != r[j].0 {
      assert MoveSource(from, to, i) != MoveSource(from, to, j);
    }
  }

  /** Two objects whose entries are the same pairs, reordered, hold the same keys and values. */
  lemma PermutedObject(e: Entries, r: Entries)
    requires UniqueKeys(e) && UniqueKeys(r) && multiset(r) == multiset(e)
    ensures forall k :: Lookup(r, k) == Lookup(e, k)
    ensures forall k :: k in Keys(r) <==> k in Keys(e)
  {
    forall k ensures Lookup(r, k) == Lookup(e, k) {
      forall v ensures Lookup(r, k) == Some(v) <==> Lookup(e, k) == Some(v) {
        LookupIffEntry(r, k, v);
        LookupIffEntry(e, k, v);
        assert (k, v) in r <==> (k, v) in multiset(r);
        assert (k, v) in e <==> (k, v) in multiset(e);
      }
    }
    forall k ensures k in Keys(r) <==> k in Keys(e) {
      assert Lookup(r, k) == Lookup(e, k);
    }
  }

  /** `timezoneEntries`: the stored entries, reversed when the flag is set. */
  function Displayed(e: Entries, reverse: bool): (shown: Entries)
    ensures |shown| == |e|
  {
    if reverse then Reversed(e) else e
  }

  /** Toggling the flag reverses the displayed list; toggling it twice gives it back. */
  lemma ToggleReverses(e: Entries, reverse: bool)
    ensures Displayed(e, !reverse) == Reversed(Displayed(e, reverse))
    ensures Displayed(e, !!reverse) == Displayed(e, reverse)
  {
    if reverse {
      ReversedTwice(e);
    }
  }

  /**
   * `onDragEnd({active, over})`: nothing when dropped on itself or outside every zone (the
   * code dereferences a null `over` and throws before any state is set); otherwise the
   * displayed entries with `active` moved to the index of `over`, stored as the new order.
   */
  function Drop(e: Entries, reverse: bool, active: string, over: Option<string>): (r: Entries)
    requires active in Keys(e) && (over.Some? ==> over.value in Keys(e))
    ensures over.None? || over.value == active ==> r == e
    ensures |r| == |e|
  {
    if over.None? || over.value == active then e
    else
      var shown := Displayed(e, reverse);
      ReversedEntries(e);
      var oldIndex := IndexOf(shown, active);
      var newIndex := IndexOf(shown, over.value);
      Move(shown, oldIndex, newIndex)
  }

  /**
   * After a real drop the stored order is the displayed one with the dragged zone at the
   * index of the zone it was dropped on and every other zone in its displayed order.
   */
  lemma DropMovesActive(e: Entries, reverse: bool, active: string, over: string)
    requires active in Keys(e) && over in Keys(e) && active != over
    ensures var shown := Displayed(e, reverse);
      IndexOf(shown, over) >= 0 && IndexOf(shown, active) >= 0 &&
      Drop(e, reverse, active, Some(over)) == Move(shown, IndexOf(shown, active), IndexOf(shown, over)) &&
      Drop(e, reverse, active, Some(over))[IndexOf(shown, over)].0 == active
  {
    ReversedEntries(e);
  }

  /** A drop only reorders the zones: the same keys, each with the same time, still unique. */
  lemma DropKeepsObject(e: Entries, reverse: bool, active: string, over: Option<string>)
    requires UniqueKeys(e) && active in Keys(e) && (over.Some? ==> over.value in Keys(e))
    ensures multiset(Drop(e, reverse, active, over)) == multiset(e)
    ensures UniqueKeys(Drop(e, reverse, active, over))
    ensures forall k :: Lookup(Drop(e, reverse, active, over), k) == Lookup(e, k)
    ensures forall k :: k in Keys(Drop(e, reverse, active, over)) <==> k in Keys(e)
  {
    var r := Drop(e, reverse, active, over);
    if over.Some? && over.value != active {
      var shown := Displayed(e, reverse);
      ReversedEntries(e);
      ReversedPermutes(e);
      var oldIndex := IndexOf(shown, active);
      var newIndex := IndexOf(shown, over.value);
      MovePermutes(shown, oldIndex, newIndex);
      MoveKeepsKeysUnique(shown, oldIndex, newIndex);
      PermutedObject(e, r);
    }
  }

  /**
   * With the reverse flag set, the drop stores the moved reversed list while the flag stays
   * set, so the list is shown reversed again: the dragged zone appears at the mirror image
   * of the target's index, counted from the other end.
   */
  lemma DropUnderReverse(e: Entries, active: string, over: string)
    requires active in Keys(e) && over in Keys(e) && active != over
    ensures 0 <= IndexOf(Reversed(e), over) < |e|
    ensures Displayed(Drop(e, true, active, Some(over)), true)[|e| - 1 - IndexOf(Reversed(e), over)].0 == active
  {
    DropMovesActive(e, true, active, over);
    var j := IndexOf(Reversed(e), over);
    StoredThenShown(Drop(e, true, active, Some(over)), j);
  }

  /** Shown reversed, the entry stored at `j` stands at `|r| - 1 - j`. */
  lemma StoredThenShown(r: Entries, j: nat)
    requires j < |r|
    ensures Displayed(r, true)[|r| - 1 - j] == r[j]
  {
    assert Reversed(r)[|r| - 1 - j] == r[j];
  }
}
