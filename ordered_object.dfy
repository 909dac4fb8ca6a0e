/**
 * A JavaScript object with string keys, none of them integer-like, seen as the list of
 * its entries in insertion order (what `Object.entries` returns). Writing a key that is
 * present (`{ ...o, [k]: v }` or `o[k] = v`) keeps its place; writing a new key appends
 * it; `delete o[k]` drops it.
 */
module OrderedObject {
  import opened Wrappers

  type Entries = seq<(string, string)>

  /** `Object.keys`. */
  function Keys(e: Entries): (ks: seq<string>)
    ensures |ks| == |e|
    ensures forall i :: 0 <= i < |e| ==> ks[i] == e[i].0
  {
    seq(|e|, i requires 0 <= i < |e| => e[i].0)
  }

  /** An object never holds a key twice. */
  predicate UniqueKeys(e: Entries)
  {
    forall i, j :: 0 <= i < j < |e| ==> e[i].0 != e[j].0
  }

  /** `Object.entries(o).findIndex(([key]) => key === k)`: the first place of `k`, or -1. */
  function IndexOf(e: Entries, k: string): (i: int)
    ensures -1 <= i < |e|
    ensures i >= 0 ==> e[i].0 == k && forall j :: 0 <= j < i ==> e[j].0 != k
    ensures i == -1 <==> k !in Keys(e)
  {
    if e == [] then -1
    else if e[0].0 == k then 0
    else
      var j := IndexOf(e[1..], k);
      assert forall x :: x in Keys(e) && x != e[0].0 ==> x in Keys(e[1..]) by {
        forall x | x in Keys(e) && x != e[0].0 ensures x in Keys(e[1..]) {
          var n :| 0 <= n < |e| && Keys(e)[n] == x;
          assert Keys(e[1..])[n - 1] == x;
        }
      }
      if j < 0 then -1 else j + 1
  }

  /** `o[k]`: the value stored under `k`, `None` for `undefined`. */
  function Lookup(e: Entries, k: string): (r: Option<string>)
    ensures r.None? <==> k !in Keys(e)
    ensures r.Some? ==> (k, r.value) in e
  {
    var i := IndexOf(e, k);
    if i < 0 then None else Some(e[i].1)
  }

  /** `{ ...o, [k]: v }` and `o[k] = v`: overwrite in place, or append a new key. */
  function Put(e: Entries, k: string, v: string): (r: Entries)
    ensures |e| <= |r| <= |e| + 1
  {
    if e == [] then [(k, v)]
    else if e[0].0 == k then [(k, v)] + e[1..]
    else [e[0]] + Put(e[1..], k, v)
  }

  /** Writing a present key replaces its first entry; writing a new key appends one. */
  lemma {:induction false} PutShape(e: Entries, k: string, v: string)
    ensures IndexOf(e, k) >= 0 ==> Put(e, k, v) == e[IndexOf(e, k) := (k, v)]
    ensures IndexOf(e, k) == -1 ==> Put(e, k, v) == e + [(k, v)]
  {
    if e != [] && e[0].0 != k {
      PutShape(e[1..], k, v);
      var j := IndexOf(e[1..], k);
      if j >= 0 {
        assert IndexOf(e, k) == j + 1;
        ConsUpdate(e, j, (k, v));
      } else {
        assert IndexOf(e, k) == -1;
        assert [e[0]] + (e[1..] + [(k, v)]) == e + [(k, v)];
      }
    }
  }

  /** Updating the rest of a list at `j` is updating the whole list at `j + 1`. */
  lemma ConsUpdate<T>(s: seq<T>, j: nat, x: T)
    requires j + 1 < |s|
    ensures [s[0]] + s[1..][j := x] == s[j + 1 := x]
  {
    var a, b := [s[0]] + s[1..][j := x], s[j + 1 := x];
    assert forall i | 0 <= i < |s| :: a[i] == b[i];
  }

  /** Cutting the rest of a list at `j` is cutting the whole list at `j + 1`. */
  lemma ConsSplice<T>(s: seq<T>, j: nat)
    requires j + 1 < |s|
    ensures [s[0]] + (s[1..][..j] + s[1..][j + 1..]) == s[..j + 1] + s[j + 2..]
  {
    assert s[..j + 1] == [s[0]] + s[1..][..j];
    assert s[j + 2..] == s[1..][j + 1..];
  }

  /** `delete o[k]`: drop the entry of `k` and keep the order of the rest. */
  function Delete(e: Entries, k: string): (r: Entries)
    ensures |r| <= |e|
    ensures IndexOf(e, k) == -1 ==> r == e
  {
    if e == [] then []
    else if e[0].0 == k then Delete(e[1..], k)
    else [e[0]] + Delete(e[1..], k)
  }

  /** In an object, deleting a present key removes exactly its one entry, in place. */
  lemma {:induction false} DeleteSplices(e: Entries, k: string)
    requires UniqueKeys(e) && IndexOf(e, k) >= 0
    ensures Delete(e, k) == e[..IndexOf(e, k)] + e[IndexOf(e, k) + 1..]
  {
    UniqueTail(e);
    if e[0].0 != k {
      var j := IndexOf(e[1..], k);
      assert IndexOf(e, k) == j + 1;
      DeleteSplices(e[1..], k);
      ConsSplice(e, j);
      assert Delete(e, k) == [e[0]] + Delete(e[1..], k);
    } else {
      assert IndexOf(e[1..], k) == -1;
      assert Delete(e, k) == e[1..];
      assert e[..0] + e[1..] == e[1..];
    }
  }

  /** The rest of an object is an object that does not hold its first key. */
  lemma UniqueTail(e: Entries)
    requires UniqueKeys(e) && e != []
    ensures UniqueKeys(e[1..]) && e[0].0 !in Keys(e[1..])
  {
  }

  /** In an object each stored pair is found by its key. */
  lemma LookupAt(e: Entries, i: nat)
    requires UniqueKeys(e) && i < |e|
    ensures Lookup(e, e[i].0) == Some(e[i].1)
  {
  }

  /** In an object, `o[k] === v` exactly when the pair (k, v) is one of its entries. */
  lemma LookupIffEntry(e: Entries, k: string, v: string)
    requires UniqueKeys(e)
    ensures Lookup(e, k) == Some(v) <==> (k, v) in e
  {
    if (k, v) in e {
      var i :| 0 <= i < |e| && e[i] == (k, v);
      LookupAt(e, i);
    }
  }

  /**
   * Writing `k` keeps the keys unique, makes `o[k]` the new value, leaves every other key's
   * value alone, and changes the key list only by appending `k` when it was new.
   */
  lemma PutSpec(e: Entries, k: string, v: string)
    requires UniqueKeys(e)
    ensures UniqueKeys(Put(e, k, v))
    ensures Lookup(Put(e, k, v), k) == Some(v)
    ensures forall k' :: k' != k ==> Lookup(Put(e, k, v), k') == Lookup(e, k')
    ensures Keys(Put(e, k, v)) == if k in Keys(e) then Keys(e) else Keys(e) + [k]
  {
    PutKeys(e, k, v);
    PutSelf(e, k, v);
    forall k' | k' != k ensures Lookup(Put(e, k, v), k') == Lookup(e, k') {
      PutOther(e, k, v, k');
    }
  }

  /** Writing `k` changes the key list only by appending `k` when it was new, and keeps it unique. */
  lemma PutKeys(e: Entries, k: string, v: string)
    requires UniqueKeys(e)
    ensures UniqueKeys(Put(e, k, v))
    ensures Keys(Put(e, k, v)) == if k in Keys(e) then Keys(e) else Keys(e) + [k]
  {
    PutShape(e, k, v);
    var r := Put(e, k, v);
    if IndexOf(e, k) >= 0 {
      assert forall j | 0 <= j < |r| :: r[j].0 == e[j].0;
      assert Keys(r) == Keys(e);
    } else {
      assert Keys(r) == Keys(e) + [k];
    }
  }

  /** After writing `k`, `o[k]` is the value written. */
  lemma PutSelf(e: Entries, k: string, v: string)
    requires UniqueKeys(e)
    ensures Lookup(Put(e, k, v), k) == Some(v)
  {
    PutKeys(e, k, v);
    PutShape(e, k, v);
    var i := if IndexOf(e, k) >= 0 then IndexOf(e, k) else |e|;
    assert Put(e, k, v)[i] == (k, v);
    LookupAt(Put(e, k, v), i);
  }

  /** Writing `k` leaves the value of another key `k'` alone. */
  lemma PutOther(e: Entries, k: string, v: string, k': string)
    requires UniqueKeys(e) && k' != k
    ensures Lookup(Put(e, k, v), k') == Lookup(e, k')
  {
    PutKeys(e, k, v);
    PutShape(e, k, v);
    if k' in Keys(e) {
      var j := IndexOf(e, k');
      assert Put(e, k, v)[j] == e[j];
      LookupAt(Put(e, k, v), j);
    }
  }

  /** How lookups, keys and uniqueness of a non-empty object follow from its first entry and the rest. */
  lemma EntriesCons(e: Entries)
    requires e != []
    ensures forall k :: Lookup(e, k) == if e[0].0 == k then Some(e[0].1) else Lookup(e[1..], k)
    ensures forall k :: k in Keys(e) <==> k == e[0].0 || k in Keys(e[1..])
    ensures UniqueKeys(e) <==> e[0].0 !in Keys(e[1..]) && UniqueKeys(e[1..])
  {
    assert Keys(e) == [e[0].0] + Keys(e[1..]);
    if e[0].0 !in Keys(e[1..]) && UniqueKeys(e[1..]) {
      forall i, j | 0 <= i < j < |e| ensures e[i].0 != e[j].0 {
        if i == 0 {
          assert Keys(e[1..])[j - 1] == e[j].0;
        } else {
          assert e[1..][i - 1].0 != e[1..][j - 1].0;
        }
      }
    }
  }

  /** Deleting `k` keeps the keys unique, removes `k` and leaves every other key's value alone. */
  lemma {:induction false} DeleteSpec(e: Entries, k: string)
    requires UniqueKeys(e)
    ensures UniqueKeys(Delete(e, k))
    ensures forall k' :: k' in Keys(Delete(e, k)) <==> k' in Keys(e) && k' != k
    ensures Lookup(Delete(e, k), k) == None
    ensures forall k' :: k' != k ==> Lookup(Delete(e, k), k') == Lookup(e, k')
  {
    if e != [] {
      EntriesCons(e);
      DeleteSpec(e[1..], k);
      var r := Delete(e, k);
      if e[0].0 != k {
        assert r == [e[0]] + Delete(e[1..], k);
        assert r[1..] == Delete(e[1..], k);
        EntriesCons(r);
      }
    }
  }

  /** Writing a key twice is writing it once with the second value: no second entry appears. */
  lemma {:induction false} PutTwice(e: Entries, k: string, v: string, w: string)
    ensures Put(Put(e, k, v), k, w) == Put(e, k, w)
  {
    if e != [] && e[0].0 != k {
      PutTwice(e[1..], k, v, w);
      assert Put(e, k, v)[1..] == Put(e[1..], k, v);
    }
  }

  /** Deleting a key that was just added restores the object it was added to. */
  lemma {:induction false} DeleteUndoesPut(e: Entries, k: string, v: string)
    requires k !in Keys(e)
    ensures Delete(Put(e, k, v), k) == e
  {
    if e != [] {
      assert e[0].0 == Keys(e)[0];
      assert k !in Keys(e[1..]);
      DeleteUndoesPut(e[1..], k, v);
      assert Put(e, k, v)[1..] == Put(e[1..], k, v);
    }
  }
}
