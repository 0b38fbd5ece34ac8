/**
 * JavaScript objects with string keys, as the converter uses them: an
 * object is the sequence of its entries in insertion order (the order
 * `Object.entries` reports). Assigning to a key that is already present
 * replaces its value in place; assigning to a new key appends an entry.
 */
module JsObject {

  /** A value that may be absent (`undefined` in the converter). */
  datatype Option<T> = None | Some(value: T)

  /** A JavaScript object: its (key, value) entries in insertion order. */
  type Obj<V> = seq<(string, V)>

  /** The keys of an object, in insertion order (`Object.keys`). */
  function Keys<V>(o: Obj<V>): (ks: seq<string>)
    ensures |ks| == |o|
  {
    if o == [] then [] else [o[0].0] + Keys(o[1..])
  }

  /** The `i`-th key is the key of the `i`-th entry. */
  lemma {:induction false} KeysAt<V>(o: Obj<V>)
    ensures forall i :: 0 <= i < |o| ==> Keys(o)[i] == o[i].0
  {
    if o != [] {
      KeysAt(o[1..]);
      assert forall i :: 1 <= i < |o| ==> Keys(o)[i] == Keys(o[1..])[i - 1];
    }
  }

  /** No key occurs twice: true of every object the converter builds. */
  ghost predicate DistinctKeys<V>(o: Obj<V>)
  {
    forall i, j :: 0 <= i < j < |o| ==> o[i].0 != o[j].0
  }

  /** Property read `o[k]`; `None` when `k` is not an own key. */
  function Get<V>(o: Obj<V>, k: string): (r: Option<V>)
    ensures r.Some? <==> k in Keys(o)
  {
    if o == [] then None
    else if o[0].0 == k then Some(o[0].1)
    else Get(o[1..], k)
  }

  /** Property assignment `o[k] = v`. */
  function Put<V>(o: Obj<V>, k: string, v: V): (r: Obj<V>)
    ensures Get(r, k) == Some(v)
    ensures forall x :: x != k ==> Get(r, x) == Get(o, x)
    ensures k in Keys(o) ==> Keys(r) == Keys(o)
    ensures k !in Keys(o) ==> r == o + [(k, v)]
  {
    if o == [] then [(k, v)]
    else if o[0].0 == k then
      assert Keys([(k, v)] + o[1..]) == [k] + Keys(o[1..]);
      [(k, v)] + o[1..]
    else
      var rest := Put(o[1..], k, v);
      assert Keys(o) == [o[0].0] + Keys(o[1..]);
      assert Keys([o[0]] + rest) == [o[0].0] + Keys(rest);
      [o[0]] + rest
  }

  /** A second assignment to the same key overwrites the first, in the same place. */
  lemma {:induction false} PutTwice<V>(o: Obj<V>, k: string, v: V, w: V)
    ensures Put(Put(o, k, v), k, w) == Put(o, k, w)
  {
    if o != [] && o[0].0 != k {
      PutTwice(o[1..], k, v, w);
      assert Put(o, k, v)[1..] == Put(o[1..], k, v);
    }
  }

  /** The keys of an object with one entry appended. */
  lemma {:induction false} KeysAppend<V>(o: Obj<V>, k: string, v: V)
    ensures Keys(o + [(k, v)]) == Keys(o) + [k]
  {
    if o != [] {
      KeysAppend(o[1..], k, v);
      assert (o + [(k, v)])[1..] == o[1..] + [(k, v)];
    }
  }

  /** Assignment never creates a second entry for a key. */
  lemma PutDistinct<V>(o: Obj<V>, k: string, v: V)
    requires DistinctKeys(o)
    ensures DistinctKeys(Put(o, k, v))
  {
    var r := Put(o, k, v);
    KeysAt(o);
    KeysAt(r);
    if k !in Keys(o) {
      forall i, j | 0 <= i < j < |r| ensures r[i].0 != r[j].0 {
        if j == |o| {
          assert Keys(o)[i] == r[i].0;
        }
      }
    }
  }

  /**
   * `Object.fromEntries(entries)`, which is also what a loop of property
   * assignments over `entries` builds: the entries are assigned in order.
   */
  function FromEntries<V>(entries: seq<(string, V)>): (r: Obj<V>)
    ensures DistinctKeys(r)
  {
    if entries == [] then []
    else
      var last := entries[|entries| - 1];
      var init := FromEntries(entries[..|entries| - 1]);
      PutDistinct(init, last.0, last.1);
      Put(init, last.0, last.1)
  }

  /** Entry `i` is the last one in `entries` that assigns its key. */
  ghost predicate LastWrite<K, V>(entries: seq<(K, V)>, i: int)
    requires 0 <= i < |entries|
  {
    forall j :: i < j < |entries| ==> entries[j].0 != entries[i].0
  }

  /** The position of the last entry that assigns `k`, or -1 when none does. */
  function LastIndex<K(==), V>(entries: seq<(K, V)>, k: K): (i: int)
    ensures -1 <= i < |entries|
    ensures i >= 0 ==> entries[i].0 == k && LastWrite(entries, i)
    ensures i < 0 ==> forall j :: 0 <= j < |entries| ==> entries[j].0 != k
  {
    if entries == [] then -1
    else if entries[|entries| - 1].0 == k then |entries| - 1
    else LastIndex(entries[..|entries| - 1], k)
  }

  /** Reading `k` after the assignments finds the value of the last entry for `k`. */
  lemma {:induction false} FromEntriesLast<V>(entries: seq<(string, V)>, k: string)
    ensures var i := LastIndex(entries, k);
            Get(FromEntries(entries), k) == if i >= 0 then Some(entries[i].1) else None
  {
    if entries != [] {
      var n := |entries| - 1;
      FromEntriesLast(entries[..n], k);
      assert FromEntries(entries) == Put(FromEntries(entries[..n]), entries[n].0, entries[n].1);
    }
  }

  /**
   * Last write wins: after assigning `entries` in order, key `k` holds `v`
   * exactly when the last entry for `k` is `(k, v)`.
   */
  lemma FromEntriesGet<V>(entries: seq<(string, V)>, k: string, v: V)
    ensures Get(FromEntries(entries), k) == Some(v) <==>
            exists i :: 0 <= i < |entries| && entries[i] == (k, v) && LastWrite(entries, i)
  {
    FromEntriesLast(entries, k);
    var last := LastIndex(entries, k);
    forall i | 0 <= i < |entries| && entries[i] == (k, v) && LastWrite(entries, i)
      ensures i == last
    {
      assert 0 <= last && entries[last].0 == k;
    }
  }

  /** In an object without repeated keys, reading a key finds exactly its entry. */
  lemma {:induction false} GetDistinct<V>(o: Obj<V>, k: string, v: V)
    requires DistinctKeys(o)
    ensures Get(o, k) == Some(v) <==> (k, v) in o
  {
    if o != [] && o[0].0 != k {
      GetDistinct(o[1..], k, v);
      if (k, v) in o {
        var i :| 0 <= i < |o| && o[i] == (k, v);
        assert o[1..][i - 1] == (k, v);
      }
    } else if o != [] && (k, v) in o {
      var i :| 0 <= i < |o| && o[i] == (k, v);
      assert i == 0;
    }
  }

  /** Assigning entries whose keys are all different rebuilds them unchanged. */
  lemma {:induction false} FromEntriesDistinct<V>(entries: seq<(string, V)>)
    requires DistinctKeys(entries)
    ensures FromEntries(entries) == entries
  {
    if entries != [] {
      var n := |entries| - 1;
      var init := entries[..n];
      assert DistinctKeys(init);
      FromEntriesDistinct(init);
      KeysAt(init);
      assert entries[n].0 !in Keys(init);
      assert init + [entries[n]] == entries;
    }
  }
}
