/**
  Bolt buckets as values: a sequence counter, entries in key order, and nested buckets;
  with the compaction copy of common/boltdb/dao.go.
 */
module Bolt {
  import opened Bytes
  import opened Results

  datatype Entry<V> = Entry(key: bytes, value: V)

  datatype Bucket<N(==), V> = Bucket(sequence: nat, entries: seq<Entry<V>>, subs: map<N, Bucket<N, V>>)

  /** Keys are kept in strictly increasing byte order. */
  ghost predicate Sorted<V>(es: seq<Entry<V>>) {
    forall i, j :: 0 <= i < j < |es| ==> KeyLess(es[i].key, es[j].key)
  }

  /** `Put`: replaces the entry of this key, or inserts one where the order asks for it. */
  function Put<V>(es: seq<Entry<V>>, key: bytes, value: V): seq<Entry<V>> {
    if es == [] then [Entry(key, value)]
    else if es[0].key == key then [Entry(key, value)] + es[1..]
    else if KeyLess(key, es[0].key) then [Entry(key, value)] + es
    else [es[0]] + Put(es[1..], key, value)
  }

  function Get<V>(es: seq<Entry<V>>, key: bytes): Option<V> {
    if es == [] then None
    else if es[0].key == key then Some(es[0].value)
    else Get(es[1..], key)
  }

  function Remove<V>(es: seq<Entry<V>>, key: bytes): seq<Entry<V>> {
    if es == [] then []
    else if es[0].key == key then es[1..]
    else [es[0]] + Remove(es[1..], key)
  }

  /** The order of keys is that of dictionaries: at the first byte that differs, or the shorter first. */
  lemma {:induction false} KeyLessIsLexicographic(a: bytes, b: bytes)
    ensures KeyLess(a, b) <==> exists k :: 0 <= k <= |a| && k < |b| && a[..k] == b[..k] && (k == |a| || a[k] < b[k])
  {
    if KeyLess(a, b) {
      var k := FirstDifference(a, b);
      assert a[..k] == b[..k];
    }
    forall k | 0 <= k <= |a| && k < |b| && a[..k] == b[..k] && (k == |a| || a[k] < b[k])
      ensures KeyLess(a, b)
    {
      DifferenceDecides(a, b, k);
    }
  }

  lemma {:induction false} FirstDifference(a: bytes, b: bytes) returns (k: nat)
    requires KeyLess(a, b)
    ensures k <= |a| && k < |b| && a[..k] == b[..k] && (k == |a| || a[k] < b[k])
  {
    if a == [] || a[0] < b[0] {
      k := 0;
    } else {
      k := FirstDifference(a[1..], b[1..]);
      assert a[..k + 1] == [a[0]] + a[1..][..k] && b[..k + 1] == [b[0]] + b[1..][..k];
      k := k + 1;
    }
  }

  lemma {:induction false} DifferenceDecides(a: bytes, b: bytes, k: nat)
    requires k <= |a| && k < |b| && a[..k] == b[..k] && (k == |a| || a[k] < b[k])
    ensures KeyLess(a, b)
  {
    if k > 0 {
      assert a[0] == a[..k][0] == b[..k][0] == b[0];
      assert a[1..][..k - 1] == a[..k][1..] && b[1..][..k - 1] == b[..k][1..];
      DifferenceDecides(a[1..], b[1..], k - 1);
    }
  }

  lemma {:induction false} KeyLessIrreflexive(a: bytes)
    ensures !KeyLess(a, a)
  {
    if a != [] {
      KeyLessIrreflexive(a[1..]);
    }
  }

  lemma {:induction false} KeyLessAsymmetric(a: bytes, b: bytes)
    requires KeyLess(a, b)
    ensures !KeyLess(b, a)
  {
    if a != [] && a[0] == b[0] {
      KeyLessAsymmetric(a[1..], b[1..]);
    }
  }

  lemma {:induction false} KeyLessTransitive(a: bytes, b: bytes, c: bytes)
    requires KeyLess(a, b) && KeyLess(b, c)
    ensures KeyLess(a, c)
  {
    if a != [] && a[0] == b[0] == c[0] {
      KeyLessTransitive(a[1..], b[1..], c[1..]);
    }
  }

  lemma {:induction false} KeyLessTotal(a: bytes, b: bytes)
    ensures a == b || KeyLess(a, b) || KeyLess(b, a)
  {
    if a != [] && b != [] && a[0] == b[0] {
      KeyLessTotal(a[1..], b[1..]);
      assert a == [a[0]] + a[1..] && b == [b[0]] + b[1..];
    }
  }

  /** A key above all others goes to the end, and replaces nothing. */
  lemma {:induction false} PutAtEnd<V>(es: seq<Entry<V>>, key: bytes, value: V)
    requires forall i :: 0 <= i < |es| ==> KeyLess(es[i].key, key)
    ensures Put(es, key, value) == es + [Entry(key, value)]
  {
    if es != [] {
      KeyLessAsymmetric(es[0].key, key);
      KeyLessIrreflexive(key);
      PutAtEnd(es[1..], key, value);
    }
  }

  lemma {:induction false} SortedConcat<V>(a: Entry<V>, es: seq<Entry<V>>)
    requires Sorted(es) && (es != [] ==> KeyLess(a.key, es[0].key))
    ensures Sorted([a] + es)
  {
    forall j | 0 <= j < |es|
      ensures KeyLess(a.key, es[j].key)
    {
      if j > 0 {
        KeyLessTransitive(a.key, es[0].key, es[j].key);
      }
    }
  }

  lemma {:induction false} PutKeepsSorted<V>(es: seq<Entry<V>>, key: bytes, value: V)
    requires Sorted(es)
    ensures Sorted(Put(es, key, value))
    ensures Put(es, key, value)[0].key == if es == [] || KeyLess(key, es[0].key) then key else es[0].key
  {
    if es != [] {
      KeyLessIrreflexive(key);
      if es[0].key == key {
        SortedConcat(Entry(key, value), es[1..]);
      } else if KeyLess(key, es[0].key) {
        SortedConcat(Entry(key, value), es);
      } else {
        KeyLessTotal(key, es[0].key);
        PutKeepsSorted(es[1..], key, value);
        SortedConcat(es[0], Put(es[1..], key, value));
      }
    }
  }

  lemma {:induction false} RemoveKeepsSorted<V>(es: seq<Entry<V>>, key: bytes)
    requires Sorted(es)
    ensures Sorted(Remove(es, key))
    ensures forall i :: 0 <= i < |Remove(es, key)| ==> Remove(es, key)[i] in es
  {
    hide KeyLess;
    if es != [] && es[0].key != key {
      RemoveKeepsSorted(es[1..], key);
      var r := Remove(es[1..], key);
      if r != [] {
        var j :| 0 <= j < |es[1..]| && es[1..][j] == r[0];
        assert es[j + 1] == r[0];
      }
      SortedConcat(es[0], r);
    }
  }

  lemma {:induction false} GetPut<V>(es: seq<Entry<V>>, key: bytes, value: V, other: bytes)
    ensures Get(Put(es, key, value), other) == if other == key then Some(value) else Get(es, other)
  {
    if es != [] && es[0].key != key && !KeyLess(key, es[0].key) {
      GetPut(es[1..], key, value, other);
    }
  }

  lemma {:induction false} GetAbsent<V>(es: seq<Entry<V>>, key: bytes)
    requires forall i :: 0 <= i < |es| ==> es[i].key != key
    ensures Get(es, key) == None && Remove(es, key) == es
  {
    if es != [] {
      GetAbsent(es[1..], key);
    }
  }

  /** In a sorted bucket a get finds exactly the entry of its key. */
  lemma {:induction false} GetFinds<V>(es: seq<Entry<V>>, key: bytes, value: V)
    requires Sorted(es)
    ensures Get(es, key) == Some(value) <==> Entry(key, value) in es
  {
    hide KeyLess;
    if es != [] {
      assert es == [es[0]] + es[1..];
      if es[0].key == key {
        TailHasOtherKeys(es);
      } else {
        GetFinds(es[1..], key, value);
      }
    }
  }

  /** Keys are distinct in a sorted bucket. */
  lemma SortedKeysDiffer<V>(es: seq<Entry<V>>, i: nat, j: nat)
    requires Sorted(es) && i < j < |es|
    ensures es[i].key != es[j].key
  {
    KeyLessIrreflexive(es[i].key);
  }

  /** A removal takes out exactly the entry of its key: a get finds nothing there, and all else as it was. */
  lemma {:induction false} GetRemove<V>(es: seq<Entry<V>>, key: bytes, other: bytes)
    requires Sorted(es)
    ensures Get(Remove(es, key), other) == if other == key then None else Get(es, other)
  {
    hide KeyLess;
    if es != [] {
      if es[0].key == key {
        if other == key {
          TailHasOtherKeys(es);
          GetAbsent(es[1..], key);
        }
      } else {
        GetRemove(es[1..], key, other);
      }
    }
  }

  lemma TailHasOtherKeys<V>(es: seq<Entry<V>>)
    requires Sorted(es) && es != []
    ensures forall i :: 0 <= i < |es[1..]| ==> es[1..][i].key != es[0].key
  {
    forall i | 0 <= i < |es[1..]|
      ensures es[1..][i].key != es[0].key
    {
      SortedKeysDiffer(es, 0, i + 1);
    }
  }

  /** Removing an entry that no other before it shares its key with. */
  lemma {:induction false} RemoveAfter<V>(a: seq<Entry<V>>, e: Entry<V>, b: seq<Entry<V>>)
    requires forall i :: 0 <= i < |a| ==> a[i].key != e.key
    ensures Remove(a + ([e] + b), e.key) == a + b
  {
    if a == [] {
      assert a + ([e] + b) == [e] + b && a + b == b;
    } else {
      var rest := a[1..];
      RemoveAfter(rest, e, b);
      assert a + ([e] + b) == [a[0]] + (rest + ([e] + b));
      assert [a[0]] + (rest + b) == a + b;
    }
  }

  function Empty<N, V>(): Bucket<N, V> {
    Bucket(0, [], map[])
  }

  /** Every bucket of the tree keeps its keys in order. */
  ghost predicate Ordered<N, V>(b: Bucket<N, V>) {
    Sorted(b.entries) && forall n :: n in b.subs ==> Ordered(b.subs[n])
  }

  // ----- compaction

  /** Copies all values and nested buckets, nested sequences included, into a new bucket. */
  method CopyValuesOrBucket<N, V>(bW: Bucket<N, V>, bR: Bucket<N, V>) returns (w: Bucket<N, V>)
    requires Ordered(bR) && bW.entries == [] && bW.subs == map[]
    ensures w == bR.(sequence := bW.sequence)
    decreases bR
  {
    w := bW;
    for i := 0 to |bR.entries|
      invariant w == Bucket(bW.sequence, bR.entries[..i], map[])
    {
      var e := bR.entries[i];
      PutAtEnd(bR.entries[..i], e.key, e.value);
      w := w.(entries := Put(w.entries, e.key, e.value));
      assert bR.entries[..i + 1] == bR.entries[..i] + [Entry(e.key, e.value)];
    }
    assert bR.entries[..|bR.entries|] == bR.entries;
    var names := bR.subs.Keys;
    while names != {}
      invariant names <= bR.subs.Keys
      invariant w.sequence == bW.sequence && w.entries == bR.entries
      invariant w.subs.Keys == bR.subs.Keys - names
      invariant forall n :: n in w.subs ==> w.subs[n] == bR.subs[n]
    {
      var n :| n in names;
      var newBW: Bucket<N, V> := Empty().(sequence := bR.subs[n].sequence);
      newBW := CopyValuesOrBucket(newBW, bR.subs[n]);
      w := w.(subs := w.subs[n := newBW]);
      names := names - {n};
    }
  }

  /** The copy phase of `Compact`: the sequences of top-level buckets are not set. */
  function Compacted<N, V>(root: Bucket<N, V>): Bucket<N, V> {
    Bucket(0, [], map n | n in root.subs :: root.subs[n].(sequence := 0))
  }

  method Compact<N, V>(root: Bucket<N, V>) returns (copy: Bucket<N, V>)
    requires Ordered(root)
    ensures copy == Compacted(root)
  {
    copy := Empty();
    var names := root.subs.Keys;
    while names != {}
      invariant names <= root.subs.Keys
      invariant copy.sequence == 0 && copy.entries == []
      invariant copy.subs.Keys == root.subs.Keys - names
      invariant forall n :: n in copy.subs ==> copy.subs[n] == root.subs[n].(sequence := 0)
    {
      var n :| n in names;
      var bW := CopyValuesOrBucket(Empty(), root.subs[n]);
      copy := copy.(subs := copy.subs[n := bW]);
      names := names - {n};
    }
  }
}
