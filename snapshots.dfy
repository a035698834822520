/**
 * Child snapshots as the realtime database delivers them, and the
 * key-based views of a list of them used to state list properties.
 */
module Snapshots {

  /** A child snapshot: its key (`key()` / `.key`) and an opaque value. */
  datatype Snapshot<V> = Snapshot(key: string, value: V)

  /** The entries of `s` whose key is not `k`, in their original order. */
  ghost function WithoutKey<V>(s: seq<Snapshot<V>>, k: string): (r: seq<Snapshot<V>>)
  {
    if s == [] then []
    else (if s[0].key == k then [] else [s[0]]) + WithoutKey(s[1..], k)
  }

  /** How many entries of `s` have key `k`. */
  ghost function CountKey<V>(s: seq<Snapshot<V>>, k: string): (n: nat)
  {
    if s == [] then 0
    else (if s[0].key == k then 1 else 0) + CountKey(s[1..], k)
  }

  /** The keys that occur in `s`. */
  ghost function KeySet<V>(s: seq<Snapshot<V>>): (keys: set<string>)
  {
    set x | x in s :: x.key
  }

  /** No two entries of `s` share a key. */
  ghost predicate UniqueKeys<V>(s: seq<Snapshot<V>>)
  {
    forall i, j :: 0 <= i < j < |s| ==> s[i].key != s[j].key
  }

  lemma {:induction false} WithoutKeyAppend<V>(a: seq<Snapshot<V>>, b: seq<Snapshot<V>>, k: string)
    ensures WithoutKey(a + b, k) == WithoutKey(a, k) + WithoutKey(b, k)
  {
    if a != [] {
      assert (a + b)[1..] == a[1..] + b;
      WithoutKeyAppend(a[1..], b, k);
    } else {
      assert a + b == b;
    }
  }

  lemma WithoutKeySingleton<V>(x: Snapshot<V>, k: string)
    ensures WithoutKey([x], k) == if x.key == k then [] else [x]
  {
    assert [x][1..] == [];
  }

  lemma {:induction false} CountKeyAppend<V>(a: seq<Snapshot<V>>, b: seq<Snapshot<V>>, k: string)
    ensures CountKey(a + b, k) == CountKey(a, k) + CountKey(b, k)
  {
    if a != [] {
      assert (a + b)[1..] == a[1..] + b;
      CountKeyAppend(a[1..], b, k);
    } else {
      assert a + b == b;
    }
  }

  /** An entry survives `WithoutKey` exactly when it is in the list and has another key. */
  lemma {:induction false} WithoutKeyMember<V>(s: seq<Snapshot<V>>, k: string, x: Snapshot<V>)
    ensures x in WithoutKey(s, k) <==> x in s && x.key != k
  {
    if s != [] {
      WithoutKeyMember(s[1..], k, x);
      assert s == [s[0]] + s[1..];
    }
  }

  /** `WithoutKey` drops exactly the `CountKey` entries with the key. */
  lemma {:induction false} WithoutKeyLength<V>(s: seq<Snapshot<V>>, k: string)
    ensures |WithoutKey(s, k)| + CountKey(s, k) == |s|
  {
    if s != [] {
      WithoutKeyLength(s[1..], k);
    }
  }

  /** A key is present exactly when it is counted at least once. */
  lemma {:induction false} CountKeyPositive<V>(s: seq<Snapshot<V>>, k: string)
    ensures CountKey(s, k) > 0 <==> k in KeySet(s)
  {
    if s != [] {
      CountKeyPositive(s[1..], k);
      assert s == [s[0]] + s[1..];
      assert KeySet(s) == {s[0].key} + KeySet(s[1..]);
    }
  }

  /** With unique keys, every key is counted at most once. */
  lemma {:induction false} UniqueCountKey<V>(s: seq<Snapshot<V>>, k: string)
    requires UniqueKeys(s)
    ensures CountKey(s, k) == if k in KeySet(s) then 1 else 0
  {
    if s != [] {
      assert UniqueKeys(s[1..]) by {
        forall i, j | 0 <= i < j < |s[1..]| ensures s[1..][i].key != s[1..][j].key {
          assert s[1..][i] == s[i + 1] && s[1..][j] == s[j + 1];
        }
      }
      UniqueCountKey(s[1..], k);
      CountKeyPositive(s[1..], k);
      CountKeyPositive(s, k);
    }
  }

  /** The index of the first entry keyed `k`. */
  ghost function IndexOfKey<V>(s: seq<Snapshot<V>>, k: string): (m: nat)
    requires k in KeySet(s)
    ensures m < |s| && s[m].key == k
  {
    if s[0].key == k then 0
    else
      assert k in KeySet(s[1..]) by {
        var x :| x in s && x.key == k;
        assert x != s[0] && x in s[1..];
      }
      1 + IndexOfKey(s[1..], k)
  }

  /** With unique keys, the first entry's key occurs nowhere in the rest. */
  lemma UniqueHeadKey<V>(s: seq<Snapshot<V>>)
    requires UniqueKeys(s) && s != []
    ensures s[0].key !in KeySet(s[1..])
  {
  }

  /** `WithoutKey` removes exactly the key `k` from the key set. */
  lemma {:induction false} KeySetWithoutKey<V>(s: seq<Snapshot<V>>, k: string)
    ensures KeySet(WithoutKey(s, k)) == KeySet(s) - {k}
  {
    forall key | key in KeySet(s) - {k} ensures key in KeySet(WithoutKey(s, k)) {
      var x :| x in s && x.key == key;
      WithoutKeyMember(s, k, x);
    }
    forall key | key in KeySet(WithoutKey(s, k)) ensures key in KeySet(s) - {k} {
      var x :| x in WithoutKey(s, k) && x.key == key;
      WithoutKeyMember(s, k, x);
    }
  }
}
