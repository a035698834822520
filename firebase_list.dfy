/**
 * The `FirebaseList` provider: the token it registers under and the
 * per-subscription list `arr` that its `child_added` and `child_moved`
 * handlers keep in step with the database's child events.
 */
module FirebaseList {
  import opened Wrappers
  import opened Js
  import opened Snapshots

  // ---------------------------------------------------------------------------
  // The provider token: `config.token || FirebaseList`
  // ---------------------------------------------------------------------------

  /** The `FirebaseList` function itself, the token used when none is configured. */
  const FirebaseListFunction: JsValue := Function("FirebaseList")

  /**
   * The part of `FirebaseListConfig` that decides the token. `path` only feeds
   * `new Firebase(config.path)`, a foreign SDK call; `query` is declared but never read.
   */
  datatype ListConfig = ListConfig(token: JsValue)

  /** The token, or the TypeError thrown by reading `token` of an undefined config. */
  datatype TokenResult = Token(value: JsValue) | TypeError

  /** The token the provider is registered under. */
  function ProviderToken(config: Option<ListConfig>): (r: TokenResult)
    ensures r.TypeError? <==> config.None?
    ensures r.Token? ==> Truthy(r.value)
    ensures r.Token? ==> r.value == config.value.token || r.value == FirebaseListFunction
    ensures r.Token? && Truthy(config.value.token) ==> r.value == config.value.token
  {
    match config
    case None => TypeError
    case Some(c) => Token(Or(c.token, FirebaseListFunction))
  }

  /** A configured token that is falsy is never used: every such config gets the default. */
  lemma FalsyTokenDefaults(c: ListConfig)
    requires !Truthy(c.token)
    ensures ProviderToken(Some(c)) == Token(FirebaseListFunction)
  {
  }

  // ---------------------------------------------------------------------------
  // child_added
  // ---------------------------------------------------------------------------

  /** A new list: `arr` with `child` appended; `arr` itself is a value and stays as it was. */
  function OnChildAdded<T>(arr: seq<T>, child: T): (r: seq<T>)
    ensures |r| == |arr| + 1
    ensures r[..|arr|] == arr && r[|arr|] == child
    ensures r != arr
  {
    arr + [child]
  }

  /** The two assertions made about `onChildAdded([1], 2)`. */
  lemma OnChildAddedExample()
    ensures OnChildAdded([1], 2) == [1, 2]
    ensures OnChildAdded([1], 2) != [1]
  {
  }

  // ---------------------------------------------------------------------------
  // child_moved: the `arr.reduce(..., [])` pass
  // ---------------------------------------------------------------------------

  /**
   * What one call of the reduce callback pushes onto the accumulator for the
   * entry `val` at index `i`, when `child` moved behind `prevKey`.
   */
  ghost function Emit<V>(val: Snapshot<V>, i: nat, child: Snapshot<V>, prevKey: JsValue): (r: seq<Snapshot<V>>)
  {
    if !Truthy(prevKey) && i == 0 then [child]
    else if Str(val.key) == prevKey then [val, child]
    else if val.key != child.key then [val]
    else []
  }

  /** The accumulator after the reduce has visited every entry of `s`, left to right. */
  ghost function Moved<V>(s: seq<Snapshot<V>>, child: Snapshot<V>, prevKey: JsValue): (r: seq<Snapshot<V>>)
    decreases |s|
  {
    if s == [] then []
    else Moved(s[..|s| - 1], child, prevKey) + Emit(s[|s| - 1], |s| - 1, child, prevKey)
  }

  /** The pass over one more entry of a prefix is the callback on that entry. */
  lemma MovedPrefix<V>(s: seq<Snapshot<V>>, i: nat, child: Snapshot<V>, prevKey: JsValue)
    requires i < |s|
    ensures Moved(s[..i + 1], child, prevKey) == Moved(s[..i], child, prevKey) + Emit(s[i], i, child, prevKey)
  {
    assert s[..i + 1][..i] == s[..i];
  }

  /** The reduce callback: pushes onto the accumulator what the entry `val` at index `i` contributes. */
  method ReduceCallback<V>(accumulator: seq<Snapshot<V>>, val: Snapshot<V>, i: nat, child: Snapshot<V>, prevKey: JsValue)
    returns (acc: seq<Snapshot<V>>)
    ensures acc == accumulator + Emit(val, i, child, prevKey)
  {
    acc := accumulator;
    if !Truthy(prevKey) && i == 0 {
      acc := acc + [child];
    } else if Str(val.key) == prevKey {
      acc := acc + [val];
      acc := acc + [child];
    } else if val.key != child.key {
      acc := acc + [val];
    }
  }

  /** The reduce itself: one pass over `arr`, left to right, from an empty accumulator. */
  method ReduceMoved<V>(arr: seq<Snapshot<V>>, child: Snapshot<V>, prevKey: JsValue)
    returns (acc: seq<Snapshot<V>>)
    ensures acc == Moved(arr, child, prevKey)
  {
    acc := [];
    var i := 0;
    while i < |arr|
      invariant 0 <= i <= |arr|
      invariant acc == Moved(arr[..i], child, prevKey)
    {
      MovedPrefix(arr, i, child, prevKey);
      acc := ReduceCallback(acc, arr[i], i, child, prevKey);
      i := i + 1;
    }
    assert arr[..|arr|] == arr;
  }

  // ---------------------------------------------------------------------------
  // The handlers' state
  // ---------------------------------------------------------------------------

  /** The list `arr` that one subscription of the provider's Observable maintains. */
  class ChildList<V> {
    var arr: seq<Snapshot<V>>

    /** A subscription starts from the empty list. */
    constructor ()
      ensures arr == []
    {
      arr := [];
    }

    /** The `child_added` handler: `arr.push(child)`. */
    method OnAdded(child: Snapshot<V>)
      modifies this
      ensures arr == OnChildAdded(old(arr), child)
    {
      arr := arr + [child];
    }

    /** The `child_moved` handler: `arr` is replaced by the result of the reduce. */
    method OnMoved(child: Snapshot<V>, prevKey: JsValue)
      modifies this
      ensures arr == Moved(old(arr), child, prevKey)
    {
      var next := ReduceMoved(arr, child, prevKey);
      arr := next;
    }
  }

  /** Two adds followed by moving the first behind the second. */
  method AddAddMove<V>(a: Snapshot<V>, b: Snapshot<V>) returns (r: seq<Snapshot<V>>)
    requires a.key != b.key && b.key != ""
    ensures r == [b, a]
  {
    var list := new ChildList<V>();
    list.OnAdded(a);
    list.OnAdded(b);
    assert list.arr == [a, b];
    list.OnMoved(a, Str(b.key));
    assert [a, b][..1] == [a] && [a][..0] == [];
    assert Moved([a], a, Str(b.key)) == [];
    assert Emit(b, 1, a, Str(b.key)) == [b, a];
    r := list.arr;
  }

  // ---------------------------------------------------------------------------
  // Properties of the move
  // ---------------------------------------------------------------------------

  /** Apart from index 0 with a falsy `prevKey`, the emitted entries other than the child are just `val`. */
  lemma EmitWithoutChild<V>(val: Snapshot<V>, i: nat, child: Snapshot<V>, prevKey: JsValue)
    requires i > 0 || Truthy(prevKey)
    ensures WithoutKey(Emit(val, i, child, prevKey), child.key) == WithoutKey([val], child.key)
  {
    WithoutKeySingleton(val, child.key);
    if Str(val.key) == prevKey {
      WithoutKeySingleton(child, child.key);
      WithoutKeyAppend([val], [child], child.key);
      assert [val] + [child] == [val, child];
    }
  }

  /** The move unfolds to the pass over all but the last entry, then the callback on the last. */
  lemma MovedLast<V>(s: seq<Snapshot<V>>, child: Snapshot<V>, prevKey: JsValue)
    requires s != []
    ensures Moved(s, child, prevKey)
         == Moved(s[..|s| - 1], child, prevKey) + Emit(s[|s| - 1], |s| - 1, child, prevKey)
  {
  }

  /** With a truthy `prevKey`, leaving the child's key aside, the move changes nothing. */
  lemma {:induction false} MovedKeepsOthersTruthy<V>(s: seq<Snapshot<V>>, child: Snapshot<V>, prevKey: JsValue)
    requires Truthy(prevKey)
    ensures WithoutKey(Moved(s, child, prevKey), child.key) == WithoutKey(s, child.key)
  {
    if s != [] {
      var n := |s| - 1;
      var t, x := s[..n], s[n];
      MovedKeepsOthersTruthy(t, child, prevKey);
      MovedLast(s, child, prevKey);
      WithoutKeyAppend(Moved(t, child, prevKey), Emit(x, n, child, prevKey), child.key);
      EmitWithoutChild(x, n, child, prevKey);
      assert s == t + [x];
      WithoutKeyAppend(t, [x], child.key);
    }
  }

  /** With a falsy `prevKey`, leaving the child's key aside, the move drops index 0 and changes nothing else. */
  lemma {:induction false} MovedKeepsOthersFalsy<V>(s: seq<Snapshot<V>>, child: Snapshot<V>, prevKey: JsValue)
    requires !Truthy(prevKey) && s != []
    ensures WithoutKey(Moved(s, child, prevKey), child.key) == WithoutKey(s[1..], child.key)
  {
    var n := |s| - 1;
    var t, x := s[..n], s[n];
    MovedLast(s, child, prevKey);
    if n == 0 {
      assert Moved(s, child, prevKey) == [child];
      WithoutKeySingleton(child, child.key);
      assert s[1..] == [];
    } else {
      MovedKeepsOthersFalsy(t, child, prevKey);
      WithoutKeyAppend(Moved(t, child, prevKey), Emit(x, n, child, prevKey), child.key);
      EmitWithoutChild(x, n, child, prevKey);
      assert s[1..] == t[1..] + [x];
      WithoutKeyAppend(t[1..], [x], child.key);
    }
  }

  /**
   * Entries with another key than the moved child keep their relative order:
   * leaving the child's key aside, the move returns the list unchanged, except
   * that with a falsy `prevKey` the entry at index 0 is gone.
   */
  lemma MovedKeepsOthers<V>(s: seq<Snapshot<V>>, child: Snapshot<V>, prevKey: JsValue)
    ensures WithoutKey(Moved(s, child, prevKey), child.key)
         == if !Truthy(prevKey) && s != [] then WithoutKey(s[1..], child.key) else WithoutKey(s, child.key)
  {
    if Truthy(prevKey) {
      MovedKeepsOthersTruthy(s, child, prevKey);
    } else if s != [] {
      MovedKeepsOthersFalsy(s, child, prevKey);
    }
  }

  /**
   * Unless `prevKey` is the child's own key, the move never copies an old
   * entry carrying the child's key: every such entry of the result is the child.
   */
  lemma {:induction false} MovedNeverCopiesChildKey<V>(s: seq<Snapshot<V>>, child: Snapshot<V>, prevKey: JsValue)
    requires prevKey != Str(child.key)
    ensures forall x :: x in Moved(s, child, prevKey) && x.key == child.key ==> x == child
  {
    if s != [] {
      MovedNeverCopiesChildKey(s[..|s| - 1], child, prevKey);
    }
  }

  /** The child directly follows every entry keyed `p`, and is found nowhere else. */
  ghost predicate ChildBehind<V>(r: seq<Snapshot<V>>, p: string, child: Snapshot<V>)
  {
    && (forall m :: 0 <= m < |r| && r[m].key == p ==> m + 1 < |r| && r[m + 1] == child)
    && (forall m :: 0 <= m < |r| && r[m].key == child.key ==> r[m] == child && 0 < m && r[m - 1].key == p)
  }

  /** Appending what the callback emits for one entry keeps `ChildBehind`. */
  lemma ChildBehindEmit<V>(r: seq<Snapshot<V>>, val: Snapshot<V>, i: nat, child: Snapshot<V>, p: string)
    requires p != "" && p != child.key
    requires ChildBehind(r, p, child)
    ensures ChildBehind(r + Emit(val, i, child, Str(p)), p, child)
  {
    var e := Emit(val, i, child, Str(p));
    var r' := r + e;
    forall m | 0 <= m < |r'| && r'[m].key == p ensures m + 1 < |r'| && r'[m + 1] == child {
      if m < |r| {
        assert r'[m] == r[m];
        assert r'[m + 1] == r[m + 1];
      } else {
        assert e == [val, child] && m == |r|;
      }
    }
    forall m | 0 <= m < |r'| && r'[m].key == child.key ensures r'[m] == child && 0 < m && r'[m - 1].key == p {
      if m < |r| {
        assert r'[m] == r[m] && r'[m - 1] == r[m - 1];
      } else {
        assert e == [val, child] && m == |r| + 1;
      }
    }
  }

  /**
   * With a truthy string `prevKey` `p` other than the child's key, the child is
   * placed immediately after each entry keyed `p`, and appears nowhere else.
   */
  lemma {:induction false} MovedPlacesChildBehind<V>(s: seq<Snapshot<V>>, child: Snapshot<V>, p: string)
    requires p != "" && p != child.key
    ensures ChildBehind(Moved(s, child, Str(p)), p, child)
  {
    if s != [] {
      MovedPlacesChildBehind(s[..|s| - 1], child, p);
      ChildBehindEmit(Moved(s[..|s| - 1], child, Str(p)), s[|s| - 1], |s| - 1, child, p);
    }
  }

  /** The child is inserted once per entry keyed `p`. */
  lemma {:induction false} MovedCountsChild<V>(s: seq<Snapshot<V>>, child: Snapshot<V>, p: string)
    requires p != "" && p != child.key
    ensures CountKey(Moved(s, child, Str(p)), child.key) == CountKey(s, p)
  {
    if s != [] {
      var n := |s| - 1;
      var t, x := s[..n], s[n];
      assert s == t + [x];
      MovedCountsChild(t, child, p);
      CountKeyAppend(Moved(t, child, Str(p)), Emit(x, n, child, Str(p)), child.key);
      CountKeyAppend(t, [x], p);
      assert [x][1..] == [];
      if x.key == p {
        assert Emit(x, n, child, Str(p)) == [x, child];
        assert [x, child][1..] == [child];
        assert [child][1..] == [];
        assert CountKey([child], child.key) == 1;
        assert CountKey([x, child], child.key) == 1;
        assert CountKey([x], p) == 1;
      } else if x.key != child.key {
        assert Emit(x, n, child, Str(p)) == [x];
      } else {
        assert Emit(x, n, child, Str(p)) == [];
      }
    }
  }

  /** The length after the move: entries keyed like the child go, and one child comes per entry keyed `p`. */
  lemma MovedLength<V>(s: seq<Snapshot<V>>, child: Snapshot<V>, p: string)
    requires p != "" && p != child.key
    ensures |Moved(s, child, Str(p))| == |s| - CountKey(s, child.key) + CountKey(s, p)
  {
    var r := Moved(s, child, Str(p));
    MovedKeepsOthersTruthy(s, child, Str(p));
    MovedCountsChild(s, child, p);
    WithoutKeyLength(r, child.key);
    WithoutKeyLength(s, child.key);
  }

  /**
   * Moving a child behind a present key `p` keeps the key set, provided the
   * child's key was present before: the child leaves and comes back.
   */
  lemma MovedPreservesKeySet<V>(s: seq<Snapshot<V>>, child: Snapshot<V>, p: string)
    requires p != "" && p != child.key
    requires p in KeySet(s) && child.key in KeySet(s)
    ensures KeySet(Moved(s, child, Str(p))) == KeySet(s)
  {
    var r := Moved(s, child, Str(p));
    MovedCountsChild(s, child, p);
    CountKeyPositive(s, p);
    CountKeyPositive(r, child.key);
    MovedKeepsOthersTruthy(s, child, Str(p));
    assert WithoutKey(r, child.key) == WithoutKey(s, child.key);
    KeySetWithoutKey(r, child.key);
    KeySetWithoutKey(s, child.key);
    assert KeySet(r) - {child.key} == KeySet(s) - {child.key};
    assert CountKey(r, child.key) > 0;
    assert child.key in KeySet(r);
    assert KeySet(r) == (KeySet(r) - {child.key}) + {child.key};
    assert KeySet(s) == (KeySet(s) - {child.key}) + {child.key};
  }

  /**
   * Moving a present child behind another present key of a list with unique
   * keys keeps the length, and the child occurs exactly once.
   */
  lemma MovedWithUniqueKeys<V>(s: seq<Snapshot<V>>, child: Snapshot<V>, p: string)
    requires UniqueKeys(s)
    requires p != "" && p != child.key
    requires p in KeySet(s) && child.key in KeySet(s)
    ensures |Moved(s, child, Str(p))| == |s|
    ensures CountKey(Moved(s, child, Str(p)), child.key) == 1
  {
    UniqueCountKey(s, child.key);
    UniqueCountKey(s, p);
    MovedLength(s, child, p);
    MovedCountsChild(s, child, p);
  }

  /** If `p` is present (and is not the child's key), some entry keyed `p` is followed by the child. */
  lemma MovedChildAfterPrev<V>(s: seq<Snapshot<V>>, child: Snapshot<V>, p: string)
    requires p != "" && p != child.key && p in KeySet(s)
    ensures exists m :: 0 <= m < |Moved(s, child, Str(p))| - 1
                     && Moved(s, child, Str(p))[m].key == p && Moved(s, child, Str(p))[m + 1] == child
  {
    var r := Moved(s, child, Str(p));
    assert p in KeySet(r) by {
      MovedKeepsOthersTruthy(s, child, Str(p));
      KeySetWithoutKey(r, child.key);
      KeySetWithoutKey(s, child.key);
    }
    var m := IndexOfKey(r, p);
    MovedPlacesChildBehind(s, child, p);
    assert m + 1 < |r| && r[m + 1] == child;
  }

  /** With a falsy `prevKey`, a non-empty list starts with the child after the move. */
  lemma {:induction false} MovedFalsyFront<V>(s: seq<Snapshot<V>>, child: Snapshot<V>, prevKey: JsValue)
    requires !Truthy(prevKey) && s != []
    ensures Moved(s, child, prevKey) != [] && Moved(s, child, prevKey)[0] == child
  {
    if |s| > 1 {
      MovedFalsyFront(s[..|s| - 1], child, prevKey);
    }
  }

  /**
   * With a falsy `prevKey`, the entry that was at index 0 is replaced, not
   * kept: if keys are unique and it is not the child, its key is gone.
   */
  lemma MovedFalsyDropsFirst<V>(s: seq<Snapshot<V>>, child: Snapshot<V>, prevKey: JsValue)
    requires !Truthy(prevKey) && s != []
    requires UniqueKeys(s) && s[0].key != child.key
    ensures s[0].key !in KeySet(Moved(s, child, prevKey))
  {
    var r := Moved(s, child, prevKey);
    var k0 := s[0].key;
    MovedKeepsOthersFalsy(s, child, prevKey);
    assert k0 !in KeySet(WithoutKey(r, child.key)) by {
      KeySetWithoutKey(s[1..], child.key);
      UniqueHeadKey(s);
    }
    KeySetWithoutKey(r, child.key);
  }

  /** The callback on an entry whose key is not `prevKey`, away from the index-0 falsy case. */
  lemma EmitNoAnchor<V>(val: Snapshot<V>, i: nat, child: Snapshot<V>, prevKey: JsValue)
    requires Str(val.key) != prevKey
    requires i > 0 || Truthy(prevKey)
    ensures Emit(val, i, child, prevKey) == WithoutKey([val], child.key)
  {
    WithoutKeySingleton(val, child.key);
  }

  /** With a truthy `prevKey` that no key equals, the move removes the child's key and nothing else. */
  lemma {:induction false} MovedWithoutAnchorTruthy<V>(s: seq<Snapshot<V>>, child: Snapshot<V>, prevKey: JsValue)
    requires Truthy(prevKey)
    requires forall x :: x in s ==> Str(x.key) != prevKey
    ensures Moved(s, child, prevKey) == WithoutKey(s, child.key)
  {
    if s != [] {
      var n := |s| - 1;
      var t, x := s[..n], s[n];
      assert s == t + [x];
      assert forall y :: y in t ==> y in s;
      MovedWithoutAnchorTruthy(t, child, prevKey);
      MovedLast(s, child, prevKey);
      EmitNoAnchor(x, n, child, prevKey);
      WithoutKeyAppend(t, [x], child.key);
    }
  }

  /** With a falsy `prevKey` that no key equals, the child replaces index 0 and its key goes elsewhere. */
  lemma {:induction false} MovedWithoutAnchorFalsy<V>(s: seq<Snapshot<V>>, child: Snapshot<V>, prevKey: JsValue)
    requires !Truthy(prevKey) && s != []
    requires forall x :: x in s ==> Str(x.key) != prevKey
    ensures Moved(s, child, prevKey) == [child] + WithoutKey(s[1..], child.key)
  {
    var n := |s| - 1;
    var t, x := s[..n], s[n];
    MovedLast(s, child, prevKey);
    if n == 0 {
      assert s[1..] == [];
    } else {
      assert s == t + [x];
      assert forall y :: y in t ==> y in s;
      MovedWithoutAnchorFalsy(t, child, prevKey);
      EmitNoAnchor(x, n, child, prevKey);
      assert s[1..] == t[1..] + [x];
      WithoutKeyAppend(t[1..], [x], child.key);
    }
  }

  /**
   * When no entry's key equals `prevKey`, the move yields the entries whose
   * key is not the child's, in order; with a falsy `prevKey` on a non-empty
   * list, the child replaces index 0 and is followed by those entries after it.
   */
  lemma MovedWithoutAnchor<V>(s: seq<Snapshot<V>>, child: Snapshot<V>, prevKey: JsValue)
    requires forall x :: x in s ==> Str(x.key) != prevKey
    ensures Moved(s, child, prevKey)
         == if !Truthy(prevKey) && s != [] then [child] + WithoutKey(s[1..], child.key)
            else WithoutKey(s, child.key)
  {
    if Truthy(prevKey) {
      MovedWithoutAnchorTruthy(s, child, prevKey);
    } else if s != [] {
      MovedWithoutAnchorFalsy(s, child, prevKey);
    }
  }

  /** A truthy `prevKey` that matches no entry drops the moved child altogether. */
  lemma UnknownPrevKeyDropsChild<V>(s: seq<Snapshot<V>>, child: Snapshot<V>, prevKey: JsValue)
    requires Truthy(prevKey)
    requires forall x :: x in s ==> Str(x.key) != prevKey
    ensures child.key !in KeySet(Moved(s, child, prevKey))
    ensures |Moved(s, child, prevKey)| == |s| - CountKey(s, child.key)
  {
    MovedWithoutAnchor(s, child, prevKey);
    KeySetWithoutKey(s, child.key);
    WithoutKeyLength(s, child.key);
  }

  /** Moving within an empty list yields the empty list, whatever `prevKey` is. */
  lemma MovedEmpty<V>(child: Snapshot<V>, prevKey: JsValue)
    ensures Moved([], child, prevKey) == []
  {
  }

  /**
   * "Move to front" replaces the first entry: moving `b` to the front of
   * `[a, b]` gives `[b]`, not `[b, a]`.
   */
  lemma MoveToFrontOfTwo<V>(a: Snapshot<V>, b: Snapshot<V>)
    requires a.key != b.key
    ensures Moved([a, b], b, Null) == [b]
  {
    assert [a, b][..1] == [a] && [a][..0] == [];
    assert Moved([a], b, Null) == [b];
    assert Emit(b, 1, b, Null) == [];
  }
}
