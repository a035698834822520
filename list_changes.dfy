/**
 * `listChanges`: the `scan` reducer that folds the merged stream of child
 * changes into the current list of changes, starting from `[]`.
 */
module ListChanges {
  import opened Snapshots

  /** One change from the merged child-event stream: its event name and the snapshot it carries. */
  datatype SnapshotChange<V> = SnapshotChange(event: string, snapshot: Snapshot<V>)

  /** `current.filter(x => x.snapshot.key !== key)`. */
  function RemoveKey<V>(current: seq<SnapshotChange<V>>, key: string): (r: seq<SnapshotChange<V>>)
  {
    if current == [] then []
    else (if current[0].snapshot.key != key then [current[0]] else []) + RemoveKey(current[1..], key)
  }

  /** The scan's accumulator function: the list after `change`, given the list before it. */
  function Step<V>(current: seq<SnapshotChange<V>>, change: SnapshotChange<V>): (r: seq<SnapshotChange<V>>)
  {
    match change.event
    case "added" => current + [change]
    case "removed" => RemoveKey(current, change.snapshot.key)
    case _ => current
  }

  /** The accumulator after folding `changes` into `seed`, in arrival order. */
  function Fold<V>(seed: seq<SnapshotChange<V>>, changes: seq<SnapshotChange<V>>): (r: seq<SnapshotChange<V>>)
    decreases |changes|
  {
    if changes == [] then seed
    else Step(Fold(seed, changes[..|changes| - 1]), changes[|changes| - 1])
  }

  /** The list after `changes`, folded from the `[]` seed. */
  function Current<V>(changes: seq<SnapshotChange<V>>): (r: seq<SnapshotChange<V>>)
  {
    Fold([], changes)
  }

  /**
   * What `scan` emits: one list per change, each the step applied to the
   * previous emission (to `[]` for the first), and each the fold of the
   * changes seen so far.
   */
  function Scan<V>(changes: seq<SnapshotChange<V>>): (r: seq<seq<SnapshotChange<V>>>)
    decreases |changes|
    ensures |r| == |changes|
    ensures |r| > 0 ==> r[0] == Step([], changes[0])
    ensures forall i :: 0 < i < |r| ==> r[i] == Step(r[i - 1], changes[i])
  {
    if changes == [] then []
    else
      var n := |changes| - 1;
      var prev := Scan(changes[..n]);
      var r := prev + [Step(if n == 0 then [] else prev[n - 1], changes[n])];
      assert forall i :: 0 <= i < n ==> changes[..n][i] == changes[i] && r[i] == prev[i];
      r
  }

  /** Each emission of the scan is the fold of the changes seen up to and including its own. */
  lemma {:induction false} ScanEmitsCurrent<V>(changes: seq<SnapshotChange<V>>, i: nat)
    requires i < |changes|
    ensures |Scan(changes)| == |changes| && Scan(changes)[i] == Current(changes[..i + 1])
  {
    var r := Scan(changes);
    if i > 0 {
      ScanEmitsCurrent(changes, i - 1);
      assert changes[..i + 1][..i] == changes[..i];
      assert changes[..i + 1][i] == changes[i];
    } else {
      assert changes[..1][..0] == [];
      assert changes[..1][0] == changes[0];
      assert Fold([], changes[..1][..0]) == [];
      assert Current(changes[..1]) == Fold([], changes[..1]) == Step([], changes[0]);
    }
  }

  // ---------------------------------------------------------------------------
  // The seed and the three branches of the step
  // ---------------------------------------------------------------------------

  /** Before any change the list is empty. */
  lemma CurrentSeed<V>()
    ensures Current<V>([]) == []
  {
  }

  /** An `'added'` change is appended, with no check for a duplicate key. */
  lemma StepAdded<V>(current: seq<SnapshotChange<V>>, change: SnapshotChange<V>)
    requires change.event == "added"
    ensures |Step(current, change)| == |current| + 1
    ensures Step(current, change)[..|current|] == current
    ensures Step(current, change)[|current|] == change
    ensures multiset(Step(current, change))[change] == multiset(current)[change] + 1
  {
    assert Step(current, change) == current + [change];
  }

  /** Any event other than `'added'` and `'removed'` leaves the list as it was. */
  lemma StepOther<V>(current: seq<SnapshotChange<V>>, change: SnapshotChange<V>)
    requires change.event != "added" && change.event != "removed"
    ensures Step(current, change) == current
  {
  }

  /** `a` occurs in `b` in the same order, possibly with entries of `b` left out. */
  ghost predicate IsSubsequence<T>(a: seq<T>, b: seq<T>)
    decreases |b|
  {
    if a == [] then true
    else if b == [] then false
    else (a[0] == b[0] && IsSubsequence(a[1..], b[1..])) || IsSubsequence(a, b[1..])
  }

  /** After removing a key, no entry carries it. */
  lemma {:induction false} RemoveKeyAbsent<V>(current: seq<SnapshotChange<V>>, key: string)
    ensures forall x :: x in RemoveKey(current, key) ==> x.snapshot.key != key
  {
    if current != [] {
      RemoveKeyAbsent(current[1..], key);
    }
  }

  /** Removal keeps the order of what it keeps. */
  lemma {:induction false} RemoveKeySubsequence<V>(current: seq<SnapshotChange<V>>, key: string)
    ensures IsSubsequence(RemoveKey(current, key), current)
    decreases |current|
  {
    if current != [] {
      RemoveKeySubsequence(current[1..], key);
      var rest := RemoveKey(current[1..], key);
      if current[0].snapshot.key != key {
        assert RemoveKey(current, key) == [current[0]] + rest;
        assert ([current[0]] + rest)[1..] == rest;
      } else {
        assert RemoveKey(current, key) == rest;
        if rest != [] {
          assert IsSubsequence(rest, current[1..]);
        }
      }
    }
  }

  /** Removal keeps every entry with another key, as often as it occurred, and no entry with the key. */
  lemma {:induction false} RemoveKeyMultiplicity<V>(current: seq<SnapshotChange<V>>, key: string, x: SnapshotChange<V>)
    ensures multiset(RemoveKey(current, key))[x] == if x.snapshot.key == key then 0 else multiset(current)[x]
  {
    if current != [] {
      RemoveKeyMultiplicity(current[1..], key, x);
      assert current == [current[0]] + current[1..];
    }
  }

  /** Removing a key that no entry carries returns an equal list. */
  lemma {:induction false} RemoveKeyNotPresent<V>(current: seq<SnapshotChange<V>>, key: string)
    requires forall x :: x in current ==> x.snapshot.key != key
    ensures RemoveKey(current, key) == current
  {
    if current != [] {
      assert forall x :: x in current[1..] ==> x in current;
      RemoveKeyNotPresent(current[1..], key);
      assert current == [current[0]] + current[1..];
    }
  }

  /** Removing the same key twice is the same as removing it once. */
  lemma RemoveKeyIdempotent<V>(current: seq<SnapshotChange<V>>, key: string)
    ensures RemoveKey(RemoveKey(current, key), key) == RemoveKey(current, key)
  {
    RemoveKeyAbsent(current, key);
    RemoveKeyNotPresent(RemoveKey(current, key), key);
  }

  /**
   * A `'removed'` step gives an order-preserving subsequence of `current`
   * with every entry of another key kept and none of the removed key left.
   */
  lemma StepRemoved<V>(current: seq<SnapshotChange<V>>, change: SnapshotChange<V>)
    requires change.event == "removed"
    ensures IsSubsequence(Step(current, change), current)
    ensures forall x :: x in Step(current, change) ==> x.snapshot.key != change.snapshot.key
    ensures forall x :: multiset(Step(current, change))[x]
                     == if x.snapshot.key == change.snapshot.key then 0 else multiset(current)[x]
    ensures Step(Step(current, change), change) == Step(current, change)
  {
    var key := change.snapshot.key;
    RemoveKeySubsequence(current, key);
    RemoveKeyAbsent(current, key);
    forall x ensures multiset(RemoveKey(current, key))[x] == if x.snapshot.key == key then 0 else multiset(current)[x] {
      RemoveKeyMultiplicity(current, key, x);
    }
    RemoveKeyIdempotent(current, key);
  }

  // ---------------------------------------------------------------------------
  // The fold
  // ---------------------------------------------------------------------------

  /** Folding two stretches of changes is folding the second into the result of the first. */
  lemma {:induction false} FoldAppend<V>(seed: seq<SnapshotChange<V>>, a: seq<SnapshotChange<V>>, b: seq<SnapshotChange<V>>)
    ensures Fold(seed, a + b) == Fold(Fold(seed, a), b)
    decreases |b|
  {
    if b == [] {
      assert a + b == a;
    } else {
      var n := |b| - 1;
      assert (a + b)[..|a + b| - 1] == a + b[..n];
      assert (a + b)[|a + b| - 1] == b[n];
      FoldAppend(seed, a, b[..n]);
    }
  }

  /** With only `'added'` changes, the list is the changes themselves, in arrival order. */
  lemma {:induction false} CurrentOfAdds<V>(changes: seq<SnapshotChange<V>>)
    requires forall i :: 0 <= i < |changes| ==> changes[i].event == "added"
    ensures Current(changes) == changes
  {
    if changes != [] {
      var n := |changes| - 1;
      CurrentOfAdds(changes[..n]);
      assert changes[..n] + [changes[n]] == changes;
    }
  }

  /** The change removes key `key`. */
  ghost predicate RemovesKey<V>(change: SnapshotChange<V>, key: string)
  {
    change.event == "removed" && change.snapshot.key == key
  }

  /** `x` was added at index `i` and no later change removed its key. */
  ghost predicate AddedAndKept<V>(changes: seq<SnapshotChange<V>>, i: int, x: SnapshotChange<V>)
  {
    && 0 <= i < |changes|
    && changes[i] == x
    && x.event == "added"
    && forall j :: i < j < |changes| ==> !RemovesKey(changes[j], x.snapshot.key)
  }

  /** An entry is in the list after one step exactly when it was kept by the step or is the added change. */
  lemma StepMember<V>(current: seq<SnapshotChange<V>>, c: SnapshotChange<V>, x: SnapshotChange<V>)
    ensures x in Step(current, c)
        <==> (x in current && !RemovesKey(c, x.snapshot.key)) || (x == c && c.event == "added")
  {
    if c.event == "removed" {
      RemoveKeyMultiplicity(current, c.snapshot.key, x);
    }
  }

  /** How `AddedAndKept` changes when one more change arrives. */
  lemma AddedAndKeptExtend<V>(before: seq<SnapshotChange<V>>, c: SnapshotChange<V>, i: int, x: SnapshotChange<V>)
    requires 0 <= i <= |before|
    ensures i < |before| ==>
              (AddedAndKept(before + [c], i, x) <==> AddedAndKept(before, i, x) && !RemovesKey(c, x.snapshot.key))
    ensures i == |before| ==> (AddedAndKept(before + [c], i, x) <==> x == c && c.event == "added")
  {
    var changes := before + [c];
    assert forall j :: 0 <= j < |before| ==> changes[j] == before[j];
    assert changes[|before|] == c;
  }

  /**
   * The list holds exactly the changes that were added and whose key was
   * not removed afterwards.
   */
  lemma {:induction false} CurrentMembership<V>(changes: seq<SnapshotChange<V>>, x: SnapshotChange<V>)
    ensures x in Current(changes) <==> exists i :: AddedAndKept(changes, i, x)
  {
    if changes != [] {
      var n := |changes| - 1;
      var before, c := changes[..n], changes[n];
      assert changes == before + [c];
      CurrentMembership(before, x);
      StepMember(Current(before), c, x);
      assert Current(changes) == Step(Current(before), c);
      AddedAndKeptExtend(before, c, n, x);
      if x in Current(changes) {
        if x in Current(before) && !RemovesKey(c, x.snapshot.key) {
          var i :| AddedAndKept(before, i, x);
          AddedAndKeptExtend(before, c, i, x);
        }
      }
      if i :| AddedAndKept(changes, i, x) {
        AddedAndKeptExtend(before, c, i, x);
      }
    }
  }

  /**
   * Two adds, a move of the first behind the second (ignored by the step),
   * then removing the second: the list ends with the first add alone.
   */
  lemma AddAddMoveRemove<V>(a: Snapshot<V>, b: Snapshot<V>)
    requires a.key != b.key
    ensures Current([SnapshotChange("added", a), SnapshotChange("added", b),
                     SnapshotChange("moved", a), SnapshotChange("removed", b)])
         == [SnapshotChange("added", a)]
  {
    var c0, c1, c2, c3 := SnapshotChange("added", a), SnapshotChange("added", b),
                          SnapshotChange("moved", a), SnapshotChange("removed", b);
    assert "moved"[0] != "added"[0] && "moved"[0] != "removed"[0];
    assert Step([], c0) == [c0];
    assert Step([c0], c1) == [c0, c1];
    assert Step([c0, c1], c2) == [c0, c1];
    assert [c0, c1][1..] == [c1] && [c1][1..] == [];
    assert RemoveKey([c1], b.key) == [];
    assert Step([c0, c1], c3) == [c0];
    FoldAppend([], [c0], [c1]);
    FoldAppend([], [c0, c1], [c2]);
    FoldAppend([], [c0, c1, c2], [c3]);
    assert [c0] + [c1] == [c0, c1];
    assert [c0, c1] + [c2] == [c0, c1, c2];
    assert [c0, c1, c2] + [c3] == [c0, c1, c2, c3];
  }
}
