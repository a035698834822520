# Ordered child-list reducers of angular_fire, in Dafny

This project models the two reducers that keep a client-side ordered list in
step with a realtime database's stream of child events:

* the `FirebaseList` provider (`src/providers/firebase_list.ts`). It registers
  under a token chosen by `config.token || FirebaseList`. Its list `arr` grows
  through the `child_added` handler (`arr.push(child)`). The `child_moved`
  handler rebuilds `arr` in a single `reduce` pass that is keyed on `key()` and
  places the moved child after the entry whose key equals `prevKey`. The pure
  helper `onChildAdded`, whose behaviour the spec file asserts, is modelled
  alongside;
* the `scan` reducer inside `listChanges` (`src/database/list/changes.ts`).
  It folds the merged stream of `SnapshotChange`s into a list, starting from
  `[]`. `'added'` appends, `'removed'` filters out every entry with the removed
  snapshot's key, and any other event leaves the list as it is.

Files:

* `wrappers.dfy`: `Option`, for TypeScript's optional values.
* `js.dfy`: the JavaScript values the handlers test (`JsValue`), truthiness
  (`Truthy`) and `||` (`Or`).
* `snapshots.dfy`: a child `Snapshot` (a key and an opaque value), with
  key-based views used to state list properties: `WithoutKey`, `CountKey`,
  `KeySet`, `UniqueKeys` and their lemmas.
* `firebase_list.dfy`: the token rule, `OnChildAdded`, the move pass as a
  specification (`Emit`, `Moved`) and as a loop (`ReduceMoved`, calling
  `ReduceCallback` once per entry), and the class
  `ChildList`, whose field `arr` is updated by `OnAdded` and `OnMoved`. It also
  holds the lemmas about the move.
* `list_changes.dfy`: `SnapshotChange`, the filter `RemoveKey`, the step
  `Step`, the fold `Fold`/`Current` from the `[]` seed, the scan's emissions
  `Scan`, and their lemmas.

Modelling decisions:

* `prevKey` has type `any` in the source. It is a `JsValue` here:
  * `!prevKey` is `!Truthy(prevKey)`;
  * `val.key() === prevKey` is `prevKey == Str(val.key)`.
* The model keeps two behaviours of the code as written:
  * With a falsy `prevKey`, index 0 of the list is *replaced* by the child
    (line 24). The entry that was there is not copied.
  * With a truthy `prevKey` that matches no key, the child is dropped.
* Read as "move to front", moving `B` to the front of `[A, B]` would give
  `[B, A]`. The code gives `[B]`, and the model follows the code
  (`MoveToFrontOfTwo`).
* The token does not fall back to the path. The code (line 13) falls back to
  the `FirebaseList` function only, and the model follows the code. An undefined `config` makes reading `config.token` throw a
  TypeError. This is modelled as `TokenResult.TypeError`.
* At this revision `firebase_list.ts` does not define `onChildAdded`. Only
  `firebase_list.spec.ts` imports it and asserts its behaviour (lines 56-65).
  `OnChildAdded` is modelled from those assertions, and `ChildList.OnAdded` is
  stated in terms of it.
* Lists are Dafny values, so the model cannot tell array identity apart. The
  source's default branch returns `current` itself
  (src/database/list/changes.ts:21), and `arr.push` changes `arr` in place
  (src/providers/firebase_list.ts:19). In the model, both are simply the list
  that each contract states in terms of the old one.

## Model

| member | source | states |
|---|---|---|
| `FirebaseList.ProviderToken` | src/providers/firebase_list.ts:13 | an undefined config throws (TypeError); otherwise the token is truthy, is either the configured token or the `FirebaseList` default, and is the configured token whenever that is truthy |
| `FirebaseList.FalsyTokenDefaults` | src/providers/firebase_list.ts:13 | every config whose token is falsy gets the `FirebaseList` default |
| `FirebaseList.OnChildAdded` | src/providers/firebase_list.spec.ts:56-65 | the result is one longer, keeps the input as its prefix, has the child last, and differs from the input |
| `FirebaseList.OnChildAddedExample` | src/providers/firebase_list.spec.ts:57-65 | `onChildAdded([1], 2)` is `[1, 2]` and not `[1]` |
| `FirebaseList.Emit` | src/providers/firebase_list.ts:24-31 | definition of one call of the reduce callback (what it pushes for the entry at index `i`); pinned down by `ReduceCallback`, `EmitWithoutChild` and `EmitNoAnchor` |
| `FirebaseList.Moved` | src/providers/firebase_list.ts:23-33 | definition of the whole `arr.reduce(..., [])` as the callback's emissions concatenated left to right; pinned down by `MovedKeepsOthers`, `MovedPlacesChildBehind`, `MovedWithoutAnchor` and `MovedFalsyFront`, and computed by `ReduceMoved` |
| `FirebaseList.ReduceCallback` | src/providers/firebase_list.ts:23-32 | one callback call extends the accumulator by exactly what `Emit` says: the child alone at index 0 under a falsy `prevKey`, the entry then the child when its key equals `prevKey`, the entry alone when its key is not the child's, nothing otherwise |
| `FirebaseList.ReduceMoved` | src/providers/firebase_list.ts:23-33 | the single left-to-right pass pushing into a fresh accumulator computes `Moved(arr, child, prevKey)` |
| `FirebaseList.ChildList.constructor` | src/providers/firebase_list.ts:16 | a subscription's list starts empty |
| `FirebaseList.ChildList.OnAdded` | src/providers/firebase_list.ts:18-21 | `child_added` makes `arr` the old list with the child appended (`OnChildAdded`) |
| `FirebaseList.ChildList.OnMoved` | src/providers/firebase_list.ts:22-35 | `child_moved` replaces `arr` by the result of the pass over the old list |
| `FirebaseList.AddAddMove` | src/providers/firebase_list.ts:18-35 | adding `a`, adding `b`, then moving `a` behind `b`'s key leaves `[b, a]` |
| `FirebaseList.EmitWithoutChild` | src/providers/firebase_list.ts:24-31 | away from the index-0 falsy case, one callback emits nothing besides entries keyed like the child, and the visited entry when its key is not the child's |
| `FirebaseList.MovedKeepsOthers` | src/providers/firebase_list.ts:23-33 | with the child's key left aside, the move returns the list unchanged in content and order; with a falsy `prevKey`, index 0 is first removed |
| `FirebaseList.MovedNeverCopiesChildKey` | src/providers/firebase_list.ts:26-31 | unless `prevKey` is the child's own key, every entry of the result with the child's key is the child; no old entry with that key is copied |
| `FirebaseList.MovedPlacesChildBehind` | src/providers/firebase_list.ts:26-28 | for a truthy string `prevKey` `p` that is not the child's key, every entry keyed `p` is immediately followed by the child, and the child's key occurs only directly after such an entry |
| `FirebaseList.MovedCountsChild` | src/providers/firebase_list.ts:26-31 | the child's key occurs in the result once per entry keyed `p` in the input |
| `FirebaseList.MovedLength` | src/providers/firebase_list.ts:23-33 | the result's length is the input's, less the entries with the child's key, plus the entries keyed `p` |
| `FirebaseList.MovedPreservesKeySet` | src/providers/firebase_list.ts:23-33 | moving a present child behind a present key `p` keeps the set of keys |
| `FirebaseList.MovedWithUniqueKeys` | src/providers/firebase_list.ts:26-30 | with unique keys, a present child and a present `p` other than its key, the length is unchanged and the child occurs exactly once |
| `FirebaseList.MovedChildAfterPrev` | src/providers/firebase_list.ts:26-28 | when `p` is present, some entry keyed `p` is directly followed by the child |
| `FirebaseList.MovedFalsyFront` | src/providers/firebase_list.ts:24-25 | with a falsy `prevKey`, a non-empty list begins with the child |
| `FirebaseList.MovedFalsyDropsFirst` | src/providers/firebase_list.ts:24-25 | with a falsy `prevKey` and unique keys, the key of the entry at index 0 (if it is not the child's) no longer occurs |
| `FirebaseList.MovedWithoutAnchor` | src/providers/firebase_list.ts:23-33 | when no key equals `prevKey`, the result is the entries whose key is not the child's, in order; with a falsy `prevKey` on a non-empty list, it is the child followed by those entries after index 0 (index 0 is replaced) |
| `FirebaseList.UnknownPrevKeyDropsChild` | src/providers/firebase_list.ts:26-30 | a truthy `prevKey` that matches nothing drops the child: its key is absent and the length shrinks by the entries with its key |
| `FirebaseList.MovedEmpty` | src/providers/firebase_list.ts:23-33 | moving within the empty list yields the empty list, whatever `prevKey` is |
| `FirebaseList.MoveToFrontOfTwo` | src/providers/firebase_list.ts:24-30 | moving `b` to the front (`prevKey` null) of `[a, b]` gives `[b]`: `a` is replaced, not kept |
| `ListChanges.RemoveKey` | src/database/list/changes.ts:18 | definition of the `filter` that keeps the entries whose key is not the removed one; pinned down by `RemoveKeyAbsent`, `RemoveKeySubsequence`, `RemoveKeyMultiplicity`, `RemoveKeyNotPresent` and `RemoveKeyIdempotent` |
| `ListChanges.Step` | src/database/list/changes.ts:11-22 | definition of the scan callback; pinned down by `StepAdded`, `StepRemoved`, `StepOther` and `StepMember` |
| `ListChanges.Fold` | src/database/list/changes.ts:11-23 | definition of applying the callback to each change in turn from a seed; pinned down by `FoldAppend` and `ScanEmitsCurrent` |
| `ListChanges.Current` | src/database/list/changes.ts:11-23 | definition of the list after a sequence of changes, the fold from the `[]` seed; pinned down by `CurrentSeed`, `CurrentOfAdds` and `CurrentMembership` |
| `ListChanges.Scan` | src/database/list/changes.ts:11-23 | one emission per change; the first is the step applied to `[]`, each later one the step applied to the previous emission |
| `ListChanges.ScanEmitsCurrent` | src/database/list/changes.ts:11-23 | emission `i` is the fold from `[]` of the changes up to and including `i` |
| `ListChanges.CurrentSeed` | src/database/list/changes.ts:23 | before any change the list is `[]` |
| `ListChanges.StepAdded` | src/database/list/changes.ts:14-15 | `'added'` gives length plus one, `current` as the prefix and the change last, with one more occurrence of the change (no duplicate check) |
| `ListChanges.StepRemoved` | src/database/list/changes.ts:16-18 | `'removed'` gives an order-preserving subsequence of `current` that keeps every entry with another key as often as it occurred, keeps none with the removed key, and is idempotent |
| `ListChanges.StepOther` | src/database/list/changes.ts:19-21 | any other event returns `current` unchanged |
| `ListChanges.StepMember` | src/database/list/changes.ts:13-21 | an entry is in the list after a step exactly when it was kept (not removed by key) or is the added change |
| `ListChanges.RemoveKeyAbsent` | src/database/list/changes.ts:18 | after the filter no entry carries the removed key |
| `ListChanges.RemoveKeySubsequence` | src/database/list/changes.ts:18 | the filter's result is a subsequence of its input |
| `ListChanges.RemoveKeyMultiplicity` | src/database/list/changes.ts:18 | the filter keeps each entry with another key as often as it occurred, and none with the key |
| `ListChanges.RemoveKeyNotPresent` | src/database/list/changes.ts:18 | removing a key no entry carries returns an equal list |
| `ListChanges.RemoveKeyIdempotent` | src/database/list/changes.ts:18 | filtering the same key twice equals filtering it once |
| `ListChanges.FoldAppend` | src/database/list/changes.ts:11-23 | folding `a + b` is folding `b` into the fold of `a` |
| `ListChanges.CurrentOfAdds` | src/database/list/changes.ts:14-15 | with only `'added'` changes, the list is the changes themselves in arrival order |
| `ListChanges.CurrentMembership` | src/database/list/changes.ts:11-23 | an entry is in the list exactly when it was added and no later change removed its key |
| `ListChanges.AddAddMoveRemove` | src/database/list/changes.ts:11-23 | added `a`, added `b`, moved `a`, removed `b` leaves `[added a]` |

## Left out

- Observable plumbing is not modelled because it carries no list state: `Observable.create`, `obs.next`, `Observable.merge`, `fromRef` and the `on('child_added' / 'child_moved')` registrations.
- `new Firebase(config.path)` (src/providers/firebase_list.ts:17) is left out because it is a foreign SDK call, so the config's `path`, which only feeds it, is not modelled. `query` is declared in the config (line 9) but never read by the provider, so a configured query has no effect to model.
- The DI `Provider` object, its `useFactory` and its `deps` are left out; only the token it is registered under is modelled.
- Aliasing is not captured. `arr.push(child)` changes in place the array that `obs.next` already published, so subscribers holding it see the change. The model keeps `arr` as a value.
- Null snapshots are left out: a `SnapshotChange` always carries a snapshot here. Null-snapshot changes do reach the step, and the default branch returns the list unchanged for them (src/database/list/changes.ts:19-21). The `!` assertions on line 18 rely on no null-snapshot change ever being `'added'` or `'removed'`. The model therefore does not capture two things. A null-snapshot `'added'` change would be appended (line 15). A later `'removed'` on a non-empty list would then throw a TypeError at line 18.
- `SnapshotChange.event` is a plain string, because the change types' declaration file (`../interfaces`) is not part of this model.
- JavaScript numbers are integers here: NaN and fractional values are left out. They matter only to the truthiness of `prevKey` and of the token.
- The other files of the repository are not part of this model: build tooling, the auth and functions wrappers, the app module, the DI tokens and the sample component.
