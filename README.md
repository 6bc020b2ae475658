# react-gtk host adapter, modelled in Dafny

react-gtk renders React element trees onto GTK widgets. Its core is the host
configuration that React's reconciler calls node by node. It creates a native
widget for a host element, refuses bare text nodes, and diffs a node's old and
new props into a change descriptor (`prepareUpdate`). The commit phase then
applies that descriptor to the widget.

This project models the parts of that adapter whose behaviour the unit tests
fix:

- `wrappers.dfy`: `Option` (`None` plays JavaScript's `null` result) and
  `Result` (a value, or the error the adapter throws).
- `sequences.dfy`: subsequences and duplicate-free sequences. These are used
  to state that the diff keeps enumeration order and lists each key once.
- `props.dfy`: JavaScript values under strict equality. Objects, arrays and
  functions compare by identity (`Ref`). A props object is the sequence of its
  own entries in enumeration order, plus lookup (`Get`) and its map view
  (`AsMap`). The reserved key is `children`.
- `reconciler.dfy`: the adapter.
  - `Host` is what `createReconciler` returns: a fixed table from tag to
    widget type.
  - `CreateInstance`, `CreateTextInstance` and `PrepareUpdate` are the
    adapter's entry points.
  - `Apply` is the partner of `PrepareUpdate`. It gives the meaning of a
    descriptor on a widget's property view: assign the `set` entries in
    order, then clear the `unset` keys.
  - The lemmas state what the diff computes, and the round trip
    `Apply(old, PrepareUpdate(old, new)) == new` on every key but `children`.
- `reconciler_spec.dfy`: the unit scenarios of `test/unit/reconcilerSpec.js`
  as lemmas about the model.

The descriptor's fields are called `sets` and `unsets`, because `set` is a
Dafny keyword; they are the `set` and `unset` arrays of the JavaScript object.

The adapter's own source (`src/reconciler.js`) is not part of this model. The model follows the behaviour asserted in test/unit/reconcilerSpec.js and fixes three points those tests leave open:

- A key of the new props that the old props lack is always put in `set`,
  whatever its value. Presence is decided by key, not by comparing with
  `undefined`.
- Values are compared with `===`. The two `children` arrays of the tests are
  therefore two different references.
- Entries keep the object's enumeration order. The tests compare the `set` and
  `unset` arrays with deep, order-sensitive equality.

A JavaScript object never holds the same key twice. Every lemma that needs this
fact takes it as a `DistinctKeys` precondition on the props it is given.

## Model

| member | source | states |
|---|---|---|
| `Reconciler.CreateInstance` | test/unit/reconcilerSpec.js:17-25 | creation fails exactly when the tag has no widget type in the table; the error is `UnknownComponent` carrying that tag; on success the widget has the table's type for the tag |
| `Reconciler.CreateTextInstance` | test/unit/reconcilerSpec.js:27-35 | creating a text instance fails with `UnsupportedTextInstance` for every text |
| `Reconciler.PrepareUpdate` | test/unit/reconcilerSpec.js:37-81 | a returned descriptor is never empty: when neither list has an entry the result is `null` |
| `Reconciler.SetEntries` | test/unit/reconcilerSpec.js:56-68 | the `set` list keeps the new props' order (it is a subsequence of them); none of its entries is `children`, and each holds a value the old props do not have under that key |
| `Reconciler.UnsetKeys` | test/unit/reconcilerSpec.js:70-80 | the `unset` list keeps the old props' key order; none of its keys is `children`, and the new props lack every one of them |
| `Reconciler.SetEntriesComplete` | test/unit/reconcilerSpec.js:56-68 | every non-children entry of the new props that the old props lack or hold with another value is in `set` |
| `Reconciler.UnsetKeysComplete` | test/unit/reconcilerSpec.js:70-80 | every non-children key of the old props that the new props lack is in `unset` |
| `Reconciler.InSetIff` | test/unit/reconcilerSpec.js:56-68 | an entry `[key, value]` is in `set` if and only if key is not `children`, the new props map key to value, and the old props do not |
| `Reconciler.InUnsetIff` | test/unit/reconcilerSpec.js:70-80 | a key is in `unset` if and only if it is not `children`, the old props have it and the new props do not |
| `Reconciler.DescriptorKeysDistinct` | test/unit/reconcilerSpec.js:62-79 | for objects with distinct keys, `set` names each key once and `unset` lists each key once |
| `Reconciler.DescriptorDisjoint` | test/unit/reconcilerSpec.js:59-79 | `children` is in neither list, and no key is both set and unset |
| `Reconciler.NoUpdateIff` | test/unit/reconcilerSpec.js:38-54 | prepare-update returns `null` if and only if the old and new props agree on every key other than `children` |
| `Reconciler.SingleChangedProp` | test/unit/reconcilerSpec.js:56-68 | when exactly one non-children key has a new or changed value, the result is `{ set: [[key, newValue]], unset: [] }` whatever `children` did |
| `Reconciler.RemovedProp` | test/unit/reconcilerSpec.js:70-80 | when exactly one non-children key was removed and nothing else changed, the result is `{ set: [], unset: [key] }`; unchanged keys appear in neither list |
| `Reconciler.ApplySetsMerges` | test/unit/reconcilerSpec.js:62-67 | assigning a `set` list with distinct keys in order equals merging those entries over the old properties |
| `Reconciler.MergedAt` | test/unit/reconcilerSpec.js:56-80 | on any single key other than `children`, the old props merged with `set` and stripped of `unset` hold exactly what the new props hold |
| `Reconciler.Apply` | test/unit/reconcilerSpec.js:62-79 | with no descriptor (`null`) the properties are unchanged; with one, every `unset` key is cleared, every `set` entry that no later entry and no `unset` overrides holds its value, keys named in neither list keep their old values, and no key outside the old properties and the `set` list appears |
| `Reconciler.ApplySets` | test/unit/reconcilerSpec.js:62-67 | assigning the `set` entries in order leaves keys outside the list untouched, adds no key beyond the old properties and the list, and leaves each key with the value of its last entry |
| `Reconciler.PrepareThenApply` | test/unit/reconcilerSpec.js:37-81 | applying the prepared descriptor (or nothing, for `null`) to the old props gives the new props on every key except `children` |
| `Reconciler.PrepareUpdateIgnoresNode` | test/unit/reconcilerSpec.js:44 | the result depends only on the old and new props, not on the instance and type arguments (passed as `null` in the tests) |
| `ReconcilerSpec.UnknownComponentFoo` | test/unit/reconcilerSpec.js:18-24 | creating tag `foo` with a table that lacks it fails with `UnknownComponent("foo")` |
| `ReconcilerSpec.TextInstanceFoo` | test/unit/reconcilerSpec.js:28-34 | creating a text instance for `foo` fails with `UnsupportedTextInstance` |
| `ReconcilerSpec.EqualPropsNeedNoUpdate` | test/unit/reconcilerSpec.js:38-45 | `{ props: 1 }` against `{ props: 1 }` gives `null` |
| `ReconcilerSpec.ChildrenOnlyNeedNoUpdate` | test/unit/reconcilerSpec.js:47-54 | `{ props: 1, children: [2] }` against `{ props: 1, children: [1] }` gives `null` |
| `ReconcilerSpec.ChangedPropIsSet` | test/unit/reconcilerSpec.js:56-68 | `{ prop: 1, children: [2] }` against `{ prop: 2, children: [1] }` gives `{ set: [['prop', 2]], unset: [] }` |
| `ReconcilerSpec.RemovedPropIsUnset` | test/unit/reconcilerSpec.js:70-80 | `{ prop1: 1, prop2: 1 }` against `{ prop1: 1 }` gives `{ set: [], unset: ['prop2'] }` |

## Left out

- Reconciler.CreateInstance: on success the model records the tag, the widget type and the props as received; it does not construct the widget. Stripping `children` and separating `onX` handler keys only prepare the GTK constructor's argument. Construction, injecting the application into the window, and connecting the handlers' signals are calls into GTK. No test in test/unit/reconcilerSpec.js asserts the success path, and its code (`src/reconciler.js`) is not part of this model.
- Reconciler.CreateInstance: the root-container, host-context and fiber arguments (`null` in the tests) are not parameters; the model reads none of them.
- Reconciler.Apply: unsetting a key removes it from the property view. On a real widget, commit assigns `null` to a plain property and disconnects the signal of a handler key.
- `commitUpdate`: the in-place mutation of the widget is not modelled. This covers the signal connect/disconnect registry and the `onX` to signal-name derivation. No test in test/unit/reconcilerSpec.js asserts them, and their code is not part of this model. `Apply` states what a descriptor means instead.
- `appendInitialChild`, `appendChild`, `removeChild` (showing the child, and `add`/`remove` on containers): no test in test/unit/reconcilerSpec.js asserts them, and they are calls into GTK.
- `createReconciler`'s second argument (the `{}` passed in the tests) and the trailing `null` arguments of `createTextInstance`: the model reads neither, and `CreateTextInstance` takes only the text.
- How `createReconciler` builds its tag table from the `gi` import object: the table is taken as given (`Host`).
- The logging callback: it has no effect on any result.
- Numbers are integers: `NaN !== NaN`, `-0 === +0` and other floating-point comparisons are not modelled.
- JavaScript's enumeration rule that puts integer-like keys first: a props object is taken in its enumeration order as given.
- The React application in `test/functional/apps/inputs.js`: UI code that runs the app and asserts nothing.
