# css-inject style registry, modelled in Dafny

css-inject keeps a registry of CSS rules in memory and turns it into the text
of one `<style>` element. The registry, `styles`, maps each selector to that
selector's declarations (property to value). Both levels are JavaScript
objects whose string keys keep their insertion order. The library changes the
registry with `add`, `objectAdd` and `remove`, and `parse` serialises it as
`selector {property:value;...} ` blocks, one after another.

This project models that core as pure functions over immutable values:

- `OrderedMap` (ordered_map.dfy): an insertion-ordered map as a sequence of
  key/value entries. `Put` is JavaScript property assignment: it overwrites a
  present key where it stands and appends a new key. `Delete` is the `delete`
  operator. `IndexOf` and `Get` are the key lookups.
- `Styles` (styles.dfy): the registry `Sheet`, with `Initial` (the empty
  `styles` object), `Add`, `ObjectAdd` and `Remove`. Each returns the new
  registry where the library returns `this` for chaining. `Valid` says that
  selectors are distinct and so are the properties of each selector.
- `CssText` (css_text.dfy): `Parse`, which mirrors the library's two nested
  `for ... in` loops and its `+=` appends. It is proved equal to `Render`, a
  recursive reference definition of the text.
- `Scenarios` (scenarios.dfy): worked examples, proved as concrete traces.

`remove(selector, property)` is modelled as written. Its guard tests
`this.styles.hasOwnProperty(property)`, which looks the property name up among
the selectors, not among that selector's declarations. So `remove(sel, p)`
removes just the declaration `p` only when some selector is literally named
`p`. Otherwise it removes the whole selector `sel`. If a selector named `p`
exists and `sel` does not, the library dereferences `undefined` and throws.
`Remove` returns `Failure(TypeError)` in that case.

`objectAdd` ignores an argument whose `typeof` is not `"object"` and raises
no error. The model's `NotObject` argument leaves the registry unchanged.

A selector with no declarations in an `objectAdd` collection produces no
`add` call. It therefore never reaches the registry (`ObjectAddIntoInitial`).

## Model

| member | source | states |
|---|---|---|
| Styles.Initial | src/css-inject.js:73 | a new registry holds no selector and is valid |
| OrderedMap.IndexOf | src/css-inject.js:48 | the own-key test `hasOwnProperty`: it finds the position of the first entry keyed `k`, and finds none exactly when no entry has that key |
| OrderedMap.Get | src/css-inject.js:28 | the read `m[k]`: `undefined` exactly when `k` is not a key, and otherwise the value of an entry keyed `k` |
| OrderedMap.GetUnique | src/css-inject.js:28 | when keys are distinct, `m[k]` is the value of the one entry keyed `k` |
| OrderedMap.Put | src/css-inject.js:29 | assigning a present key replaces its entry at the same position; assigning a new key appends it at the end |
| OrderedMap.Delete | src/css-inject.js:49 | deleting a present key removes exactly its entry and keeps the rest in order; deleting a missing key changes nothing |
| OrderedMap.PutPut | src/css-inject.js:29 | assigning a key twice leaves what the second assignment alone leaves |
| Styles.DeclarationsOf | src/css-inject.js:28 | `this.styles[selector]`, or `{}` when it is missing: no declarations for an absent selector, and otherwise the declarations stored in the selector's own entry (the only one when selectors are distinct) |
| Styles.Add | src/css-inject.js:27-31 | an absent selector is appended with exactly the one declaration; a present selector keeps its position, only its entry changes, and its declarations get the property set in place or appended |
| Styles.AddValid | src/css-inject.js:28-29 | `add` keeps selectors distinct and each selector's properties distinct |
| Styles.AddKeys | src/css-inject.js:28 | the selector list is unchanged when the selector is present, and gains it at the end otherwise |
| Styles.AddGet | src/css-inject.js:29 | after `add`, the selector's declarations map the property to the value given |
| Styles.AddLastWins | src/css-inject.js:29 | `add(S,p,v1)` then `add(S,p,v2)` gives the same registry as `add(S,p,v2)` alone |
| Styles.AddIdempotent | src/css-inject.js:27-30 | repeating an `add` changes nothing |
| Styles.AddLastWinsDeclarations | src/css-inject.js:28-29 | after two `add`s of one property, the selector's declarations are distinct and map the property to the second value |
| Styles.ObjectAdd | src/css-inject.js:32-46 | an object argument gives the left fold of `add` over its selectors in order and, within each, its properties in order; a non-object argument leaves the registry unchanged |
| Styles.AddEachValid | src/css-inject.js:35-43 | any sequence of `add` calls, and so any `objectAdd`, keeps the registry valid |
| Styles.ObjectAddIntoInitial | src/css-inject.js:35-43 | `objectAdd` of a valid collection into a fresh registry yields the collection minus its selectors that have no declarations |
| Styles.PropertyBranch | src/css-inject.js:48 | the property branch is taken exactly when the selector is non-empty, the property is truthy, and some SELECTOR entry, not a declaration, has the property's name as its key |
| Styles.Remove | src/css-inject.js:47-54 | it throws exactly when the selector is non-empty, the property is non-empty and names a selector, and the selector is absent; in that property branch with the selector present, only that selector's entry changes, losing that property; otherwise a present non-empty selector is removed with the others kept in order; otherwise nothing changes |
| Styles.RemoveValid | src/css-inject.js:47-52 | a `remove` that does not throw keeps the registry valid |
| Styles.RemoveIgnoresProperty | src/css-inject.js:48-51 | a property name that is not also a selector makes `remove(sel, p)` behave as `remove(sel)` |
| Styles.RemoveProperty | src/css-inject.js:48-49 | in the property branch the selector list is unchanged, the selector loses the property, and every other declaration and every other selector is kept |
| Styles.RemoveAfterAdd | src/css-inject.js:27-53 | removing a selector that `add` just introduced restores the registry |
| Styles.RemovePropertyAfterAdd | src/css-inject.js:27-53 | removing a property that `add` just introduced under a present selector restores the registry, provided the property name is also a selector |
| CssText.Parse | src/css-inject.js:12-26 | the text is the concatenation, in selector order, of `selector {` + each declaration's `property:value;` in property order + `} ` |
| CssText.RenderInitial | src/css-inject.js:13-25 | an empty registry serialises to the empty string |
| CssText.RenderEmptyBlock | src/css-inject.js:16-22 | a selector with no declarations serialises to `selector {} ` |
| CssText.RenderAddNew | src/css-inject.js:28-29 | `add` of a new selector appends exactly `selector {property:value;} ` to the text |
| CssText.AddLastWinsText | src/css-inject.js:17-21 | after two `add`s of one property, the selector's block holds `property:v2;` and no other declaration of that property |
| CssText.RenderRemoveSelector | src/css-inject.js:50-51 | removing a present selector cuts exactly its block out of the text |
| Scenarios.AddRemoveAdd | src/css-inject.js:27-53 | adding `.a` and `.b`, removing `.a` and adding `.c` leaves `.b` then `.c` |
| Scenarios.AddRemoveAddText | src/css-inject.js:12-26 | that registry serialises to `.b {color:blue;} .c {color:green;} ` |
| Scenarios.RemovePropertyDropsSelector | src/css-inject.js:48-51 | `remove(".a", "color")` with no selector named `color` drops all of `.a` |
| Scenarios.RemovePropertyOfMissingSelectorThrows | src/css-inject.js:48-49 | `remove(".b", "color")` with a selector named `color` but no `.b` throws |

## Left out

- `apply` (src/css-inject.js:55-68) is not modelled. It builds and swaps `<style>` elements through jQuery, with a separate path for IE 8, and so is DOM I/O over a library that is not part of this model.
- The UMD/AMD module wrapper, the jQuery injection and the prototype wiring (src/css-inject.js:1-9, 71-79) are not modelled. They are module plumbing.
- The `id` and `noIE` fields (src/css-inject.js:72, 74) are not modelled. Only `apply` reads them.
- Keys and values are strings. JavaScript's coercion of non-string values in concatenation and in property keys is not modelled.
- Key order is plain insertion order. JavaScript lists integer-like keys first, in numeric order, and that is not modelled, so selectors and properties are taken to be non-numeric strings.
- Keys inherited through the prototype chain (`constructor`, `__proto__`, ...) are not modelled. The library filters them with `hasOwnProperty` in `parse` and `objectAdd`, but `add`'s `!this.styles[selector]` test would see them.
- Non-object values under a selector in an `objectAdd` collection are not modelled. The collection's declarations are always objects here; `for ... in` would then iterate, say, a string's character indices. An object argument of `null` (`typeof null` is `"object"`) adds nothing, which is the same outcome as `NotObject`.
- Aliasing is not modelled. For example, passing the registry itself to `objectAdd` while it is being changed.
