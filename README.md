# DataSet: an array with set semantics, in Dafny

This project models `DataSet` from index.js: a JavaScript array extended with
five operations that keep its values unique. Equality is chosen on each call
by an optional comparator. A function compares the two values itself. A
string names a key, and two values are equal when that property is `===` on
both. Anything else falls back to the deep-equal library.

- `hasItem(item, c)` looks an object or array up with that equality. It looks
  any other value up with `indexOf`, ignoring the comparator.
- `addToSet(item, c)` refuses `null` and `undefined`. It hands an array to
  `addEachToSet` and returns that call's array of results. Any other value is
  appended when `hasItem` does not find it.
- `addEachToSet(items, c)` calls `addToSet` on each item in turn, so later
  items are checked against earlier ones.
- `pull(item, c)` removes the LAST element equal to an object or array. For
  any other value it removes the FIRST `===` occurrence. Position 0 is removed
  like any other position.
- `clear()` empties the array.

Files:

- `js_values.dfy` (module `JsValues`) holds the JavaScript values. Objects and
  arrays carry a reference identity, so `===` on them compares identity, as in
  JavaScript. The module also has `_.isObject`, nullish tests and property
  reads.
- `data_set.dfy` (module `DataSets`) holds the comparator, `equal`, and the
  specification functions on the stored sequence. These are `Contains` for
  hasItem, `Insert` and `InsertEach` for addToSet and addEachToSet, and
  `Pulled` for pull. The module has the lemmas about them and the class
  `DataSet`. The class stores its elements in a `seq<Value>` field and updates
  it in place. Each of its methods is proved equal to the matching
  specification function.
- `data_set_tests.dfy` (module `DataSetTests`) replays the scenario of
  tests/index.js on the class. It also has concrete comparator and `pull`
  examples.

The container's own operations never store `null`, `undefined` or an array
(`InsertKeepsStorable`, `PullKeepsStorable`, and `DataSet.Valid` preserved by
every method). Most lemmas rely on that. One quirk is modelled as written.
`hasItem` compares what `_.find` returns with `undefined`. So a stored
`undefined` that the comparator accepts hides every later match
(`StoredUndefinedHidesMatch`). Only raw Array methods could store one.

Three points of index.js are easy to misread, and the model follows the code
on each. For an object or array, `pull` removes the last match, because every
match overwrites `idx` (index.js:97-101). Position 0 is removed, because
`0 > -1` holds and `undefined > -1` does not (index.js:105). Two values that
both lack the key compare `undefined === undefined`, which is true
(index.js:132).

## Model

| member | source | states |
|---|---|---|
| JsValues.StrictEqualsPrimitive | index.js:44 | against a non-object, `===` is value equality, so `indexOf` is plain membership |
| JsValues.StrictEqualsEquivalence | index.js:132 | `===` is reflexive, symmetric and transitive on the modelled values |
| DataSets.KeyEqualIsEquivalence | index.js:131-132 | a key comparator is an equivalence; two values both lacking the key are equal |
| DataSets.Equal | index.js:128-136 | under a key, a value equals itself, two values both lacking the key are equal, and when the item's key value is not an object the two key values must be the same value; a function comparator and the deep case are parameters |
| DataSets.IndexOf | index.js:103 | the result is -1 or the first position holding a value `===` the argument; -1 only when there is none |
| DataSets.FindIndex | index.js:39-41 | the result is -1 or the first position whose element is `equal` to the item; no earlier element matches |
| DataSets.LastMatch | index.js:95-101 | the remembered index is a matching position with no match after it, or -1 (`undefined`) when nothing matches |
| DataSets.Contains | index.js:36-45 | for a primitive: true iff the value occurs; for an object or array: true only if some stored element is `equal`, and true iff so when nothing nullish or array-valued is stored |
| DataSets.StoredUndefinedHidesMatch | index.js:39-42 | a stored `undefined` accepted by the comparator makes `hasItem` answer false although an equal element follows |
| DataSets.ContainsAppend | index.js:36-45 | appending elements never makes a found item unfound |
| DataSets.ContainsConcat | index.js:36-45 | on stored values, looking up in `s + t` is looking up in `s` or in `t` |
| DataSets.Insert | index.js:54-67 | addToSet keeps the old sequence as a prefix of the new one |
| DataSets.InsertEach | index.js:76-85 | addEachToSet returns one result per item, in order, and keeps the old sequence as a prefix |
| DataSets.InsertAppends | index.js:54-67 | addToSet appends exactly the values whose result is true, in order; the length grows by the number of true results, nested arrays included |
| DataSets.InsertEachAppends | index.js:76-85 | the same for addEachToSet: new sequence = old + the items reported true; length grows by the count of true results |
| DataSets.InsertKeepsStorable | index.js:56-66 | addToSet never stores `null`, `undefined` or an array |
| DataSets.InsertEachKeepsStorable | index.js:76-85 | addEachToSet never stores `null`, `undefined` or an array |
| DataSets.InsertSingle | index.js:62-66 | a non-null non-array value is appended and reported true exactly when hasItem did not find it, whatever the comparator; afterwards hasItem finds it when the container holds only storable values and the comparator finds the value equal to itself |
| DataSets.InsertMakesPresent | index.js:54-67 | after addToSet with a reflexive comparator, every non-null leaf it was given is found |
| DataSets.InsertEachMakesPresent | index.js:76-85 | after addEachToSet with a reflexive comparator, every item is found, including items of nested arrays |
| DataSets.InsertWhenPresent | index.js:62-66 | addToSet of values all found already changes nothing and reports nothing added |
| DataSets.InsertEachWhenPresent | index.js:76-85 | addEachToSet of items all found already changes nothing and reports nothing added |
| DataSets.InsertTwice | index.js:54-67 | idempotence: a second identical addToSet leaves the sequence unchanged and adds nothing |
| DataSets.InsertTwiceSingle | index.js:62-66 | for a single value that the comparator finds equal to itself, the second call returns false, and the length grows by one overall iff it was absent at first |
| DataSets.InsertEachSnoc | index.js:80-83 | addEachToSet is a left-to-right fold of addToSet: the items plus one more is the items, then one addToSet |
| DataSets.InsertEachSingleton | index.js:76-85 | addEachToSet of a single item leaves the same sequence as addToSet of it and returns its result as a one-element array |
| DataSets.InsertEachDistinct | index.js:76-85 | items that are pairwise unequal and absent are all appended in order, each reported true |
| DataSets.InsertEachDuplicate | index.js:76-85 | `addEachToSet([a, a])` on an empty container stores one `a` and returns `[true, false]` |
| DataSets.ScanLastMatch | index.js:96-101 | the scan over every element keeps the index of the last one `equal` to the item, or -1 (`undefined`) when none is |
| DataSets.IndexOfPrimitive | index.js:103 | for a primitive, `indexOf` is -1 exactly when the value does not occur, and otherwise points at its first occurrence |
| DataSets.Pulled | index.js:93-108 | pull removes exactly one element when an object or array has a `LastMatch` or a primitive occurs, and otherwise leaves the sequence unchanged; it never adds a value |
| DataSets.PullObjectRemovesLastMatch | index.js:96-107 | an object or array removes exactly the element at the largest matching index; length drops by one |
| DataSets.PullObjectNoMatch | index.js:96-107 | an object or array that matches nothing leaves the sequence unchanged |
| DataSets.PullPrimitiveRemovesFirst | index.js:102-107 | a primitive removes its first occurrence, position 0 included; an absent one changes nothing |
| DataSets.PullUnique | index.js:93-108 | pulling a value stored exactly once removes it: length drops by one and hasItem no longer finds it |
| DataSets.PullKeepsStorable | index.js:105-107 | pull never introduces `null`, `undefined` or an array |
| DataSets.DataSet.constructor | index.js:18-27 | a new DataSet is empty |
| DataSets.DataSet.HasItem | index.js:36-45 | a primitive is found iff it is stored; on a valid container an object or array is found iff some stored element is `equal` to it |
| DataSets.DataSet.AddToSet | index.js:54-67 | the new contents and result are those of `Insert`; `null`/`undefined` returns false and changes nothing; the invariant is kept; afterwards hasItem finds a non-null non-array item the comparator accepts as equal to itself, and with a reflexive comparator every leaf it was given |
| DataSets.DataSet.AddEachToSet | index.js:76-85 | the loop leaves the contents and results of `InsertEach`; the invariant is kept; with a reflexive comparator every item is found afterwards |
| DataSets.DataSet.Pull | index.js:93-108 | the scan and splice leave the contents of `Pulled`; the invariant is kept |
| DataSets.DataSet.Clear | index.js:113-115 | afterwards the container is empty, whatever it held |
| DataSetTests.Scenario | tests/index.js:13-64 | the test run: results true then false; lengths 1, 1, 0, 2, 1, 0; erin found and jimmy not |
| DataSetTests.ComparatorDecidesDuplicates | index.js:128-136 | under key `'id'` a record sharing the id is refused; under a deep equality that tells them apart it is appended |
| DataSetTests.PullExamples | index.js:96-107 | with two key matches the later one is pulled; a primitive is pulled at position 0 |

## Left out

- `clone` and the prototype copying (index.js:141-148) are not modelled. The container is a class over a sequence. Other inherited Array methods (`push` of arbitrary values, index writes and so on) are not part of the model.
- The deep-equal library is not part of this model. It is the parameter `deep` (the class's `deep` field), and lemmas assume it is reflexive only where they say so.
- Underscore's `_.find`, `_.each`, `_.isArray`, `_.isFunction` and `_.isString` are replaced by recursion, loops and constructor tests on `Value` and `Comparator`. A comparator that is neither a function nor a string is the `Deep` case.
- Property reads (`Get`) see only an object's own fields. JavaScript also reads properties of strings and arrays (`length`, indices), inherited prototype properties, and throws when reading a key of `null` or `undefined`. The container never stores those two values, and `equal` is only reached with an object or array item, so the throwing read cannot arise through the five operations.
- Numbers are integers. Floating point, `NaN` (never `===` itself, so `indexOf` cannot find it) and signed zero are not modelled.
- Comparator functions are pure, total and return a boolean. Side effects, exceptions and truthiness of other return values are not modelled.
- JavaScript functions as items (which `_.isObject` accepts) are not among the modelled values.
- Values are snapshots. Mutating a stored object after insertion, and passing the container itself to `addEachToSet`, are not modelled.
- Insert / InsertEach / DataSet.AddToSet / DataSet.AddEachToSet: values are finite trees. An array that contains itself makes addToSet and addEachToSet (index.js:59-60, 80-81) call each other until the engine throws RangeError, after appending the items met before the cycle; such arguments are not modelled, and the thrown error with them.
- DataSet.AddEachToSet / InsertEach: only an array argument is modelled, as the doc comment at index.js:70-74 describes it. `_.each` at index.js:80 also accepts a plain object (adding each own property value), a string (adding each character), and `null`, `undefined` or a number (adding nothing and returning `[]`); those arguments are not modelled.
- The mocha/chai harness is not modelled; its scenario is `DataSetTests.Scenario`.
