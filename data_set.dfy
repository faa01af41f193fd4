/** The DataSet container of index.js: an insertion-ordered sequence of
    values with set-like insertion and removal, where equality is chosen per
    call by an optional comparator.

    The pure functions below (Contains, Insert, InsertEach, Pulled) state what
    each operation does to the sequence of stored values; the class DataSet
    at the end performs the operations in place and is proved against them. */
module DataSets {
  import opened JsValues

  /** The optional comparator argument: a function, a key name, or anything
      else (including no argument at all), which selects deep equality. */
  datatype Comparator =
    | Fn(f: (Value, Value) -> bool)
    | Key(key: string)
    | Deep

  /** The deep-equal library. It is not part of this model: every member that
      may fall back on it receives it as a parameter. */
  type DeepEqual = (Value, Value) -> bool

  /** What `addToSet` returns: a boolean for a single value, and the array
      of nested results when it was given an array. */
  datatype AddResult = Added(added: bool) | Many(results: seq<AddResult>)

  /** `equal(lhs, rhs, comparator)`; `lhs` is the stored element and `rhs`
      the item being looked for. */
  function Equal(lhs: Value, rhs: Value, c: Comparator, deep: DeepEqual): (r: bool)
    ensures c.Key? && lhs == rhs ==> r
    ensures c.Key? && Get(lhs, c.key).Undefined? && Get(rhs, c.key).Undefined? ==> r
    ensures c.Key? && !IsObject(Get(rhs, c.key)) ==> (r <==> Get(lhs, c.key) == Get(rhs, c.key))
  {
    match c
    case Fn(f) => f(lhs, rhs)
    case Key(k) => StrictEquals(Get(lhs, k), Get(rhs, k))
    case Deep => deep(lhs, rhs)
  }

  /** A comparator under which every value equals itself. */
  ghost predicate Reflexive(c: Comparator, deep: DeepEqual) {
    forall v :: Equal(v, v, c, deep)
  }

  /** A key comparator is always an equivalence, whichever key it names,
      and two values that both lack the key compare equal. */
  lemma KeyEqualIsEquivalence(k: string, deep: DeepEqual, a: Value, b: Value, d: Value)
    ensures Equal(a, a, Key(k), deep)
    ensures Equal(a, b, Key(k), deep) ==> Equal(b, a, Key(k), deep)
    ensures Equal(a, b, Key(k), deep) && Equal(b, d, Key(k), deep) ==> Equal(a, d, Key(k), deep)
    ensures Get(a, k).Undefined? && Get(b, k).Undefined? ==> Equal(a, b, Key(k), deep)
  {
    StrictEqualsEquivalence(Get(a, k), Get(b, k), Get(d, k));
  }

  /** What the container's own operations may ever store: `addToSet`
      rejects `null` and `undefined` and unpacks arrays. */
  predicate Storable(v: Value) {
    !IsNullish(v) && !v.Arr?
  }

  predicate AllStorable(s: seq<Value>) {
    forall i :: 0 <= i < |s| ==> Storable(s[i])
  }

  // ---------------------------------------------------------------------
  // Searching
  // ---------------------------------------------------------------------

  /** `s.indexOf(x)`: the first position holding a value `=== x`, or -1. */
  function IndexOf(s: seq<Value>, x: Value): (r: int)
    ensures -1 <= r < |s|
    ensures r >= 0 ==> StrictEquals(s[r], x)
    ensures forall j :: 0 <= j < |s| && (r < 0 || j < r) ==> !StrictEquals(s[j], x)
  {
    if s == [] then -1
    else if StrictEquals(s[0], x) then 0
    else
      var k := IndexOf(s[1..], x);
      if k < 0 then -1 else k + 1
  }

  /** The scan `_.find` performs for `hasItem`: the first position whose
      element is equal to `item`, or -1. */
  function FindIndex(s: seq<Value>, item: Value, c: Comparator, deep: DeepEqual): (r: int)
    ensures -1 <= r < |s|
    ensures r >= 0 ==> Equal(s[r], item, c, deep)
    ensures forall j :: 0 <= j < |s| && (r < 0 || j < r) ==> !Equal(s[j], item, c, deep)
  {
    if s == [] then -1
    else if Equal(s[0], item, c, deep) then 0
    else
      var k := FindIndex(s[1..], item, c, deep);
      if k < 0 then -1 else k + 1
  }

  /** The scan of `pull` for an object: every element is visited and each
      match overwrites the remembered index, so the last match wins; -1
      stands for the index never having been assigned (`undefined`). */
  function LastMatch(s: seq<Value>, item: Value, c: Comparator, deep: DeepEqual): (r: int)
    ensures -1 <= r < |s|
    ensures r >= 0 ==> Equal(s[r], item, c, deep)
    ensures forall j :: r < j < |s| ==> !Equal(s[j], item, c, deep)
  {
    if s == [] then -1
    else if Equal(s[|s| - 1], item, c, deep) then |s| - 1
    else LastMatch(s[..|s| - 1], item, c, deep)
  }

  /** `hasItem(item, comparator)` on the stored sequence `s`. An object or
      array is looked up with `equal` through `_.find`, whose answer is
      compared against `undefined`; any other value is looked up with
      `indexOf`, and the comparator is ignored. */
  function Contains(s: seq<Value>, item: Value, c: Comparator, deep: DeepEqual): (r: bool)
    ensures !IsObject(item) ==> (r <==> item in s)
    ensures IsObject(item) && r ==> exists i :: 0 <= i < |s| && Equal(s[i], item, c, deep)
    ensures IsObject(item) && AllStorable(s) ==>
              (r <==> exists i :: 0 <= i < |s| && Equal(s[i], item, c, deep))
  {
    if IsObject(item) then
      var k := FindIndex(s, item, c, deep);
      var found := if k < 0 then Undefined else s[k];
      !StrictEquals(found, Undefined)
    else
      assert forall j :: 0 <= j < |s| ==> (StrictEquals(s[j], item) <==> s[j] == item);
      IndexOf(s, item) > -1
  }

  /** `_.find` hands back the element it found, and `hasItem` tests it
      against `undefined`: a stored `undefined` that the comparator accepts
      hides every later match. The container's own operations never store
      `undefined`, which is why the lemmas below assume AllStorable. */
  lemma StoredUndefinedHidesMatch(x: Value)
    requires IsObject(x)
    ensures Equal(x, x, Fn((a, b) => true), (a, b) => a == b)
    ensures !Contains([Undefined, x], x, Fn((a, b) => true), (a, b) => a == b)
  {
  }

  /** Appending never hides an element that is already found. */
  lemma {:induction false} ContainsAppend(s: seq<Value>, t: seq<Value>, item: Value, c: Comparator, deep: DeepEqual)
    requires Contains(s, item, c, deep)
    ensures Contains(s + t, item, c, deep)
  {
    if IsObject(item) {
      var k := FindIndex(s, item, c, deep);
      assert forall j :: 0 <= j < |s| ==> (s + t)[j] == s[j];
      assert FindIndex(s + t, item, c, deep) == k;
    }
  }

  /** Looking up in a concatenation of stored values is looking up in
      either part. */
  lemma ContainsConcat(s: seq<Value>, t: seq<Value>, item: Value, c: Comparator, deep: DeepEqual)
    requires AllStorable(s) && AllStorable(t)
    ensures Contains(s + t, item, c, deep) <==> Contains(s, item, c, deep) || Contains(t, item, c, deep)
  {
    if IsObject(item) {
      assert AllStorable(s + t);
      MatchInConcat(s, t, item, c, deep);
    }
  }

  /** An element of `s + t` equal to `item` is one of `s` or one of `t`. */
  lemma MatchInConcat(s: seq<Value>, t: seq<Value>, item: Value, c: Comparator, deep: DeepEqual)
    ensures (exists i :: 0 <= i < |s + t| && Equal((s + t)[i], item, c, deep)) <==>
            (exists i :: 0 <= i < |s| && Equal(s[i], item, c, deep)) ||
            (exists i :: 0 <= i < |t| && Equal(t[i], item, c, deep))
  {
    if i :| 0 <= i < |s + t| && Equal((s + t)[i], item, c, deep) {
      if i < |s| {
        assert s[i] == (s + t)[i];
      } else {
        assert t[i - |s|] == (s + t)[i];
      }
    }
    if i :| 0 <= i < |t| && Equal(t[i], item, c, deep) {
      assert (s + t)[|s| + i] == t[i];
    }
    if i :| 0 <= i < |s| && Equal(s[i], item, c, deep) {
      assert (s + t)[i] == s[i];
    }
  }

  // ---------------------------------------------------------------------
  // Insertion
  // ---------------------------------------------------------------------

  /** `addToSet(item, comparator)` on the stored sequence `s`: the new
      sequence and the returned value. `null` and `undefined` are refused,
      an array is handed to `addEachToSet`, and any other value is appended
      when it is not already there. */
  function Insert(s: seq<Value>, item: Value, c: Comparator, deep: DeepEqual): (r: (seq<Value>, AddResult))
    ensures s <= r.0
    decreases item
  {
    if IsNullish(item) then (s, Added(false))
    else if item.Arr? then
      var each := InsertEach(s, item.items, c, deep);
      (each.0, Many(each.1))
    else if !Contains(s, item, c, deep) then (s + [item], Added(true))
    else (s, Added(false))
  }

  /** `addEachToSet(items, comparator)` on the stored sequence `s`: each
      item in turn is inserted into the sequence the previous ones left,
      and the results are collected in the order of `items`. */
  function InsertEach(s: seq<Value>, items: seq<Value>, c: Comparator, deep: DeepEqual): (r: (seq<Value>, seq<AddResult>))
    ensures |r.1| == |items|
    ensures s <= r.0
    decreases items
  {
    if items == [] then (s, [])
    else
      var head := Insert(s, items[0], c, deep);
      var tail := InsertEach(head.0, items[1..], c, deep);
      (tail.0, [head.1] + tail.1)
  }

  /** The number of `true` results, nested arrays of results included. */
  function CountAdded(r: AddResult): nat
    decreases r
  {
    match r
    case Added(b) => if b then 1 else 0
    case Many(rs) => CountAddedEach(rs)
  }

  function CountAddedEach(rs: seq<AddResult>): nat
    decreases rs
  {
    if rs == [] then 0 else CountAdded(rs[0]) + CountAddedEach(rs[1..])
  }

  /** The values that a call given `x` appended, according to its result
      `r`: `x` itself for `true`, nothing for `false`, and for an array the
      values appended for each of its items in turn. */
  function Appended(x: Value, r: AddResult): seq<Value>
    decreases x
  {
    match r
    case Added(b) => if b then [x] else []
    case Many(rs) => if x.Arr? && |rs| == |x.items| then AppendedEach(x.items, rs) else []
  }

  function AppendedEach(xs: seq<Value>, rs: seq<AddResult>): seq<Value>
    requires |rs| == |xs|
    decreases xs
  {
    if xs == [] then [] else Appended(xs[0], rs[0]) + AppendedEach(xs[1..], rs[1..])
  }

  /** Insertion only ever appends: the old sequence is kept as a prefix,
      what follows it is exactly the values whose result is `true`, in
      order, and the length grows by the number of `true` results. */
  lemma {:induction false} InsertAppends(s: seq<Value>, x: Value, c: Comparator, deep: DeepEqual)
    ensures Insert(s, x, c, deep).0 == s + Appended(x, Insert(s, x, c, deep).1)
    ensures |Insert(s, x, c, deep).0| == |s| + CountAdded(Insert(s, x, c, deep).1)
    decreases x
  {
    if !IsNullish(x) && x.Arr? {
      InsertEachAppends(s, x.items, c, deep);
    }
  }

  lemma {:induction false} InsertEachAppends(s: seq<Value>, xs: seq<Value>, c: Comparator, deep: DeepEqual)
    ensures InsertEach(s, xs, c, deep).0 == s + AppendedEach(xs, InsertEach(s, xs, c, deep).1)
    ensures |InsertEach(s, xs, c, deep).0| == |s| + CountAddedEach(InsertEach(s, xs, c, deep).1)
    decreases xs
  {
    if xs != [] {
      var (t, first) := Insert(s, xs[0], c, deep);
      var (u, rest) := InsertEach(t, xs[1..], c, deep);
      InsertAppends(s, xs[0], c, deep);
      InsertEachAppends(t, xs[1..], c, deep);
      var rs := [first] + rest;
      assert rs[0] == first && rs[1..] == rest;
    }
  }

  /** Insertion keeps the container free of `null`, `undefined` and arrays. */
  lemma {:induction false} InsertKeepsStorable(s: seq<Value>, x: Value, c: Comparator, deep: DeepEqual)
    requires AllStorable(s)
    ensures AllStorable(Insert(s, x, c, deep).0)
    decreases x
  {
    if IsNullish(x) {
    } else if x.Arr? {
      InsertEachKeepsStorable(s, x.items, c, deep);
    } else if !Contains(s, x, c, deep) {
      assert Storable(x);
    }
  }

  lemma {:induction false} InsertEachKeepsStorable(s: seq<Value>, xs: seq<Value>, c: Comparator, deep: DeepEqual)
    requires AllStorable(s)
    ensures AllStorable(InsertEach(s, xs, c, deep).0)
    decreases xs
  {
    if xs != [] {
      var (t, _) := Insert(s, xs[0], c, deep);
      InsertKeepsStorable(s, xs[0], c, deep);
      InsertEachKeepsStorable(t, xs[1..], c, deep);
    }
  }

  /** A single value that is neither `null`, `undefined` nor an array: it
      is appended exactly when it was not found, and once inserted it is
      found, provided the comparator takes it to be equal to itself. */
  lemma InsertSingle(s: seq<Value>, x: Value, c: Comparator, deep: DeepEqual)
    requires Storable(x)
    ensures Insert(s, x, c, deep).1 == Added(!Contains(s, x, c, deep))
    ensures Insert(s, x, c, deep).0 == if Contains(s, x, c, deep) then s else s + [x]
    ensures AllStorable(s) && (IsObject(x) ==> Equal(x, x, c, deep)) ==> Contains(Insert(s, x, c, deep).0, x, c, deep)
  {
    if !Contains(s, x, c, deep) {
      assert (s + [x])[|s|] == x;
    }
  }

  /** Every non-null leaf of `x` (`x` itself, or the items of an array,
      recursively) is found in `s`. */
  ghost predicate Present(s: seq<Value>, x: Value, c: Comparator, deep: DeepEqual)
    decreases x
  {
    if IsNullish(x) then true
    else if x.Arr? then forall i :: 0 <= i < |x.items| ==> Present(s, x.items[i], c, deep)
    else Contains(s, x, c, deep)
  }

  lemma {:induction false} PresentAppend(s: seq<Value>, t: seq<Value>, x: Value, c: Comparator, deep: DeepEqual)
    requires Present(s, x, c, deep)
    ensures Present(s + t, x, c, deep)
    decreases x
  {
    if IsNullish(x) {
    } else if x.Arr? {
      forall i | 0 <= i < |x.items|
        ensures Present(s + t, x.items[i], c, deep)
      {
        PresentAppend(s, t, x.items[i], c, deep);
      }
    } else {
      ContainsAppend(s, t, x, c, deep);
    }
  }

  /** After `addToSet(x, c)` with a reflexive comparator, everything it was
      given is found in the container. */
  lemma {:induction false} InsertMakesPresent(s: seq<Value>, x: Value, c: Comparator, deep: DeepEqual)
    requires AllStorable(s) && Reflexive(c, deep)
    ensures Present(Insert(s, x, c, deep).0, x, c, deep)
    decreases x
  {
    if IsNullish(x) {
    } else if x.Arr? {
      InsertEachMakesPresent(s, x.items, c, deep);
    } else {
      InsertSingle(s, x, c, deep);
    }
  }

  lemma {:induction false} InsertEachMakesPresent(s: seq<Value>, xs: seq<Value>, c: Comparator, deep: DeepEqual)
    requires AllStorable(s) && Reflexive(c, deep)
    ensures forall i :: 0 <= i < |xs| ==> Present(InsertEach(s, xs, c, deep).0, xs[i], c, deep)
    decreases xs
  {
    if xs != [] {
      var (t, _) := Insert(s, xs[0], c, deep);
      var u := InsertEach(s, xs, c, deep).0;
      InsertMakesPresent(s, xs[0], c, deep);
      InsertKeepsStorable(s, xs[0], c, deep);
      InsertEachMakesPresent(t, xs[1..], c, deep);
      assert t <= u;
      assert u == t + u[|t|..];
      PresentAppend(t, u[|t|..], xs[0], c, deep);
      forall i | 1 <= i < |xs|
        ensures Present(u, xs[i], c, deep)
      {
        assert xs[i] == xs[1..][i - 1];
      }
    }
  }

  /** A call given values that are all found already changes nothing and
      reports nothing added. */
  lemma {:induction false} InsertWhenPresent(s: seq<Value>, x: Value, c: Comparator, deep: DeepEqual)
    requires Present(s, x, c, deep)
    ensures Insert(s, x, c, deep).0 == s
    ensures CountAdded(Insert(s, x, c, deep).1) == 0
    decreases x
  {
    if !IsNullish(x) && x.Arr? {
      InsertEachWhenPresent(s, x.items, c, deep);
    }
  }

  lemma {:induction false} InsertEachWhenPresent(s: seq<Value>, xs: seq<Value>, c: Comparator, deep: DeepEqual)
    requires forall i :: 0 <= i < |xs| ==> Present(s, xs[i], c, deep)
    ensures InsertEach(s, xs, c, deep).0 == s
    ensures CountAddedEach(InsertEach(s, xs, c, deep).1) == 0
    decreases xs
  {
    if xs != [] {
      var (t, first) := Insert(s, xs[0], c, deep);
      var (u, rest) := InsertEach(t, xs[1..], c, deep);
      InsertWhenPresent(s, xs[0], c, deep);
      InsertEachWhenPresent(s, xs[1..], c, deep);
      var rs := [first] + rest;
      assert rs[0] == first && rs[1..] == rest;
    }
  }

  /** Idempotence: a second `addToSet(x, c)` right after the first, with a
      reflexive comparator, changes nothing and adds nothing. */
  lemma InsertTwice(s: seq<Value>, x: Value, c: Comparator, deep: DeepEqual)
    requires AllStorable(s) && Reflexive(c, deep)
    ensures Insert(Insert(s, x, c, deep).0, x, c, deep).0 == Insert(s, x, c, deep).0
    ensures CountAdded(Insert(Insert(s, x, c, deep).0, x, c, deep).1) == 0
  {
    InsertMakesPresent(s, x, c, deep);
    InsertWhenPresent(Insert(s, x, c, deep).0, x, c, deep);
  }

  /** For a single value the second call returns `false`, and the length
      grows by one overall exactly when the value was not found at first. */
  lemma InsertTwiceSingle(s: seq<Value>, x: Value, c: Comparator, deep: DeepEqual)
    requires AllStorable(s) && Storable(x)
    requires IsObject(x) ==> Equal(x, x, c, deep)
    ensures Insert(Insert(s, x, c, deep).0, x, c, deep).1 == Added(false)
    ensures |Insert(Insert(s, x, c, deep).0, x, c, deep).0| == |s| + if Contains(s, x, c, deep) then 0 else 1
  {
    InsertSingle(s, x, c, deep);
    InsertKeepsStorable(s, x, c, deep);
    InsertSingle(Insert(s, x, c, deep).0, x, c, deep);
  }

  /** Folding `addToSet` over one more item: the bulk insert of `xs + [x]`
      is the bulk insert of `xs` followed by a single insert of `x`. */
  lemma {:induction false} InsertEachSnoc(s: seq<Value>, xs: seq<Value>, x: Value, c: Comparator, deep: DeepEqual)
    ensures InsertEach(s, xs + [x], c, deep).0 == Insert(InsertEach(s, xs, c, deep).0, x, c, deep).0
    ensures InsertEach(s, xs + [x], c, deep).1 == InsertEach(s, xs, c, deep).1 + [Insert(InsertEach(s, xs, c, deep).0, x, c, deep).1]
    decreases xs
  {
    if xs == [] {
      var (u, r) := Insert(s, x, c, deep);
      assert [x][0] == x && [x][1..] == [];
      assert InsertEach(u, [], c, deep) == (u, []);
      assert [r] + [] == [r];
      assert InsertEach(s, [x], c, deep) == (u, [r]);
      assert [] + [x] == [x] && [] + [r] == [r];
    } else {
      var (t, first) := Insert(s, xs[0], c, deep);
      assert (xs + [x])[0] == xs[0];
      assert (xs + [x])[1..] == xs[1..] + [x];
      InsertEachSnoc(t, xs[1..], x, c, deep);
      var (t2, rs2) := InsertEach(t, xs[1..], c, deep);
      var (u2, r2) := Insert(t2, x, c, deep);
      assert InsertEach(t, xs[1..] + [x], c, deep) == (u2, rs2 + [r2]);
      assert InsertEach(s, xs, c, deep) == (t2, [first] + rs2);
      assert InsertEach(s, xs + [x], c, deep) == (u2, [first] + (rs2 + [r2]));
      assert [first] + (rs2 + [r2]) == ([first] + rs2) + [r2];
    }
  }

  /** One step of the fold: the bulk insert of a non-empty list is a single
      insert of its head followed by the bulk insert of its tail. */
  lemma InsertEachCons(s: seq<Value>, xs: seq<Value>, c: Comparator, deep: DeepEqual)
    requires xs != []
    ensures InsertEach(s, xs, c, deep).0 == InsertEach(Insert(s, xs[0], c, deep).0, xs[1..], c, deep).0
    ensures InsertEach(s, xs, c, deep).1 == [Insert(s, xs[0], c, deep).1] + InsertEach(Insert(s, xs[0], c, deep).0, xs[1..], c, deep).1
  {
  }

  /** The items of a bulk insert that are pairwise unequal and absent
      from `s`. */
  predicate AllNew(s: seq<Value>, xs: seq<Value>, c: Comparator, deep: DeepEqual) {
    && (forall j :: 0 <= j < |xs| ==> !Contains(s, xs[j], c, deep))
    && (forall i, j :: 0 <= i < j < |xs| ==> !Contains([xs[i]], xs[j], c, deep))
  }

  /** Once the head of such a list is stored, its tail is still new. */
  lemma AllNewTail(s: seq<Value>, xs: seq<Value>, c: Comparator, deep: DeepEqual)
    requires xs != [] && AllStorable(s) && AllStorable(xs) && AllNew(s, xs, c, deep)
    ensures AllStorable(s + [xs[0]]) && AllStorable(xs[1..]) && AllNew(s + [xs[0]], xs[1..], c, deep)
  {
    var t := s + [xs[0]];
    assert AllStorable([xs[0]]);
    forall j | 0 <= j < |xs[1..]|
      ensures !Contains(t, xs[1..][j], c, deep)
    {
      assert xs[1..][j] == xs[j + 1];
      ContainsConcat(s, [xs[0]], xs[j + 1], c, deep);
    }
    assert forall i, j :: 0 <= i < j < |xs[1..]| ==> xs[1..][i] == xs[i + 1] && xs[1..][j] == xs[j + 1];
  }

  /** A value that is not found and may be stored is appended. */
  lemma InsertNew(s: seq<Value>, x: Value, c: Comparator, deep: DeepEqual)
    requires Storable(x) && !Contains(s, x, c, deep)
    ensures Insert(s, x, c, deep) == (s + [x], Added(true))
  {
  }

  /** A bulk insert whose first item is new appends that item and goes on
      from the extended sequence. */
  lemma InsertEachNewHead(s: seq<Value>, xs: seq<Value>, c: Comparator, deep: DeepEqual)
    requires xs != [] && Storable(xs[0]) && !Contains(s, xs[0], c, deep)
    ensures InsertEach(s, xs, c, deep).0 == InsertEach(s + [xs[0]], xs[1..], c, deep).0
    ensures InsertEach(s, xs, c, deep).1 == [Added(true)] + InsertEach(s + [xs[0]], xs[1..], c, deep).1
  {
    InsertNew(s, xs[0], c, deep);
    InsertEachCons(s, xs, c, deep);
  }

  /** Order preservation: items that are pairwise unequal and not found in
      the container are all appended, in their order, each reporting
      `true`. */
  lemma {:induction false} InsertEachDistinct(s: seq<Value>, xs: seq<Value>, c: Comparator, deep: DeepEqual)
    requires AllStorable(s) && AllStorable(xs) && AllNew(s, xs, c, deep)
    ensures InsertEach(s, xs, c, deep).0 == s + xs
    ensures forall r :: r in InsertEach(s, xs, c, deep).1 ==> r == Added(true)
    decreases xs
  {
    if xs != [] {
      assert Storable(xs[0]) && !Contains(s, xs[0], c, deep);
      InsertEachNewHead(s, xs, c, deep);
      AllNewTail(s, xs, c, deep);
      InsertEachDistinct(s + [xs[0]], xs[1..], c, deep);
      assert s + xs == (s + [xs[0]]) + xs[1..];
    }
  }

  /** Duplicates within one bulk insert are deduplicated against each
      other: `addEachToSet([a, a])` on an empty container keeps one `a`
      and reports `[true, false]`. */
  lemma InsertEachDuplicate(a: Value, c: Comparator, deep: DeepEqual)
    requires Storable(a)
    requires IsObject(a) ==> Equal(a, a, c, deep)
    ensures InsertEach([], [a, a], c, deep) == ([a], [Added(true), Added(false)])
  {
    var empty: seq<Value> := [];
    assert !Contains(empty, a, c, deep);
    InsertEachNewHead(empty, [a, a], c, deep);
    assert [a, a][0] == a && [a, a][1..] == [a] && empty + [a] == [a];
    InsertSingle([a], a, c, deep);
    InsertEachSingleton([a], a, c, deep);
    assert [Added(true)] + [Added(false)] == [Added(true), Added(false)];
  }

  /** The bulk insert of one item is the single insert of that item. */
  lemma InsertEachSingleton(s: seq<Value>, x: Value, c: Comparator, deep: DeepEqual)
    ensures InsertEach(s, [x], c, deep) == (Insert(s, x, c, deep).0, [Insert(s, x, c, deep).1])
  {
    InsertEachCons(s, [x], c, deep);
    assert [x][0] == x && [x][1..] == [];
    assert [Insert(s, x, c, deep).1] + [] == [Insert(s, x, c, deep).1];
  }

  // ---------------------------------------------------------------------
  // Removal
  // ---------------------------------------------------------------------

  /** `pull(item, comparator)` on the stored sequence `s`. An object or
      array removes its last match under `equal`; any other value removes
      its first occurrence found by `indexOf`. The guard `idx > -1` accepts
      position 0 and rejects both -1 and `undefined`. */
  function Pulled(s: seq<Value>, item: Value, c: Comparator, deep: DeepEqual): (r: seq<Value>)
    ensures |r| == |s| - 1 <==> if IsObject(item) then LastMatch(s, item, c, deep) >= 0 else item in s
    ensures |r| != |s| - 1 ==> r == s
    ensures forall j :: 0 <= j < |r| ==> r[j] in s
  {
    var idx := if IsObject(item) then LastMatch(s, item, c, deep) else IndexOf(s, item);
    if idx > -1 then s[..idx] + s[idx + 1..] else s
  }

  /** The loop of `pull` for an object: it visits every element and
      overwrites `idx` at each match, starting from `undefined` (-1). */
  method ScanLastMatch(s: seq<Value>, item: Value, c: Comparator, deep: DeepEqual) returns (idx: int)
    ensures idx == LastMatch(s, item, c, deep)
  {
    idx := -1;
    var i := 0;
    while i < |s|
      invariant 0 <= i <= |s|
      invariant idx == LastMatch(s[..i], item, c, deep)
    {
      assert s[..i + 1][..i] == s[..i];
      if Equal(s[i], item, c, deep) {
        idx := i;
      }
      i := i + 1;
    }
    assert s[..i] == s;
  }

  /** An object or array removes exactly the element at the largest index
      that matches it, and the length drops by one. */
  lemma PullObjectRemovesLastMatch(s: seq<Value>, item: Value, c: Comparator, deep: DeepEqual, i: nat)
    requires IsObject(item) && i < |s|
    requires Equal(s[i], item, c, deep)
    requires forall j :: i < j < |s| ==> !Equal(s[j], item, c, deep)
    ensures Pulled(s, item, c, deep) == s[..i] + s[i + 1..]
    ensures |Pulled(s, item, c, deep)| == |s| - 1
  {
    assert LastMatch(s, item, c, deep) == i;
  }

  /** An object or array that matches nothing leaves the sequence as it was. */
  lemma PullObjectNoMatch(s: seq<Value>, item: Value, c: Comparator, deep: DeepEqual)
    requires IsObject(item)
    requires forall j :: 0 <= j < |s| ==> !Equal(s[j], item, c, deep)
    ensures Pulled(s, item, c, deep) == s
  {
  }

  /** For a primitive, `indexOf` finds its first occurrence, and -1 means
      it does not occur. */
  lemma IndexOfPrimitive(s: seq<Value>, x: Value)
    requires !IsObject(x)
    ensures IndexOf(s, x) == -1 <==> x !in s
    ensures IndexOf(s, x) >= 0 ==> s[IndexOf(s, x)] == x && x !in s[..IndexOf(s, x)]
  {
    var k := IndexOf(s, x);
    forall m | 0 <= m < |s|
      ensures StrictEquals(s[m], x) <==> s[m] == x
    {
      StrictEqualsPrimitive(s[m], x);
    }
    if k >= 0 {
      assert x !in s[..k] by {
        forall m | 0 <= m < k ensures s[..k][m] != x {
          assert s[..k][m] == s[m];
        }
      }
    }
  }

  /** Any other value removes its first occurrence, also at position 0, and
      a value that does not occur leaves the sequence as it was. */
  lemma PullPrimitiveRemovesFirst(s: seq<Value>, item: Value, c: Comparator, deep: DeepEqual)
    requires !IsObject(item)
    ensures item !in s ==> Pulled(s, item, c, deep) == s
    ensures item in s ==>
              exists i :: 0 <= i < |s| && s[i] == item && item !in s[..i] &&
                          Pulled(s, item, c, deep) == s[..i] + s[i + 1..]
  {
    IndexOfPrimitive(s, item);
    var k := IndexOf(s, item);
    if k >= 0 {
      assert Pulled(s, item, c, deep) == s[..k] + s[k + 1..];
    }
  }

  /** Removal of a value stored once: afterwards it is no longer found and
      the length has dropped by one. */
  lemma PullUnique(s: seq<Value>, item: Value, c: Comparator, deep: DeepEqual, i: nat)
    requires i < |s|
    requires if IsObject(item)
             then Equal(s[i], item, c, deep) && forall j :: 0 <= j < |s| && j != i ==> !Equal(s[j], item, c, deep)
             else s[i] == item && forall j :: 0 <= j < |s| && j != i ==> s[j] != item
    ensures Pulled(s, item, c, deep) == s[..i] + s[i + 1..]
    ensures |Pulled(s, item, c, deep)| == |s| - 1
    ensures !Contains(Pulled(s, item, c, deep), item, c, deep)
  {
    var r := s[..i] + s[i + 1..];
    if IsObject(item) {
      PullObjectRemovesLastMatch(s, item, c, deep, i);
      forall j | 0 <= j < |r| ensures !Equal(r[j], item, c, deep) {
        if j < i { assert r[j] == s[j]; } else { assert r[j] == s[j + 1]; }
      }
    } else {
      PullPrimitiveRemovesFirst(s, item, c, deep);
      assert item in s;
      forall j | 0 <= j < |r| ensures r[j] != item {
        if j < i { assert r[j] == s[j]; } else { assert r[j] == s[j + 1]; }
      }
    }
  }

  /** Removal keeps the container free of `null`, `undefined` and arrays. */
  lemma PullKeepsStorable(s: seq<Value>, item: Value, c: Comparator, deep: DeepEqual)
    requires AllStorable(s)
    ensures AllStorable(Pulled(s, item, c, deep))
  {
    var r := Pulled(s, item, c, deep);
    var idx := if IsObject(item) then LastMatch(s, item, c, deep) else IndexOf(s, item);
    if idx > -1 {
      forall j | 0 <= j < |r| ensures Storable(r[j]) {
        if j < idx { assert r[j] == s[j]; } else { assert r[j] == s[j + 1]; }
      }
    }
  }

  // ---------------------------------------------------------------------
  // The container
  // ---------------------------------------------------------------------

  /** A DataSet: the array of stored values, updated in place, and the deep
      equality it falls back on when no comparator is given. */
  class DataSet {
    var elems: seq<Value>
    const deep: DeepEqual

    /** What the container's own operations maintain. */
    ghost predicate Valid()
      reads this
    {
      AllStorable(elems)
    }

    constructor (deep: DeepEqual)
      ensures elems == [] && this.deep == deep
      ensures Valid()
    {
      elems := [];
      this.deep := deep;
    }

    /** `hasItem(item, comparator)`: a query that changes nothing. */
    function HasItem(item: Value, c: Comparator): (r: bool)
      reads this
      ensures !IsObject(item) ==> (r <==> item in elems)
      ensures IsObject(item) && Valid() ==> (r <==> exists i :: 0 <= i < |elems| && Equal(elems[i], item, c, deep))
    {
      Contains(elems, item, c, deep)
    }

    /** `addToSet(item, comparator)`. */
    method AddToSet(item: Value, c: Comparator) returns (r: AddResult)
      modifies this
      ensures (elems, r) == Insert(old(elems), item, c, deep)
      ensures IsNullish(item) ==> elems == old(elems) && r == Added(false)
      ensures old(Valid()) ==> Valid()
      ensures old(Valid()) && Storable(item) && (IsObject(item) ==> Equal(item, item, c, deep)) ==> HasItem(item, c)
      ensures old(Valid()) && Reflexive(c, deep) ==> Present(elems, item, c, deep)
      decreases item
    {
      if Valid() {
        InsertKeepsStorable(elems, item, c, deep);
        if Reflexive(c, deep) {
          InsertMakesPresent(elems, item, c, deep);
        }
        if Storable(item) && (IsObject(item) ==> Equal(item, item, c, deep)) {
          InsertSingle(elems, item, c, deep);
        }
      }
      if IsNullish(item) {
        return Added(false);
      }
      if item.Arr? {
        var results := AddEachToSet(item.items, c);
        return Many(results);
      }
      if !HasItem(item, c) {
        elems := elems + [item];
        return Added(true);
      }
      return Added(false);
    }

    /** `addEachToSet(items, comparator)`: `addToSet` on each item in turn,
        collecting the results. */
    method AddEachToSet(items: seq<Value>, c: Comparator) returns (results: seq<AddResult>)
      modifies this
      ensures (elems, results) == InsertEach(old(elems), items, c, deep)
      ensures old(Valid()) ==> Valid()
      ensures old(Valid()) && Reflexive(c, deep) ==> forall i :: 0 <= i < |items| ==> Present(elems, items[i], c, deep)
      decreases items
    {
      if Valid() && Reflexive(c, deep) {
        InsertEachMakesPresent(elems, items, c, deep);
      }
      results := [];
      var i := 0;
      while i < |items|
        invariant 0 <= i <= |items|
        invariant (elems, results) == InsertEach(old(elems), items[..i], c, deep)
        invariant old(Valid()) ==> Valid()
      {
        InsertEachSnoc(old(elems), items[..i], items[i], c, deep);
        assert items[..i + 1] == items[..i] + [items[i]];
        var result := AddToSet(items[i], c);
        results := results + [result];
        i := i + 1;
      }
      assert items[..i] == items;
    }

    /** `pull(item, comparator)`. */
    method Pull(item: Value, c: Comparator)
      modifies this
      ensures elems == Pulled(old(elems), item, c, deep)
      ensures old(Valid()) ==> Valid()
    {
      var idx;
      if IsObject(item) {
        idx := ScanLastMatch(elems, item, c, deep);
      } else {
        idx := IndexOf(elems, item);
      }
      if old(Valid()) {
        PullKeepsStorable(elems, item, c, deep);
      }
      if idx > -1 {
        elems := elems[..idx] + elems[idx + 1..];
      }
    }

    /** `clear()`: every element is removed. */
    method Clear()
      modifies this
      ensures elems == []
      ensures Valid()
    {
      elems := elems[..0];
    }
  }
}
