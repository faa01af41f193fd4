/** The scenario of tests/index.js, replayed on the DataSet class, and a few
    concrete cases of how the comparator changes what counts as a duplicate
    and which element `pull` removes. */
module DataSetTests {
  import opened JsValues
  import opened DataSets

  /** The two records of the test data: `{name: 'jimmy'}` and `{name: 'erin'}`. */
  function Jimmy(): Value { Obj(0, map["name" := Str("jimmy")]) }
  function Erin(): Value { Obj(1, map["name" := Str("erin")]) }

  /** Deep equality accepts each test record as equal to itself and tells
      the two apart; the test run needs nothing more of it. */
  predicate TellsApart(deep: DeepEqual) {
    deep(Jimmy(), Jimmy()) && deep(Erin(), Erin()) && !deep(Jimmy(), Erin()) && !deep(Erin(), Jimmy())
  }

  // The steps of the test run, stated on the specification functions.

  lemma FirstAddAccepted(deep: DeepEqual)
    requires TellsApart(deep)
    ensures Insert([], Jimmy(), Deep, deep) == ([Jimmy()], Added(true))
  {
    var empty: seq<Value> := [];
    assert !Contains(empty, Jimmy(), Deep, deep);
    InsertSingle(empty, Jimmy(), Deep, deep);
    assert empty + [Jimmy()] == [Jimmy()];
  }

  lemma SecondAddRefused(deep: DeepEqual)
    requires TellsApart(deep)
    ensures Insert([Jimmy()], Jimmy(), Deep, deep) == ([Jimmy()], Added(false))
  {
    InsertSingle([Jimmy()], Jimmy(), Deep, deep);
  }

  lemma PullOnlyElement(deep: DeepEqual)
    requires TellsApart(deep)
    ensures Pulled([Jimmy()], Jimmy(), Deep, deep) == []
  {
    PullUnique([Jimmy()], Jimmy(), Deep, deep, 0);
  }

  lemma AddEachStoresBoth(deep: DeepEqual)
    requires TellsApart(deep)
    ensures InsertEach([], [Jimmy(), Erin()], Deep, deep).0 == [Jimmy(), Erin()]
  {
    InsertEachDistinct([], [Jimmy(), Erin()], Deep, deep);
  }

  lemma PullFirstOfTwo(deep: DeepEqual)
    requires TellsApart(deep)
    ensures Pulled([Jimmy(), Erin()], Jimmy(), Deep, deep) == [Erin()]
  {
    PullUnique([Jimmy(), Erin()], Jimmy(), Deep, deep, 0);
  }

  lemma LookupsAfterPull(deep: DeepEqual)
    requires TellsApart(deep)
    ensures Contains([Erin()], Erin(), Deep, deep)
    ensures !Contains([Erin()], Jimmy(), Deep, deep)
  {
    assert AllStorable([Erin()]) && Equal([Erin()][0], Erin(), Deep, deep);
  }

  /** tests/index.js, describe blocks 'addToSet' and 'pull'. */
  method AddTwiceThenPull(ds: DataSet) returns (first: AddResult, second: AddResult, n1: nat, n2: nat)
    requires ds.elems == [] && TellsApart(ds.deep)
    modifies ds
    ensures ds.elems == [] && first == Added(true) && second == Added(false) && n1 == 1 && n2 == 1
  {
    FirstAddAccepted(ds.deep);
    first := ds.AddToSet(Jimmy(), Deep);
    n1 := |ds.elems|;
    SecondAddRefused(ds.deep);
    second := ds.AddToSet(Jimmy(), Deep);
    n2 := |ds.elems|;
    PullOnlyElement(ds.deep);
    ds.Pull(Jimmy(), Deep);
  }

  /** tests/index.js, describe blocks 'addEachToSet' and 'hasItem'. */
  method AddBothThenPull(ds: DataSet) returns (n4: nat, n5: nat, hasErin: bool, hasJimmy: bool)
    requires ds.elems == [] && TellsApart(ds.deep)
    modifies ds
    ensures ds.elems == [Erin()] && n4 == 2 && n5 == 1 && hasErin && !hasJimmy
  {
    AddEachStoresBoth(ds.deep);
    var _ := ds.AddEachToSet([Jimmy(), Erin()], Deep);
    n4 := |ds.elems|;
    PullFirstOfTwo(ds.deep);
    ds.Pull(Jimmy(), Deep);
    n5 := |ds.elems|;
    LookupsAfterPull(ds.deep);
    hasErin := ds.HasItem(Erin(), Deep);
    hasJimmy := ds.HasItem(Jimmy(), Deep);
  }

  /** The test run: add jimmy twice, pull him, add both records, pull jimmy
      again (he is at position 0), look both up, and clear. */
  method Scenario(deep: DeepEqual) returns (added: seq<AddResult>, lengths: seq<nat>, found: seq<bool>)
    requires TellsApart(deep)
    ensures added == [Added(true), Added(false)]
    ensures lengths == [1, 1, 0, 2, 1, 0]
    ensures found == [true, false]
  {
    var ds := new DataSet(deep);
    var first, second, n1, n2 := AddTwiceThenPull(ds);
    var n3 := |ds.elems|;
    var n4, n5, hasErin, hasJimmy := AddBothThenPull(ds);
    ds.Clear();
    var n6 := |ds.elems|;
    added := [first, second];
    lengths := [n1, n2, n3, n4, n5, n6];
    found := [hasErin, hasJimmy];
  }

  /** Two records that share an id but differ in name. */
  function RecordA(): Value { Obj(2, map["id" := Num(1), "name" := Str("a")]) }
  function RecordB(): Value { Obj(3, map["id" := Num(1), "name" := Str("b")]) }

  /** With the key comparator `'id'` the second record is a duplicate of the
      first; under a deep equality that tells them apart it is not. */
  lemma ComparatorDecidesDuplicates(deep: DeepEqual)
    requires !deep(RecordA(), RecordB())
    ensures Insert([RecordA()], RecordB(), Key("id"), deep) == ([RecordA()], Added(false))
    ensures Insert([RecordA()], RecordB(), Deep, deep) == ([RecordA(), RecordB()], Added(true))
  {
    assert Get(RecordA(), "id") == Num(1) == Get(RecordB(), "id");
    assert Equal([RecordA()][0], RecordB(), Key("id"), deep);
    assert AllStorable([RecordA()]);
    assert !Contains([RecordA()], RecordB(), Deep, deep);
    assert [RecordA()] + [RecordB()] == [RecordA(), RecordB()];
  }

  /** Both records match a probe `{id: 1}` under the key comparator: `pull`
      removes the later one. A primitive is removed at its first
      occurrence, here position 0. */
  lemma PullExamples(deep: DeepEqual)
    ensures Pulled([RecordA(), RecordB()], Obj(4, map["id" := Num(1)]), Key("id"), deep) == [RecordA()]
    ensures Pulled([Num(1), Num(2), Num(1)], Num(1), Deep, deep) == [Num(2), Num(1)]
  {
    PullObjectRemovesLastMatch([RecordA(), RecordB()], Obj(4, map["id" := Num(1)]), Key("id"), deep, 1);
    PullPrimitiveRemovesFirst([Num(1), Num(2), Num(1)], Num(1), Deep, deep);
  }
}
