/**
 Worked examples. One `terms` aggregation `agg` with a single bucket
 `{"doc_count": 3, "key": "a"}` flattens to the row
 `{"agg": "a", "agg_doc_count": 3}`; two top-level aggregations are walked
 from the last key to the first, and the second row still carries the
 column of the first, because the accumulator is never cleared.
 */
module WorkedExamples {
  import opened Json
  import opened Rows
  import opened Flatten

  function LeafFields(): seq<Entry> {
    [Entry("doc_count", Num(3)), Entry("key", Str("a"))]
  }

  function ExampleRoot(): seq<Entry> {
    [Entry("agg", Obj([Entry("buckets", Arr([Obj(LeafFields())]))]))]
  }

  /** The root yields one frame, named `agg`, over the single bucket. */
  lemma ExampleStack()
    ensures BucketGroups(ExampleRoot()) == [Frame(Some("agg"), [Obj(LeafFields())], 0)]
    ensures ValidStack(BucketGroups(ExampleRoot()))
  {
    var root := ExampleRoot();
    assert root[..0] == [];
    assert BucketsArray(root[0].val) == Some([Obj(LeafFields())]);
    assert WFBucket(Obj(LeafFields()));
  }

  /** The bucket writes its key under the frame's name and its count under `agg_doc_count`. */
  lemma ExampleBucket()
    ensures WriteBucket("agg", LeafFields(), map[]) == map["agg" := Str("a"), Column("agg", "doc_count") := Num(3)]
    ensures !HasNested(LeafFields())
  {
    var es := LeafFields();
    var r1 := WriteField("agg", es[0], map[]);
    assert r1 == map[Column("agg", "doc_count") := Num(3)];
    assert es[..1][..0] == [];
    assert WriteBucket("agg", es[..1], map[]) == r1;
    assert es[..|es| - 1] == es[..1];
    assert |Column("agg", "doc_count")| == 13;
  }

  /** The first pull returns that row. */
  lemma ExampleFirstRow()
    ensures ValidStack(BucketGroups(ExampleRoot()))
    ensures NextRow(BucketGroups(ExampleRoot()), None).out == Some(map["agg" := Str("a"), Column("agg", "doc_count") := Num(3)])
  {
    ExampleStack();
    ExampleBucket();
  }

  /** A bucket holding only a plain `"key"` writes it under the active frame's name. */
  lemma KeyOnlyBucket(active: string, v: Json, row: Row)
    requires !v.Obj?
    ensures WriteBucket(active, [Entry("key", v)], row) == row[active := v]
    ensures !HasNested([Entry("key", v)])
  {
    assert [Entry("key", v)][..0] == [];
  }

  function KeyBucket(v: Json): Json {
    Obj([Entry("key", v)])
  }

  function TwoRoots(): seq<Entry> {
    [ Entry("a", Obj([Entry("buckets", Arr([KeyBucket(Str("x"))]))])),
      Entry("b", Obj([Entry("buckets", Arr([KeyBucket(Str("y"))]))])) ]
  }

  /** Two top-level aggregations give two frames; `b`, the later key, is on top. */
  lemma TwoRootsStack()
    ensures BucketGroups(TwoRoots()) ==
      [Frame(Some("a"), [KeyBucket(Str("x"))], 0), Frame(Some("b"), [KeyBucket(Str("y"))], 0)]
    ensures ValidStack(BucketGroups(TwoRoots()))
  {
    var root := TwoRoots();
    assert root[..1][..0] == [];
    assert root[..|root| - 1] == root[..1];
    assert BucketsArray(root[0].val) == Some([KeyBucket(Str("x"))]);
    assert BucketsArray(root[1].val) == Some([KeyBucket(Str("y"))]);
    assert WFBucket(KeyBucket(Str("x"))) && WFBucket(KeyBucket(Str("y")));
  }

  /** The first pull walks `b` and returns its row. */
  lemma TwoRootsFirstPull()
    ensures ValidStack(BucketGroups(TwoRoots()))
    ensures NextRow(BucketGroups(TwoRoots()), None) ==
      Pull([Frame(Some("a"), [KeyBucket(Str("x"))], 0), Frame(Some("b"), [KeyBucket(Str("y"))], 1)],
           Some(map["b" := Str("y")]), Some(map["b" := Str("y")]))
  {
    TwoRootsStack();
    KeyOnlyBucket("b", Str("y"), map[]);
    assert KeyBucket(Str("y")).entries == [Entry("key", Str("y"))];
  }

  /** The second pull walks `a`, and its row still holds the `b` column of the first row. */
  lemma TwoRootsSecondPull()
    ensures var s := [Frame(Some("a"), [KeyBucket(Str("x"))], 0), Frame(Some("b"), [KeyBucket(Str("y"))], 1)];
      ValidStack(s) && NextRow(s, Some(map["b" := Str("y")])).out == Some(map["b" := Str("y"), "a" := Str("x")])
  {
    var s := [Frame(Some("a"), [KeyBucket(Str("x"))], 0), Frame(Some("b"), [KeyBucket(Str("y"))], 1)];
    assert WFBucket(KeyBucket(Str("x"))) && WFBucket(KeyBucket(Str("y")));
    assert s[..1] == [Frame(Some("a"), [KeyBucket(Str("x"))], 0)];
    KeyOnlyBucket("a", Str("x"), map["b" := Str("y")]);
    assert KeyBucket(Str("x")).entries == [Entry("key", Str("x"))];
  }
}
