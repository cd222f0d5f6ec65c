/**
 The specification of the aggregation flattener: how the fields of one bucket
 are classified and which columns they write, which frames a bucket pushes,
 and what one pull of the iterator (`next`) computes, written as functions
 over the stack of frames and the row accumulator. The lemmas state what the
 traversal promises: stack discipline, terminal exhaustion, rows only at leaf
 buckets, column naming and carry-over of earlier columns.
 */
module Flatten {
  import opened Json
  import opened Rows

  /** One entry of `iter_stack`: the aggregation's name and a cursor over its sibling buckets. */
  datatype Frame = Frame(name: Option<string>, buckets: seq<Json>, cursor: nat)

  /** The statistics fields copied from a stats aggregation, in the order the source inserts them. */
  const StatNames: seq<string> :=
    ["count", "min", "max", "avg", "sum", "sum_of_squares", "variance", "std_deviation"]

  // ---------------------------------------------------------------------
  // Classifying a field value of a bucket
  // ---------------------------------------------------------------------

  /** The value is an object with a `"buckets"` key: a nested bucket aggregation. */
  predicate NestsBuckets(v: Json) {
    v.Obj? && Get(v.entries, "buckets").Some?
  }

  /** The sibling buckets of a nested aggregation, when its `"buckets"` is an array. */
  function BucketsArray(v: Json): Option<seq<Json>> {
    if v.Obj? then
      match Get(v.entries, "buckets")
      case Some(Arr(a)) => Some(a)
      case _ => None
    else None
  }

  /** The value is an object with a `"value"` key: a single-value metric. */
  predicate HasValue(v: Json) {
    v.Obj? && Get(v.entries, "value").Some?
  }

  /** A field that is neither a nested aggregation nor a single-value metric; only such a field reaches the `"key"`/`"doc_count"` test. */
  predicate GroupField(e: Entry) {
    !NestsBuckets(e.val) && !HasValue(e.val)
  }

  /** Some field of the bucket nests buckets, so the bucket yields no row. */
  predicate HasNested(es: seq<Entry>) {
    exists i :: 0 <= i < |es| && NestsBuckets(es[i].val)
  }

  // ---------------------------------------------------------------------
  // Well-formedness: the inputs on which the source's expect/unwrap succeed
  // ---------------------------------------------------------------------

  /** A `std_deviation_bounds` object read by a stats field has both `upper` and `lower`. */
  predicate BoundsReady(v: Json) {
    v.Obj? && !NestsBuckets(v) && !HasValue(v) && BoundsObject(v.entries).Some? ==>
      Get(BoundsObject(v.entries).value, "upper").Some? && Get(BoundsObject(v.entries).value, "lower").Some?
  }

  /** The entries of the object under `"std_deviation_bounds"`, when there is one. */
  function BoundsObject(c: seq<Entry>): Option<seq<Entry>> {
    match Get(c, "std_deviation_bounds")
    case Some(Obj(b)) => Some(b)
    case _ => None
  }

  /** Every bucket of the array, and of every array nested in it, is an object. */
  predicate WFBuckets(xs: seq<Json>)
    decreases xs, 3
  {
    forall i | 0 <= i < |xs| :: WFBucket(xs[i])
  }

  predicate WFBucket(b: Json)
    decreases b, 2
  {
    b.Obj? && forall i | 0 <= i < |b.entries| :: WFField(b.entries[i].val)
  }

  predicate WFField(v: Json)
    decreases v, 1
  {
    BoundsReady(v) && WFChildren(v)
  }

  /** Every `"buckets"` array inside the value is well formed. */
  predicate WFChildren(v: Json)
    decreases v, 0
  {
    v.Obj? ==>
      forall i | 0 <= i < |v.entries| ::
        v.entries[i].key == "buckets" && v.entries[i].val.Arr? ==> WFBuckets(v.entries[i].val.items)
  }

  lemma WFChildrenArray(v: Json)
    requires WFChildren(v) && BucketsArray(v).Some?
    ensures WFBuckets(BucketsArray(v).value)
  {
    GetSpec(v.entries, "buckets");
    var i :| 0 <= i < |v.entries| && v.entries[i] == Entry("buckets", Get(v.entries, "buckets").value);
  }

  /** The whole aggregations tree: every bucketed top-level aggregation is well formed. */
  predicate WFAggregations(root: Json) {
    root.Obj? && forall i | 0 <= i < |root.entries| :: WFChildren(root.entries[i].val)
  }

  // ---------------------------------------------------------------------
  // Frames
  // ---------------------------------------------------------------------

  /**
   The frames for the entries that are objects with a `"buckets"` array, in
   entry order, each named after its entry and positioned before its first
   bucket. `AggregationIterator::new` builds its stack this way from the root
   object, and `next` pushes these frames for the fields of a bucket.
   */
  function BucketGroups(es: seq<Entry>): (gs: seq<Frame>)
    ensures |gs| <= |es|
  {
    if es == [] then []
    else
      var pre := BucketGroups(es[..|es| - 1]);
      var e := es[|es| - 1];
      match BucketsArray(e.val)
      case Some(a) => pre + [Frame(Some(e.key), a, 0)]
      case None => pre
  }

  /** Every frame is named after an entry of `es` whose `"buckets"` array it walks, from the first bucket. */
  lemma {:induction false} BucketGroupsSound(es: seq<Entry>)
    ensures forall g | g in BucketGroups(es) :: g.name.Some? && g.cursor == 0
    ensures forall g | g in BucketGroups(es) ::
      exists i :: 0 <= i < |es| && es[i].key == g.name.value && BucketsArray(es[i].val) == Some(g.buckets)
  {
    if es != [] {
      var pre := es[..|es| - 1];
      var e := es[|es| - 1];
      BucketGroupsSound(pre);
      forall g | g in BucketGroups(es)
        ensures g.name.Some? && g.cursor == 0
        ensures exists i :: 0 <= i < |es| && es[i].key == g.name.value && BucketsArray(es[i].val) == Some(g.buckets)
      {
        if g in BucketGroups(pre) {
          var i :| 0 <= i < |pre| && pre[i].key == g.name.value && BucketsArray(pre[i].val) == Some(g.buckets);
          assert es[i] == pre[i];
        } else {
          assert g == Frame(Some(e.key), BucketsArray(e.val).value, 0);
          assert es[|es| - 1] == e;
        }
      }
    }
  }

  /** Every entry that is an object with a `"buckets"` array gets its frame. */
  lemma {:induction false} BucketGroupsComplete(es: seq<Entry>)
    ensures forall i | 0 <= i < |es| && BucketsArray(es[i].val).Some? ::
      Frame(Some(es[i].key), BucketsArray(es[i].val).value, 0) in BucketGroups(es)
  {
    if es != [] {
      var pre := es[..|es| - 1];
      BucketGroupsComplete(pre);
      forall i | 0 <= i < |es| && BucketsArray(es[i].val).Some?
        ensures Frame(Some(es[i].key), BucketsArray(es[i].val).value, 0) in BucketGroups(es)
      {
        if i < |pre| {
          assert pre[i] == es[i];
        }
      }
    }
  }

  /** The frame names strictly increase from the bottom of a stack to its top. */
  predicate NamesIncreasing(gs: seq<Frame>) {
    forall i, j | 0 <= i < j < |gs| :: gs[i].name.Some? && gs[j].name.Some? && KeyLess(gs[i].name.value, gs[j].name.value)
  }

  /** Every frame of a key-sorted object is named below a key that follows all of its entries. */
  lemma BucketGroupsBelow(es: seq<Entry>, k: string)
    requires forall i | 0 <= i < |es| :: KeyLess(es[i].key, k)
    ensures forall g | g in BucketGroups(es) :: g.name.Some? && KeyLess(g.name.value, k)
  {
    BucketGroupsSound(es);
    forall g | g in BucketGroups(es)
      ensures g.name.Some? && KeyLess(g.name.value, k)
    {
      var i :| 0 <= i < |es| && es[i].key == g.name.value && BucketsArray(es[i].val) == Some(g.buckets);
    }
  }

  /** In a key-sorted object the frames come in strictly increasing name order. */
  lemma {:induction false} BucketGroupsInKeyOrder(es: seq<Entry>)
    requires SortedKeys(es)
    ensures NamesIncreasing(BucketGroups(es))
  {
    if es != [] {
      var pre := es[..|es| - 1];
      var e := es[|es| - 1];
      assert forall i | 0 <= i < |pre| :: pre[i] == es[i];
      BucketGroupsInKeyOrder(pre);
      var gp := BucketGroups(pre);
      if BucketsArray(e.val).Some? {
        BucketGroupsBelow(pre, e.key);
        assert BucketGroups(es) == gp + [Frame(Some(e.key), BucketsArray(e.val).value, 0)];
      } else {
        assert BucketGroups(es) == gp;
      }
    }
  }

  /** A bucket with no nested aggregation pushes no frame. */
  lemma {:induction false} NoNestedNoGroups(es: seq<Entry>)
    requires !HasNested(es)
    ensures BucketGroups(es) == []
  {
    if es != [] {
      var pre := es[..|es| - 1];
      assert !HasNested(pre) by {
        assert forall i | 0 <= i < |pre| :: pre[i] == es[i];
      }
      NoNestedNoGroups(pre);
      assert !NestsBuckets(es[|es| - 1].val);
    }
  }

  /** The frames for a well-formed bucket are well formed. */
  lemma BucketGroupsWellFormed(es: seq<Entry>)
    requires forall i | 0 <= i < |es| :: WFChildren(es[i].val)
    ensures forall g | g in BucketGroups(es) :: WFBuckets(g.buckets)
  {
    BucketGroupsSound(es);
    forall g | g in BucketGroups(es)
      ensures WFBuckets(g.buckets)
    {
      var i :| 0 <= i < |es| && es[i].key == g.name.value && BucketsArray(es[i].val) == Some(g.buckets);
      WFChildrenArray(es[i].val);
    }
  }

  // ---------------------------------------------------------------------
  // The traversal stack and its termination measure
  // ---------------------------------------------------------------------

  /** Every frame carries a name (so `unwrap` on the active name succeeds) and a cursor within its array. */
  predicate Framed(stack: seq<Frame>) {
    forall i | 0 <= i < |stack| :: stack[i].name.Some? && stack[i].cursor <= |stack[i].buckets|
  }

  predicate WellFormedStack(stack: seq<Frame>) {
    forall i | 0 <= i < |stack| :: WFBuckets(stack[i].buckets)
  }

  predicate ValidStack(stack: seq<Frame>) {
    Framed(stack) && WellFormedStack(stack)
  }

  /** The size of what a frame has not visited yet, plus one for the frame itself. */
  function FrameMeasure(f: Frame): nat {
    if f.cursor <= |f.buckets| then 1 + SizeSeq(f.buckets[f.cursor..]) else 1
  }

  /** The unvisited part of the whole tree plus the stack height: every loop iteration of `next` lowers it. */
  function Measure(stack: seq<Frame>): nat {
    if stack == [] then 0 else Measure(stack[..|stack| - 1]) + FrameMeasure(stack[|stack| - 1])
  }

  lemma {:induction false} MeasureAppend(a: seq<Frame>, b: seq<Frame>)
    ensures Measure(a + b) == Measure(a) + Measure(b)
  {
    if b != [] {
      assert (a + b)[..|a + b| - 1] == a + b[..|b| - 1];
      MeasureAppend(a, b[..|b| - 1]);
    } else {
      assert a + b == a;
    }
  }

  /** The frames a bucket pushes weigh less than the fields they come from. */
  lemma {:induction false} BucketGroupsMeasure(es: seq<Entry>)
    ensures Measure(BucketGroups(es)) <= SizeEntries(es)
  {
    if es != [] {
      var pre := es[..|es| - 1];
      var e := es[|es| - 1];
      BucketGroupsMeasure(pre);
      SizeEntriesSnoc(es);
      match BucketsArray(e.val)
      case Some(a) =>
        MeasureAppend(BucketGroups(pre), [Frame(Some(e.key), a, 0)]);
        assert [Frame(Some(e.key), a, 0)][..0] == [];
        assert a[0..] == a;
        var c := e.val.entries;
        GetSpec(c, "buckets");
        var k :| 0 <= k < |c| && c[k] == Entry("buckets", Arr(a));
        SizeEntriesElem(c, k);
      case None =>
    }
  }

  /** The active (top) frame. */
  function Top(stack: seq<Frame>): Frame
    requires stack != []
  {
    stack[|stack| - 1]
  }

  /** The stack after the top frame's cursor moves past bucket `b` and `b`'s nested arrays are pushed. */
  function Advance(stack: seq<Frame>): (s: seq<Frame>)
    requires stack != [] && Top(stack).cursor < |Top(stack).buckets|
    requires Top(stack).buckets[Top(stack).cursor].Obj?
  {
    var top := Top(stack);
    stack[..|stack| - 1] + [top.(cursor := top.cursor + 1)]
      + BucketGroups(top.buckets[top.cursor].entries)
  }

  lemma AdvanceMeasure(stack: seq<Frame>)
    requires stack != [] && Top(stack).cursor < |Top(stack).buckets|
    requires Top(stack).buckets[Top(stack).cursor].Obj?
    ensures Measure(Advance(stack)) < Measure(stack)
  {
    var top := Top(stack);
    var rest := stack[..|stack| - 1];
    var b := top.buckets[top.cursor];
    var advanced := top.(cursor := top.cursor + 1);
    MeasureAppend(rest + [advanced], BucketGroups(b.entries));
    MeasureAppend(rest, [advanced]);
    assert [advanced][..0] == [];
    SizeSeqSuffix(top.buckets, top.cursor);
    BucketGroupsMeasure(b.entries);
  }

  lemma AdvanceValid(stack: seq<Frame>)
    requires ValidStack(stack) && stack != [] && Top(stack).cursor < |Top(stack).buckets|
    ensures Top(stack).buckets[Top(stack).cursor].Obj?
    ensures ValidStack(Advance(stack))
  {
    var top := Top(stack);
    assert WFBuckets(top.buckets);
    var b := top.buckets[top.cursor];
    assert WFBucket(b);
    BucketGroupsWellFormed(b.entries);
    BucketGroupsSound(b.entries);
    var s := Advance(stack);
    var gs := BucketGroups(b.entries);
    assert forall i | |stack| <= i < |s| :: s[i] in gs;
  }

  // ---------------------------------------------------------------------
  // Columns written by one bucket
  // ---------------------------------------------------------------------

  /** The columns `<key>_<name>` for the given field names. */
  function ColumnsOf(key: string, names: seq<string>): set<string> {
    set t | t in names :: Column(key, t)
  }

  /** `insert_value` for each of `names` in turn. */
  function WithValues(row: Row, names: seq<string>, c: seq<Entry>, key: string): (out: Row)
    ensures row.Keys <= out.Keys
    decreases |names|
  {
    if names == [] then row else WithValues(WithValue(row, names[0], c, key), names[1..], c, key)
  }

  /**
   After `insert_value` for each of `names`: a named field that the object has
   is in the row under `<key>_<name>`, an absent one left that column as it
   was, and no other column changed.
   */
  lemma {:induction false} WithValuesColumns(row: Row, names: seq<string>, c: seq<Entry>, key: string)
    ensures var out := WithValues(row, names, c, key);
      row.Keys <= out.Keys <= row.Keys + ColumnsOf(key, names)
    ensures var out := WithValues(row, names, c, key);
      forall col | col in row && col !in ColumnsOf(key, names) :: out[col] == row[col]
    ensures var out := WithValues(row, names, c, key);
      forall s | s in names ::
        && (Column(key, s) in out <==> Column(key, s) in row || Get(c, s).Some?)
        && (Get(c, s).Some? ==> out[Column(key, s)] == Get(c, s).value)
        && (Get(c, s).None? && Column(key, s) in row ==> out[Column(key, s)] == row[Column(key, s)])
    decreases |names|
  {
    if names != [] {
      var n := names[0];
      var mid := WithValue(row, n, c, key);
      WithValuesColumns(mid, names[1..], c, key);
      var out := WithValues(row, names, c, key);
      assert ColumnsOf(key, names) == {Column(key, n)} + ColumnsOf(key, names[1..]);
      forall s | s in names
        ensures Column(key, s) in out <==> Column(key, s) in row || Get(c, s).Some?
        ensures Get(c, s).Some? ==> out[Column(key, s)] == Get(c, s).value
        ensures Get(c, s).None? && Column(key, s) in row ==> out[Column(key, s)] == row[Column(key, s)]
      {
        ColumnInjective(key, s, n);
        if s !in names[1..] {
          assert s == n;
          forall t | t in names[1..]
            ensures Column(key, s) != Column(key, t)
          {
            ColumnInjective(key, s, t);
          }
        }
      }
    }
  }

  /** A column that is none of `<key>_<name>` is left as it was by `insert_value` for each of `names`. */
  lemma {:induction false} WithValuesFrame(row: Row, names: seq<string>, c: seq<Entry>, key: string, col: string)
    requires forall t | t in names :: col != Column(key, t)
    ensures var out := WithValues(row, names, c, key);
      (col in out <==> col in row) && (col in row ==> out[col] == row[col])
    decreases |names|
  {
    if names != [] {
      WithValuesFrame(WithValue(row, names[0], c, key), names[1..], c, key, col);
    }
  }

  /** The eight `insert_value` calls of a stats object, in the source's order. */
  function WithStats(row: Row, c: seq<Entry>, key: string): Row {
    WithValues(row, StatNames, c, key)
  }

  /** `WithStats` is the source's sequence of eight `insert_value` calls. */
  lemma WithStatsUnrolled(row: Row, c: seq<Entry>, key: string)
    ensures WithStats(row, c, key) ==
      WithValue(WithValue(WithValue(WithValue(WithValue(WithValue(WithValue(WithValue(row,
        "count", c, key), "min", c, key), "max", c, key), "avg", c, key), "sum", c, key),
        "sum_of_squares", c, key), "variance", c, key), "std_deviation", c, key)
  {
  }

  /** One statistic of a stats object: its column is added when present and left as it was when absent. */
  lemma WithStatsColumn(row: Row, c: seq<Entry>, key: string, s: string)
    requires s in StatNames
    ensures var out := WithStats(row, c, key);
      && (Column(key, s) in out <==> Column(key, s) in row || Get(c, s).Some?)
      && (Get(c, s).Some? ==> out[Column(key, s)] == Get(c, s).value)
      && (Get(c, s).None? && Column(key, s) in row ==> out[Column(key, s)] == row[Column(key, s)])
  {
    WithValuesColumns(row, StatNames, c, key);
  }

  /** The names under `std_deviation_bounds`, in the order the source inserts them. */
  const BoundNames: seq<string> := ["std_deviation_bounds_upper", "std_deviation_bounds_lower"]

  /** The two columns read from a `std_deviation_bounds` object, upper first. */
  function WithBounds(row: Row, c: seq<Entry>, key: string): (out: Row)
    requires BoundsReady(Obj(c))
    requires Get(c, "buckets").None? && Get(c, "value").None?
    ensures row.Keys <= out.Keys
    ensures out.Keys <= row.Keys + {Column(key, "std_deviation_bounds_upper"), Column(key, "std_deviation_bounds_lower")}
    ensures BoundsObject(c).Some? ==>
      && Column(key, "std_deviation_bounds_upper") in out
      && Column(key, "std_deviation_bounds_lower") in out
      && out[Column(key, "std_deviation_bounds_upper")] == Get(BoundsObject(c).value, "upper").value
      && out[Column(key, "std_deviation_bounds_lower")] == Get(BoundsObject(c).value, "lower").value
    ensures BoundsObject(c).None? ==> out == row
  {
    ColumnInjective(key, "std_deviation_bounds_upper", "std_deviation_bounds_lower");
    match BoundsObject(c)
    case Some(b) =>
      row[Column(key, "std_deviation_bounds_upper") := Get(b, "upper").value]
         [Column(key, "std_deviation_bounds_lower") := Get(b, "lower").value]
    case None => row
  }

  /** A column other than the two bounds columns is left as it was by `WithBounds`. */
  lemma WithBoundsFrame(row: Row, c: seq<Entry>, key: string, col: string)
    requires BoundsReady(Obj(c))
    requires Get(c, "buckets").None? && Get(c, "value").None?
    requires col != Column(key, "std_deviation_bounds_upper") && col != Column(key, "std_deviation_bounds_lower")
    ensures col in WithBounds(row, c, key) <==> col in row
    ensures col in row ==> WithBounds(row, c, key)[col] == row[col]
  {
  }

  /** The columns a stats object may write. */
  function MetricColumns(key: string): set<string> {
    ColumnsOf(key, StatNames) + {Column(key, "std_deviation_bounds_upper"), Column(key, "std_deviation_bounds_lower")}
  }

  /** The columns the `"key"` and `"doc_count"` fields write, named after the active frame. */
  function GroupColumns(active: string, key: string): set<string> {
    if key == "key" then {active}
    else if key == "doc_count" then {Column(active, "doc_count")}
    else {}
  }

  /** The columns field `e` of a bucket of the frame named `active` may write. */
  function FieldColumns(active: string, e: Entry): set<string> {
    if NestsBuckets(e.val) then {}
    else if HasValue(e.val) then {e.key}
    else (if e.val.Obj? then MetricColumns(e.key) else {}) + GroupColumns(active, e.key)
  }

  /**
   What an object-valued field writes: nothing for a nested aggregation, its
   value under the field's own key for a single-value metric, otherwise its
   statistics and bounds. A value that is not an object writes nothing here.
   */
  function WriteMetric(e: Entry, row: Row): (out: Row)
    requires BoundsReady(e.val)
    ensures row.Keys <= out.Keys
  {
    if !e.val.Obj? || NestsBuckets(e.val) then row
    else if HasValue(e.val) then row[e.key := Get(e.val.entries, "value").value]
    else WithBounds(WithStats(row, e.val.entries, e.key), e.val.entries, e.key)
  }

  /** What a `"key"` or `"doc_count"` field writes, under the name of the active frame. */
  function WriteGroup(active: string, e: Entry, row: Row): (out: Row)
    ensures row.Keys <= out.Keys
  {
    if e.key == "key" then row[active := e.val]
    else if e.key == "doc_count" then row[Column(active, "doc_count") := e.val]
    else row
  }

  /** One iteration of the loop over the fields of a bucket, as it affects the row. */
  function WriteField(active: string, e: Entry, row: Row): (out: Row)
    requires BoundsReady(e.val)
    ensures row.Keys <= out.Keys
    ensures NestsBuckets(e.val) ==> out == row
    ensures !NestsBuckets(e.val) && HasValue(e.val) ==> e.key in out && out[e.key] == Get(e.val.entries, "value").value
    ensures GroupField(e) && e.key == "key" ==> active in out && out[active] == e.val
    ensures GroupField(e) && e.key == "doc_count" ==> Column(active, "doc_count") in out && out[Column(active, "doc_count")] == e.val
  {
    var metrics := WriteMetric(e, row);
    if GroupField(e) then WriteGroup(active, e, metrics) else metrics
  }

  /** A field writes no column outside `FieldColumns`: every other column is carried over as it was. */
  lemma WriteFieldFrame(active: string, e: Entry, row: Row, col: string)
    requires BoundsReady(e.val) && col !in FieldColumns(active, e)
    ensures col in WriteField(active, e, row) <==> col in row
    ensures col in row ==> WriteField(active, e, row)[col] == row[col]
  {
    if e.val.Obj? && GroupField(e) {
      MetricFrame(e, row, col);
    }
  }

  /** A stats object writes no column outside `MetricColumns`. */
  lemma MetricFrame(e: Entry, row: Row, col: string)
    requires BoundsReady(e.val) && e.val.Obj? && GroupField(e) && col !in MetricColumns(e.key)
    ensures col in WriteMetric(e, row) <==> col in row
    ensures col in row ==> WriteMetric(e, row)[col] == row[col]
  {
    var c := e.val.entries;
    forall t | t in StatNames
      ensures col != Column(e.key, t)
    {
      assert Column(e.key, t) in ColumnsOf(e.key, StatNames);
    }
    WithValuesFrame(row, StatNames, c, e.key, col);
    WithBoundsFrame(WithStats(row, c, e.key), c, e.key, col);
    MetricsField(e, row);
  }



  /** The row after the fields of a bucket are processed in order; columns already in the row stay. */
  function WriteBucket(active: string, es: seq<Entry>, row: Row): (out: Row)
    requires forall i | 0 <= i < |es| :: BoundsReady(es[i].val)
    ensures row.Keys <= out.Keys
  {
    if es == [] then row
    else WriteField(active, es[|es| - 1], WriteBucket(active, es[..|es| - 1], row))
  }

  /** Reading one more field of a bucket: the row, the frames pushed and the nesting flag each take one step. */
  lemma BucketStep(active: string, es: seq<Entry>, k: nat, row: Row)
    requires k < |es| && forall i | 0 <= i < |es| :: BoundsReady(es[i].val)
    ensures WriteBucket(active, es[..k + 1], row) == WriteField(active, es[k], WriteBucket(active, es[..k], row))
    ensures BucketGroups(es[..k + 1]) == BucketGroups(es[..k]) +
      (if BucketsArray(es[k].val).Some? then [Frame(Some(es[k].key), BucketsArray(es[k].val).value, 0)] else [])
    ensures HasNested(es[..k + 1]) <==> HasNested(es[..k]) || NestsBuckets(es[k].val)
  {
    assert es[..k + 1][..k] == es[..k] && es[..k + 1][k] == es[k];
    assert forall i | 0 <= i < k :: es[..k + 1][i] == es[..k][i];
  }

  /** No field after the `i`-th writes column `col`. */
  predicate Untouched(active: string, es: seq<Entry>, i: int, col: string) {
    forall j | 0 <= j < |es| && i < j :: col !in FieldColumns(active, es[j])
  }

  /** A column that no later field writes keeps the value the `i`-th field left in it. */
  lemma {:induction false} LastWriterWins(active: string, es: seq<Entry>, row: Row, i: nat, col: string)
    requires forall k | 0 <= k < |es| :: BoundsReady(es[k].val)
    requires i < |es| && Untouched(active, es, i, col)
    requires col in WriteBucket(active, es[..i + 1], row)
    ensures col in WriteBucket(active, es, row)
    ensures WriteBucket(active, es, row)[col] == WriteBucket(active, es[..i + 1], row)[col]
  {
    if |es| > i + 1 {
      var pre := es[..|es| - 1];
      assert pre[..i + 1] == es[..i + 1];
      LastWriterWins(active, pre, row, i, col);
      WriteFieldFrame(active, es[|es| - 1], WriteBucket(active, pre, row), col);
    } else {
      assert es[..i + 1] == es;
    }
  }

  /** Within one bucket, the `"key"` field lands under the active frame's name and `"doc_count"` under `<name>_doc_count`. */
  lemma BucketGroupColumns(active: string, es: seq<Entry>, row: Row)
    requires forall k | 0 <= k < |es| :: BoundsReady(es[k].val)
    ensures var out := WriteBucket(active, es, row);
      forall i | 0 <= i < |es| && es[i].key == "key" && GroupField(es[i]) && Untouched(active, es, i, active) ::
        active in out && out[active] == es[i].val
    ensures var out := WriteBucket(active, es, row);
      forall i | 0 <= i < |es| && es[i].key == "doc_count" && GroupField(es[i])
                 && Untouched(active, es, i, Column(active, "doc_count")) ::
        Column(active, "doc_count") in out && out[Column(active, "doc_count")] == es[i].val
  {
    forall i | 0 <= i < |es| && es[i].key == "key" && GroupField(es[i]) && Untouched(active, es, i, active)
      ensures active in WriteBucket(active, es, row) && WriteBucket(active, es, row)[active] == es[i].val
    {
      assert es[..i + 1][..i] == es[..i];
      LastWriterWins(active, es, row, i, active);
    }
    forall i | 0 <= i < |es| && es[i].key == "doc_count" && GroupField(es[i])
               && Untouched(active, es, i, Column(active, "doc_count"))
      ensures Column(active, "doc_count") in WriteBucket(active, es, row)
      ensures WriteBucket(active, es, row)[Column(active, "doc_count")] == es[i].val
    {
      assert es[..i + 1][..i] == es[..i];
      LastWriterWins(active, es, row, i, Column(active, "doc_count"));
    }
  }

  /** A column no field of the bucket writes is carried over unchanged. */
  lemma {:induction false} WriteBucketFrame(active: string, es: seq<Entry>, row: Row, col: string)
    requires forall k | 0 <= k < |es| :: BoundsReady(es[k].val)
    requires Untouched(active, es, -1, col)
    ensures col in WriteBucket(active, es, row) <==> col in row
    ensures col in row ==> WriteBucket(active, es, row)[col] == row[col]
  {
    if es != [] {
      WriteBucketFrame(active, es[..|es| - 1], row, col);
      WriteFieldFrame(active, es[|es| - 1], WriteBucket(active, es[..|es| - 1], row), col);
    }
  }

  /** A stats object writes its statistics, then its bounds. */
  lemma MetricsField(e: Entry, row: Row)
    requires BoundsReady(e.val) && e.val.Obj? && GroupField(e)
    ensures WriteMetric(e, row) == WithBounds(WithStats(row, e.val.entries, e.key), e.val.entries, e.key)
  {
  }

  /** A stats object that is neither `"key"` nor `"doc_count"` writes its statistics, then its bounds, and nothing else. */
  lemma StatsField(active: string, e: Entry, row: Row)
    requires BoundsReady(e.val) && e.val.Obj? && GroupField(e)
    requires e.key != "key" && e.key != "doc_count"
    ensures WriteField(active, e, row) == WithBounds(WithStats(row, e.val.entries, e.key), e.val.entries, e.key)
  {
    MetricsField(e, row);
  }

  /** A statistic's column is neither of the two bounds columns. */
  lemma StatIsNoBound(key: string, s: string)
    requires s in StatNames
    ensures Column(key, s) != Column(key, "std_deviation_bounds_upper")
    ensures Column(key, s) != Column(key, "std_deviation_bounds_lower")
  {
    assert |s| <= 14;
    ColumnInjective(key, s, "std_deviation_bounds_upper");
    ColumnInjective(key, s, "std_deviation_bounds_lower");
  }

  /**
   A stats object: the statistic `s`, when present, adds `<key>_<s>` with its
   value, and when absent leaves that column as it was.
   */
  lemma StatColumn(active: string, e: Entry, row: Row, s: string)
    requires BoundsReady(e.val) && e.val.Obj? && GroupField(e)
    requires e.key != "key" && e.key != "doc_count" && s in StatNames
    ensures var out := WriteField(active, e, row);
      && (Column(e.key, s) in out <==> Column(e.key, s) in row || Get(e.val.entries, s).Some?)
      && (Get(e.val.entries, s).Some? ==> out[Column(e.key, s)] == Get(e.val.entries, s).value)
      && (Get(e.val.entries, s).None? && Column(e.key, s) in row ==> out[Column(e.key, s)] == row[Column(e.key, s)])
  {
    var c := e.val.entries;
    var st := WithStats(row, c, e.key);
    StatsField(active, e, row);
    WithStatsColumn(row, c, e.key, s);
    StatIsNoBound(e.key, s);
    WithBoundsFrame(st, c, e.key, Column(e.key, s));
  }

  /** A `std_deviation_bounds` object adds exactly its upper and lower columns; without one those columns stay as they were. */
  lemma BoundsColumns(active: string, e: Entry, row: Row)
    requires BoundsReady(e.val) && e.val.Obj? && GroupField(e)
    requires e.key != "key" && e.key != "doc_count"
    ensures var out := WriteField(active, e, row); var b := BoundsObject(e.val.entries);
      b.Some? ==>
        && Column(e.key, "std_deviation_bounds_upper") in out
        && Column(e.key, "std_deviation_bounds_lower") in out
        && out[Column(e.key, "std_deviation_bounds_upper")] == Get(b.value, "upper").value
        && out[Column(e.key, "std_deviation_bounds_lower")] == Get(b.value, "lower").value
    ensures var out := WriteField(active, e, row);
      BoundsObject(e.val.entries).None? ==>
        forall t | t in BoundNames ::
          && (Column(e.key, t) in out <==> Column(e.key, t) in row)
          && (Column(e.key, t) in row ==> out[Column(e.key, t)] == row[Column(e.key, t)])
  {
    var c := e.val.entries;
    var st := WithStats(row, c, e.key);
    var out := WriteField(active, e, row);
    StatsField(active, e, row);
    if BoundsObject(c).None? {
      forall t | t in BoundNames
        ensures Column(e.key, t) in out <==> Column(e.key, t) in row
        ensures Column(e.key, t) in row ==> out[Column(e.key, t)] == row[Column(e.key, t)]
      {
        forall s | s in StatNames
          ensures Column(e.key, t) != Column(e.key, s)
        {
          ColumnInjective(e.key, t, s);
        }
        WithValuesFrame(row, StatNames, c, e.key, Column(e.key, t));
      }
    }
  }

  // ---------------------------------------------------------------------
  // One pull of the iterator
  // ---------------------------------------------------------------------

  /** The iterator's state after a pull, and what the pull returned. */
  datatype Pull = Pull(stack: seq<Frame>, row: Option<Row>, out: Option<Row>)

  /**
   The loop of `next` from a given stack and accumulator: an exhausted top
   frame is popped; otherwise its next bucket is written into the row and its
   nested arrays are pushed; the loop ends with a copy of the row after a
   bucket with no nested aggregation, or with nothing (and no row) once the
   stack is empty.
   */
  function Resume(stack: seq<Frame>, row: Row): Pull
    requires ValidStack(stack)
    decreases Measure(stack)
  {
    if stack == [] then Pull([], None, None)
    else
      var top := Top(stack);
      if top.cursor == |top.buckets| then
        Resume(stack[..|stack| - 1], row)
      else
        AdvanceValid(stack);
        AdvanceMeasure(stack);
        var b := top.buckets[top.cursor];
        assert WFBucket(b);
        var row' := WriteBucket(top.name.value, b.entries, row);
        if HasNested(b.entries) then Resume(Advance(stack), row')
        else Pull(Advance(stack), Some(row'), Some(row'))
  }

  /** `next`: the accumulator starts empty when there is none, then the loop runs. */
  function NextRow(stack: seq<Frame>, row: Option<Row>): Pull
    requires ValidStack(stack)
  {
    Resume(stack, if row.None? then map[] else row.value)
  }

  /** The top frame has just moved past a bucket that nests no aggregation. */
  predicate AtLeaf(stack: seq<Frame>) {
    && stack != []
    && Top(stack).name.Some?
    && 0 < Top(stack).cursor <= |Top(stack).buckets|
    && Top(stack).buckets[Top(stack).cursor - 1].Obj?
    && !HasNested(Top(stack).buckets[Top(stack).cursor - 1].entries)
  }

  /** The fields of the leaf bucket the last pull ended at. */
  function LeafEntries(stack: seq<Frame>): seq<Entry>
    requires AtLeaf(stack)
  {
    Top(stack).buckets[Top(stack).cursor - 1].entries
  }

  /**
   A yielded row: it ends at a leaf bucket, which was written under the name
   of the frame that was advanced to it, and it holds that bucket's key and
   doc_count under that name unless a later field overwrote them.
   */
  ghost predicate LeafRow(stack: seq<Frame>, r: Row) {
    && AtLeaf(stack)
    && ValidStack(stack)
    && var name := Top(stack).name.value;
       var es := LeafEntries(stack);
       && (forall i | 0 <= i < |es| && es[i].key == "key" && GroupField(es[i]) && Untouched(name, es, i, name) ::
             name in r && r[name] == es[i].val)
       && (forall i | 0 <= i < |es| && es[i].key == "doc_count" && GroupField(es[i])
                      && Untouched(name, es, i, Column(name, "doc_count")) ::
             Column(name, "doc_count") in r && r[Column(name, "doc_count")] == es[i].val)
  }

  /** A pull keeps every frame named, within its array and well formed. */
  lemma {:induction false} ResumeValid(stack: seq<Frame>, row: Row)
    requires ValidStack(stack)
    ensures ValidStack(Resume(stack, row).stack)
    decreases Measure(stack)
  {
    if stack != [] {
      var top := Top(stack);
      if top.cursor == |top.buckets| {
        ResumeValid(stack[..|stack| - 1], row);
      } else {
        AdvanceValid(stack);
        AdvanceMeasure(stack);
        var b := top.buckets[top.cursor];
        assert WFBucket(b);
        var row' := WriteBucket(top.name.value, b.entries, row);
        if HasNested(b.entries) {
          ResumeValid(Advance(stack), row');
        }
      }
    }
  }

  /** Exhaustion: a pull returns nothing exactly when it leaves the stack empty, and then it drops the row; otherwise it returns the row it keeps. */
  lemma {:induction false} ResumeExhaustion(stack: seq<Frame>, row: Row)
    requires ValidStack(stack)
    ensures var p := Resume(stack, row);
      && (p.out.None? <==> p.stack == [])
      && (p.out.None? ==> p.row.None?)
      && (p.out.Some? ==> p.row == p.out)
    decreases Measure(stack)
  {
    if stack != [] {
      var top := Top(stack);
      if top.cursor == |top.buckets| {
        ResumeExhaustion(stack[..|stack| - 1], row);
      } else {
        AdvanceValid(stack);
        AdvanceMeasure(stack);
        var b := top.buckets[top.cursor];
        assert WFBucket(b);
        var row' := WriteBucket(top.name.value, b.entries, row);
        if HasNested(b.entries) {
          ResumeExhaustion(Advance(stack), row');
        }
      }
    }
  }

  /** Exhaustion is terminal: after a pull that returned nothing, the next pull returns nothing and changes nothing. */
  lemma ExhaustionIsTerminal(stack: seq<Frame>, row: Option<Row>)
    requires ValidStack(stack)
    ensures var p := NextRow(stack, row);
      p.out.None? ==> ValidStack(p.stack) && NextRow(p.stack, p.row) == p
  {
    ResumeExhaustion(stack, if row.None? then map[] else row.value);
  }

  /** A row is returned only right after a leaf bucket, carrying that bucket's group-by columns. */
  lemma {:induction false} ResumeYieldsAtLeaf(stack: seq<Frame>, row: Row)
    requires ValidStack(stack)
    ensures var p := Resume(stack, row);
      p.out.Some? ==> LeafRow(p.stack, p.out.value)
    decreases Measure(stack)
  {
    if stack != [] {
      var top := Top(stack);
      if top.cursor == |top.buckets| {
        ResumeYieldsAtLeaf(stack[..|stack| - 1], row);
      } else {
        AdvanceValid(stack);
        AdvanceMeasure(stack);
        var b := top.buckets[top.cursor];
        assert WFBucket(b);
        var row' := WriteBucket(top.name.value, b.entries, row);
        if HasNested(b.entries) {
          ResumeYieldsAtLeaf(Advance(stack), row');
        } else {
          var s := Advance(stack);
          NoNestedNoGroups(b.entries);
          assert s == stack[..|stack| - 1] + [top.(cursor := top.cursor + 1)];
          assert Top(s) == top.(cursor := top.cursor + 1);
          ResumeValid(stack, row);
          BucketGroupColumns(top.name.value, b.entries, row);
        }
      }
    }
  }

  /** Carry-over: every column the row held before a pull is still in the row it returns. */
  lemma {:induction false} ResumeCarriesOver(stack: seq<Frame>, row: Row)
    requires ValidStack(stack)
    ensures var p := Resume(stack, row);
      p.out.Some? ==> row.Keys <= p.out.value.Keys
    decreases Measure(stack)
  {
    if stack != [] {
      var top := Top(stack);
      if top.cursor == |top.buckets| {
        ResumeCarriesOver(stack[..|stack| - 1], row);
      } else {
        AdvanceValid(stack);
        AdvanceMeasure(stack);
        var b := top.buckets[top.cursor];
        assert WFBucket(b);
        var row' := WriteBucket(top.name.value, b.entries, row);
        if HasNested(b.entries) {
          ResumeCarriesOver(Advance(stack), row');
        }
      }
    }
  }

  /** The columns the fields of one bucket may write. */
  ghost function BucketWrites(active: string, es: seq<Entry>): set<string> {
    set j, col | 0 <= j < |es| && col in FieldColumns(active, es[j]) :: col
  }

  /**
   The columns one pull may write: those of every bucket it advances past,
   each under the name of the frame it was advanced from. Like `Resume`, it
   follows the stack alone; the row plays no part in which buckets are visited.
   */
  ghost function PullWrites(stack: seq<Frame>): set<string>
    requires ValidStack(stack)
    decreases Measure(stack)
  {
    if stack == [] then {}
    else
      var top := Top(stack);
      if top.cursor == |top.buckets| then
        PullWrites(stack[..|stack| - 1])
      else
        AdvanceValid(stack);
        AdvanceMeasure(stack);
        var b := top.buckets[top.cursor];
        assert WFBucket(b);
        var here := BucketWrites(top.name.value, b.entries);
        if HasNested(b.entries) then here + PullWrites(Advance(stack)) else here
  }

  /**
   Carry-over of values: a column the row held before a pull, and that no
   bucket the pull visits writes, is returned with the value it had.
   */
  lemma {:induction false} ResumeKeepsValues(stack: seq<Frame>, row: Row, col: string)
    requires ValidStack(stack) && col in row && col !in PullWrites(stack)
    ensures var p := Resume(stack, row);
      p.out.Some? ==> col in p.out.value && p.out.value[col] == row[col]
    decreases Measure(stack)
  {
    if stack != [] {
      var top := Top(stack);
      if top.cursor == |top.buckets| {
        ResumeKeepsValues(stack[..|stack| - 1], row, col);
      } else {
        AdvanceValid(stack);
        AdvanceMeasure(stack);
        var b := top.buckets[top.cursor];
        assert WFBucket(b);
        var active := top.name.value;
        assert col !in BucketWrites(active, b.entries);
        WriteBucketFrame(active, b.entries, row, col);
        if HasNested(b.entries) {
          ResumeKeepsValues(Advance(stack), WriteBucket(active, b.entries, row), col);
        }
      }
    }
  }

  /**
   The row a pull returns is the leaf bucket written, in field order and under
   the name of the frame advanced to it, over an accumulator that still holds
   every column the row held before the pull. So the leaf's value metrics,
   statistics, bounds and group-by columns are all in the returned row, as
   the field lemmas (`WriteField`, `StatColumn`, `BoundsColumns`,
   `LastWriterWins`) describe them.
   */
  lemma {:induction false} ResumeLeafBucket(stack: seq<Frame>, row: Row)
    requires ValidStack(stack)
    ensures var p := Resume(stack, row);
      p.out.Some? ==>
        && AtLeaf(p.stack)
        && (forall k | 0 <= k < |LeafEntries(p.stack)| :: BoundsReady(LeafEntries(p.stack)[k].val))
        && exists r0: Row :: row.Keys <= r0.Keys
             && p.out.value == WriteBucket(Top(p.stack).name.value, LeafEntries(p.stack), r0)
    decreases Measure(stack)
  {
    if stack != [] {
      var top := Top(stack);
      if top.cursor == |top.buckets| {
        ResumeLeafBucket(stack[..|stack| - 1], row);
      } else {
        AdvanceValid(stack);
        AdvanceMeasure(stack);
        var b := top.buckets[top.cursor];
        assert WFBucket(b);
        var row' := WriteBucket(top.name.value, b.entries, row);
        if HasNested(b.entries) {
          ResumeLeafBucket(Advance(stack), row');
        } else {
          var s := Advance(stack);
          NoNestedNoGroups(b.entries);
          assert s == stack[..|stack| - 1] + [top.(cursor := top.cursor + 1)];
          assert Top(s) == top.(cursor := top.cursor + 1);
          assert LeafEntries(s) == b.entries;
        }
      }
    }
  }

  /**
   A single-value metric of the leaf bucket is in the returned row under its
   own key, unless a later field of that bucket writes the same column.
   */
  lemma ResumeLeafValue(stack: seq<Frame>, row: Row, i: nat)
    requires ValidStack(stack)
    ensures var p := Resume(stack, row);
      p.out.Some? && AtLeaf(p.stack) && i < |LeafEntries(p.stack)| ==>
        var es := LeafEntries(p.stack);
        !NestsBuckets(es[i].val) && HasValue(es[i].val) && Untouched(Top(p.stack).name.value, es, i, es[i].key) ==>
          es[i].key in p.out.value && p.out.value[es[i].key] == Get(es[i].val.entries, "value").value
  {
    var p := Resume(stack, row);
    ResumeLeafBucket(stack, row);
    if p.out.Some? && i < |LeafEntries(p.stack)| {
      var es := LeafEntries(p.stack);
      var name := Top(p.stack).name.value;
      if !NestsBuckets(es[i].val) && HasValue(es[i].val) && Untouched(name, es, i, es[i].key) {
        var r0: Row :| row.Keys <= r0.Keys && p.out.value == WriteBucket(name, es, r0);
        BucketStep(name, es, i, r0);
        LastWriterWins(name, es, r0, i, es[i].key);
      }
    }
  }
}
