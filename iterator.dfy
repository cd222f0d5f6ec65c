/**
 `AggregationIterator`: the stateful walk over an Elasticsearch aggregations
 tree that yields one flat row per leaf bucket. The iterator owns a stack of
 frames (`iter_stack`) and a row accumulator (`current_row`) that `next`
 updates in place; every pull is proved to compute `Flatten.NextRow`, so the
 lemmas about that function describe what the iterator returns.
 */
module Aggregations {
  import opened Json
  import opened Rows
  import opened Flatten

  class AggregationIterator {
    /** The row accumulator; `None` before the first pull and after exhaustion. */
    var currentRow: Option<Row>
    /** The traversal stack; its last element is the top, the frame `next` advances. */
    var iterStack: seq<Frame>
    /** The aggregations tree the iterator walks. */
    const aggregations: Json

    ghost predicate Valid()
      reads this
    {
      ValidStack(iterStack)
    }

    /**
     `AggregationIterator::new`: one frame per top-level aggregation with a
     `"buckets"` array, in key order, and no row yet.
     */
    constructor (a: Json)
      requires a.Obj?
      ensures aggregations == a
      ensures iterStack == BucketGroups(a.entries)
      ensures currentRow.None?
      ensures Framed(iterStack)
      ensures WFAggregations(a) ==> Valid()
    {
      aggregations := a;
      currentRow := None;
      iterStack := BucketGroups(a.entries);
      BucketGroupsSound(a.entries);
      if WFAggregations(a) {
        BucketGroupsWellFormed(a.entries);
      }
    }

    /**
     A field whose value is an object: a nested aggregation pushes a frame for
     its `"buckets"` array (none when `"buckets"` is not an array), a
     single-value metric writes its value under the field's key, and any other
     object writes its statistics and bounds. `skip` is set when the source
     goes straight on to the next field.
     */
    method VisitObject(e: Entry, row: Row) returns (out: Row, nests: bool, skip: bool)
      requires e.val.Obj? && BoundsReady(e.val)
      modifies this
      ensures out == WriteMetric(e, row)
      ensures nests == NestsBuckets(e.val)
      ensures skip == !GroupField(e)
      ensures iterStack == old(iterStack) +
        (if BucketsArray(e.val).Some? then [Frame(Some(e.key), BucketsArray(e.val).value, 0)] else [])
      ensures currentRow == old(currentRow)
    {
      var key := e.key;
      var c := e.val.entries;
      out := row;
      nests := false;
      skip := false;
      var buckets := Get(c, "buckets");
      if buckets.Some? {
        nests := true;
        skip := true;
        if buckets.value.Arr? {
          iterStack := iterStack + [Frame(Some(key), buckets.value.items, 0)];
        }
        return;
      }
      var v := Get(c, "value");
      if v.Some? {
        out := out[key := v.value];
        skip := true;
        return;
      }
      out := InsertStats(key, c, out);
      out := InsertBounds(key, c, out);
    }

    /** A `"key"` field is written under the active frame's name and a `"doc_count"` field under `<name>_doc_count`. */
    method InsertGroup(activeName: string, e: Entry, row: Row) returns (out: Row)
      ensures out == WriteGroup(activeName, e, row)
    {
      out := row;
      if e.key == "key" {
        out := out[activeName := e.val];
      } else if e.key == "doc_count" {
        var fieldName := Column(activeName, "doc_count");
        out := out[fieldName := e.val];
      }
    }

    /**
     One field of the bucket being visited (the body of the loop over the
     bucket's fields): an object value is handled by `VisitObject`; unless
     that skipped the rest, the field is offered to `InsertGroup`.
     */
    method VisitField(activeName: string, e: Entry, row: Row) returns (out: Row, nests: bool)
      requires BoundsReady(e.val)
      modifies this
      ensures out == WriteField(activeName, e, row)
      ensures nests == NestsBuckets(e.val)
      ensures iterStack == old(iterStack) +
        (if BucketsArray(e.val).Some? then [Frame(Some(e.key), BucketsArray(e.val).value, 0)] else [])
      ensures currentRow == old(currentRow)
    {
      out := row;
      nests := false;
      if e.val.Obj? {
        var skip;
        out, nests, skip := VisitObject(e, out);
        if skip {
          return;
        }
      }
      out := InsertGroup(activeName, e, out);
    }

    /** The eight statistics of a stats object, each copied under `<key>_<stat>` when present. */
    method InsertStats(key: string, c: seq<Entry>, row: Row) returns (out: Row)
      ensures out == WithStats(row, c, key)
    {
      WithStatsUnrolled(row, c, key);
      out := InsertValue("count", c, key, row);
      out := InsertValue("min", c, key, out);
      out := InsertValue("max", c, key, out);
      out := InsertValue("avg", c, key, out);
      out := InsertValue("sum", c, key, out);
      out := InsertValue("sum_of_squares", c, key, out);
      out := InsertValue("variance", c, key, out);
      out := InsertValue("std_deviation", c, key, out);
    }

    /** The `std_deviation_bounds` of a stats object: its upper and lower values, when it is an object. */
    method InsertBounds(key: string, c: seq<Entry>, row: Row) returns (out: Row)
      requires BoundsReady(Obj(c))
      requires Get(c, "buckets").None? && Get(c, "value").None?
      ensures out == WithBounds(row, c, key)
    {
      out := row;
      if Get(c, "std_deviation_bounds").Some? {
        var childValues := Get(c, "std_deviation_bounds").value;
        if childValues.Obj? {
          var u := Get(childValues.entries, "upper");
          var l := Get(childValues.entries, "lower");
          var un := Column(key, "std_deviation_bounds_upper");
          var ln := Column(key, "std_deviation_bounds_lower");
          out := out[un := u.value];
          out := out[ln := l.value];
        }
      }
    }

    /**
     The loop over the fields of one bucket, in key order: the row after all of
     them, the frames they push on top of the stack, and whether any field was
     a nested aggregation.
     */
    method VisitBucket(activeName: string, es: seq<Entry>, row: Row) returns (out: Row, hasBuckets: bool)
      requires forall k | 0 <= k < |es| :: BoundsReady(es[k].val)
      modifies this
      ensures out == WriteBucket(activeName, es, row)
      ensures hasBuckets == HasNested(es)
      ensures iterStack == old(iterStack) + BucketGroups(es)
      ensures currentRow == old(currentRow)
    {
      out := row;
      hasBuckets := false;
      for k := 0 to |es|
        invariant out == WriteBucket(activeName, es[..k], row)
        invariant iterStack == old(iterStack) + BucketGroups(es[..k])
        invariant hasBuckets == HasNested(es[..k])
        invariant currentRow == old(currentRow)
      {
        BucketStep(activeName, es, k, row);
        var nests;
        out, nests := VisitField(activeName, es[k], out);
        hasBuckets := hasBuckets || nests;
        assert iterStack == old(iterStack) + BucketGroups(es[..k + 1]) by {
          assert forall a: seq<Frame>, b: seq<Frame>, x: seq<Frame> :: a + b + x == a + (b + x);
        }
      }
      assert es[..|es|] == es;
    }

    /**
     `next`: the row after the next leaf bucket, or `None` once the stack has
     run out. The returned row is a copy of the accumulator, which keeps every
     column it already had.
     */
    method Next() returns (r: Option<Row>)
      requires Valid()
      modifies this
      ensures Valid()
      ensures Pull(iterStack, currentRow, r) == NextRow(old(iterStack), old(currentRow))
      ensures r.None? <==> iterStack == []
      ensures r.None? ==> currentRow.None?
      ensures r.Some? ==> currentRow == r && LeafRow(iterStack, r.value)
      ensures old(currentRow).Some? && r.Some? ==> old(currentRow).value.Keys <= r.value.Keys
      ensures old(iterStack) == [] ==> r.None? && iterStack == [] && currentRow.None?
    {
      if currentRow.None? {
        currentRow := Some(map[]);
      }
      ghost var stack0 := iterStack;
      ghost var row0 := currentRow.value;
      ghost var target := NextRow(old(iterStack), old(currentRow));

      while true
        invariant ValidStack(iterStack) && currentRow.Some?
        invariant Resume(iterStack, currentRow.value) == target
        decreases Measure(iterStack)
      {
        if iterStack != [] {
          ghost var before := iterStack;
          ghost var rowBefore := currentRow.value;
          var i := iterStack[|iterStack| - 1];
          iterStack := iterStack[..|iterStack| - 1];
          var n: Option<Json> := None;
          if i.cursor < |i.buckets| {
            n := Some(i.buckets[i.cursor]);
            i := i.(cursor := i.cursor + 1);
          }
          var activeName := i.name.value;
          var hasBuckets := false;
          iterStack := iterStack + [i];

          if n.Some? {
            AdvanceValid(before);
            AdvanceMeasure(before);
            assert WFBucket(n.value);
            var row;
            row, hasBuckets := VisitBucket(activeName, n.value.entries, currentRow.value);
            currentRow := Some(row);
          } else {
            iterStack := iterStack[..|iterStack| - 1];
            assert iterStack == before[..|before| - 1];
            continue;
          }

          if !hasBuckets {
            break;
          }
        } else {
          currentRow := None;
          break;
        }
      }
      r := currentRow;
      ResumeValid(stack0, row0);
      ResumeExhaustion(stack0, row0);
      ResumeYieldsAtLeaf(stack0, row0);
      ResumeCarriesOver(stack0, row0);
    }
  }
}
