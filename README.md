# Aggregation flattener of elastic-responses

This project models the core of the Rust crate elastic-responses: the
`AggregationIterator`. It turns the tree of an Elasticsearch aggregations
response into flat rows, one row per leaf bucket. The model is written in
Dafny and its properties are proved.

The iterator keeps two pieces of state:

- a stack of frames (`iter_stack`). Each frame holds an aggregation name and
  a cursor over that aggregation's array of sibling buckets. The top of the
  stack is the last element.
- a row accumulator (`current_row`), a map from column names to JSON values.

Each call to `next` does the following:

1. It pops the top frame, advances the frame's cursor and pushes the frame
   back.
2. It classifies every field of the bucket it reached:
   - A nested aggregation pushes a frame for the aggregation's `"buckets"`
     array.
   - A single-value metric writes its value under the field's key.
   - A stats object writes `<key>_<stat>` for each statistic it has, and
     `<key>_std_deviation_bounds_upper`/`_lower` when it has bounds.
   - A `"key"` field writes under the name of the frame that was advanced.
     A `"doc_count"` field writes under `<name>_doc_count`.
3. After a bucket with no nested aggregation, it returns a copy of the
   accumulator. When the stack runs out, it drops the accumulator and
   returns nothing.

Files:

- `json.dfy` (module `Json`): JSON values. An object is the sequence of its
  entries in the order a `BTreeMap` iterates them. It also holds `Object::get`
  and the key order.
- `rows.dfy` (module `Rows`): rows, the column naming `<key>_<field>`, and
  `insert_value`.
- `flatten.dfy` (module `Flatten`): the specification, written as functions.
  It covers the frames built by `new` and pushed for nested aggregations,
  what each field of a bucket writes, and a whole pull (`Resume`/`NextRow`).
  It also holds the lemmas about them.
- `iterator.dfy` (module `Aggregations`): the class `AggregationIterator`.
  Its fields `currentRow` and `iterStack` are updated in place. `Next` is the
  loop of `next`, with the loop over a bucket's fields (`VisitBucket`) and its
  body (`VisitField`, `VisitObject`, `InsertStats`, `InsertBounds`,
  `InsertGroup`). Each method is proved equal to the specification function.
- `worked_examples.dfy` (module `WorkedExamples`): concrete trees and the rows
  they flatten to.

Four behaviours of `next` that are easy to misread:

- A field whose object has a `"buckets"` key that is not an array still
  marks the bucket as nested, but pushes no frame. The bucket then yields no
  row of its own: its columns merge into the next row, if there is one;
  when the stack runs out first they are dropped with the accumulator.
- The statistics and the bounds of a stats object are both written. They
  are not alternatives.
- The `"key"`/`"doc_count"` test also applies to object values that reached
  the stats branch.
- Malformed input makes the code panic (`expect`/`unwrap`). It is not
  reported as an error value. The model turns each panic into a
  precondition:
  - the root is an object (`new`);
  - every bucket is an object;
  - every `std_deviation_bounds` object has both `upper` and `lower`
    (`next`).

## Model

| member | source | states |
|---|---|---|
| Json.Get | src/lib.rs:170 | `Object::get`: the value stored under a key, if any; characterised by `GetSpec` (and `SortedGet` for a key-sorted object) |
| Json.GetSpec | src/lib.rs:170 | `Object::get` finds nothing exactly when no entry has the key; what it finds is stored under that key |
| Json.SortedGet | src/lib.rs:166 | in a key-sorted object (a `BTreeMap`) lookup returns the one entry stored under that key; no other proof relies on it: it justifies reading `Get`'s "first matching entry" as `BTreeMap::get` |
| Rows.Column | src/lib.rs:171 | the composite column name `<key>_<field>` of `insert_value`'s `format!`, also used for the `_std_deviation_bounds_upper`/`_lower` and `_doc_count` names of lines 234-235 and 250; characterised by `ColumnInjective` |
| Rows.ColumnInjective | src/lib.rs:171 | two `<key>_<field>` column names of one aggregation are equal only when the field names are |
| Rows.WithValue | src/lib.rs:169-175 | a present field adds the column `<key>_<field>`, and no other key, holding the field's value; every other column keeps its value; an absent field leaves the row unchanged |
| Rows.InsertValue | src/lib.rs:169-175 | `insert_value` computes `WithValue`: one new column with the field's value when the field is present, the same row otherwise |
| Flatten.BucketGroups | src/lib.rs:150-155 | the frames for the entries that are objects with a `"buckets"` array, in entry order, each named after its key at cursor 0: the `filter_map` of `new` and the pushes at lines 207-211; characterised by `BucketGroupsSound`, `BucketGroupsComplete`, `BucketGroupsInKeyOrder`, `NoNestedNoGroups` and `BucketGroupsMeasure` |
| Flatten.BucketGroupsSound | src/lib.rs:150-155 | every frame built by `new` (or pushed for a bucket) has a `Some` name, starts before its first bucket, and walks the `"buckets"` array of an entry with that key |
| Flatten.BucketGroupsComplete | src/lib.rs:150-155 | every entry that is an object with a `"buckets"` array gets its frame |
| Flatten.BucketGroupsBelow | src/lib.rs:150-155 | frames are named after keys of the object, so a bound on the keys bounds the names |
| Flatten.BucketGroupsInKeyOrder | src/lib.rs:150-155 | for a key-sorted object the frames come in strictly increasing name order (so the largest key ends on top of the stack) |
| Flatten.NoNestedNoGroups | src/lib.rs:205-213 | a bucket with no nested aggregation pushes no frame |
| Flatten.BucketGroupsWellFormed | src/lib.rs:204 | the frames pushed for a well-formed bucket walk well-formed arrays |
| Flatten.BucketGroupsMeasure | src/lib.rs:207-211 | the frames a bucket pushes weigh no more than the bucket's fields |
| Flatten.Advance | src/lib.rs:187-211 | pop the top frame, move its cursor past the next bucket, push it back, then push `BucketGroups` of that bucket's fields; characterised by `AdvanceMeasure` and `AdvanceValid` |
| Flatten.AdvanceMeasure | src/lib.rs:187-213 | advancing the top frame past a bucket and pushing its nested arrays strictly lowers the size of the unvisited buckets plus the stack height, so every iteration of the loop makes progress |
| Flatten.AdvanceValid | src/lib.rs:187-213 | advancing keeps every frame named, within its array and well formed, so the `unwrap` on the active name and the `expect` on the bucket succeed |
| Flatten.WithValues | src/lib.rs:169-175 | `insert_value` applied for each name of a list in order; no column is removed; characterised by `WithValuesColumns` and `WithValuesFrame` |
| Flatten.WithValuesColumns | src/lib.rs:221-228 | after `insert_value` for a list of names, a present field is under `<key>_<name>`, an absent one left its column as it was, and no other column changed |
| Flatten.WithValuesFrame | src/lib.rs:221-228 | a column that is none of the `<key>_<name>` is untouched |
| Flatten.WithStats | src/lib.rs:221-228 | the eight `insert_value` calls of a stats object (`count` … `std_deviation`), as `WithValues` over `StatNames`; characterised by `WithStatsUnrolled`, `WithStatsColumn` and `StatColumn` |
| Flatten.WithStatsUnrolled | src/lib.rs:221-228 | the stats step is exactly the eight `insert_value` calls in the source's order |
| Flatten.WithStatsColumn | src/lib.rs:221-228 | each statistic's column is added when present and left as it was when absent |
| Flatten.WithBounds | src/lib.rs:230-239 | a `std_deviation_bounds` object adds exactly the `_upper` and `_lower` columns with its `upper`/`lower` values; without one the row is unchanged |
| Flatten.WithBoundsFrame | src/lib.rs:230-239 | no column other than the two bounds columns changes |
| Flatten.WriteMetric | src/lib.rs:205-241 | what an object-valued field writes: nothing for a nested aggregation (`"buckets"`), the `"value"` under the field's key for a single-value metric, otherwise `WithStats` then `WithBounds`; a non-object writes nothing; characterised by `MetricFrame`, `StatColumn`, `BoundsColumns` and `WriteField` |
| Flatten.WriteGroup | src/lib.rs:243-252 | a `"key"` field is written under the active frame's name, a `"doc_count"` field under `<name>_doc_count`, any other field writes nothing here; characterised by `WriteField`, `BucketGroupColumns` and `ResumeYieldsAtLeaf` |
| Flatten.WriteField | src/lib.rs:205-252 | a nested aggregation writes nothing; a `"value"` metric writes its value under the field's key; a `"key"`/`"doc_count"` field lands under the active frame's name / `<name>_doc_count`; no column is removed |
| Flatten.WriteFieldFrame | src/lib.rs:205-252 | a field writes no column outside its `FieldColumns`: a value metric exactly one, a stats object only `<key>_<stat>` and the bounds pair |
| Flatten.MetricFrame | src/lib.rs:220-240 | a stats object writes no column outside its statistics and bounds columns |
| Flatten.StatIsNoBound | src/lib.rs:221-238 | a statistic's column never collides with a bounds column |
| Flatten.StatColumn | src/lib.rs:221-228 | in a bucket field, each present statistic adds `<key>_<stat>` with its value and an absent one leaves that column unchanged |
| Flatten.BoundsColumns | src/lib.rs:230-239 | in a bucket field, bounds write exactly the `_upper`/`_lower` columns; without a bounds object those columns stay as they were |
| Flatten.WriteBucket | src/lib.rs:204-253 | processing a bucket never removes a column |
| Flatten.BucketStep | src/lib.rs:204-253 | reading one more field takes one step of the row, of the pushed frames and of `has_buckets` |
| Flatten.LastWriterWins | src/lib.rs:204-253 | a column that no later field writes keeps the value the last writer left |
| Flatten.BucketGroupColumns | src/lib.rs:243-252 | the bucket's `"key"` lands under the name of the frame being advanced (not a child pushed in the same bucket), and `"doc_count"` under `<name>_doc_count` |
| Flatten.WriteBucketFrame | src/lib.rs:204-253 | a column no field of the bucket writes is carried over unchanged |
| Flatten.Resume | src/lib.rs:186-273 | the loop of `next`: pops exhausted frames; otherwise writes the top frame's next bucket into the row under that frame's name (`WriteBucket`) and moves on (`Advance`); descends when the bucket nests aggregations and otherwise stops with `Some(row)`; on an empty stack ends as `Pull([], None, None)`; characterised by `ResumeValid`, `ResumeExhaustion`, `ResumeYieldsAtLeaf`, `ResumeLeafBucket`, `ResumeLeafValue`, `ResumeCarriesOver` and `ResumeKeepsValues` |
| Flatten.NextRow | src/lib.rs:180-280 | a whole call of `next`: an absent accumulator starts as the empty row, then `Resume` runs; characterised by `ExhaustionIsTerminal` and by `Next`'s contract |
| Flatten.ResumeValid | src/lib.rs:186-273 | a pull keeps every frame named, within its array and well formed |
| Flatten.ResumeExhaustion | src/lib.rs:268-279 | a pull returns nothing exactly when it leaves the stack empty, and then it drops the accumulator; otherwise it returns the accumulator it keeps |
| Flatten.ExhaustionIsTerminal | src/lib.rs:180-280 | after a pull that returned nothing, the next pull returns nothing and changes nothing |
| Flatten.ResumeYieldsAtLeaf | src/lib.rs:262-264 | a row is returned only right after a bucket with no nested aggregation, and it carries that bucket's `"key"`/`"doc_count"` under the advanced frame's name |
| Flatten.ResumeCarriesOver | src/lib.rs:181-184 | the accumulator is never cleared between rows: every column held before a pull is in the row it returns |
| Flatten.ResumeKeepsValues | src/lib.rs:262-278 | the accumulator is never cleared between rows: a column held before a pull that no bucket visited by the pull writes (`PullWrites`) is returned with the value it had |
| Flatten.ResumeLeafBucket | src/lib.rs:204-264 | a returned row is the leaf bucket's fields written in order, under the advanced frame's name, over an accumulator that still holds every earlier column; so every column the field lemmas promise for that bucket (value metrics, statistics, bounds, key/doc_count) is in the row |
| Flatten.ResumeLeafValue | src/lib.rs:215-218 | a single-value metric of the leaf bucket is in the returned row under its own key with its `"value"`, unless a later field of the bucket writes that column |
| Aggregations.AggregationIterator.constructor | src/lib.rs:145-163 | `new` stacks the frames of the root's bucketed entries, in key order, with no row; on a well-formed tree the iterator is valid |
| Aggregations.AggregationIterator.VisitObject | src/lib.rs:205-241 | an object-valued field pushes a frame for a `"buckets"` array, writes a `"value"` metric or its statistics and bounds, and reports whether the rest of the field is skipped |
| Aggregations.AggregationIterator.InsertGroup | src/lib.rs:243-252 | `"key"` is written under the active name and `"doc_count"` under `<name>_doc_count` |
| Aggregations.AggregationIterator.VisitField | src/lib.rs:205-252 | one field's effect equals `WriteField`, its nesting flag and the frame it pushes |
| Aggregations.AggregationIterator.InsertStats | src/lib.rs:221-228 | the eight `insert_value` calls compute `WithStats` |
| Aggregations.AggregationIterator.InsertBounds | src/lib.rs:230-240 | the bounds branch computes `WithBounds` |
| Aggregations.AggregationIterator.VisitBucket | src/lib.rs:204-253 | the loop over a bucket's fields computes `WriteBucket`, pushes `BucketGroups` of the bucket and sets `has_buckets` exactly when a field nests buckets |
| Aggregations.AggregationIterator.Next | src/lib.rs:180-280 | `next` computes `NextRow` on the old stack and row; it returns nothing exactly when the stack ends empty (and then the row is gone); a returned row equals the kept accumulator, sits at a leaf bucket with its group-by columns, and keeps every earlier column; a pull on an empty stack returns nothing; through `NextRow`, `ResumeLeafBucket` and `ResumeLeafValue` describe the leaf's columns in the returned row |
| WorkedExamples.ExampleStack | src/lib.rs:150-155 | one aggregation with one bucket gives one frame named after it |
| WorkedExamples.ExampleBucket | src/lib.rs:243-252 | a bucket `{doc_count: 3, key: "a"}` writes `agg = "a"` and `agg_doc_count = 3` |
| WorkedExamples.ExampleFirstRow | src/lib.rs:180-280 | the first pull returns exactly that row |
| WorkedExamples.KeyOnlyBucket | src/lib.rs:243-246 | a bucket with only a plain `"key"` writes it under the active name and nests nothing |
| WorkedExamples.TwoRootsStack | src/lib.rs:150-155 | two top-level aggregations `a`, `b` give two frames, `b` on top |
| WorkedExamples.TwoRootsFirstPull | src/lib.rs:180-280 | the first pull walks `b` and returns `{b: "y"}` |
| WorkedExamples.TwoRootsSecondPull | src/lib.rs:180-280 | the second pull walks `a` and returns `{b: "y", a: "x"}`: a column of the first aggregation leaks into the second's row |

## Left out

- Deserialisation (the serde structs and `Deserialize` impls), the `hits`
  accessors and `ResponseOf::aggs` (including its `unwrap` on a missing
  `aggregations` field): they are outside the flattener.
- `debug!` logging: it has no effect on rows or state.
- `Cow` keys and lifetimes: a row is a map from strings to values, and the
  borrowed/owned distinction is not modelled. The returned row is a value,
  so the `clone` in `next` is the copy a value already is.
- Numbers are opaque integers, because the flattener only copies them.
- `current_row_finished` is written by `new` and never read, so it is not a
  field of the class.
- Panics: a non-object root, a non-object bucket and bounds missing `upper`
  or `lower` are preconditions of the constructor and of `Next`. There is no
  error value and no abort path.
- Aggregations.AggregationIterator.Next: requires the whole remaining tree to be well formed (every bucket an object, every bounds object complete), although one pull only reads the buckets up to the next leaf.
- Flatten.BucketGroupsInKeyOrder: assumes a key-sorted object (the `BTreeMap` order); the model's objects are sequences and other orders are possible as values.
- The guarantee that every leaf bucket path is visited exactly once, in
  depth-first order, across all pulls is not stated. The model proves what
  each pull does (`Next` against `NextRow`) and that each pull terminates,
  but not the sequence of all rows.
- Cross-aggregation carry-over is kept as the code does it (see
  `ResumeCarriesOver` and `TwoRootsSecondPull`). It is not corrected.
