/**
 * RemoveDuplicatesStep: keep the first row of every group of duplicates,
 * in the original order. Without key columns two rows are duplicates when
 * they are equal maps (Stream.distinct); with key columns when their values
 * under those columns, in the configured order, are equal (a LinkedHashMap
 * filled with computeIfAbsent).
 */
module Duplicates {
  import opened Wrappers
  import opened Values
  import opened Sequences

  /** The step's only state, fixed at construction. */
  datatype RemoveDuplicatesStep = RemoveDuplicatesStep(keyColumns: seq<string>)

  /** The no-argument constructor: no key columns. */
  function NewRemoveDuplicatesStep(): (step: RemoveDuplicatesStep)
    ensures step.keyColumns == []
  {
    RemoveDuplicatesStep([])
  }

  /** The key-column constructor, where a null list means no key columns. */
  function NewRemoveDuplicatesStepWith(keyColumns: Option<seq<string>>): (step: RemoveDuplicatesStep)
    ensures keyColumns.None? ==> step == NewRemoveDuplicatesStep()
    ensures keyColumns.Some? ==> step.keyColumns == keyColumns.value
  {
    RemoveDuplicatesStep(if keyColumns.Some? then keyColumns.value else [])
  }

  /** What two rows are compared by. */
  datatype DedupKey = WholeRow(row: Row) | Composite(values: seq<Value>)

  /** `keyColumns.stream().map(row::get)`: an absent column reads as null. */
  function KeyValues(row: Row, keyColumns: seq<string>): (r: seq<Value>)
    ensures |r| == |keyColumns|
    ensures forall j :: 0 <= j < |r| ==> r[j] == if keyColumns[j] in row then row[keyColumns[j]] else Null
  {
    seq(|keyColumns|, j requires 0 <= j < |keyColumns| =>
      if keyColumns[j] in row then row[keyColumns[j]] else Null)
  }

  function KeyOf(row: Row, keyColumns: seq<string>): DedupKey {
    if keyColumns == [] then WholeRow(row) else Composite(KeyValues(row, keyColumns))
  }

  /** `row.get(key)`: the stored value, or null for an absent key. */
  function Lookup(row: Row, key: string): Value {
    if key in row then row[key] else Null
  }

  /**
   * With key columns, two rows are duplicates exactly when they read the
   * same under every key column, an absent column reading as null; so a row
   * lacking a key column duplicates one that stores null there.
   */
  lemma SameKeyIffAgree(a: Row, b: Row, keyColumns: seq<string>)
    requires keyColumns != []
    ensures KeyOf(a, keyColumns) == KeyOf(b, keyColumns) <==>
      forall j :: 0 <= j < |keyColumns| ==> Lookup(a, keyColumns[j]) == Lookup(b, keyColumns[j])
    ensures forall c :: c !in a ==> KeyOf(a, keyColumns) == KeyOf(a[c := Null], keyColumns)
  {
    var ka, kb := KeyValues(a, keyColumns), KeyValues(b, keyColumns);
    if forall j :: 0 <= j < |keyColumns| ==> Lookup(a, keyColumns[j]) == Lookup(b, keyColumns[j]) {
      assert ka == kb;
    }
    forall c | c !in a
      ensures KeyOf(a, keyColumns) == KeyOf(a[c := Null], keyColumns)
    {
      assert KeyValues(a, keyColumns) == KeyValues(a[c := Null], keyColumns);
    }
  }

  /** No earlier row has the same key as row `i`. */
  predicate FirstOccurrence(data: Dataset, keyColumns: seq<string>, i: int)
    requires 0 <= i < |data|
  {
    forall j :: 0 <= j < i ==> KeyOf(data[j], keyColumns) != KeyOf(data[i], keyColumns)
  }

  /** The rows that occur first with their key, in input order. */
  function Dedup(data: Dataset, keyColumns: seq<string>): (r: Dataset)
  {
    if data == [] then []
    else
      var init := data[..|data| - 1];
      Dedup(init, keyColumns)
        + (if FirstOccurrence(data, keyColumns, |data| - 1) then [data[|data| - 1]] else [])
  }

  function Keys(data: Dataset, keyColumns: seq<string>): (r: seq<DedupKey>)
    ensures |r| == |data|
    ensures forall i :: 0 <= i < |data| ==> r[i] == KeyOf(data[i], keyColumns)
  {
    seq(|data|, i requires 0 <= i < |data| => KeyOf(data[i], keyColumns))
  }

  /** No two rows share a key. */
  predicate DistinctKeys(data: Dataset, keyColumns: seq<string>) {
    forall i, j :: 0 <= i < j < |data| ==> KeyOf(data[i], keyColumns) != KeyOf(data[j], keyColumns)
  }

  lemma KeysSnoc(data: Dataset, row: Row, keyColumns: seq<string>)
    ensures Keys(data + [row], keyColumns) == Keys(data, keyColumns) + [KeyOf(row, keyColumns)]
  {
  }

  /** The kept rows are a subsequence of the input. */
  lemma {:induction false} DedupSubsequence(data: Dataset, keyColumns: seq<string>)
    ensures IsSubsequence(Dedup(data, keyColumns), data)
  {
    if data != [] {
      var init := data[..|data| - 1];
      var last := data[|data| - 1];
      DedupSubsequence(init, keyColumns);
      var prev := Dedup(init, keyColumns);
      assert data == init + [last];
      SubsequenceSnoc(prev, init, last);
      if FirstOccurrence(data, keyColumns, |data| - 1) {
        assert Dedup(data, keyColumns) == prev + [last];
      } else {
        assert Dedup(data, keyColumns) == prev;
      }
    }
  }

  /** Between them the kept rows carry every key of the input. */
  lemma {:induction false} DedupCovers(data: Dataset, keyColumns: seq<string>)
    ensures forall i :: 0 <= i < |data| ==> KeyOf(data[i], keyColumns) in Keys(Dedup(data, keyColumns), keyColumns)
  {
    if data != [] {
      var init := data[..|data| - 1];
      var last := data[|data| - 1];
      var prev := Dedup(init, keyColumns);
      var r := Dedup(data, keyColumns);
      DedupCovers(init, keyColumns);
      var first := FirstOccurrence(data, keyColumns, |data| - 1);
      assert r == prev + (if first then [last] else []);
      if first {
        KeysSnoc(prev, last, keyColumns);
        assert Keys(r, keyColumns) == Keys(prev, keyColumns) + [KeyOf(last, keyColumns)];
      } else {
        assert r == prev;
      }
      forall i | 0 <= i < |data|
        ensures KeyOf(data[i], keyColumns) in Keys(r, keyColumns)
      {
        if i < |init| {
          assert data[i] == init[i];
        } else if !first {
          var j :| 0 <= j < |data| - 1 && KeyOf(data[j], keyColumns) == KeyOf(last, keyColumns);
          assert data[j] == init[j];
        }
      }
    }
  }

  /** The kept rows have pairwise different keys. */
  lemma {:induction false} DedupDistinct(data: Dataset, keyColumns: seq<string>)
    ensures DistinctKeys(Dedup(data, keyColumns), keyColumns)
  {
    if data != [] {
      var init := data[..|data| - 1];
      var last := data[|data| - 1];
      var prev := Dedup(init, keyColumns);
      DedupDistinct(init, keyColumns);
      if FirstOccurrence(data, keyColumns, |data| - 1) {
        var k := KeyOf(last, keyColumns);
        DedupSubsequence(init, keyColumns);
        KeysOfSubsequence(prev, init, keyColumns);
        forall i | 0 <= i < |prev|
          ensures KeyOf(prev[i], keyColumns) != k
        {
          var kp := KeyOf(prev[i], keyColumns);
          assert kp in Keys(prev, keyColumns);
          var j :| 0 <= j < |init| && KeyOf(init[j], keyColumns) == kp;
          assert data[j] == init[j];
        }
        var r := prev + [last];
        assert Dedup(data, keyColumns) == r;
        forall i, j | 0 <= i < j < |r|
          ensures KeyOf(r[i], keyColumns) != KeyOf(r[j], keyColumns)
        {
          if j < |prev| {
            assert r[i] == prev[i] && r[j] == prev[j];
          } else {
            assert r[i] == prev[i];
          }
        }
      } else {
        assert Dedup(data, keyColumns) == prev;
      }
    }
  }

  /**
   * The kept rows are a subsequence of the input, have pairwise different
   * keys, and between them carry every key of the input.
   */
  lemma DedupProperties(data: Dataset, keyColumns: seq<string>)
    ensures IsSubsequence(Dedup(data, keyColumns), data)
    ensures DistinctKeys(Dedup(data, keyColumns), keyColumns)
    ensures forall i :: 0 <= i < |data| ==> KeyOf(data[i], keyColumns) in Keys(Dedup(data, keyColumns), keyColumns)
  {
    DedupSubsequence(data, keyColumns);
    DedupDistinct(data, keyColumns);
    DedupCovers(data, keyColumns);
  }

  /** Every key of a subsequence is a key of the original. */
  lemma KeysOfSubsequence(a: Dataset, b: Dataset, keyColumns: seq<string>)
    requires IsSubsequence(a, b)
    ensures forall x :: x in Keys(a, keyColumns) ==> exists j :: 0 <= j < |b| && KeyOf(b[j], keyColumns) == x
  {
    SubsequenceMembers(a, b);
    forall x | x in Keys(a, keyColumns)
      ensures exists j :: 0 <= j < |b| && KeyOf(b[j], keyColumns) == x
    {
      var i :| 0 <= i < |a| && Keys(a, keyColumns)[i] == x;
      assert a[i] in b;
      var j :| 0 <= j < |b| && b[j] == a[i];
    }
  }

  /** Rows whose keys are already distinct are all kept. */
  lemma {:induction false} DedupOfDistinct(data: Dataset, keyColumns: seq<string>)
    requires DistinctKeys(data, keyColumns)
    ensures Dedup(data, keyColumns) == data
  {
    if data != [] {
      var init := data[..|data| - 1];
      assert DistinctKeys(init, keyColumns) by {
        forall i, j | 0 <= i < j < |init|
          ensures KeyOf(init[i], keyColumns) != KeyOf(init[j], keyColumns)
        {
          assert init[i] == data[i] && init[j] == data[j];
        }
      }
      DedupOfDistinct(init, keyColumns);
      assert FirstOccurrence(data, keyColumns, |data| - 1);
      assert data == init + [data[|data| - 1]];
    }
  }

  /** Removing duplicates twice is removing them once. */
  lemma DedupIdempotent(data: Dataset, keyColumns: seq<string>)
    ensures Dedup(Dedup(data, keyColumns), keyColumns) == Dedup(data, keyColumns)
  {
    DedupProperties(data, keyColumns);
    DedupOfDistinct(Dedup(data, keyColumns), keyColumns);
  }

  /** Nothing is kept exactly when there is nothing to keep. */
  lemma DedupEmpty(data: Dataset, keyColumns: seq<string>)
    ensures Dedup(data, keyColumns) == [] <==> data == []
  {
    DedupProperties(data, keyColumns);
    if data != [] {
      assert KeyOf(data[0], keyColumns) in Keys(Dedup(data, keyColumns), keyColumns);
    }
  }

  /**
   * The kept row for each key is the first row with that key: a kept row
   * equals an input row that occurs first with its key.
   */
  lemma {:induction false} DedupKeepsFirsts(data: Dataset, keyColumns: seq<string>)
    ensures forall r :: r in Dedup(data, keyColumns) ==>
      exists i :: 0 <= i < |data| && data[i] == r && FirstOccurrence(data, keyColumns, i)
  {
    if data != [] {
      var init := data[..|data| - 1];
      DedupKeepsFirsts(init, keyColumns);
      forall r | r in Dedup(data, keyColumns)
        ensures exists i :: 0 <= i < |data| && data[i] == r && FirstOccurrence(data, keyColumns, i)
      {
        if r in Dedup(init, keyColumns) {
          var i :| 0 <= i < |init| && init[i] == r && FirstOccurrence(init, keyColumns, i);
          assert data[i] == init[i];
          assert FirstOccurrence(data, keyColumns, i) by {
            forall j | 0 <= j < i
              ensures KeyOf(data[j], keyColumns) != KeyOf(data[i], keyColumns)
            {
              assert data[j] == init[j];
            }
          }
        } else {
          assert r == data[|data| - 1];
        }
      }
    }
  }

  /** A LinkedHashMap from keys to rows, as its entries in insertion order. */
  type Entries = seq<(seq<Value>, Row)>

  function EntryKeys(entries: Entries): (r: seq<seq<Value>>)
    ensures |r| == |entries|
  {
    seq(|entries|, i requires 0 <= i < |entries| => entries[i].0)
  }

  /** LinkedHashMap.values(): the rows in insertion order. */
  function EntryRows(entries: Entries): (r: Dataset)
    ensures |r| == |entries|
  {
    seq(|entries|, i requires 0 <= i < |entries| => entries[i].1)
  }

  /** One more row: it is kept exactly when its key is not among the kept rows' keys. */
  lemma DedupStep(data: Dataset, keyColumns: seq<string>)
    requires data != []
    ensures var kept := Dedup(data[..|data| - 1], keyColumns);
      var last := data[|data| - 1];
      Dedup(data, keyColumns) == kept + (if KeyOf(last, keyColumns) in Keys(kept, keyColumns) then [] else [last])
  {
    var init := data[..|data| - 1];
    var kept := Dedup(init, keyColumns);
    var last := data[|data| - 1];
    DedupProperties(init, keyColumns);
    if KeyOf(last, keyColumns) in Keys(kept, keyColumns) {
      KeysOfSubsequence(kept, init, keyColumns);
      var j :| 0 <= j < |init| && KeyOf(init[j], keyColumns) == KeyOf(last, keyColumns);
      assert data[j] == init[j];
    } else {
      forall j | 0 <= j < |data| - 1
        ensures KeyOf(data[j], keyColumns) != KeyOf(last, keyColumns)
      {
        assert data[j] == init[j];
      }
    }
  }

  /** With key columns, a map key is present exactly when a kept row has that key. */
  lemma EntryKeysMatch(entries: Entries, keyColumns: seq<string>, kv: seq<Value>)
    requires keyColumns != []
    requires forall j :: 0 <= j < |entries| ==> entries[j].0 == KeyValues(entries[j].1, keyColumns)
    ensures kv in EntryKeys(entries) <==> Composite(kv) in Keys(EntryRows(entries), keyColumns)
  {
    if Composite(kv) in Keys(EntryRows(entries), keyColumns) {
      var j :| 0 <= j < |entries| && Keys(EntryRows(entries), keyColumns)[j] == Composite(kv);
      assert EntryKeys(entries)[j] == kv;
    }
    if kv in EntryKeys(entries) {
      var j :| 0 <= j < |entries| && EntryKeys(entries)[j] == kv;
      assert Keys(EntryRows(entries), keyColumns)[j] == Composite(kv);
    }
  }

  /** One turn of the keyed loop: computeIfAbsent adds the row exactly when its key is new. */
  lemma DedupByKeyStep(data: Dataset, i: nat, entries: Entries, keyColumns: seq<string>)
    requires keyColumns != [] && i < |data|
    requires EntryRows(entries) == Dedup(data[..i], keyColumns)
    requires forall j :: 0 <= j < |entries| ==> entries[j].0 == KeyValues(entries[j].1, keyColumns)
    ensures var kv := KeyValues(data[i], keyColumns);
      if kv in EntryKeys(entries) then EntryRows(entries) == Dedup(data[..i + 1], keyColumns)
      else EntryRows(entries + [(kv, data[i])]) == Dedup(data[..i + 1], keyColumns)
  {
    var kv := KeyValues(data[i], keyColumns);
    assert data[..i + 1][..i] == data[..i];
    DedupStep(data[..i + 1], keyColumns);
    EntryKeysMatch(entries, keyColumns, kv);
    var extended := entries + [(kv, data[i])];
    assert EntryRows(extended) == EntryRows(entries) + [data[i]];
  }

  /** The key path of process: computeIfAbsent for every row, then the map's values. */
  method DedupByKey(data: Dataset, keyColumns: seq<string>) returns (r: Dataset)
    requires keyColumns != []
    ensures r == Dedup(data, keyColumns)
  {
    var uniqueRows: Entries := [];
    for i := 0 to |data|
      invariant EntryRows(uniqueRows) == Dedup(data[..i], keyColumns)
      invariant forall j :: 0 <= j < |uniqueRows| ==> uniqueRows[j].0 == KeyValues(uniqueRows[j].1, keyColumns)
    {
      var row := data[i];
      var keyValues := KeyValues(row, keyColumns);
      DedupByKeyStep(data, i, uniqueRows, keyColumns);
      if keyValues !in EntryKeys(uniqueRows) {
        uniqueRows := uniqueRows + [(keyValues, row)];
      }
    }
    assert data[..|data|] == data;
    r := EntryRows(uniqueRows);
  }

  /** RemoveDuplicatesStep.process: Stream.distinct without key columns, the keyed loop with them. */
  method Process(step: RemoveDuplicatesStep, data: Dataset) returns (r: Dataset)
    ensures r == Dedup(data, step.keyColumns)
  {
    if step.keyColumns == [] {
      r := Dedup(data, []);
    } else {
      r := DedupByKey(data, step.keyColumns);
    }
  }
}
