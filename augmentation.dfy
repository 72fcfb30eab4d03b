/** The split/label augmentation stage (`main` of src/augment_features.py):
    two left joins on the normalized user id, the `"unknown"` fill, and the
    partition of the merged table by split name. */
module Augmentation {
  import opened Values
  import opened Aggregation
  import opened KeyNormalization

  const Unknown: string := "unknown"

  /** The split names, in the order the subsets are written. */
  const SplitNames: seq<string> := ["train", "val", "test"]

  /** A feature row after the join with the split table. */
  datatype SplitJoined = SplitJoined(features: FeatureRow, split: Option<string>)

  /** A feature row after both joins, before filling. */
  datatype Merged = Merged(features: FeatureRow, split: Option<string>, labelCell: Option<string>)

  /** A row of the augmented table. */
  datatype AugmentedRow = AugmentedRow(features: FeatureRow, split: string, labelName: string)

  /** The value cells of the entries keyed `uid`, in table order. A null
      key matches no user. */
  function Matches(table: seq<Entry>, uid: int): (m: seq<Option<string>>)
    ensures |m| <= |table|
    ensures forall c :: c in m ==> Entry(Some(uid), c) in table
  {
    if table == [] then []
    else (if table[0].userId == Some(uid) then [table[0].value] else []) + Matches(table[1..], uid)
  }

  /** No two entries share a (non-null) user id. */
  predicate UniqueKeys(table: seq<Entry>) {
    forall i, j :: 0 <= i < j < |table| && table[i].userId.Some? ==> table[i].userId != table[j].userId
  }

  /** What a user finds in a table: the value of its entry, or null when
      it has none. */
  function Lookup(table: seq<Entry>, uid: int): Option<string> {
    var m := Matches(table, uid);
    if m == [] then None else m[0]
  }

  /** The cells a left row receives: one per match, or a single null. */
  function JoinCells(m: seq<Option<string>>): (cells: seq<Option<string>>)
    ensures |cells| >= 1
  {
    if m == [] then [None] else m
  }

  /** `df_features.merge(df_split, on='user_id', how='left')`. */
  function JoinSplit(features: seq<FeatureRow>, split: seq<Entry>): (rows: seq<SplitJoined>)
    ensures |rows| >= |features|
  {
    if features == [] then []
    else
      var cells := JoinCells(Matches(split, features[0].userId));
      seq(|cells|, k requires 0 <= k < |cells| => SplitJoined(features[0], cells[k]))
      + JoinSplit(features[1..], split)
  }

  /** Every row of the split join is a feature row with a null split or
      the value of an entry keyed by that row's user. */
  lemma {:induction false} JoinSplitProvenance(features: seq<FeatureRow>, split: seq<Entry>)
    ensures forall r :: r in JoinSplit(features, split) ==> r.features in features
    ensures forall r :: r in JoinSplit(features, split) && r.split.Some? ==>
      Entry(Some(r.features.userId), r.split) in split
  {
    if features != [] {
      var cells := JoinCells(Matches(split, features[0].userId));
      var head := seq(|cells|, k requires 0 <= k < |cells| => SplitJoined(features[0], cells[k]));
      JoinSplitProvenance(features[1..], split);
      assert JoinSplit(features, split) == head + JoinSplit(features[1..], split);
      assert forall r :: r in head ==> r.features == features[0] && r.split in cells;
    }
  }

  /** The split join keeps every feature row: each one appears in at least
      one joined row, whether or not its user has an entry. */
  lemma {:induction false} JoinSplitKeepsEveryRow(features: seq<FeatureRow>, split: seq<Entry>)
    ensures forall i :: 0 <= i < |features| ==>
      exists r :: r in JoinSplit(features, split) && r.features == features[i]
  {
    if features != [] {
      var cells := JoinCells(Matches(split, features[0].userId));
      var head := seq(|cells|, k requires 0 <= k < |cells| => SplitJoined(features[0], cells[k]));
      var tail := JoinSplit(features[1..], split);
      assert JoinSplit(features, split) == head + tail;
      JoinSplitKeepsEveryRow(features[1..], split);
      forall i | 0 <= i < |features|
        ensures exists r :: r in JoinSplit(features, split) && r.features == features[i]
      {
        if i == 0 {
          assert head[0] in head + tail;
        } else {
          assert features[1..][i - 1] == features[i];
          var r :| r in tail && r.features == features[i];
          assert r in head + tail;
        }
      }
    }
  }

  /** `df_merged.merge(df_label, on='user_id', how='left')`. */
  function JoinLabel(rows: seq<SplitJoined>, labels: seq<Entry>): (merged: seq<Merged>)
    ensures |merged| >= |rows|
  {
    if rows == [] then []
    else
      var cells := JoinCells(Matches(labels, rows[0].features.userId));
      seq(|cells|, k requires 0 <= k < |cells| => Merged(rows[0].features, rows[0].split, cells[k]))
      + JoinLabel(rows[1..], labels)
  }

  /** Every row of the label join extends a row of its input, with a null
      label or the value of an entry keyed by that row's user. */
  lemma {:induction false} JoinLabelProvenance(rows: seq<SplitJoined>, labels: seq<Entry>)
    ensures forall m :: m in JoinLabel(rows, labels) ==> SplitJoined(m.features, m.split) in rows
    ensures forall m :: m in JoinLabel(rows, labels) && m.labelCell.Some? ==>
      Entry(Some(m.features.userId), m.labelCell) in labels
  {
    if rows != [] {
      var cells := JoinCells(Matches(labels, rows[0].features.userId));
      var head := seq(|cells|, k requires 0 <= k < |cells| => Merged(rows[0].features, rows[0].split, cells[k]));
      JoinLabelProvenance(rows[1..], labels);
      assert JoinLabel(rows, labels) == head + JoinLabel(rows[1..], labels);
      assert forall m :: m in head ==> SplitJoined(m.features, m.split) == rows[0] && m.labelCell in cells;
      assert forall r :: r in rows[1..] ==> r in rows;
    }
  }

  /** The label join keeps every input row, split cell included. */
  lemma {:induction false} JoinLabelKeepsEveryRow(rows: seq<SplitJoined>, labels: seq<Entry>)
    ensures forall i :: 0 <= i < |rows| ==>
      exists m :: m in JoinLabel(rows, labels) && SplitJoined(m.features, m.split) == rows[i]
  {
    if rows != [] {
      var cells := JoinCells(Matches(labels, rows[0].features.userId));
      var head := seq(|cells|, k requires 0 <= k < |cells| => Merged(rows[0].features, rows[0].split, cells[k]));
      var tail := JoinLabel(rows[1..], labels);
      assert JoinLabel(rows, labels) == head + tail;
      JoinLabelKeepsEveryRow(rows[1..], labels);
      forall i | 0 <= i < |rows|
        ensures exists m :: m in JoinLabel(rows, labels) && SplitJoined(m.features, m.split) == rows[i]
      {
        if i == 0 {
          assert head[0] in head + tail;
        } else {
          assert rows[1..][i - 1] == rows[i];
          var m :| m in tail && SplitJoined(m.features, m.split) == rows[i];
          assert m in head + tail;
        }
      }
    }
  }

  /** `fillna('unknown')` on one cell. */
  function FillUnknown(cell: Option<string>): (s: string)
    ensures cell.Some? ==> s == cell.value
    ensures cell.None? ==> s == Unknown
  {
    if cell.Some? then cell.value else Unknown
  }

  function Fill(rows: seq<Merged>): (filled: seq<AugmentedRow>)
    ensures |filled| == |rows|
    ensures forall i :: 0 <= i < |rows| ==>
      filled[i] == AugmentedRow(rows[i].features, FillUnknown(rows[i].split), FillUnknown(rows[i].labelCell))
  {
    seq(|rows|, i requires 0 <= i < |rows| =>
      AugmentedRow(rows[i].features, FillUnknown(rows[i].split), FillUnknown(rows[i].labelCell)))
  }

  /** After both joins and the fill, every row comes from a feature row,
      and its split and label are "unknown" or an entry's value. */
  lemma FilledJoinsProvenance(features: seq<FeatureRow>, split: seq<Entry>, labels: seq<Entry>)
    ensures var rows := Fill(JoinLabel(JoinSplit(features, split), labels));
      && |rows| >= |features|
      && (forall r :: r in rows ==> r.features in features)
      && (forall r :: r in rows ==> r.split == Unknown || Entry(Some(r.features.userId), Some(r.split)) in split)
      && (forall r :: r in rows ==> r.labelName == Unknown || Entry(Some(r.features.userId), Some(r.labelName)) in labels)
  {
    var joined := JoinSplit(features, split);
    var merged := JoinLabel(joined, labels);
    JoinSplitProvenance(features, split);
    JoinLabelProvenance(joined, labels);
    assert forall i :: 0 <= i < |Fill(merged)| ==> merged[i] in merged;
  }

  /** Both joins and the fill together keep every feature row. */
  lemma FilledJoinsKeepEveryRow(features: seq<FeatureRow>, split: seq<Entry>, labels: seq<Entry>)
    ensures var rows := Fill(JoinLabel(JoinSplit(features, split), labels));
      forall i :: 0 <= i < |features| ==> exists r :: r in rows && r.features == features[i]
  {
    var joined := JoinSplit(features, split);
    var merged := JoinLabel(joined, labels);
    JoinSplitKeepsEveryRow(features, split);
    JoinLabelKeepsEveryRow(joined, labels);
    forall i | 0 <= i < |features|
      ensures exists r :: r in Fill(merged) && r.features == features[i]
    {
      var j :| j in joined && j.features == features[i];
      var m :| m in merged && SplitJoined(m.features, m.split) == j;
      FillKeepsRow(merged, m);
    }
  }

  lemma FillKeepsRow(rows: seq<Merged>, m: Merged)
    requires m in rows
    ensures exists r :: r in Fill(rows) && r.features == m.features
  {
    var k :| 0 <= k < |rows| && rows[k] == m;
    assert Fill(rows)[k] in Fill(rows);
  }

  /** A split or label table as the stage sees it: normalized when the
      file exists, empty when it does not. */
  function LoadedTable(file: Option<seq<KeyedEntry>>): (t: seq<Entry>)
    ensures file.None? ==> t == []
    ensures file.Some? ==> |t| == |file.value| && forall i :: 0 <= i < |t| ==>
      t[i].value == file.value[i].value && t[i].userId == NormalizeId(file.value[i].id)
  {
    if file.None? then [] else NormalizeTable(file.value)
  }

  /** The augmented table. */
  function Augment(features: seq<FeatureRow>, split: Option<seq<KeyedEntry>>, labels: Option<seq<KeyedEntry>>)
    : (rows: seq<AugmentedRow>)
    ensures |rows| >= |features|
    ensures forall i :: 0 <= i < |features| ==> exists r :: r in rows && r.features == features[i]
    ensures forall r :: r in rows ==> r.features in features
    ensures forall r :: r in rows ==>
      r.split == Unknown || Entry(Some(r.features.userId), Some(r.split)) in LoadedTable(split)
    ensures forall r :: r in rows ==>
      r.labelName == Unknown || Entry(Some(r.features.userId), Some(r.labelName)) in LoadedTable(labels)
  {
    FilledJoinsProvenance(features, LoadedTable(split), LoadedTable(labels));
    FilledJoinsKeepEveryRow(features, LoadedTable(split), LoadedTable(labels));
    Fill(JoinLabel(JoinSplit(features, LoadedTable(split)), LoadedTable(labels)))
  }

  lemma {:induction false} UniqueKeysMatchOnce(table: seq<Entry>, uid: int)
    requires UniqueKeys(table)
    ensures |Matches(table, uid)| <= 1
  {
    if table != [] {
      assert UniqueKeys(table[1..]) by {
        forall i, j | 0 <= i < j < |table[1..]| && table[1..][i].userId.Some?
          ensures table[1..][i].userId != table[1..][j].userId
        {
          assert table[1..][i] == table[i + 1] && table[1..][j] == table[j + 1];
        }
      }
      UniqueKeysMatchOnce(table[1..], uid);
      if table[0].userId == Some(uid) && Matches(table[1..], uid) != [] {
        NoMatchesAfterKey(table, uid);
      }
    }
  }

  lemma {:induction false} NoMatchesAfterKey(table: seq<Entry>, uid: int)
    requires UniqueKeys(table) && table != [] && table[0].userId == Some(uid)
    ensures Matches(table[1..], uid) == []
  {
    MatchesOnlyKeyed(table[1..], uid);
    assert forall j :: 0 <= j < |table[1..]| ==> table[1..][j] == table[j + 1];
  }

  lemma {:induction false} MatchesOnlyKeyed(table: seq<Entry>, uid: int)
    ensures (forall j :: 0 <= j < |table| ==> table[j].userId != Some(uid)) ==> Matches(table, uid) == []
  {
    if table != [] {
      MatchesOnlyKeyed(table[1..], uid);
      assert forall j :: 0 <= j < |table[1..]| ==> table[1..][j] == table[j + 1];
    }
  }

  /** With unique keys on the right, the split join gives each feature row
      exactly one row, in order, carrying the row's entry or null. */
  lemma {:induction false} JoinSplitUnique(features: seq<FeatureRow>, split: seq<Entry>)
    requires UniqueKeys(split)
    ensures var rows := JoinSplit(features, split);
      && |rows| == |features|
      && forall i :: 0 <= i < |features| ==>
           rows[i] == SplitJoined(features[i], Lookup(split, features[i].userId))
  {
    if features != [] {
      JoinSplitUnique(features[1..], split);
      UniqueKeysMatchOnce(split, features[0].userId);
      var cells := JoinCells(Matches(split, features[0].userId));
      var head := seq(|cells|, k requires 0 <= k < |cells| => SplitJoined(features[0], cells[k]));
      assert head == [SplitJoined(features[0], Lookup(split, features[0].userId))];
      assert forall i :: 1 <= i < |features| ==> features[1..][i - 1] == features[i];
    }
  }

  /** With unique keys on the right, the label join gives each row exactly
      one row, in order, keeping its split cell. */
  lemma {:induction false} JoinLabelUnique(rows: seq<SplitJoined>, labels: seq<Entry>)
    requires UniqueKeys(labels)
    ensures var merged := JoinLabel(rows, labels);
      && |merged| == |rows|
      && forall i :: 0 <= i < |rows| ==>
           merged[i] == Merged(rows[i].features, rows[i].split, Lookup(labels, rows[i].features.userId))
  {
    if rows != [] {
      JoinLabelUnique(rows[1..], labels);
      UniqueKeysMatchOnce(labels, rows[0].features.userId);
      var cells := JoinCells(Matches(labels, rows[0].features.userId));
      var head := seq(|cells|, k requires 0 <= k < |cells| => Merged(rows[0].features, rows[0].split, cells[k]));
      assert head == [Merged(rows[0].features, rows[0].split, Lookup(labels, rows[0].features.userId))];
      assert forall i :: 1 <= i < |rows| ==> rows[1..][i - 1] == rows[i];
    }
  }

  /** When the normalized split and label tables have unique keys, the
      augmented table has exactly one row per feature row, in the same
      order, whose split and label are the user's entries, or "unknown"
      when there is no entry or its cell is empty. */
  lemma OneRowPerFeatureRow(features: seq<FeatureRow>, split: Option<seq<KeyedEntry>>, labels: Option<seq<KeyedEntry>>)
    requires UniqueKeys(LoadedTable(split)) && UniqueKeys(LoadedTable(labels))
    ensures var rows := Augment(features, split, labels);
      && |rows| == |features|
      && forall i :: 0 <= i < |features| ==>
           && rows[i].features == features[i]
           && rows[i].split == FillUnknown(Lookup(LoadedTable(split), features[i].userId))
           && rows[i].labelName == FillUnknown(Lookup(LoadedTable(labels), features[i].userId))
  {
    var joined := JoinSplit(features, LoadedTable(split));
    JoinSplitUnique(features, LoadedTable(split));
    JoinLabelUnique(joined, LoadedTable(labels));
  }

  /** Every row of the split join without a split table has a null split,
      and the label join keeps that. */
  lemma {:induction false} NoSplitTableNoSplit(features: seq<FeatureRow>)
    ensures forall r :: r in JoinSplit(features, []) ==> r.split.None?
  {
    if features != [] {
      NoSplitTableNoSplit(features[1..]);
    }
  }

  lemma {:induction false} JoinLabelKeepsNullSplit(rows: seq<SplitJoined>, labels: seq<Entry>)
    requires forall r :: r in rows ==> r.split.None?
    ensures forall m :: m in JoinLabel(rows, labels) ==> m.split.None?
  {
    if rows != [] {
      assert rows[0] in rows;
      assert forall r :: r in rows[1..] ==> r in rows;
      JoinLabelKeepsNullSplit(rows[1..], labels);
    }
  }

  /** The rows of the merged table whose split is `name`, in order
      (`df_merged[df_merged['split'] == name]`). */
  function RowsWithSplit(rows: seq<AugmentedRow>, name: string): (sub: seq<AugmentedRow>)
    ensures |sub| <= |rows|
    ensures forall r :: r in sub <==> r in rows && r.split == name
  {
    if rows == [] then []
    else (if rows[0].split == name then [rows[0]] else []) + RowsWithSplit(rows[1..], name)
  }

  lemma {:induction false} NoRowWithSplit(rows: seq<AugmentedRow>, name: string)
    requires forall r :: r in rows ==> r.split != name
    ensures RowsWithSplit(rows, name) == []
  {
    if rows != [] {
      assert rows[0] in rows;
      assert forall r :: r in rows[1..] ==> r in rows;
      NoRowWithSplit(rows[1..], name);
    }
  }

  /** The rows whose split is one of the three names. */
  function RowsInSplits(rows: seq<AugmentedRow>): seq<AugmentedRow> {
    if rows == [] then []
    else (if rows[0].split in SplitNames then [rows[0]] else []) + RowsInSplits(rows[1..])
  }

  /** The partition loop: one subset per split name, in name order. */
  method Partition(rows: seq<AugmentedRow>) returns (subsets: seq<seq<AugmentedRow>>)
    ensures |subsets| == |SplitNames|
    ensures forall k :: 0 <= k < |SplitNames| ==> subsets[k] == RowsWithSplit(rows, SplitNames[k])
  {
    subsets := [];
    for k := 0 to |SplitNames|
      invariant |subsets| == k
      invariant forall j :: 0 <= j < k ==> subsets[j] == RowsWithSplit(rows, SplitNames[j])
    {
      var subset := RowsWithSplit(rows, SplitNames[k]);
      subsets := subsets + [subset];
    }
  }

  /** Subsets keep the order of the merged table: the subset of a
      concatenation is the concatenation of the subsets. */
  lemma {:induction false} RowsWithSplitAppend(a: seq<AugmentedRow>, b: seq<AugmentedRow>, name: string)
    ensures RowsWithSplit(a + b, name) == RowsWithSplit(a, name) + RowsWithSplit(b, name)
  {
    if a == [] {
      assert a + b == b;
    } else {
      assert (a + b)[0] == a[0] && (a + b)[1..] == a[1..] + b;
      RowsWithSplitAppend(a[1..], b, name);
    }
  }

  /** No row is in two subsets. */
  lemma SubsetsDisjoint(rows: seq<AugmentedRow>, j: nat, k: nat)
    requires j < k < |SplitNames|
    ensures forall r :: r in RowsWithSplit(rows, SplitNames[j]) ==> r !in RowsWithSplit(rows, SplitNames[k])
  {
  }

  /** The three subsets together hold exactly as many rows as there are
      rows whose split is one of the three names. */
  lemma {:induction false} SubsetSizes(rows: seq<AugmentedRow>)
    ensures |RowsWithSplit(rows, "train")| + |RowsWithSplit(rows, "val")| + |RowsWithSplit(rows, "test")|
         == |RowsInSplits(rows)|
  {
    if rows != [] {
      SubsetSizes(rows[1..]);
    }
  }

  /** The outputs of the stage: the augmented table and the subsets. */
  datatype Outputs = Outputs(merged: seq<AugmentedRow>, subsets: seq<seq<AugmentedRow>>)

  /** One run on the feature table and the split and label tables, each
      None when its file is absent. Without a feature table the stage
      returns before writing anything. */
  function AugmentStage(features: Option<seq<FeatureRow>>, split: Option<seq<KeyedEntry>>, labels: Option<seq<KeyedEntry>>)
    : (o: Option<Outputs>)
    ensures o.None? <==> features.None?
    ensures o.Some? ==> |o.value.subsets| == |SplitNames|
  {
    if features.None? then None
    else
      var merged := Augment(features.value, split, labels);
      Some(Outputs(merged, seq(|SplitNames|, k requires 0 <= k < |SplitNames| => RowsWithSplit(merged, SplitNames[k]))))
  }

  /** `main`. */
  method RunAugmentation(features: Option<seq<FeatureRow>>, split: Option<seq<KeyedEntry>>, labels: Option<seq<KeyedEntry>>)
    returns (o: Option<Outputs>)
    ensures o == AugmentStage(features, split, labels)
  {
    if features.None? {
      return None;
    }
    var merged := Augment(features.value, split, labels);
    var subsets := Partition(merged);
    assert subsets == seq(|SplitNames|, k requires 0 <= k < |SplitNames| => RowsWithSplit(merged, SplitNames[k]));
    o := Some(Outputs(merged, subsets));
  }

  /** Without a split file every row's split is "unknown", so all three
      subsets are empty. */
  lemma SplitFileAbsent(features: seq<FeatureRow>, labels: Option<seq<KeyedEntry>>)
    ensures var o := AugmentStage(Some(features), None, labels).value;
      && (forall r :: r in o.merged ==> r.split == Unknown)
      && forall k :: 0 <= k < |SplitNames| ==> o.subsets[k] == []
  {
    var joined := JoinSplit(features, []);
    NoSplitTableNoSplit(features);
    JoinLabelKeepsNullSplit(joined, LoadedTable(labels));
    var merged := JoinLabel(joined, LoadedTable(labels));
    var rows := Augment(features, None, labels);
    assert forall i :: 0 <= i < |rows| ==> merged[i] in merged;
    forall k | 0 <= k < |SplitNames| {
      NoRowWithSplit(rows, SplitNames[k]);
    }
  }
}
