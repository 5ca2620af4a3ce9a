/**
 * The table-to-document conversions of `update_chars`, `update_mats`,
 * `update_furns` and `update_sets` (data_controller.py). The write that
 * follows each conversion and its `matched_count` flag are not part of this
 * model: the functions here compute the value that would be written.
 */
module Serializers {
  import opened Tables
  import opened Reconciler

  /** `df.set_index(name)[value].to_dict()`, folded row by row. */
  function TableToMap<V>(t: seq<Entry<V>>): map<Name, V>
  {
    if t == [] then map[]
    else TableToMap(t[..|t| - 1])[t[|t| - 1].name := t[|t| - 1].value]
  }

  /** The converted map has exactly the table's names as keys. */
  lemma {:induction false} TableToMapKeys<V>(t: seq<Entry<V>>)
    ensures forall k :: k in TableToMap(t) <==> exists i :: 0 <= i < |t| && t[i].name == k
  {
    if t != [] {
      var n := |t| - 1;
      TableToMapKeys(t[..n]);
      forall k | k in TableToMap(t) ensures exists i :: 0 <= i < |t| && t[i].name == k {
        if k != t[n].name {
          assert k in TableToMap(t[..n]);
          var i :| 0 <= i < |t[..n]| && t[..n][i].name == k;
          assert t[i] == t[..n][i];
        }
      }
      forall i | 0 <= i < |t| ensures t[i].name in TableToMap(t) {
        if i < n {
          assert t[..n][i] == t[i];
        }
      }
    }
  }

  /** A name that occurs on several rows gets the value of its last row. */
  lemma {:induction false} TableToMapLast<V>(t: seq<Entry<V>>, i: nat)
    requires i < |t|
    requires forall j :: i < j < |t| ==> t[j].name != t[i].name
    ensures t[i].name in TableToMap(t) && TableToMap(t)[t[i].name] == t[i].value
  {
    var n := |t| - 1;
    if i < n {
      forall j | i < j < n ensures t[..n][j].name != t[..n][i].name {
        assert t[..n][j] == t[j];
      }
      TableToMapLast(t[..n], i);
      assert t[..n][i] == t[i];
    }
  }

  /** When every row named `k` carries `v`, the converted map sends `k` to `v`. */
  lemma {:induction false} TableToMapUniform<V>(t: seq<Entry<V>>, k: Name, v: V)
    requires exists i :: 0 <= i < |t| && t[i].name == k
    requires forall i :: 0 <= i < |t| && t[i].name == k ==> t[i].value == v
    ensures k in TableToMap(t) && TableToMap(t)[k] == v
  {
    var n := |t| - 1;
    if t[n].name != k {
      var i :| 0 <= i < |t| && t[i].name == k;
      assert t[..n][i] == t[i];
      forall j | 0 <= j < n && t[..n][j].name == k ensures t[..n][j].value == v {
        assert t[..n][j] == t[j];
      }
      TableToMapUniform(t[..n], k, v);
    }
  }

  /** Saving a reconciled table stores the catalog's names with the user's value
      or the default, and drops stored names the catalog does not list. */
  lemma TableToMapOfLeftJoin<V>(keys: seq<Name>, m: map<Name, V>, default: V)
    ensures TableToMap(LeftJoin(keys, m, default)) ==
      map k | k in keys :: if k in m then m[k] else default
  {
    var t := LeftJoin(keys, m, default);
    var saved := TableToMap(t);
    var expected := map k | k in keys :: if k in m then m[k] else default;
    forall k ensures (k in saved <==> k in expected) && (k in saved ==> saved[k] == expected[k]) {
      if k in keys {
        LeftJoinSavedValue(keys, m, default, k);
      }
      if k in saved {
        SavedNameFromCatalog(keys, m, default, k);
      }
    }
    SameEntries(saved, expected);
  }

  lemma SameEntries<V>(a: map<Name, V>, b: map<Name, V>)
    requires forall k :: (k in a <==> k in b) && (k in a ==> a[k] == b[k])
    ensures a == b
  {
  }

  lemma SavedNameFromCatalog<V>(keys: seq<Name>, m: map<Name, V>, default: V, k: Name)
    requires k in TableToMap(LeftJoin(keys, m, default))
    ensures k in keys
  {
    var t := LeftJoin(keys, m, default);
    TableToMapKeys(t);
    var i :| 0 <= i < |t| && t[i].name == k;
    assert keys[i] == k;
  }

  lemma LeftJoinSavedValue<V>(keys: seq<Name>, m: map<Name, V>, default: V, k: Name)
    requires k in keys
    ensures var saved := TableToMap(LeftJoin(keys, m, default));
      k in saved && saved[k] == if k in m then m[k] else default
  {
    var t := LeftJoin(keys, m, default);
    var i :| 0 <= i < |keys| && keys[i] == k;
    assert t[i].name == k;
    TableToMapUniform(t, k, if k in m then m[k] else default);
  }

  /** Reconciling what was saved gives back the table that was saved. */
  lemma SaveThenReconcile<V>(keys: seq<Name>, m: map<Name, V>, default: V)
    ensures LeftJoin(keys, TableToMap(LeftJoin(keys, m, default)), default) == LeftJoin(keys, m, default)
  {
    TableToMapOfLeftJoin(keys, m, default);
  }

  // ---- update_sets ----

  /** `sets_df[sets_df["name"] == name]`: the rows of one set, in table order. */
  function RowsNamed(rows: seq<SetRow>, name: Name): seq<SetRow>
  {
    if rows == [] then []
    else
      var n := |rows| - 1;
      RowsNamed(rows[..n], name) + (if rows[n].name == name then [rows[n]] else [])
  }

  /** The subset for a name holds exactly the table's rows with that name. */
  lemma {:induction false} RowsNamedMembers(rows: seq<SetRow>, name: Name, r: SetRow)
    ensures r in RowsNamed(rows, name) <==> r in rows && r.name == name
  {
    if rows != [] {
      var n := |rows| - 1;
      RowsNamedMembers(rows[..n], name, r);
      assert rows == rows[..n] + [rows[n]];
    }
  }

  /** The (character, claimed) column pairs of some sets rows. */
  function ClaimPairs(rows: seq<SetRow>): (ps: Dict<bool>)
    ensures |ps| == |rows|
    ensures forall i :: 0 <= i < |rows| ==> ps[i] == (rows[i].character, rows[i].claimed)
  {
    seq(|rows|, i requires 0 <= i < |rows| => (rows[i].character, rows[i].claimed))
  }

  /** The entry lines 119-129 build for one set name. */
  function GroupOf(rows: seq<SetRow>, name: Name): SetRecord
  {
    SetRecord(name, FromPairs(ClaimPairs(RowsNamed(rows, name))))
  }

  /** The `sets` list `update_sets` writes: one entry per distinct name, in first-seen order. */
  function GroupSets(rows: seq<SetRow>): seq<SetRecord>
  {
    var names := Unique(SetNames(rows));
    seq(|names|, i requires 0 <= i < |names| => GroupOf(rows, names[i]))
  }

  /** Lines 114-129: the loop over the unique set names. */
  method SerializeSets(rows: seq<SetRow>) returns (sets: seq<SetRecord>)
    ensures sets == GroupSets(rows)
  {
    var names := Unique(SetNames(rows));
    ghost var spec := GroupSets(rows);
    sets := [];
    for i := 0 to |names|
      invariant sets == spec[..i]
    {
      var subset := RowsNamed(rows, names[i]);
      var info := FromPairs(ClaimPairs(subset));
      assert spec[i] == SetRecord(names[i], info);
      sets := sets + [SetRecord(names[i], info)];
      assert spec[..i + 1] == spec[..i] + [spec[i]];
    }
    assert spec[..|names|] == spec;
  }

  /** The claimed flag of the last row for (`name`, `character`), if there is one. */
  function LastClaim(rows: seq<SetRow>, name: Name, character: Name): Option<bool>
  {
    if rows == [] then None
    else
      var r := rows[|rows| - 1];
      if r.name == name && r.character == character then Some(r.claimed)
      else LastClaim(rows[..|rows| - 1], name, character)
  }

  lemma {:induction false} LastValueOfClaims(rows: seq<SetRow>, name: Name, character: Name)
    ensures LastValue(ClaimPairs(RowsNamed(rows, name)), character) == LastClaim(rows, name, character)
  {
    if rows != [] {
      var n := |rows| - 1;
      var x := rows[n];
      LastValueOfClaims(rows[..n], name, character);
      var prev := RowsNamed(rows[..n], name);
      if x.name == name {
        assert RowsNamed(rows, name) == prev + [x];
        var ps := ClaimPairs(prev + [x]);
        assert ps[|prev|] == (x.character, x.claimed);
        assert ps[..|prev|] == ClaimPairs(prev);
      } else {
        assert RowsNamed(rows, name) == prev;
      }
    }
  }

  /** The entries `update_sets` writes: their names are the table's distinct set
      names in first-seen order, and each entry's dict maps exactly the
      characters of that name's rows to the flag of the last such row. */
  lemma GroupSetsEntries(rows: seq<SetRow>)
    ensures var g := GroupSets(rows);
      && |g| == |Unique(SetNames(rows))|
      && (forall i :: 0 <= i < |g| ==> g[i].name == Unique(SetNames(rows))[i])
      && (forall i, c :: 0 <= i < |g| ==> Lookup(g[i].characters, c) == LastClaim(rows, g[i].name, c))
  {
    var g := GroupSets(rows);
    forall i, c | 0 <= i < |g| ensures Lookup(g[i].characters, c) == LastClaim(rows, g[i].name, c) {
      LastValueOfClaims(rows, g[i].name, c);
    }
  }

  /** `update_sets` writes well-formed entries: distinct set names, and
      distinct characters in each entry's dict. */
  lemma GroupSetsWellFormed(rows: seq<SetRow>)
    ensures WellFormedSets(GroupSets(rows))
  {
    assert RecordNames(GroupSets(rows)) == Unique(SetNames(rows));
  }

  // ---- Writing back what get_data read ----

  lemma {:induction false} UniqueAppendRun(s: seq<Name>, t: seq<Name>, x: Name)
    requires x !in s && t != [] && forall i :: 0 <= i < |t| ==> t[i] == x
    ensures Unique(s + t) == Unique(s) + [x]
  {
    var t' := t[..|t| - 1];
    assert t == t' + [x];
    assert s + t == (s + t') + [x];
    UniqueSnoc(s + t', x);
    if t' == [] {
      assert s + t' == s;
    } else {
      forall i | 0 <= i < |t'| ensures t'[i] == x {
        assert t'[i] == t[i];
      }
      assert (s + t')[|s|] == x;
      UniqueAppendRun(s, t', x);
    }
  }

  lemma {:induction false} RowsNamedAppend(a: seq<SetRow>, b: seq<SetRow>, name: Name)
    ensures RowsNamed(a + b, name) == RowsNamed(a, name) + RowsNamed(b, name)
  {
    if b == [] {
      assert a + b == a;
    } else {
      var n := |b| - 1;
      assert (a + b)[..|a + b| - 1] == a + b[..n];
      assert (a + b)[|a + b| - 1] == b[n];
      RowsNamedAppend(a, b[..n], name);
      var tail := if b[n].name == name then [b[n]] else [];
      assert RowsNamed(a + b, name) == RowsNamed(a + b[..n], name) + tail;
      assert RowsNamed(b, name) == RowsNamed(b[..n], name) + tail;
    }
  }

  lemma {:induction false} RowsNamedNone(rows: seq<SetRow>, name: Name)
    requires forall r :: r in rows ==> r.name != name
    ensures RowsNamed(rows, name) == []
  {
    if rows != [] {
      RowsNamedNone(rows[..|rows| - 1], name);
    }
  }

  lemma {:induction false} RowsNamedAll(rows: seq<SetRow>, name: Name)
    requires forall i :: 0 <= i < |rows| ==> rows[i].name == name
    ensures RowsNamed(rows, name) == rows
  {
    if rows != [] {
      var n := |rows| - 1;
      var init, last := rows[..n], rows[n];
      forall i | 0 <= i < n ensures init[i].name == name {
        assert init[i] == rows[i];
      }
      RowsNamedAll(init, name);
      assert RowsNamed(rows, name) == init + [last];
      assert rows == init + [last];
    }
  }

  /** With distinct stored set names, the flattened rows of one name are that entry's rows. */
  lemma {:induction false} RowsNamedOfFlatten(recs: seq<SetRecord>, k: nat)
    requires Distinct(RecordNames(recs)) && k < |recs|
    ensures RowsNamed(Flatten(recs), recs[k].name) == ClaimRows(recs[k])
  {
    var n := |recs| - 1;
    var init := recs[..n];
    var name := recs[k].name;
    LastNameFresh(recs);
    RowsNamedAppend(Flatten(init), ClaimRows(recs[n]), name);
    if k == n {
      forall r | r in Flatten(init) ensures r.name != name {
        FlattenRowNamed(init, r);
      }
      RowsNamedNone(Flatten(init), name);
      RowsNamedAll(ClaimRows(recs[n]), name);
    } else {
      assert Distinct(RecordNames(init));
      RowsNamedOfFlatten(init, k);
      assert RecordNames(recs)[k] != RecordNames(recs)[n];
      RowsNamedNone(ClaimRows(recs[n]), name);
    }
  }

  /** The set names of the flattened rows: those of the earlier entries, then
      the last entry's name once per character, a name the earlier rows lack. */
  lemma SetNamesOfLastEntry(recs: seq<SetRecord>)
    requires Distinct(RecordNames(recs)) && recs != []
    ensures var n := |recs| - 1;
      && SetNames(Flatten(recs)) == SetNames(Flatten(recs[..n])) + SetNames(ClaimRows(recs[n]))
      && recs[n].name !in SetNames(Flatten(recs[..n]))
      && forall i :: 0 <= i < |SetNames(ClaimRows(recs[n]))| ==> SetNames(ClaimRows(recs[n]))[i] == recs[n].name
  {
    var n := |recs| - 1;
    var a := Flatten(recs[..n]);
    LastNameFresh(recs);
    assert SetNames(a + ClaimRows(recs[n])) == SetNames(a) + SetNames(ClaimRows(recs[n]));
    forall i | 0 <= i < |a| ensures SetNames(a)[i] != recs[n].name {
      FlattenRowNamed(recs[..n], a[i]);
    }
  }

  /** With distinct, non-empty stored entries, the flattened rows' set names in first-seen order are the entries' names. */
  lemma {:induction false} UniqueNamesOfFlatten(recs: seq<SetRecord>)
    requires Distinct(RecordNames(recs))
    requires forall i :: 0 <= i < |recs| ==> recs[i].characters != []
    ensures Unique(SetNames(Flatten(recs))) == RecordNames(recs)
  {
    if recs != [] {
      var n := |recs| - 1;
      var init := recs[..n];
      LastNameFresh(recs);
      assert Distinct(RecordNames(init));
      assert forall i :: 0 <= i < n ==> init[i] == recs[i];
      UniqueNamesOfFlatten(init);
      SetNamesOfLastEntry(recs);
      UniqueAppendRun(SetNames(Flatten(init)), SetNames(ClaimRows(recs[n])), recs[n].name);
      assert RecordNames(init) + [recs[n].name] == RecordNames(recs);
    }
  }

  /** The entry written back for one well-formed stored entry is that entry. */
  lemma GroupOfFlatten(recs: seq<SetRecord>, k: nat)
    requires WellFormedSets(recs) && k < |recs|
    ensures GroupOf(Flatten(recs), recs[k].name) == recs[k]
  {
    assert RecordNames(recs) == seq(|recs|, i requires 0 <= i < |recs| => recs[i].name);
    RowsNamedOfFlatten(recs, k);
    assert ClaimPairs(ClaimRows(recs[k])) == recs[k].characters;
    assert recs[k] in recs;
    FromPairsOfDict(recs[k].characters);
  }

  /** Writing back the sets rows `get_data` flattened from well-formed stored
      entries reproduces those entries. */
  lemma GroupSetsOfFlatten(recs: seq<SetRecord>)
    requires WellFormedSets(recs)
    requires forall r :: r in recs ==> r.characters != []
    ensures GroupSets(Flatten(recs)) == recs
  {
    var rows := Flatten(recs);
    assert RecordNames(recs) == seq(|recs|, i requires 0 <= i < |recs| => recs[i].name);
    UniqueNamesOfFlatten(recs);
    var names := Unique(SetNames(rows));
    assert names == RecordNames(recs);
    var g := GroupSets(rows);
    assert |g| == |recs|;
    forall k | 0 <= k < |recs| ensures g[k] == recs[k] {
      assert g[k] == GroupOf(rows, names[k]);
      GroupOfFlatten(recs, k);
    }
  }
}
