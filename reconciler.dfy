/**
 * The reconciling half of `get_data` (data_controller.py): the record made
 * for a new user, the left joins of each catalog collection with the user's
 * stored values, and the sets table built from the exploded, name-sorted
 * catalog sets and the flattened stored set entries. The store reads become
 * the `catalog` and `stored` parameters.
 */
module Reconciler {
  import opened Tables
  import opened Ordering

  /** The record inserted for a user with no stored record: every catalog
      character unowned, every material and furnishing at 0, no set entries. */
  function DefaultRecord(userId: string, catalog: Catalog): (r: UserRecord)
    ensures r.userId == userId && r.sets == []
    ensures forall c :: c in r.characters <==> c in catalog.characters
    ensures forall c :: c in r.characters ==> !r.characters[c]
    ensures forall m :: m in r.materials <==> m in catalog.materials
    ensures forall m :: m in r.materials ==> r.materials[m] == 0
    ensures forall f :: f in r.furnishings <==> f in catalog.furnishings
    ensures forall f :: f in r.furnishings ==> r.furnishings[f] == 0
  {
    UserRecord(
      userId,
      map c | c in catalog.characters :: false,
      map m | m in catalog.materials :: 0,
      map f | f in catalog.furnishings :: 0,
      [])
  }

  /** `pd.merge(catalog, stored, how="left")` then `fillna(default)`: one row per
      catalog name, in catalog order, holding the stored value or the default. */
  function LeftJoin<V>(keys: seq<Name>, m: map<Name, V>, default: V): (t: seq<Entry<V>>)
    ensures |t| == |keys|
    ensures forall i :: 0 <= i < |keys| ==>
      t[i].name == keys[i] && t[i].value == (if keys[i] in m then m[keys[i]] else default)
  {
    if keys == [] then []
    else [Entry(keys[0], if keys[0] in m then m[keys[0]] else default)] + LeftJoin(keys[1..], m, default)
  }

  /** A joined table holds no name the catalog does not list, whatever the stored map holds. */
  lemma LeftJoinNamesFromCatalog<V>(keys: seq<Name>, m: map<Name, V>, default: V)
    ensures forall e :: e in LeftJoin(keys, m, default) ==> e.name in keys
  {
    var t := LeftJoin(keys, m, default);
    forall e | e in t ensures e.name in keys {
      var i :| 0 <= i < |t| && t[i] == e;
    }
  }

  /** A catalog collection without repeated names joins to a table with unique names. */
  lemma LeftJoinUniqueNames<V>(keys: seq<Name>, m: map<Name, V>, default: V)
    requires Distinct(keys)
    ensures UniqueNames(LeftJoin(keys, m, default))
  {
    var t := LeftJoin(keys, m, default);
    forall i, j | 0 <= i < j < |t| ensures t[i].name != t[j].name {
      assert t[i].name == keys[i] && t[j].name == keys[j];
    }
  }

  // ---- The sets table ----

  /** The (set, character) rows `explode("characters")` makes of one catalog set. */
  function CharacterRows(g: GiftSet): (rows: seq<(Name, Name)>)
    ensures |rows| == |g.characters|
    ensures forall i :: 0 <= i < |rows| ==> rows[i] == (g.name, g.characters[i])
  {
    seq(|g.characters|, i requires 0 <= i < |g.characters| => (g.name, g.characters[i]))
  }

  /** `sets.explode("characters")` over the whole catalog, in catalog order. */
  function ExplodeSets(gs: seq<GiftSet>): (rows: seq<(Name, Name)>)
    ensures forall p :: p in rows <==> exists g :: g in gs && p.0 == g.name && p.1 in g.characters
  {
    if gs == [] then []
    else
      var rest := ExplodeSets(gs[1..]);
      assert forall g :: g in gs <==> g == gs[0] || g in gs[1..];
      forall p | p in CharacterRows(gs[0]) ensures p.0 == gs[0].name && p.1 in gs[0].characters {
        var i :| 0 <= i < |CharacterRows(gs[0])| && CharacterRows(gs[0])[i] == p;
      }
      forall p: (Name, Name) | p.0 == gs[0].name && p.1 in gs[0].characters ensures p in CharacterRows(gs[0]) {
        var i :| 0 <= i < |gs[0].characters| && gs[0].characters[i] == p.1;
        assert CharacterRows(gs[0])[i] == p;
      }
      CharacterRows(gs[0]) + rest
  }

  /** Exploding sets one after another gives their rows one after another:
      each set contributes its own `CharacterRows`, in catalog order. */
  lemma {:induction false} ExplodeSetsAppend(a: seq<GiftSet>, b: seq<GiftSet>)
    ensures ExplodeSets(a + b) == ExplodeSets(a) + ExplodeSets(b)
  {
    if a == [] {
      assert a + b == b;
    } else {
      assert (a + b)[0] == a[0] && (a + b)[1..] == a[1..] + b;
      ExplodeSetsAppend(a[1..], b);
      assert ExplodeSets(a + b) == CharacterRows(a[0]) + ExplodeSets(a[1..] + b);
    }
  }

  function SetKey(p: (Name, Name)): Name { p.0 }

  function RowName(r: SetRow): Name { r.name }

  /** Lines 29-31: the catalog sets exploded per character and sorted by set name. */
  function CatalogSetRows(gs: seq<GiftSet>): (rows: seq<(Name, Name)>)
    ensures multiset(rows) == multiset(ExplodeSets(gs))
    ensures SortedBy(rows, SetKey)
  {
    SortBy(ExplodeSets(gs), SetKey)
  }

  /** The rows of one stored set entry, in the order of its dict. */
  function ClaimRows(r: SetRecord): (rows: seq<SetRow>)
    ensures |rows| == |r.characters|
    ensures forall i :: 0 <= i < |rows| ==>
      rows[i] == SetRow(r.name, r.characters[i].0, r.characters[i].1)
  {
    seq(|r.characters|, i requires 0 <= i < |r.characters| =>
      SetRow(r.name, r.characters[i].0, r.characters[i].1))
  }

  /** The `set_inv` rows that lines 58-61 build from the stored set entries. */
  function Flatten(recs: seq<SetRecord>): seq<SetRow>
  {
    if recs == [] then [] else Flatten(recs[..|recs| - 1]) + ClaimRows(recs[|recs| - 1])
  }

  /** Lines 57-61: one row per (stored set entry, character in its dict). */
  method FlattenSetRecords(recs: seq<SetRecord>) returns (rows: seq<SetRow>)
    ensures rows == Flatten(recs)
  {
    rows := [];
    for i := 0 to |recs|
      invariant rows == Flatten(recs[..i])
    {
      var rec := recs[i];
      for j := 0 to |rec.characters|
        invariant rows == Flatten(recs[..i]) + ClaimRows(rec)[..j]
      {
        var (character, claimed) := rec.characters[j];
        rows := rows + [SetRow(rec.name, character, claimed)];
        assert ClaimRows(rec)[..j + 1] == ClaimRows(rec)[..j] + [SetRow(rec.name, character, claimed)];
      }
      assert recs[..i + 1][..i] == recs[..i];
      assert ClaimRows(rec)[..|rec.characters|] == ClaimRows(rec);
    }
    assert recs[..|recs|] == recs;
  }

  /** A row is flattened from a stored entry exactly when that entry's dict holds its character and flag. */
  lemma {:induction false} FlattenMembership(recs: seq<SetRecord>, row: SetRow)
    ensures row in Flatten(recs) <==>
      exists r :: r in recs && r.name == row.name && (row.character, row.claimed) in r.characters
  {
    if recs != [] {
      var n := |recs| - 1;
      var init, last := recs[..n], recs[n];
      FlattenMembership(init, row);
      assert recs == init + [last];
      if row in ClaimRows(last) {
        var i :| 0 <= i < |last.characters| && ClaimRows(last)[i] == row;
        assert last.characters[i] == (row.character, row.claimed);
      } else if row in Flatten(init) {
        var r :| r in init && r.name == row.name && (row.character, row.claimed) in r.characters;
        assert r in recs;
      }
      if exists r :: r in recs && r.name == row.name && (row.character, row.claimed) in r.characters {
        var r :| r in recs && r.name == row.name && (row.character, row.claimed) in r.characters;
        if r == last {
          var i :| 0 <= i < |last.characters| && last.characters[i] == (row.character, row.claimed);
          assert ClaimRows(last)[i] == row;
        } else {
          assert r in init;
        }
      }
    }
  }

  /** The stored `claimed` flags for one (set, character) pair, in stored order. */
  function ClaimsFor(right: seq<SetRow>, name: Name, character: Name): (cs: seq<bool>)
    ensures cs == [] <==> forall i :: 0 <= i < |right| ==> !(right[i].name == name && right[i].character == character)
    ensures forall b :: b in cs ==> SetRow(name, character, b) in right
  {
    if right == [] then []
    else
      var r := right[0];
      var rest := ClaimsFor(right[1..], name, character);
      assert forall i :: 1 <= i < |right| ==> right[i] == right[1..][i - 1];
      (if r.name == name && r.character == character then [r.claimed] else []) + rest
  }

  /** The joined rows for one catalog (set, character) row: one per stored
      match, or a single unclaimed row when nothing is stored for it. */
  function JoinRow(p: (Name, Name), right: seq<SetRow>): (rows: seq<SetRow>)
    ensures |rows| >= 1
    ensures forall r :: r in rows ==> r.name == p.0 && r.character == p.1
  {
    var cs := ClaimsFor(right, p.0, p.1);
    if cs == [] then [SetRow(p.0, p.1, false)]
    else seq(|cs|, i requires 0 <= i < |cs| => SetRow(p.0, p.1, cs[i]))
  }

  /** Line 70-71: `pd.merge(left, right, on=["name", "characters"], how="left")`
      with missing `claimed` filled with False. */
  function JoinSets(left: seq<(Name, Name)>, right: seq<SetRow>): seq<SetRow>
  {
    if left == [] then [] else JoinRow(left[0], right) + JoinSets(left[1..], right)
  }

  /** The sets table `get_data` returns. */
  function ReconcileSets(catalogSets: seq<GiftSet>, recs: seq<SetRecord>): seq<SetRow>
  {
    JoinSets(CatalogSetRows(catalogSets), Flatten(recs))
  }

  /** Every joined row's (set, character) pair is one of the catalog rows. */
  lemma {:induction false} JoinSetsFromCatalog(left: seq<(Name, Name)>, right: seq<SetRow>)
    ensures forall r :: r in JoinSets(left, right) ==> (r.name, r.character) in left
  {
    if left != [] {
      JoinSetsFromCatalog(left[1..], right);
    }
  }

  /** Joining keeps the catalog rows' order: a name-sorted left side gives a name-sorted table. */
  lemma {:induction false} JoinSetsSorted(left: seq<(Name, Name)>, right: seq<SetRow>)
    requires SortedBy(left, SetKey)
    ensures SortedBy(JoinSets(left, right), RowName)
    ensures left != [] ==> JoinSets(left, right) != [] && JoinSets(left, right)[0].name == left[0].0
  {
    if left != [] {
      var head := JoinRow(left[0], right);
      var rest := JoinSets(left[1..], right);
      JoinSetsSorted(left[1..], right);
      LexLeReflexive(left[0].0);
      assert head[0] in head;
      forall i | 0 < i < |head + rest|
        ensures LexLe(RowName((head + rest)[i - 1]), RowName((head + rest)[i]))
      {
        if i < |head| {
          assert head[i - 1] in head && head[i] in head;
        } else if i == |head| {
          assert head[i - 1] in head;
          assert left[1] == left[1..][0];
        } else {
          assert (head + rest)[i - 1] == rest[i - 1 - |head|];
        }
      }
    }
  }

  /** The names of the stored set entries, in stored order. */
  function RecordNames(recs: seq<SetRecord>): (names: seq<Name>)
    ensures |names| == |recs|
    ensures forall i :: 0 <= i < |recs| ==> names[i] == recs[i].name
  {
    seq(|recs|, i requires 0 <= i < |recs| => recs[i].name)
  }

  /** Every flattened row carries the name of a stored entry. */
  lemma FlattenRowNamed(recs: seq<SetRecord>, row: SetRow)
    requires row in Flatten(recs)
    ensures row.name in RecordNames(recs)
  {
    FlattenMembership(recs, row);
    var q :| q in recs && q.name == row.name && (row.character, row.claimed) in q.characters;
    var j :| 0 <= j < |recs| && recs[j] == q;
    assert RecordNames(recs)[j] == row.name;
  }

  /** With distinct names, the last entry's name is not among the earlier ones. */
  lemma LastNameFresh(recs: seq<SetRecord>)
    requires Distinct(RecordNames(recs)) && recs != []
    ensures RecordNames(recs[..|recs| - 1]) == RecordNames(recs)[..|recs| - 1]
    ensures recs[|recs| - 1].name !in RecordNames(recs[..|recs| - 1])
  {
    var n := |recs| - 1;
    assert RecordNames(recs[..n]) == RecordNames(recs)[..n];
  }

  /** No (set, character) pair occurs on two stored rows. */
  predicate UniquePairs(rows: seq<SetRow>)
  {
    forall i, j :: 0 <= i < j < |rows| ==>
      !(rows[i].name == rows[j].name && rows[i].character == rows[j].character)
  }

  /** With no repeated stored pair, each catalog row yields exactly one joined row. */
  lemma {:induction false} ClaimsForUnique(right: seq<SetRow>, name: Name, character: Name)
    requires UniquePairs(right)
    ensures |ClaimsFor(right, name, character)| <= 1
  {
    if right != [] {
      ClaimsForUnique(right[1..], name, character);
      if right[0].name == name && right[0].character == character {
        forall i | 0 <= i < |right[1..]|
          ensures !(right[1..][i].name == name && right[1..][i].character == character)
        {
          assert right[1..][i] == right[i + 1];
        }
      }
    }
  }

  /** Whether the stored entries record `character` as having claimed set `name`. */
  predicate StoredClaim(recs: seq<SetRecord>, name: Name, character: Name)
  {
    exists r :: r in recs && r.name == name && (character, true) in r.characters
  }

  /** Stored entries as `update_sets` writes them: distinct set names, each dict with distinct keys. */
  predicate WellFormedSets(recs: seq<SetRecord>)
  {
    && Distinct(RecordNames(recs))
    && forall r :: r in recs ==> Distinct(KeysOf(r.characters))
  }

  lemma {:induction false} FlattenUniquePairs(recs: seq<SetRecord>)
    requires WellFormedSets(recs)
    ensures UniquePairs(Flatten(recs))
  {
    if recs != [] {
      var n := |recs| - 1;
      LastNameFresh(recs);
      assert forall r :: r in recs[..n] ==> r in recs;
      FlattenUniquePairs(recs[..n]);
      var a: seq<SetRow>, b: seq<SetRow> := Flatten(recs[..n]), ClaimRows(recs[n]);
      assert recs[n] in recs;
      forall i, j | 0 <= i < j < |a + b|
        ensures !((a + b)[i].name == (a + b)[j].name && (a + b)[i].character == (a + b)[j].character)
      {
        if j >= |a| {
          assert (a + b)[j] == b[j - |a|];
          if i >= |a| {
            assert (a + b)[i] == b[i - |a|];
            assert KeysOf(recs[n].characters)[i - |a|] != KeysOf(recs[n].characters)[j - |a|];
          } else {
            assert a[i] in a;
            FlattenRowNamed(recs[..n], a[i]);
          }
        }
      }
    }
  }

  /** A stored pair's flag is true exactly when the flattened rows hold it with `claimed` true. */
  lemma StoredClaimFlattened(recs: seq<SetRecord>, name: Name, character: Name)
    ensures StoredClaim(recs, name, character) <==> SetRow(name, character, true) in Flatten(recs)
  {
    FlattenMembership(recs, SetRow(name, character, true));
  }

  /** The joined rows for one catalog row when stored pairs are unique: a single
      row whose flag is the stored one, or False. */
  lemma JoinRowUnique(p: (Name, Name), recs: seq<SetRecord>)
    requires WellFormedSets(recs)
    ensures JoinRow(p, Flatten(recs)) == [SetRow(p.0, p.1, StoredClaim(recs, p.0, p.1))]
  {
    var right := Flatten(recs);
    FlattenUniquePairs(recs);
    ClaimsForUnique(right, p.0, p.1);
    StoredClaimFlattened(recs, p.0, p.1);
    var cs := ClaimsFor(right, p.0, p.1);
    if cs != [] {
      assert cs[0] in cs;
      assert SetRow(p.0, p.1, cs[0]) in right;
      if !cs[0] {
        var i :| 0 <= i < |right| && right[i] == SetRow(p.0, p.1, false);
        forall j | 0 <= j < |right| && j != i
          ensures !(right[j].name == p.0 && right[j].character == p.1)
        {
          if i < j {
            assert !(right[i].name == right[j].name && right[i].character == right[j].character);
          } else {
            assert !(right[j].name == right[i].name && right[j].character == right[i].character);
          }
        }
        assert SetRow(p.0, p.1, true) !in right;
      }
    } else {
      assert SetRow(p.0, p.1, true) !in right;
    }
  }

  lemma {:induction false} JoinSetsUnique(left: seq<(Name, Name)>, recs: seq<SetRecord>)
    requires WellFormedSets(recs)
    ensures |JoinSets(left, Flatten(recs))| == |left|
    ensures forall i :: 0 <= i < |left| ==>
      JoinSets(left, Flatten(recs))[i] == SetRow(left[i].0, left[i].1, StoredClaim(recs, left[i].0, left[i].1))
  {
    if left != [] {
      JoinRowUnique(left[0], recs);
      JoinSetsUnique(left[1..], recs);
    }
  }

  /** The (set, character) column pair of a sets table. */
  function Pairs(t: seq<SetRow>): (ps: seq<(Name, Name)>)
    ensures |ps| == |t|
    ensures forall i :: 0 <= i < |t| ==> ps[i] == (t[i].name, t[i].character)
  {
    seq(|t|, i requires 0 <= i < |t| => (t[i].name, t[i].character))
  }

  /** For well-formed stored entries the join gives back the catalog rows' pairs, in order. */
  lemma PairsOfJoin(left: seq<(Name, Name)>, recs: seq<SetRecord>)
    requires WellFormedSets(recs)
    ensures Pairs(JoinSets(left, Flatten(recs))) == left
  {
    JoinSetsUnique(left, recs);
  }

  /** The sets table for stored entries as `update_sets` writes them: one row per
      (catalog set, character it lists), in set-name order, claimed as stored or
      False; a stored pair the catalog does not list never appears. */
  lemma ReconciledSetsTable(catalogSets: seq<GiftSet>, recs: seq<SetRecord>)
    requires WellFormedSets(recs)
    ensures multiset(Pairs(ReconcileSets(catalogSets, recs))) == multiset(ExplodeSets(catalogSets))
    ensures SortedBy(ReconcileSets(catalogSets, recs), RowName)
    ensures forall r :: r in ReconcileSets(catalogSets, recs) ==>
      r.claimed == StoredClaim(recs, r.name, r.character)
    ensures forall r :: r in ReconcileSets(catalogSets, recs) ==>
      exists g :: g in catalogSets && g.name == r.name && r.character in g.characters
  {
    var left := CatalogSetRows(catalogSets);
    var t := ReconcileSets(catalogSets, recs);
    PairsOfJoin(left, recs);
    JoinSetsSorted(left, Flatten(recs));
    forall r | r in t ensures r.claimed == StoredClaim(recs, r.name, r.character) {
      JoinedRowClaim(left, recs, r);
    }
    forall r | r in t
      ensures exists g :: g in catalogSets && g.name == r.name && r.character in g.characters
    {
      JoinSetsFromCatalog(left, Flatten(recs));
      assert (r.name, r.character) in multiset(left);
      assert (r.name, r.character) in ExplodeSets(catalogSets);
    }
  }

  lemma JoinedRowClaim(left: seq<(Name, Name)>, recs: seq<SetRecord>, r: SetRow)
    requires WellFormedSets(recs) && r in JoinSets(left, Flatten(recs))
    ensures r.claimed == StoredClaim(recs, r.name, r.character)
  {
    var t := JoinSets(left, Flatten(recs));
    JoinSetsUnique(left, recs);
    var i :| 0 <= i < |t| && t[i] == r;
  }

  /** `get_data` without its store access: the record in use (the stored one, or
      the default record that is inserted for a new user) and the four tables.
      A catalog collection with no documents gives a frame with no columns, on
      which line 30, lines 41-43 (for a new user) and lines 64-68 fail, so
      every collection must be non-empty. */
  method GetData(userId: string, catalog: Catalog, stored: Option<UserRecord>)
    returns (record: UserRecord, chars: seq<Entry<bool>>, mats: seq<Entry<nat>>,
             furns: seq<Entry<nat>>, sets: seq<SetRow>)
    requires catalog.characters != [] && catalog.materials != []
    requires catalog.furnishings != [] && catalog.sets != []
    ensures record == if stored.Some? then stored.value else DefaultRecord(userId, catalog)
    ensures chars == LeftJoin(catalog.characters, record.characters, false)
    ensures mats == LeftJoin(catalog.materials, record.materials, 0)
    ensures furns == LeftJoin(catalog.furnishings, record.furnishings, 0)
    ensures sets == ReconcileSets(catalog.sets, record.sets)
  {
    var catalogSets := CatalogSetRows(catalog.sets);
    if stored.None? {
      record := DefaultRecord(userId, catalog);
    } else {
      record := stored.value;
    }
    var setInv := FlattenSetRecords(record.sets);
    chars := LeftJoin(catalog.characters, record.characters, false);
    mats := LeftJoin(catalog.materials, record.materials, 0);
    furns := LeftJoin(catalog.furnishings, record.furnishings, 0);
    sets := JoinSets(catalogSets, setInv);
  }

  /** Joining catalog names with a map that gives each of them `v` yields `v` everywhere. */
  lemma DefaultJoin<V>(keys: seq<Name>, v: V)
    ensures LeftJoin(keys, map k | k in keys :: v, v) == seq(|keys|, i requires 0 <= i < |keys| => Entry(keys[i], v))
  {
  }

  /** With nothing stored, every joined row is unclaimed. */
  lemma {:induction false} JoinSetsNothingStored(left: seq<(Name, Name)>)
    ensures forall r :: r in JoinSets(left, []) ==> !r.claimed
  {
    if left != [] {
      JoinSetsNothingStored(left[1..]);
      assert JoinRow(left[0], []) == [SetRow(left[0].0, left[0].1, false)];
    }
  }

  /** A new user's tables: every catalog entry once, unowned, at quantity 0,
      and every catalog (set, character) row unclaimed. */
  lemma NewUserTables(userId: string, catalog: Catalog)
    ensures var r := DefaultRecord(userId, catalog);
      && LeftJoin(catalog.characters, r.characters, false) == seq(|catalog.characters|, i requires 0 <= i < |catalog.characters| => Entry(catalog.characters[i], false))
      && LeftJoin(catalog.materials, r.materials, 0) == seq(|catalog.materials|, i requires 0 <= i < |catalog.materials| => Entry(catalog.materials[i], 0))
      && LeftJoin(catalog.furnishings, r.furnishings, 0) == seq(|catalog.furnishings|, i requires 0 <= i < |catalog.furnishings| => Entry(catalog.furnishings[i], 0))
      && forall row :: row in ReconcileSets(catalog.sets, r.sets) ==> !row.claimed
  {
    DefaultJoin(catalog.characters, false);
    DefaultJoin(catalog.materials, 0);
    DefaultJoin(catalog.furnishings, 0);
    NothingStoredUnclaimed(catalog.sets);
  }

  lemma NothingStoredUnclaimed(catalogSets: seq<GiftSet>)
    ensures forall row :: row in ReconcileSets(catalogSets, []) ==> !row.claimed
  {
    assert Flatten([]) == [];
    JoinSetsNothingStored(CatalogSetRows(catalogSets));
  }
}
