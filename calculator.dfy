/**
 * `calculate_requirements` (data_controller.py:139-211): which furnishings the
 * user still has to craft or buy, and which materials are short, to claim
 * every gift set an owned character has not claimed yet. The catalog query
 * of line 152 becomes the `catalog` parameter; each pandas stage is one
 * function, named after what it computes.
 */
module Calculator {
  import opened Tables
  import opened Ordering

  /** One row of the materials result: total needed, quantity owned, and
      `quantity_diff`, the part still missing. */
  datatype MaterialNeed = MaterialNeed(name: Name, needed: nat, owned: nat, shortfall: nat)

  /** The triple line 209 returns: furnishings to craft, furnishings to buy, short materials. */
  datatype Requirements = Requirements(craft: seq<FurnReq>, buy: seq<FurnReq>, materials: seq<MaterialNeed>)

  /** How a call of `calculate_requirements` as written ends: with the value it
      returns (`None` when there is nothing to claim), or with a `KeyError`. */
  datatype Outcome = Returned(value: Option<Requirements>) | KeyError

  // ---- Lines 146-152: the sets still to claim ----

  /** The characters ticked as owned (line 146). */
  function OwnedNames(chars: seq<Entry<bool>>): set<Name>
  {
    set e | e in chars && e.value :: e.name
  }

  /** Lines 147-150: the unclaimed rows whose character is owned, in table order. */
  function EligibleRows(sets: seq<SetRow>, owned: set<Name>): (rows: seq<SetRow>)
    ensures forall r :: r in rows <==> r in sets && !r.claimed && r.character in owned
  {
    if sets == [] then []
    else
      assert forall r :: r in sets <==> r == sets[0] || r in sets[1..];
      (if !sets[0].claimed && sets[0].character in owned then [sets[0]] else [])
        + EligibleRows(sets[1..], owned)
  }

  /** Line 151: the distinct names of the eligible rows. */
  function EligibleNames(chars: seq<Entry<bool>>, sets: seq<SetRow>): (names: seq<Name>)
    ensures Distinct(names)
  {
    Unique(SetNames(EligibleRows(sets, OwnedNames(chars))))
  }

  /** Line 152: the catalog sets whose name was selected, in catalog order. */
  function SelectSets(catalog: seq<GiftSet>, names: seq<Name>): (gs: seq<GiftSet>)
    ensures forall g :: g in gs <==> g in catalog && g.name in names
    ensures forall g :: multiset(gs)[g] == if g.name in names then multiset(catalog)[g] else 0
  {
    if catalog == [] then []
    else
      assert forall g :: g in catalog <==> g == catalog[0] || g in catalog[1..];
      assert catalog == [catalog[0]] + catalog[1..];
      (if catalog[0].name in names then [catalog[0]] else []) + SelectSets(catalog[1..], names)
  }

  /** A set is claimable: some row of it is unclaimed and its character is owned. */
  lemma EligibleNamesIff(chars: seq<Entry<bool>>, sets: seq<SetRow>, name: Name)
    ensures name in EligibleNames(chars, sets) <==>
      exists r, e :: r in sets && e in chars && r.name == name && !r.claimed && e.name == r.character && e.value
  {
    var rows := EligibleRows(sets, OwnedNames(chars));
    var names := SetNames(rows);
    if name in EligibleNames(chars, sets) {
      var i :| 0 <= i < |names| && names[i] == name;
      assert rows[i] in rows;
      var e :| e in chars && e.value && e.name == rows[i].character;
    }
    if exists r, e :: r in sets && e in chars && r.name == name && !r.claimed && e.name == r.character && e.value {
      var r, e :| r in sets && e in chars && r.name == name && !r.claimed && e.name == r.character && e.value;
      assert r in rows;
      var i :| 0 <= i < |rows| && rows[i] == r;
      assert names[i] == name;
    }
  }

  // ---- Lines 155-170: the furnishings the selected sets ask for ----

  /** Lines 155-165: the furnishing rows of the selected sets, set after set. */
  function FlattenRequirements(gs: seq<GiftSet>): (rows: seq<FurnReq>)
    ensures forall r :: r in rows <==> exists g :: g in gs && r in g.materials
    ensures |gs| == 1 ==> rows == gs[0].materials
  {
    if gs == [] then []
    else
      assert forall g :: g in gs <==> g == gs[0] || g in gs[1..];
      gs[0].materials + FlattenRequirements(gs[1..])
  }

  /** Flattening sets one after another gives their rows one after another,
      so every listed furnishing row, repeats included, is flattened once. */
  lemma {:induction false} FlattenRequirementsAppend(a: seq<GiftSet>, b: seq<GiftSet>)
    ensures FlattenRequirements(a + b) == FlattenRequirements(a) + FlattenRequirements(b)
  {
    if a == [] {
      assert a + b == b;
    } else {
      assert (a + b)[0] == a[0] && (a + b)[1..] == a[1..] + b;
      FlattenRequirementsAppend(a[1..], b);
    }
  }

  /** The largest amount among the rows for furnishing `name` (0 when no row names it). */
  function MaxAmount(rows: seq<FurnReq>, name: Name): (m: nat)
    ensures forall r :: r in rows && r.name == name ==> r.amount <= m
    ensures (exists r :: r in rows && r.name == name) ==> exists r :: r in rows && r.name == name && r.amount == m
    ensures (forall r :: r in rows ==> r.name != name) ==> m == 0
  {
    if rows == [] then 0
    else
      var rest := MaxAmount(rows[1..], name);
      var m := if rows[0].name == name && rows[0].amount > rest then rows[0].amount else rest;
      assert forall r :: r in rows <==> r == rows[0] || r in rows[1..];
      assert rows[0].name == name && (forall r :: r in rows[1..] ==> r.name != name) ==> rows[0].amount == m;
      m
  }

  /** Lines 166-170 on a part `rows` of the flattened rows `all`: the rows whose
      amount is the largest any row of `all` asks for that furnishing. */
  function KeepMax(rows: seq<FurnReq>, all: seq<FurnReq>): (kept: seq<FurnReq>)
    ensures forall r :: r in kept ==> r in rows && r.amount == MaxAmount(all, r.name)
    ensures forall r: FurnReq :: r.amount == MaxAmount(all, r.name) ==> multiset(kept)[r] == multiset(rows)[r]
    ensures forall r: FurnReq :: r.amount != MaxAmount(all, r.name) ==> multiset(kept)[r] == 0
  {
    if rows == [] then []
    else
      assert rows == [rows[0]] + rows[1..];
      (if rows[0].amount == MaxAmount(all, rows[0].name) then [rows[0]] else [])
        + KeepMax(rows[1..], all)
  }

  /** A row at its furnishing's largest amount survives the filter of lines
      166-170, as many times as it occurs. */
  lemma MaxRowKept(all: seq<FurnReq>, r: FurnReq)
    requires r in all && r.amount == MaxAmount(all, r.name)
    ensures multiset(KeepMax(all, all))[r] == multiset(all)[r] > 0
  {
  }

  /** A row that survives the filter asks for at least as much as any row of its furnishing. */
  lemma KeptRowIsMax(all: seq<FurnReq>, r: FurnReq, s: FurnReq)
    requires r in KeepMax(all, all) && s in all && s.name == r.name
    ensures s.amount <= r.amount
  {
    assert r.amount == MaxAmount(all, r.name);
  }

  /** After the filter of lines 166-170 each furnishing keeps only rows at its
      largest requested amount, all of them (ties included), and no furnishing
      disappears. */
  lemma DedupKeepsMaxima(all: seq<FurnReq>)
    ensures forall r, s :: r in KeepMax(all, all) && s in all && s.name == r.name ==> s.amount <= r.amount
    ensures forall r :: r in all && r.amount == MaxAmount(all, r.name) ==>
      multiset(KeepMax(all, all))[r] == multiset(all)[r]
    ensures forall s :: s in all ==> exists r :: r in KeepMax(all, all) && r.name == s.name
  {
    forall r, s | r in KeepMax(all, all) && s in all && s.name == r.name ensures s.amount <= r.amount {
      KeptRowIsMax(all, r, s);
    }
    forall r | r in all && r.amount == MaxAmount(all, r.name)
      ensures multiset(KeepMax(all, all))[r] == multiset(all)[r]
    {
      MaxRowKept(all, r);
    }
    forall s | s in all ensures exists r :: r in KeepMax(all, all) && r.name == s.name {
      FurnishingSurvives(all, s);
    }
  }

  /** Some row of each requested furnishing survives the filter. */
  lemma FurnishingSurvives(all: seq<FurnReq>, s: FurnReq)
    requires s in all
    ensures exists r :: r in KeepMax(all, all) && r.name == s.name
  {
    var r :| r in all && r.name == s.name && r.amount == MaxAmount(all, s.name);
    MaxRowKept(all, r);
    assert r in multiset(KeepMax(all, all));
  }

  // ---- Lines 173-188: netting against owned furnishings ----

  /** Lines 173-184 for one requirement row: a left merge with the owned
      quantities, kept where `amount >= quantity` and then `amount - quantity > 0`.
      A furnishing missing from `furns` merges to NaN and fails the first test. */
  function NetRow(r: FurnReq, furns: seq<Entry<nat>>): (out: seq<FurnReq>)
    ensures forall x :: x in out <==>
      exists f :: f in furns && f.name == r.name && r.amount > f.value && x == FurnReq(r.name, r.recipe, r.amount - f.value)
  {
    if furns == [] then []
    else
      var f := furns[0];
      assert forall e :: e in furns <==> e == f || e in furns[1..];
      (if f.name == r.name && r.amount >= f.value && r.amount - f.value > 0
       then [FurnReq(r.name, r.recipe, r.amount - f.value)] else [])
        + NetRow(r, furns[1..])
  }

  /** With one owned-quantity row per furnishing, a requirement nets to exactly
      its shortfall row when the owned quantity falls short, and to nothing
      otherwise. */
  lemma {:induction false} NetRowUnique(r: FurnReq, furns: seq<Entry<nat>>)
    requires UniqueNames(furns)
    ensures forall f :: f in furns && f.name == r.name && f.value < r.amount ==>
      NetRow(r, furns) == [FurnReq(r.name, r.recipe, r.amount - f.value)]
    ensures (forall f :: f in furns && f.name == r.name ==> r.amount <= f.value) ==> NetRow(r, furns) == []
  {
    if furns != [] {
      UniqueNamesTail(furns);
      NetRowUnique(r, furns[1..]);
      if furns[0].name == r.name {
        assert NetRow(r, furns[1..]) == [];
      }
    }
  }

  function NetFurnishings(rows: seq<FurnReq>, furns: seq<Entry<nat>>): (out: seq<FurnReq>)
    ensures forall x :: x in out <==> exists r :: r in rows && x in NetRow(r, furns)
  {
    if rows == [] then []
    else
      var out := NetRow(rows[0], furns) + NetFurnishings(rows[1..], furns);
      assert forall x :: x in out <==> exists r :: r in rows && x in NetRow(r, furns) by {
        forall x | x in out ensures exists r :: r in rows && x in NetRow(r, furns) {
          if x in NetRow(rows[0], furns) {
            assert rows[0] in rows;
          }
        }
        forall x | exists r :: r in rows && x in NetRow(r, furns) ensures x in out {
          var r :| r in rows && x in NetRow(r, furns);
          if r != rows[0] {
            assert r in rows[1..];
          }
        }
      }
      out
  }

  /** Netting two parts of a table nets each part in turn. */
  lemma {:induction false} NetFurnishingsAppend(a: seq<FurnReq>, b: seq<FurnReq>, furns: seq<Entry<nat>>)
    ensures NetFurnishings(a + b, furns) == NetFurnishings(a, furns) + NetFurnishings(b, furns)
  {
    if a == [] {
      assert a + b == b;
    } else {
      assert (a + b)[0] == a[0] && (a + b)[1..] == a[1..] + b;
      NetFurnishingsAppend(a[1..], b, furns);
    }
  }

  /** With one owned-quantity row per furnishing, each occurrence of a row that
      falls short yields its shortfall row once: a row kept twice is netted twice. */
  lemma {:induction false} NetFurnishingsCount(rows: seq<FurnReq>, furns: seq<Entry<nat>>, r: FurnReq, f: Entry<nat>)
    requires UniqueNames(furns)
    requires f in furns && f.name == r.name && f.value < r.amount
    ensures multiset(NetFurnishings(rows, furns))[FurnReq(r.name, r.recipe, r.amount - f.value)] == multiset(rows)[r]
  {
    if rows != [] {
      NetFurnishingsCount(rows[1..], furns, r, f);
      NetRowCount(rows[0], furns, r, f);
      CountStep(rows, NetRow(rows[0], furns), NetFurnishings(rows[1..], furns),
        FurnReq(r.name, r.recipe, r.amount - f.value), r);
    }
  }

  /** Counting step of the lemma above: if `head` holds `x` once exactly when
      the first row is `r`, and `tail` holds it as often as the other rows hold
      `r`, then `head + tail` holds it as often as all the rows hold `r`. */
  lemma CountStep(rows: seq<FurnReq>, head: seq<FurnReq>, tail: seq<FurnReq>, x: FurnReq, r: FurnReq)
    requires rows != []
    requires multiset(head)[x] == if rows[0] == r then 1 else 0
    requires multiset(tail)[x] == multiset(rows[1..])[r]
    ensures multiset(head + tail)[x] == multiset(rows)[r]
  {
    assert rows == [rows[0]] + rows[1..];
  }

  /** One row nets to the shortfall row of `r` once if it is `r`, and never otherwise. */
  lemma NetRowCount(row: FurnReq, furns: seq<Entry<nat>>, r: FurnReq, f: Entry<nat>)
    requires UniqueNames(furns)
    requires f in furns && f.name == r.name && f.value < r.amount
    ensures multiset(NetRow(row, furns))[FurnReq(r.name, r.recipe, r.amount - f.value)] == if row == r then 1 else 0
  {
    var x := FurnReq(r.name, r.recipe, r.amount - f.value);
    NetRowOnlyFrom(row, furns, r, f);
    if row == r {
      NetRowUnique(r, furns);
      assert NetRow(row, furns) == [x];
    } else {
      assert x !in NetRow(row, furns);
    }
  }

  /** Only `r` itself nets to the shortfall row of `r`. */
  lemma NetRowOnlyFrom(row: FurnReq, furns: seq<Entry<nat>>, r: FurnReq, f: Entry<nat>)
    requires UniqueNames(furns)
    requires f in furns && f.name == r.name && f.value < r.amount
    ensures FurnReq(r.name, r.recipe, r.amount - f.value) in NetRow(row, furns) ==> row == r
  {
    var x := FurnReq(r.name, r.recipe, r.amount - f.value);
    if x in NetRow(row, furns) {
      var f' :| f' in furns && f'.name == row.name && row.amount > f'.value
        && x == FurnReq(row.name, row.recipe, row.amount - f'.value);
      UniqueNamesSameRow(furns, f, f');
    }
  }

  /** Lines 186-187: rows with an empty recipe are bought. */
  function BuyRows(rows: seq<FurnReq>): (buy: seq<FurnReq>)
    ensures forall x :: x in buy <==> x in rows && x.recipe == []
  {
    if rows == [] then []
    else (if rows[0].recipe == [] then [rows[0]] else []) + BuyRows(rows[1..])
  }

  /** Line 188: the other rows are crafted. */
  function CraftRows(rows: seq<FurnReq>): (craft: seq<FurnReq>)
    ensures forall x :: x in craft <==> x in rows && x.recipe != []
  {
    if rows == [] then []
    else (if rows[0].recipe != [] then [rows[0]] else []) + CraftRows(rows[1..])
  }

  /** The buy and craft rows split the netted rows: together they are the
      netted rows, each row as often as it occurs. */
  lemma {:induction false} SplitIsPartition(rows: seq<FurnReq>)
    ensures multiset(BuyRows(rows)) + multiset(CraftRows(rows)) == multiset(rows)
  {
    if rows != [] {
      SplitIsPartition(rows[1..]);
      assert rows == [rows[0]] + rows[1..];
    }
  }

  // ---- Lines 191-207: materials ----

  /** Lines 191-198 for one craft row: each recipe line with its quantity times the row's amount. */
  function ScaledRecipe(recipe: seq<Ingredient>, amount: nat): seq<(Name, nat)>
  {
    if recipe == [] then []
    else [(recipe[0].material, recipe[0].quantity * amount)] + ScaledRecipe(recipe[1..], amount)
  }

  /** Lines 191-198: the exploded recipe lines of all craft rows. */
  function RecipeNeeds(craft: seq<FurnReq>): seq<(Name, nat)>
  {
    if craft == [] then []
    else ScaledRecipe(craft[0].recipe, craft[0].amount) + RecipeNeeds(craft[1..])
  }

  /** Line 201 for one material: the sum of its quantities. */
  function SumFor(needs: seq<(Name, nat)>, m: Name): nat
  {
    if needs == [] then 0
    else (if needs[0].0 == m then needs[0].1 else 0) + SumFor(needs[1..], m)
  }

  /** How many units of `m` one unit of a furnishing takes. */
  function RecipeQuantity(recipe: seq<Ingredient>, m: Name): nat
  {
    if recipe == [] then 0
    else (if recipe[0].material == m then recipe[0].quantity else 0) + RecipeQuantity(recipe[1..], m)
  }

  /** The units of `m` all craft rows need: the sum over the rows of recipe quantity times amount. */
  function MaterialNeeded(craft: seq<FurnReq>, m: Name): nat
  {
    if craft == [] then 0
    else craft[0].amount * RecipeQuantity(craft[0].recipe, m) + MaterialNeeded(craft[1..], m)
  }

  lemma {:induction false} SumForAppend(a: seq<(Name, nat)>, b: seq<(Name, nat)>, m: Name)
    ensures SumFor(a + b, m) == SumFor(a, m) + SumFor(b, m)
  {
    if a == [] {
      assert a + b == b;
    } else {
      assert (a + b)[1..] == a[1..] + b;
      SumForAppend(a[1..], b, m);
    }
  }

  lemma {:induction false} SumForScaled(recipe: seq<Ingredient>, amount: nat, m: Name)
    ensures SumFor(ScaledRecipe(recipe, amount), m) == amount * RecipeQuantity(recipe, m)
  {
    if recipe != [] {
      SumForScaled(recipe[1..], amount, m);
      var q := if recipe[0].material == m then recipe[0].quantity else 0;
      var rest := RecipeQuantity(recipe[1..], m);
      assert SumFor(ScaledRecipe(recipe, amount), m) == q * amount + amount * rest;
      Distributes(amount, q, rest);
    }
  }

  lemma Distributes(a: nat, b: nat, c: nat)
    ensures b * a + a * c == a * (b + c)
  {
  }

  /** Summing the exploded, scaled recipe lines per material (lines 191-201)
      gives the sum over the craft rows of recipe quantity times amount. */
  lemma {:induction false} RecipeNeedsSum(craft: seq<FurnReq>, m: Name)
    ensures SumFor(RecipeNeeds(craft), m) == MaterialNeeded(craft, m)
  {
    if craft != [] {
      SumForAppend(ScaledRecipe(craft[0].recipe, craft[0].amount), RecipeNeeds(craft[1..]), m);
      SumForScaled(craft[0].recipe, craft[0].amount, m);
      RecipeNeedsSum(craft[1..], m);
    }
  }

  /** A material with a positive sum has a recipe line. */
  lemma {:induction false} SumForPositive(needs: seq<(Name, nat)>, m: Name)
    requires SumFor(needs, m) > 0
    ensures exists i :: 0 <= i < |needs| && needs[i].0 == m
  {
    if needs[0].0 != m {
      SumForPositive(needs[1..], m);
      var i :| 0 <= i < |needs[1..]| && needs[1..][i].0 == m;
      assert needs[i + 1].0 == m;
    }
  }

  /** The sort key of a plain string column: the string itself. */
  function StringKey(s: string): string { s }

  /** The keys of `groupby("name")`: the distinct material names, sorted. */
  function GroupKeys(needs: seq<(Name, nat)>): (keys: seq<Name>)
    ensures SortedBy(keys, StringKey)
    ensures Distinct(keys)
  {
    var names := Unique(KeysOf(needs));
    DistinctPermutation(names, SortBy(names, StringKey));
    SortBy(names, StringKey)
  }

  /** Lines 203-207 for one material: an inner merge with the owned rows of that
      name, kept where `quantity_diff = needed - owned` is positive. */
  function NetMaterial(k: Name, needed: nat, mats: seq<Entry<nat>>): (out: seq<MaterialNeed>)
    ensures forall x :: x in out <==>
      exists e :: e in mats && e.name == k && needed > e.value && x == MaterialNeed(k, needed, e.value, needed - e.value)
  {
    if mats == [] then []
    else
      var e := mats[0];
      assert forall e' :: e' in mats <==> e' == e || e' in mats[1..];
      (if e.name == k && needed > e.value then [MaterialNeed(k, needed, e.value, needed - e.value)] else [])
        + NetMaterial(k, needed, mats[1..])
  }

  /** With one owned row per material, a material nets to exactly its
      shortfall row when the owned quantity falls short, and to nothing otherwise. */
  lemma {:induction false} NetMaterialUnique(k: Name, needed: nat, mats: seq<Entry<nat>>)
    requires UniqueNames(mats)
    ensures |NetMaterial(k, needed, mats)| <= 1
    ensures forall e :: e in mats && e.name == k && needed > e.value ==>
      NetMaterial(k, needed, mats) == [MaterialNeed(k, needed, e.value, needed - e.value)]
    ensures (forall e :: e in mats && e.name == k ==> needed <= e.value) ==> NetMaterial(k, needed, mats) == []
  {
    if mats != [] {
      UniqueNamesTail(mats);
      NetMaterialUnique(k, needed, mats[1..]);
      if mats[0].name == k {
        assert NetMaterial(k, needed, mats[1..]) == [];
      }
    }
  }

  function NetMaterials(keys: seq<Name>, needs: seq<(Name, nat)>, mats: seq<Entry<nat>>): (out: seq<MaterialNeed>)
    ensures forall x :: x in out <==> exists k :: k in keys && x in NetMaterial(k, SumFor(needs, k), mats)
  {
    if keys == [] then []
    else
      var out := NetMaterial(keys[0], SumFor(needs, keys[0]), mats) + NetMaterials(keys[1..], needs, mats);
      assert forall x :: x in out <==> exists k :: k in keys && x in NetMaterial(k, SumFor(needs, k), mats) by {
        forall x | x in out ensures exists k :: k in keys && x in NetMaterial(k, SumFor(needs, k), mats) {
          if x in NetMaterial(keys[0], SumFor(needs, keys[0]), mats) {
            assert keys[0] in keys;
          }
        }
        forall x | exists k :: k in keys && x in NetMaterial(k, SumFor(needs, k), mats) ensures x in out {
          var k :| k in keys && x in NetMaterial(k, SumFor(needs, k), mats);
          if k != keys[0] {
            assert k in keys[1..];
          }
        }
      }
      out
  }

  /** No material appears on two rows. */
  predicate MaterialsOnce(rows: seq<MaterialNeed>)
  {
    forall i, j :: 0 <= i < j < |rows| ==> rows[i].name != rows[j].name
  }

  /** With distinct keys and one owned row per material, no material appears
      twice among the netted material rows. */
  lemma {:induction false} NetMaterialsOnce(keys: seq<Name>, needs: seq<(Name, nat)>, mats: seq<Entry<nat>>)
    requires Distinct(keys) && UniqueNames(mats)
    ensures MaterialsOnce(NetMaterials(keys, needs, mats))
  {
    if keys != [] {
      var rest := keys[1..];
      assert Distinct(rest) by {
        forall i, j | 0 <= i < j < |rest| ensures rest[i] != rest[j] {
          assert rest[i] == keys[i + 1] && rest[j] == keys[j + 1];
        }
      }
      assert keys[0] !in rest by {
        forall j | 0 <= j < |rest| ensures rest[j] != keys[0] {
          assert rest[j] == keys[j + 1];
        }
      }
      NetMaterialsOnce(rest, needs, mats);
      NetMaterialUnique(keys[0], SumFor(needs, keys[0]), mats);
      var head := NetMaterial(keys[0], SumFor(needs, keys[0]), mats);
      var tail := NetMaterials(rest, needs, mats);
      var out := head + tail;
      assert MaterialsOnce(tail);
      forall i, j | 0 <= i < j < |out| ensures out[i].name != out[j].name {
        if i < |head| {
          assert out[i] in head;
          assert out[i].name == keys[0];
          assert out[j] == tail[j - |head|] && tail[j - |head|] in tail;
          var k :| k in rest && out[j] in NetMaterial(k, SumFor(needs, k), mats);
          assert out[j].name == k;
        } else {
          assert out[i] == tail[i - |head|] && out[j] == tail[j - |head|];
          assert tail[i - |head|].name != tail[j - |head|].name;
        }
      }
    }
  }

  // ---- The whole calculation ----

  /** The catalog sets selected for claiming (lines 146-152). */
  function SelectedSets(chars: seq<Entry<bool>>, sets: seq<SetRow>, catalog: seq<GiftSet>): seq<GiftSet>
  {
    SelectSets(catalog, EligibleNames(chars, sets))
  }

  /** The requirement rows after the max filter (lines 155-170). */
  function RequirementRows(chars: seq<Entry<bool>>, sets: seq<SetRow>, catalog: seq<GiftSet>): seq<FurnReq>
  {
    var flat := FlattenRequirements(SelectedSets(chars, sets, catalog));
    KeepMax(flat, flat)
  }

  /** The requirement rows after netting (lines 173-184). */
  function NettedRows(chars: seq<Entry<bool>>, sets: seq<SetRow>, furns: seq<Entry<nat>>, catalog: seq<GiftSet>): seq<FurnReq>
  {
    NetFurnishings(RequirementRows(chars, sets, catalog), furns)
  }

  /** Lines 139-211, with the failure of lines 186-205 on an empty craft table
      corrected (see `CalculateRequirementsAsWritten`): `None` when nothing is
      selected, otherwise the netted rows split into crafted and bought ones,
      and the short materials. A selected set without furnishings makes line
      159 fail on a missing value, so every selected set must list some. */
  function CalculateRequirements(
    chars: seq<Entry<bool>>, sets: seq<SetRow>, furns: seq<Entry<nat>>,
    mats: seq<Entry<nat>>, catalog: seq<GiftSet>): (r: Option<Requirements>)
    requires forall g :: g in SelectedSets(chars, sets, catalog) ==> g.materials != []
    ensures r.None? <==> SelectedSets(chars, sets, catalog) == []
    ensures r.Some? ==> forall x :: x in r.value.craft <==>
      x in NettedRows(chars, sets, furns, catalog) && x.recipe != []
    ensures r.Some? ==> forall x :: x in r.value.buy <==>
      x in NettedRows(chars, sets, furns, catalog) && x.recipe == []
  {
    if SelectedSets(chars, sets, catalog) == [] then None
    else
      var netted := NettedRows(chars, sets, furns, catalog);
      var craft := CraftRows(netted);
      var needs := RecipeNeeds(craft);
      Some(Requirements(craft, BuyRows(netted), NetMaterials(GroupKeys(needs), needs, mats)))
  }

  /** "There are no gift sets to claim" exactly when no catalog set has an
      unclaimed row whose character is owned. */
  lemma NothingToClaim(
    chars: seq<Entry<bool>>, sets: seq<SetRow>, furns: seq<Entry<nat>>,
    mats: seq<Entry<nat>>, catalog: seq<GiftSet>)
    requires forall g :: g in SelectedSets(chars, sets, catalog) ==> g.materials != []
    ensures CalculateRequirements(chars, sets, furns, mats, catalog).None? <==>
      forall g, r, e :: g in catalog && r in sets && e in chars && r.name == g.name && e.name == r.character
        ==> r.claimed || !e.value
  {
    var selected := SelectedSets(chars, sets, catalog);
    if selected != [] {
      var g := selected[0];
      assert g in selected;
      EligibleNamesIff(chars, sets, g.name);
    } else {
      forall g, r, e | g in catalog && r in sets && e in chars && r.name == g.name && e.name == r.character
        ensures r.claimed || !e.value
      {
        EligibleNamesIff(chars, sets, g.name);
      }
    }
  }

  /** `x` is requirement row `r` at its furnishing's largest amount, less the
      quantity `f` owned, with something left to get. */
  predicate ShortfallOf(x: FurnReq, flat: seq<FurnReq>, furns: seq<Entry<nat>>)
  {
    exists r, f :: r in flat && f in furns && r.amount == MaxAmount(flat, r.name)
      && f.name == r.name && f.value < r.amount && x == FurnReq(r.name, r.recipe, r.amount - f.value)
  }

  /** Every furnishing row returned is a requirement at its largest amount less
      a positive owned-quantity shortfall: amount = required - owned > 0; a
      requirement met by what is owned, or with no owned-quantity row, yields none. */
  lemma NettedRowsAreShortfalls(chars: seq<Entry<bool>>, sets: seq<SetRow>, furns: seq<Entry<nat>>, catalog: seq<GiftSet>)
    ensures forall x :: x in NettedRows(chars, sets, furns, catalog) <==>
      ShortfallOf(x, FlattenRequirements(SelectedSets(chars, sets, catalog)), furns)
    ensures forall x :: x in NettedRows(chars, sets, furns, catalog) ==> x.amount > 0
  {
    var flat := FlattenRequirements(SelectedSets(chars, sets, catalog));
    forall x | x in NetFurnishings(KeepMax(flat, flat), furns)
      ensures ShortfallOf(x, flat, furns) && x.amount > 0
    {
      NettedSound(flat, furns, x);
    }
    forall x | ShortfallOf(x, flat, furns) ensures x in NetFurnishings(KeepMax(flat, flat), furns) {
      NettedComplete(flat, furns, x);
    }
  }

  lemma NettedSound(flat: seq<FurnReq>, furns: seq<Entry<nat>>, x: FurnReq)
    requires x in NetFurnishings(KeepMax(flat, flat), furns)
    ensures ShortfallOf(x, flat, furns) && x.amount > 0
  {
    var r :| r in KeepMax(flat, flat) && x in NetRow(r, furns);
    var f :| f in furns && f.name == r.name && r.amount > f.value && x == FurnReq(r.name, r.recipe, r.amount - f.value);
  }

  lemma NettedComplete(flat: seq<FurnReq>, furns: seq<Entry<nat>>, x: FurnReq)
    requires ShortfallOf(x, flat, furns)
    ensures x in NetFurnishings(KeepMax(flat, flat), furns)
  {
    var r, f :| r in flat && f in furns && r.amount == MaxAmount(flat, r.name)
      && f.name == r.name && f.value < r.amount && x == FurnReq(r.name, r.recipe, r.amount - f.value);
    MaxRowKept(flat, r);
    assert r in KeepMax(flat, flat);
    assert x in NetRow(r, furns);
  }

  /** The craft and buy results partition the netted rows by recipe presence. */
  lemma CraftAndBuyPartition(
    chars: seq<Entry<bool>>, sets: seq<SetRow>, furns: seq<Entry<nat>>,
    mats: seq<Entry<nat>>, catalog: seq<GiftSet>)
    requires forall g :: g in SelectedSets(chars, sets, catalog) ==> g.materials != []
    requires CalculateRequirements(chars, sets, furns, mats, catalog).Some?
    ensures var res := CalculateRequirements(chars, sets, furns, mats, catalog).value;
      && multiset(res.craft) + multiset(res.buy) == multiset(NettedRows(chars, sets, furns, catalog))
      && (forall x :: x in res.buy ==> x.recipe == [])
      && (forall x :: x in res.craft ==> x.recipe != [])
  {
    SplitIsPartition(NettedRows(chars, sets, furns, catalog));
  }

  /** With one owned-quantity row per furnishing, a requirement at its
      furnishing's largest amount that the owned quantity does not cover
      reaches the craft table (when it has a recipe) or the buy table (when it
      has none) once for each time the selected sets list it: two sets asking
      for the same furnishing at the same amount put its shortfall there twice. */
  lemma ShortfallCounted(
    chars: seq<Entry<bool>>, sets: seq<SetRow>, furns: seq<Entry<nat>>,
    mats: seq<Entry<nat>>, catalog: seq<GiftSet>, r: FurnReq, f: Entry<nat>)
    requires forall g :: g in SelectedSets(chars, sets, catalog) ==> g.materials != []
    requires UniqueNames(furns)
    requires r.amount == MaxAmount(FlattenRequirements(SelectedSets(chars, sets, catalog)), r.name)
    requires f in furns && f.name == r.name && f.value < r.amount
    ensures CalculateRequirements(chars, sets, furns, mats, catalog).Some?
    ensures var res := CalculateRequirements(chars, sets, furns, mats, catalog).value;
      multiset(if r.recipe == [] then res.buy else res.craft)[FurnReq(r.name, r.recipe, r.amount - f.value)]
        == multiset(FlattenRequirements(SelectedSets(chars, sets, catalog)))[r]
  {
    var flat := FlattenRequirements(SelectedSets(chars, sets, catalog));
    var netted := NettedRows(chars, sets, furns, catalog);
    NetFurnishingsCount(KeepMax(flat, flat), furns, r, f);
    SplitIsPartition(netted);
  }

  /** `x` reports material `e.name`: the craft rows need more of it than the
      quantity `e` owned, and `shortfall` is the difference. */
  predicate ShortMaterialOf(x: MaterialNeed, craft: seq<FurnReq>, mats: seq<Entry<nat>>)
  {
    exists e :: e in mats && MaterialNeeded(craft, e.name) > e.value
      && x == MaterialNeed(e.name, MaterialNeeded(craft, e.name), e.value, MaterialNeeded(craft, e.name) - e.value)
  }

  lemma GroupKeysMembers(needs: seq<(Name, nat)>, k: Name)
    ensures k in GroupKeys(needs) <==> k in KeysOf(needs)
  {
    assert k in GroupKeys(needs) <==> k in multiset(GroupKeys(needs));
    assert k in Unique(KeysOf(needs)) <==> k in multiset(Unique(KeysOf(needs)));
  }

  lemma ShortMaterialSound(craft: seq<FurnReq>, mats: seq<Entry<nat>>, x: MaterialNeed)
    requires x in NetMaterials(GroupKeys(RecipeNeeds(craft)), RecipeNeeds(craft), mats)
    ensures ShortMaterialOf(x, craft, mats)
  {
    var needs := RecipeNeeds(craft);
    var k :| k in GroupKeys(needs) && x in NetMaterial(k, SumFor(needs, k), mats);
    RecipeNeedsSum(craft, k);
    var e :| e in mats && e.name == k && SumFor(needs, k) > e.value
      && x == MaterialNeed(k, SumFor(needs, k), e.value, SumFor(needs, k) - e.value);
  }

  lemma ShortMaterialComplete(craft: seq<FurnReq>, mats: seq<Entry<nat>>, x: MaterialNeed)
    requires ShortMaterialOf(x, craft, mats)
    ensures x in NetMaterials(GroupKeys(RecipeNeeds(craft)), RecipeNeeds(craft), mats)
  {
    var needs := RecipeNeeds(craft);
    var e :| e in mats && MaterialNeeded(craft, e.name) > e.value
      && x == MaterialNeed(e.name, MaterialNeeded(craft, e.name), e.value, MaterialNeeded(craft, e.name) - e.value);
    NeededMaterialIsKey(craft, e.name);
    assert x in NetMaterial(e.name, SumFor(needs, e.name), mats);
  }

  /** A material the craft rows need is a group key, and its group sums to the need. */
  lemma NeededMaterialIsKey(craft: seq<FurnReq>, m: Name)
    requires MaterialNeeded(craft, m) > 0
    ensures m in GroupKeys(RecipeNeeds(craft))
    ensures SumFor(RecipeNeeds(craft), m) == MaterialNeeded(craft, m)
  {
    var needs := RecipeNeeds(craft);
    RecipeNeedsSum(craft, m);
    SumForPositive(needs, m);
    var i :| 0 <= i < |needs| && needs[i].0 == m;
    assert KeysOf(needs)[i] == m;
    GroupKeysMembers(needs, m);
  }

  /** Each material row is a material of the owned-materials table whose need,
      the sum over craft rows of recipe quantity times amount, exceeds the owned
      quantity, with `shortfall` the difference; every such material appears,
      and a material the owned-materials table lacks never does. */
  lemma MaterialShortfalls(
    chars: seq<Entry<bool>>, sets: seq<SetRow>, furns: seq<Entry<nat>>,
    mats: seq<Entry<nat>>, catalog: seq<GiftSet>)
    requires forall g :: g in SelectedSets(chars, sets, catalog) ==> g.materials != []
    requires CalculateRequirements(chars, sets, furns, mats, catalog).Some?
    ensures var res := CalculateRequirements(chars, sets, furns, mats, catalog).value;
      forall x :: x in res.materials <==> ShortMaterialOf(x, res.craft, mats)
  {
    var res := CalculateRequirements(chars, sets, furns, mats, catalog).value;
    assert res.materials == NetMaterials(GroupKeys(RecipeNeeds(res.craft)), RecipeNeeds(res.craft), mats);
    forall x ensures x in res.materials <==> ShortMaterialOf(x, res.craft, mats) {
      if x in res.materials {
        ShortMaterialSound(res.craft, mats, x);
      }
      if ShortMaterialOf(x, res.craft, mats) {
        ShortMaterialComplete(res.craft, mats, x);
      }
    }
  }

  /** With one owned row per material, the materials table lists each material
      at most once, as the `groupby` of line 201 and the merge of line 203 give. */
  lemma MaterialRowsOnce(
    chars: seq<Entry<bool>>, sets: seq<SetRow>, furns: seq<Entry<nat>>,
    mats: seq<Entry<nat>>, catalog: seq<GiftSet>)
    requires forall g :: g in SelectedSets(chars, sets, catalog) ==> g.materials != []
    requires UniqueNames(mats)
    requires CalculateRequirements(chars, sets, furns, mats, catalog).Some?
    ensures MaterialsOnce(CalculateRequirements(chars, sets, furns, mats, catalog).value.materials)
  {
    var needs := RecipeNeeds(CraftRows(NettedRows(chars, sets, furns, catalog)));
    NetMaterialsOnce(GroupKeys(needs), needs, mats);
  }

  // ---- Lines 186-205 as written: nothing left to craft ----

  /** Lines 139-211 as written. When netting leaves no row to craft, pandas
      never reaches a value: with no netted row at all the mask of line 186 is
      an empty column of objects, which lines 187-188 read as a column list,
      so line 191 finds no `recipe` column; with only bought rows the
      `quantity` column built at line 195 holds objects, `sum("quantity")` at
      line 201 drops it, and line 205 finds no `quantity_needed` column. */
  function CalculateRequirementsAsWritten(
    chars: seq<Entry<bool>>, sets: seq<SetRow>, furns: seq<Entry<nat>>,
    mats: seq<Entry<nat>>, catalog: seq<GiftSet>): (r: Outcome)
    requires forall g :: g in SelectedSets(chars, sets, catalog) ==> g.materials != []
    ensures r.KeyError? <==>
      SelectedSets(chars, sets, catalog) != [] &&
      forall x :: x in NettedRows(chars, sets, furns, catalog) ==> x.recipe == []
    ensures r.Returned? ==> r.value == CalculateRequirements(chars, sets, furns, mats, catalog)
  {
    var craft := CraftRows(NettedRows(chars, sets, furns, catalog));
    assert craft != [] ==> craft[0] in craft;
    if SelectedSets(chars, sets, catalog) != [] && craft == [] then KeyError
    else Returned(CalculateRequirements(chars, sets, furns, mats, catalog))
  }

  /** As written, the call fails exactly when some set is selected and every
      shortfall (if any) is of a furnishing that is bought, not crafted. */
  lemma AsWrittenFails(
    chars: seq<Entry<bool>>, sets: seq<SetRow>, furns: seq<Entry<nat>>,
    mats: seq<Entry<nat>>, catalog: seq<GiftSet>)
    requires forall g :: g in SelectedSets(chars, sets, catalog) ==> g.materials != []
    ensures CalculateRequirementsAsWritten(chars, sets, furns, mats, catalog).KeyError? <==>
      SelectedSets(chars, sets, catalog) != [] &&
      forall x :: ShortfallOf(x, FlattenRequirements(SelectedSets(chars, sets, catalog)), furns) ==> x.recipe == []
  {
    NettedRowsAreShortfalls(chars, sets, furns, catalog);
  }

  /** The evidently intended result when nothing is left to craft: every
      netted row is bought, none is crafted, and no material is short. */
  lemma NothingToCraft(
    chars: seq<Entry<bool>>, sets: seq<SetRow>, furns: seq<Entry<nat>>,
    mats: seq<Entry<nat>>, catalog: seq<GiftSet>)
    requires forall g :: g in SelectedSets(chars, sets, catalog) ==> g.materials != []
    requires SelectedSets(chars, sets, catalog) != []
    requires forall x :: x in NettedRows(chars, sets, furns, catalog) ==> x.recipe == []
    ensures CalculateRequirements(chars, sets, furns, mats, catalog)
      == Some(Requirements([], NettedRows(chars, sets, furns, catalog), []))
  {
    var netted := NettedRows(chars, sets, furns, catalog);
    AllBought(netted);
    assert RecipeNeeds([]) == [];
    assert KeysOf<nat>([]) == [] && Unique<Name>([]) == [];
    assert GroupKeys([]) == [];
  }

  /** Rows that all lack a recipe are all bought. */
  lemma {:induction false} AllBought(rows: seq<FurnReq>)
    requires forall x :: x in rows ==> x.recipe == []
    ensures CraftRows(rows) == [] && BuyRows(rows) == rows
  {
    if rows != [] {
      AllBought(rows[1..]);
    }
  }
}
