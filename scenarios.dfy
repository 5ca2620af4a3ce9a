/**
 * Worked examples of the requirements calculation. Most use one gift set
 * whose only furnishing is three Lamps, each crafted from two Wood. One uses
 * a bought furnishing with no recipe.
 */
module Scenarios {
  import opened Tables
  import opened Calculator

  function Lamps(amount: nat): FurnReq
  {
    FurnReq("Lamp", [Ingredient("Wood", 2)], amount)
  }

  function LampSet(): GiftSet
  {
    GiftSet("S", ["A"], [Lamps(3)])
  }

  /** With one owned character and one row for set `g`, `g` is selected
      exactly when the row is unclaimed. */
  lemma SingleSetSelected(g: GiftSet, c: Name, claimed: bool)
    ensures SelectedSets([Entry(c, true)], [SetRow(g.name, c, claimed)], [g]) == if claimed then [] else [g]
  {
    var rows := [SetRow(g.name, c, claimed)];
    var owned := OwnedNames([Entry(c, true)]);
    assert c in owned;
    assert rows[1..] == [] && EligibleRows([], owned) == [];
    assert EligibleRows(rows, owned) == (if claimed then [] else rows);
    if claimed {
      assert SetNames([]) == [];
      assert SelectSets([g], []) == [];
    } else {
      assert SetNames(rows) == [g.name];
      assert Unique([g.name]) == [g.name];
      assert SelectSets([g], [g.name]) == [g];
    }
  }

  /** A set asking for a single furnishing keeps that one requirement row. */
  lemma SingleRequirement(g: GiftSet)
    requires |g.materials| == 1
    ensures var flat := FlattenRequirements([g]); flat == g.materials && KeepMax(flat, flat) == flat
  {
    var flat := FlattenRequirements([g]);
    assert flat == g.materials + [];
    assert MaxAmount(flat, flat[0].name) == flat[0].amount;
  }

  /** A single recipe line groups under its own material. */
  lemma SingleGroupKey(m: Name, q: nat)
    ensures GroupKeys([(m, q)]) == [m]
  {
    assert KeysOf([(m, q)]) == [m];
    assert Unique([m]) == [m];
  }

  /** A single craft row of `amount` Lamps needs `2 * amount` Wood. */
  lemma LampWood(amount: nat)
    ensures RecipeNeeds([Lamps(amount)]) == [("Wood", 2 * amount)]
  {
    assert ScaledRecipe(Lamps(amount).recipe, amount) == [("Wood", 2 * amount)];
  }

  /** One Lamp owned of the three asked: two to craft, none to buy. */
  lemma TwoLampsLeft()
    ensures NetFurnishings([Lamps(3)], [Entry("Lamp", 1)]) == [Lamps(2)]
    ensures CraftRows([Lamps(2)]) == [Lamps(2)] && BuyRows([Lamps(2)]) == []
  {
    assert NetRow(Lamps(3), [Entry("Lamp", 1)]) == [Lamps(2)];
  }

  /** Two Lamps at two Wood each need four Wood; one is owned, three are short. */
  lemma WoodShort()
    ensures var needs := RecipeNeeds([Lamps(2)]);
      NetMaterials(GroupKeys(needs), needs, [Entry("Wood", 1)]) == [MaterialNeed("Wood", 4, 1, 3)]
  {
    LampWood(2);
    SingleGroupKey("Wood", 4);
    assert SumFor([("Wood", 4)], "Wood") == 4;
    assert NetMaterial("Wood", 4, [Entry("Wood", 1)]) == [MaterialNeed("Wood", 4, 1, 3)];
  }

  /** Character A owned, set S unclaimed for A, one Lamp and one Wood owned:
      two Lamps to craft, and three Wood short of the four needed. */
  lemma OneLampOwned()
    ensures CalculateRequirementsAsWritten([Entry("A", true)], [SetRow("S", "A", false)],
      [Entry("Lamp", 1)], [Entry("Wood", 1)], [LampSet()])
      == Returned(Some(Requirements([Lamps(2)], [], [MaterialNeed("Wood", 4, 1, 3)])))
  {
    SingleSetSelected(LampSet(), "A", false);
    SingleRequirement(LampSet());
    TwoLampsLeft();
    WoodShort();
  }

  /** With three Lamps owned no furnishing is short. As written the call then
      fails with a `KeyError`; the corrected calculation reports nothing to
      craft, nothing to buy and no material short. */
  lemma AllLampsOwned()
    ensures CalculateRequirementsAsWritten([Entry("A", true)], [SetRow("S", "A", false)],
      [Entry("Lamp", 3)], [Entry("Wood", 1)], [LampSet()]) == KeyError
    ensures CalculateRequirements([Entry("A", true)], [SetRow("S", "A", false)],
      [Entry("Lamp", 3)], [Entry("Wood", 1)], [LampSet()])
      == Some(Requirements([], [], []))
  {
    SingleSetSelected(LampSet(), "A", false);
    SingleRequirement(LampSet());
    assert NetRow(Lamps(3), [Entry("Lamp", 3)]) == [];
    assert NetFurnishings([Lamps(3)], [Entry("Lamp", 3)]) == [];
    assert GroupKeys([]) == [];
  }

  /** A furnishing without a recipe, five asked and two owned. As written the
      call fails with a `KeyError`, since nothing is left to craft; the
      corrected calculation reports three Chairs to buy and none to craft. */
  lemma BuyShortfall()
    ensures CalculateRequirementsAsWritten([Entry("A", true)], [SetRow("T", "A", false)],
      [Entry("Chair", 2)], [], [GiftSet("T", ["A"], [FurnReq("Chair", [], 5)])]) == KeyError
    ensures CalculateRequirements([Entry("A", true)], [SetRow("T", "A", false)],
      [Entry("Chair", 2)], [], [GiftSet("T", ["A"], [FurnReq("Chair", [], 5)])])
      == Some(Requirements([], [FurnReq("Chair", [], 3)], []))
  {
    var chairSet := GiftSet("T", ["A"], [FurnReq("Chair", [], 5)]);
    SingleSetSelected(chairSet, "A", false);
    SingleRequirement(chairSet);
    ChairsLeft();
    assert GroupKeys([]) == [];
  }

  lemma ChairsLeft()
    ensures NetFurnishings([FurnReq("Chair", [], 5)], [Entry("Chair", 2)]) == [FurnReq("Chair", [], 3)]
    ensures CraftRows([FurnReq("Chair", [], 3)]) == [] && BuyRows([FurnReq("Chair", [], 3)]) == [FurnReq("Chair", [], 3)]
  {
    assert NetRow(FurnReq("Chair", [], 5), [Entry("Chair", 2)]) == [FurnReq("Chair", [], 3)];
  }

  /** Once A has claimed S there is nothing to claim. */
  lemma ClaimedSetNothingToDo()
    ensures CalculateRequirementsAsWritten([Entry("A", true)], [SetRow("S", "A", true)],
      [Entry("Lamp", 1)], [Entry("Wood", 1)], [LampSet()]) == Returned(None)
  {
    SingleSetSelected(LampSet(), "A", true);
  }

  /** Two claimable sets that both ask for three Lamps: the max filter keeps
      both rows, so six Lamps are to be crafted and twelve Wood are needed. */
  lemma TiedSetsCountTwice()
    ensures CalculateRequirementsAsWritten([Entry("A", true)], [SetRow("S", "A", false), SetRow("T", "A", false)],
        [Entry("Lamp", 0)], [Entry("Wood", 0)], [LampSet(), GiftSet("T", ["A"], [Lamps(3)])])
      == Returned(Some(Requirements([Lamps(3), Lamps(3)], [], [MaterialNeed("Wood", 12, 0, 12)])))
  {
    TwoSetsSelected();
    TwoLampRowsKept();
    NoLampOwned();
    TwelveWood();
  }

  lemma TwoSetsSelected()
    ensures SelectedSets([Entry("A", true)], [SetRow("S", "A", false), SetRow("T", "A", false)],
        [LampSet(), GiftSet("T", ["A"], [Lamps(3)])]) == [LampSet(), GiftSet("T", ["A"], [Lamps(3)])]
  {
    var t := GiftSet("T", ["A"], [Lamps(3)]);
    var rows := [SetRow("S", "A", false), SetRow("T", "A", false)];
    var owned := OwnedNames([Entry("A", true)]);
    assert "A" in owned;
    assert rows[1..] == [rows[1]] && rows[1..][1..] == [];
    assert EligibleRows([rows[1]], owned) == [rows[1]];
    assert EligibleRows(rows, owned) == rows;
    TwoNames();
    SelectBoth();
  }

  lemma SelectBoth()
    ensures SelectSets([LampSet(), GiftSet("T", ["A"], [Lamps(3)])], ["S", "T"])
      == [LampSet(), GiftSet("T", ["A"], [Lamps(3)])]
  {
    var t := GiftSet("T", ["A"], [Lamps(3)]);
    assert SelectSets([t], ["S", "T"]) == [t];
  }

  lemma TwoNames()
    ensures Unique(SetNames([SetRow("S", "A", false), SetRow("T", "A", false)])) == ["S", "T"]
  {
    assert SetNames([SetRow("S", "A", false), SetRow("T", "A", false)]) == ["S", "T"];
    assert ["S", "T"][..1] == ["S"];
    assert Unique(["S"]) == ["S"];
  }

  lemma TwoLampRowsKept()
    ensures var flat := FlattenRequirements([LampSet(), GiftSet("T", ["A"], [Lamps(3)])]);
      flat == [Lamps(3), Lamps(3)] && KeepMax(flat, flat) == flat
  {
    var t := GiftSet("T", ["A"], [Lamps(3)]);
    assert FlattenRequirements([t]) == [Lamps(3)];
    assert MaxAmount([Lamps(3)], "Lamp") == 3;
    assert MaxAmount([Lamps(3), Lamps(3)], "Lamp") == 3;
    assert KeepMax([Lamps(3)], [Lamps(3), Lamps(3)]) == [Lamps(3)];
  }

  lemma NoLampOwned()
    ensures NetFurnishings([Lamps(3), Lamps(3)], [Entry("Lamp", 0)]) == [Lamps(3), Lamps(3)]
    ensures CraftRows([Lamps(3), Lamps(3)]) == [Lamps(3), Lamps(3)] && BuyRows([Lamps(3), Lamps(3)]) == []
  {
    assert NetRow(Lamps(3), [Entry("Lamp", 0)]) == [Lamps(3)];
    assert NetFurnishings([Lamps(3)], [Entry("Lamp", 0)]) == [Lamps(3)];
    assert CraftRows([Lamps(3)]) == [Lamps(3)];
    assert BuyRows([Lamps(3)]) == [];
  }

  lemma TwelveWood()
    ensures var needs := RecipeNeeds([Lamps(3), Lamps(3)]);
      NetMaterials(GroupKeys(needs), needs, [Entry("Wood", 0)]) == [MaterialNeed("Wood", 12, 0, 12)]
  {
    LampWood(3);
    var needs := [("Wood", 6), ("Wood", 6)];
    assert RecipeNeeds([Lamps(3), Lamps(3)]) == needs;
    WoodTwiceGroupKey();
    assert SumFor(needs[1..], "Wood") == 6;
    assert NetMaterial("Wood", 12, [Entry("Wood", 0)]) == [MaterialNeed("Wood", 12, 0, 12)];
  }

  lemma WoodTwiceGroupKey()
    ensures GroupKeys([("Wood", 6), ("Wood", 6)]) == ["Wood"]
  {
    assert KeysOf([("Wood", 6), ("Wood", 6)]) == ["Wood", "Wood"];
    assert ["Wood", "Wood"][..1] == ["Wood"];
    assert Unique(["Wood"]) == ["Wood"];
  }
}
