# genshin-furnishings: the inventory reconciler and the requirements calculator

This project models the in-memory logic of `data_controller.py` in the
genshin-furnishings tracker. The tracker keeps, per user, which characters
they own, how many of each material and furnishing they hold, and which gift
sets each character has claimed. From that it tells the user what to craft,
what to buy and which materials are short.

The model has three parts. Each part is one module.

- **Reconciler** (`reconciler.dfy`, `get_data`). A user with no stored record
  gets a default record: every catalog character unowned, every material and
  furnishing at 0, and no set entries. Each catalog collection is then
  left-joined with the user's stored values, with False or 0 where nothing is
  stored. The catalog sets are exploded to one row per (set, character) and
  sorted by set name. The stored set entries are flattened to
  (set, character, claimed) rows by a loop, modelled as a method. The two are
  joined on (set, character), and claimed defaults to False.
- **Serializers** (`serializers.dfy`, `update_chars`, `update_mats`,
  `update_furns` and `update_sets`).
  - The characters, materials and furnishings tables collapse to a
    name → value map, and the last row wins for a repeated name.
  - The sets table is grouped, by a loop modelled as a method, into one entry
    per distinct set name in first-seen order. Each entry holds a
    character → claimed dict built from that name's rows, and the last row
    wins.
- **Calculator** (`calculator.dfy`, `calculate_requirements`). The
  calculation runs in these steps:
  1. Select the sets that have an unclaimed row whose character is owned, and
     fetch them from the catalog.
  2. Flatten their furnishing requirements.
  3. Keep, per furnishing, the rows at the largest amount. Ties are all kept.
  4. Net each row against the owned quantity. Keep it only while something
     is missing. A furnishing with no owned-quantity row is dropped.
  5. Split the rows into bought ones (empty recipe) and crafted ones.
  6. Explode the crafted recipes, scaled by the still-missing amount. Sum
     them per material, in sorted material order.
  7. Inner-join with the owned materials and keep the positive shortfalls.

  If no set is selected, the result is `None` ("nothing to claim").

  As written, the code fails with a `KeyError` when netting leaves nothing
  to craft (see "## Findings"). The model keeps that behaviour in
  `CalculateRequirementsAsWritten` and uses the corrected
  `CalculateRequirements` everywhere else.

Shared pieces:
- `tables.dfy` holds the records and the two collection idioms the code
  relies on. The first is `unique()`: distinct values in first-seen order.
  The second is the insertion-ordered dict a dict comprehension builds: new
  keys go last and the last value wins.
- `ordering.dfy` holds Python's string order and the sort used for
  `sort_values` and for the sorted keys of `groupby`.
- `scenarios.dfy` works through concrete catalog and inventory examples of
  the calculation.

Store access is not modelled; its values become parameters:
- The catalog reads (`db.characters.find` and the others) become a `Catalog`
  value, in the order the store returns them.
- The user's stored record becomes an `Option<UserRecord>`.
- The logged-in user's id becomes a `userId` parameter.

Quantities are `nat`.

## Model

| member | source | states |
|---|---|---|
| Tables.Unique | data_controller.py:114 | the distinct names hold exactly the input's values, each once |
| Tables.UniqueFirstSeen | data_controller.py:114 | the distinct names come in the order of their first occurrence |
| Tables.FromPairs | data_controller.py:120-123 | a dict comprehension over (key, value) pairs has the distinct keys in first-seen order, and each key maps to the value of its last pair |
| Tables.FromPairsOfDict | data_controller.py:120-123 | rebuilding a dict from its own pairs gives the same dict, key order included |
| Ordering.SortBy | data_controller.py:31 | the sort by name is a permutation of its input, ordered by Python's string order |
| Ordering.SortedByPairwise | data_controller.py:31 | in the sorted table every earlier name is at most every later one |
| Reconciler.LeftJoin | data_controller.py:64-69 | the joined table has one row per catalog name, in catalog order, holding the stored value or the False/0 default |
| Reconciler.LeftJoinNamesFromCatalog | data_controller.py:64-69 | a stored name the catalog does not list never reaches the joined table |
| Reconciler.LeftJoinUniqueNames | data_controller.py:64-69 | a catalog without repeated names joins to a table without repeated names |
| Reconciler.DefaultRecord | data_controller.py:38-45 | a new user's record has their id, no set entries, every catalog character unowned and every catalog material and furnishing at 0, and no other names |
| Reconciler.DefaultJoin | data_controller.py:38-45 | joining catalog names with a map that gives each of them one value yields that value for every name |
| Reconciler.ExplodeSets | data_controller.py:29-30 | the exploded rows are exactly the (set, character) pairs of the catalog sets |
| Reconciler.ExplodeSetsAppend | data_controller.py:30 | exploding sets one after another gives each set's own character rows, set by set, in catalog order |
| Reconciler.CatalogSetRows | data_controller.py:29-31 | the catalog's set rows are the exploded rows, each as often as it occurs, sorted by set name |
| Reconciler.FlattenSetRecords | data_controller.py:57-62 | the loop builds the rows of the stored entries in entry order and then dict order |
| Reconciler.Flatten | data_controller.py:57-62 | no contract of its own: the rows of the stored entries in entry order, then dict order; Reconciler.FlattenSetRecords and Reconciler.FlattenMembership state what it holds |
| Reconciler.FlattenMembership | data_controller.py:57-62 | a row is flattened exactly when some stored entry of that name has that character and flag in its dict |
| Reconciler.FlattenRowNamed | data_controller.py:57-62 | every flattened row carries the name of a stored entry |
| Reconciler.ClaimsFor | data_controller.py:70-71 | a catalog row's matches are empty exactly when no stored row has its (set, character), and every match comes from a stored row |
| Reconciler.JoinSets | data_controller.py:70-71 | no contract of its own: each catalog row's matches, in catalog order; Reconciler.JoinSetsFromCatalog, Reconciler.JoinSetsSorted and Reconciler.JoinSetsUnique state what it holds |
| Reconciler.ReconcileSets | data_controller.py:29-71 | no contract of its own: the sorted catalog rows joined with the flattened stored entries; Reconciler.ReconciledSetsTable states what it holds |
| Reconciler.JoinRow | data_controller.py:70-71 | each catalog row yields at least one joined row, all with its own set and character |
| Reconciler.JoinSetsFromCatalog | data_controller.py:70-71 | every joined row's (set, character) is a catalog row |
| Reconciler.JoinSetsSorted | data_controller.py:70-71 | the left join keeps the catalog rows' order, so the table stays sorted by set name |
| Reconciler.ClaimsForUnique | data_controller.py:70-71 | with no repeated stored (set, character), a catalog row matches at most once |
| Reconciler.FlattenUniquePairs | data_controller.py:57-62 | stored entries with distinct names and distinct dict keys flatten to rows with no repeated (set, character) |
| Reconciler.StoredClaimFlattened | data_controller.py:57-62 | a (set, character) is stored as claimed exactly when its claimed row is among the flattened rows |
| Reconciler.JoinRowUnique | data_controller.py:70-71 | for well-formed stored entries each catalog row joins to exactly one row, carrying the stored flag or False |
| Reconciler.JoinSetsUnique | data_controller.py:70-71 | for well-formed stored entries the joined table is the catalog rows, row for row, with the stored flag or False |
| Reconciler.PairsOfJoin | data_controller.py:70-71 | for well-formed stored entries the joined table's (set, character) pairs are the catalog rows, in order |
| Reconciler.JoinedRowClaim | data_controller.py:70-71 | for well-formed stored entries a joined row is claimed exactly when a stored entry claims it |
| Reconciler.JoinSetsNothingStored | data_controller.py:70-71 | with no stored set entries every joined row is unclaimed |
| Reconciler.ReconciledSetsTable | data_controller.py:29-71 | the sets table is a permutation of the catalog's (set, character) pairs, sorted by set name; each row is claimed exactly when a stored entry claims it, and no pair outside the catalog appears |
| Reconciler.GetData | data_controller.py:22-71 | for non-empty catalog collections, the record in use is the stored one or, for a new user, the default record; the four tables are the joins of the catalog with that record |
| Reconciler.NewUserTables | data_controller.py:38-71 | a new user's tables list every catalog name once, unowned or at 0, and every set row unclaimed |
| Reconciler.NothingStoredUnclaimed | data_controller.py:44-71 | the sets table of a record with no set entries has every row unclaimed |
| Serializers.TableToMap | data_controller.py:79 | no contract of its own: the rows folded into a map in table order (the same for lines 89 and 101); the Serializers.TableToMap lemmas state what it holds |
| Serializers.TableToMapKeys | data_controller.py:79 | the saved map's keys are exactly the table's names (the same for lines 89 and 101) |
| Serializers.TableToMapLast | data_controller.py:79 | a name on several rows is saved with the value of its last row |
| Serializers.TableToMapUniform | data_controller.py:79 | a name whose rows all carry one value is saved with that value |
| Serializers.TableToMapOfLeftJoin | data_controller.py:64-101 | saving a reconciled table stores exactly the catalog's names, each with the user's value or the default |
| Serializers.LeftJoinSavedValue | data_controller.py:64-101 | a catalog name is saved with the user's value or the default |
| Serializers.SavedNameFromCatalog | data_controller.py:64-101 | every saved name is a catalog name |
| Serializers.SaveThenReconcile | data_controller.py:64-101 | reconciling what was just saved gives back the saved table |
| Serializers.RowsNamedMembers | data_controller.py:119 | the subset for a name holds exactly the table's rows with that name |
| Serializers.RowsNamed | data_controller.py:119 | no contract of its own: the rows with the given name, in table order; Serializers.RowsNamedMembers states which rows they are |
| Serializers.GroupOf | data_controller.py:119-126 | no contract of its own: one entry built from the rows of one name; Serializers.LastValueOfClaims states its dict |
| Serializers.GroupSets | data_controller.py:114-129 | no contract of its own: one entry per distinct name; Serializers.GroupSetsEntries states what it holds |
| Serializers.SerializeSets | data_controller.py:114-129 | the loop builds one entry per distinct set name, each from that name's rows |
| Serializers.LastValueOfClaims | data_controller.py:119-123 | an entry's dict gives each character the flag of the last row for that set and character |
| Serializers.GroupSetsEntries | data_controller.py:114-129 | the entries' names are the distinct set names in first-seen order, and each dict maps exactly that set's characters to the flag of their last row |
| Serializers.GroupSetsWellFormed | data_controller.py:114-129 | the entries written back have distinct set names, and each dict has distinct characters |
| Serializers.RowsNamedOfFlatten | data_controller.py:57-119 | with distinct stored names, the flattened rows of one name are that entry's rows, in dict order |
| Serializers.UniqueNamesOfFlatten | data_controller.py:57-114 | when every stored entry has a non-empty dict, the distinct set names of the flattened rows, in first-seen order, are the stored entries' names |
| Serializers.GroupOfFlatten | data_controller.py:57-129 | the entry written back for a well-formed stored entry is that entry |
| Serializers.GroupSetsOfFlatten | data_controller.py:57-129 | writing back the rows flattened from well-formed stored entries reproduces those entries |
| Calculator.EligibleRows | data_controller.py:146-150 | the eligible rows are exactly the unclaimed rows whose character is owned |
| Calculator.OwnedNames | data_controller.py:146 | no contract of its own: the names of rows marked owned; Calculator.EligibleRows and Calculator.EligibleNamesIff state its use |
| Calculator.EligibleNames | data_controller.py:146-151 | the selected names are distinct |
| Calculator.EligibleNamesIff | data_controller.py:146-151 | a set name is selected exactly when some unclaimed row of it has an owned character |
| Calculator.SelectSets | data_controller.py:152 | the fetched sets are exactly the catalog sets whose name was selected, each as often as the catalog lists it |
| Calculator.SelectedSets | data_controller.py:146-152 | no contract of its own: the catalog sets named by Calculator.EligibleNames, fetched by Calculator.SelectSets; Calculator.NothingToClaim and Calculator.ShortfallCounted state what it holds |
| Calculator.FlattenRequirements | data_controller.py:155-165 | the flattened rows are exactly the furnishing requirements of the selected sets, and one set flattens to its own rows |
| Calculator.FlattenRequirementsAppend | data_controller.py:155-165 | flattening two runs of sets concatenates their rows, so a row occurs once for every set listing it |
| Calculator.RequirementRows | data_controller.py:155-170 | no contract of its own: the flattened rows of the selected sets filtered by Calculator.KeepMax; Calculator.DedupKeepsMaxima and Calculator.ShortfallCounted state what it holds |
| Calculator.MaxAmount | data_controller.py:166-167 | the group maximum bounds every row of that furnishing and is attained by one, or is 0 when none exists |
| Calculator.KeepMax | data_controller.py:166-170 | the filter keeps, with their multiplicity, exactly the rows at their furnishing's maximum |
| Calculator.DedupKeepsMaxima | data_controller.py:166-170 | after the filter no row of a furnishing asks for more than a kept row, every row at the maximum is kept (ties included), and no furnishing disappears |
| Calculator.MaxRowKept | data_controller.py:166-170 | a row at its furnishing's maximum survives the filter as many times as it occurs |
| Calculator.KeptRowIsMax | data_controller.py:166-170 | a surviving row asks for at least as much as any row of its furnishing |
| Calculator.FurnishingSurvives | data_controller.py:166-170 | some row of every requested furnishing survives the filter |
| Calculator.NetRow | data_controller.py:173-184 | every row a requirement yields is that requirement less an owned quantity of its furnishing that falls short, and every such shortfall is yielded |
| Calculator.NetRowUnique | data_controller.py:173-184 | with one owned-quantity row per furnishing, a requirement yields exactly its one shortfall row when the owned quantity falls short, and nothing otherwise |
| Calculator.NetFurnishings | data_controller.py:173-184 | the netted rows are exactly the netted rows of the individual requirements |
| Calculator.NetFurnishingsAppend | data_controller.py:173-184 | netting two runs of requirements concatenates their netted rows |
| Calculator.NetFurnishingsCount | data_controller.py:173-184 | with one owned-quantity row per furnishing, a short requirement's netted row occurs exactly as often as the requirement does |
| Calculator.NettedRows | data_controller.py:173-184 | no contract of its own: Calculator.NetFurnishings over Calculator.RequirementRows; Calculator.NettedRowsAreShortfalls and Calculator.ShortfallCounted state what it holds |
| Calculator.BuyRows | data_controller.py:186-187 | the bought rows are exactly the rows with an empty recipe |
| Calculator.CraftRows | data_controller.py:186-188 | the crafted rows are exactly the rows with a non-empty recipe |
| Calculator.SplitIsPartition | data_controller.py:186-188 | the buy and craft rows together are the netted rows, each row as often as it occurs |
| Calculator.ScaledRecipe | data_controller.py:191-198 | no contract of its own: one craft row's recipe lines with quantity times amount; Calculator.SumForScaled states its sums |
| Calculator.RecipeNeeds | data_controller.py:191-198 | no contract of its own: the scaled recipe lines of all crafted rows; Calculator.RecipeNeedsSum states their sums |
| Calculator.SumFor | data_controller.py:201 | no contract of its own: the summed quantity of one material; Calculator.RecipeNeedsSum and Calculator.SumForPositive state its value |
| Calculator.RecipeNeedsSum | data_controller.py:191-201 | the summed, scaled recipe lines give, per material, the sum over crafted rows of recipe quantity times amount |
| Calculator.GroupKeysMembers | data_controller.py:201 | the group keys are exactly the materials that occur in the recipe lines |
| Calculator.GroupKeys | data_controller.py:201 | the group keys come out in sorted order, each once |
| Calculator.NetMaterial | data_controller.py:203-207 | every row a material yields is its need less an owned quantity of that name that falls short, and every such shortfall is yielded |
| Calculator.NetMaterialUnique | data_controller.py:203-207 | with one owned row per material, a material yields at most one row: its shortfall when the owned quantity falls short, and nothing otherwise |
| Calculator.NetMaterials | data_controller.py:203-207 | the material rows are exactly the per-material netted rows over the group keys |
| Calculator.NetMaterialsOnce | data_controller.py:201-207 | over distinct group keys and one owned row per material, no material appears in two rows |
| Calculator.CalculateRequirements | data_controller.py:139-211 | corrected as described under "## Findings": None exactly when no set is selected; otherwise the crafted and bought rows are exactly the netted rows with and without a recipe |
| Calculator.CalculateRequirementsAsWritten | data_controller.py:139-211 | as written: a KeyError exactly when a set is selected and no netted row has a recipe; otherwise the corrected result |
| Calculator.AsWrittenFails | data_controller.py:166-205 | as written, the call fails exactly when a set is selected and every shortfall (if any) is of a furnishing with no recipe |
| Calculator.NothingToCraft | data_controller.py:186-209 | with a set selected and nothing to craft, the corrected result buys every netted row, crafts none and lists no material |
| Calculator.NothingToClaim | data_controller.py:146-211 | the result is None exactly when no catalog set has an unclaimed row whose character is owned |
| Calculator.NettedRowsAreShortfalls | data_controller.py:166-184 | the netted rows are exactly the maximum-amount requirements less an owned quantity that falls short, and every amount is positive |
| Calculator.NettedSound | data_controller.py:173-184 | every netted row is such a shortfall, with a positive amount |
| Calculator.NettedComplete | data_controller.py:173-184 | every such shortfall is among the netted rows |
| Calculator.CraftAndBuyPartition | data_controller.py:186-188 | the craft and buy results partition the netted rows by whether the recipe is empty |
| Calculator.ShortfallCounted | data_controller.py:155-188 | with one owned-quantity row per furnishing, a requirement at its furnishing's maximum that the owned quantity does not cover appears, less the owned quantity, in the craft or buy table once for every selected set row listing it, so tied rows appear twice |
| Calculator.ShortMaterialSound | data_controller.py:191-207 | every material row is a short material of the crafted rows |
| Calculator.ShortMaterialComplete | data_controller.py:191-207 | every short material of the crafted rows is a material row |
| Calculator.NeededMaterialIsKey | data_controller.py:191-201 | a material the crafted rows need is a group key, and its group sums to the need |
| Calculator.MaterialShortfalls | data_controller.py:191-207 | the material rows are exactly the owned materials whose need exceeds the owned quantity, with shortfall = need - owned |
| Calculator.MaterialRowsOnce | data_controller.py:191-207 | with one owned row per material, the materials table lists each material at most once |
| Scenarios.OneLampOwned | data_controller.py:139-211 | three Lamps of two Wood each, one Lamp and one Wood owned: the code as written returns two Lamps to craft and three Wood short |
| Scenarios.AllLampsOwned | data_controller.py:173-207 | with the Lamps owned, the code as written fails with a KeyError, and the corrected result has nothing to craft, buy or gather |
| Scenarios.BuyShortfall | data_controller.py:182-205 | a furnishing with no recipe, five asked and two owned: the code as written fails with a KeyError, and the corrected result buys three and crafts none |
| Scenarios.ClaimedSetNothingToDo | data_controller.py:146-154 | once the only set is claimed, the code as written returns None |
| Scenarios.TiedSetsCountTwice | data_controller.py:166-201 | two sets asking for the same furnishing at the same amount keep both rows, and the code as written counts their materials twice |

## Left out

- Store access is not modelled:
  - the MongoDB connection;
  - the `find` and `find_one` reads, which become parameters;
  - `insert_one` for a new user;
  - the `update_one` writes and their `matched_count` success flag.
  The serializers compute the value that would be written.
- Streamlit session state is not modelled: the user id is a parameter.
- `main.py` and the Go service are not modelled; they are not part of the
  model's core.
- Store read order: each catalog collection is taken in the order it is
  given. The store's own ordering is not modelled.
- Ordering.SortBy: `sort_values("name")` uses pandas' default sort, which
  does not promise any order among rows with equal names. The model sorts
  stably. Only the order among rows of the same set is affected.
- Reconciler.ExplodeSets: a catalog set with an empty character list explodes
  in pandas to one row whose character is missing. The model gives no row
  for it.
- Calculator.CalculateRequirements: if a selected set has an empty furnishing
  list, pandas explodes it to a missing value and line 159 fails. The model
  does not reach that case: it requires every selected set to list a
  furnishing. The same holds for Calculator.CalculateRequirementsAsWritten.
- Reconciler.GetData: a catalog collection with no documents gives a frame
  with no columns. `get_data` then fails with a `KeyError` at line 30, at
  lines 41-43 for a new user, or at the merges of lines 64-68. The model
  does not reach that case: it requires every catalog collection to be
  non-empty.
- Reconciler.ReconciledSetsTable: the row-for-row statement requires the
  stored entries to be well formed, meaning distinct set names and distinct
  characters in each entry. `update_sets` writes them that way, as
  Serializers.GroupSetsWellFormed states. For other
  stored data the join is still modelled with pandas' many-match semantics,
  and Reconciler.JoinSetsFromCatalog and Reconciler.JoinRow hold for it.
- Serializers.GroupSetsOfFlatten: requires each stored entry to have at
  least one character. A stored entry with an empty dict contributes no
  rows, so it cannot be written back.
- Column layout, dtypes and float handling are not modelled, except for the
  failure described under "## Findings". That covers
  pandas' dtype inference after `fillna` and merge suffixes. It also covers
  the extra `name` and `quantity` columns the craft and buy tables carry
  after the merge at line 173. Quantities are whole numbers and the tables
  keep only the columns the logic reads.

## Findings

| source | as written | input that shows it | evidently intended | confidence | as-written member | corrected member |
|---|---|---|---|---|---|---|
| data_controller.py:186-205 | When netting leaves no row to craft, there are two failures. With no netted row, the mask at 186 is an empty column of objects, which 187-188 read as a column list, so 191 raises `KeyError`. With only bought rows, `quantity` from 195 holds objects, `sum("quantity")` at 201 drops it, and 205 raises `KeyError`. | One owned character, one unclaimed set asking for three Lamps of two Wood each, three Lamps owned (Scenarios.AllLampsOwned); or five Chairs with no recipe, two owned (Scenarios.BuyShortfall) | Return the bought rows, an empty craft table and no short materials | not executed; medium: it rests on how pandas treats empty object columns | Calculator.CalculateRequirementsAsWritten | Calculator.CalculateRequirements |
