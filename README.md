# Pokédex variant resolution, in Dafny

This project models the core of the `pokedex` package and proves properties of the model. The core is the part that decides which game release and which language a record of the Pokédex database applies to:

- `pokedex/enums.py` — the ordered enumerations. These are `AbilitySlot`, `Game`, `GameGroup`, `HeldItemSlot` and `Language`. Each has a declaration order, a `<` on that order, a sortable `sql_value`, the game → game-group mapping, the defaults, and the lenient language-alias parser.
- `pokedex/mixins.py` — the record shapes. They fix which tags a row carries: game group, game, language, mapping key and change range. They also fix how a row's game group is found.
- `pokedex/collections.py` — the collection resolvers:
  - filter to the latest or to a requested game group;
  - key by a mapping key, or by mapping key and game;
  - merge the group-level and game-level mappings;
  - filter translations;
  - pick the best translation, or every translation tied at the best sort key, by game.
- `pokedex/tables.py` — the CHECK constraints (the subset types `Slot`, `EvYield` and `BaseStat`, which `CheckSlot`, `CheckEvYield` and `CheckBaseStat` admit values into) and the unique constraints, the `key_identifier` keys of the keyed relationships, `Item.pokemon_wild_held`, and how enum columns are stored (as their `sql_value`).
- `pokedex/main.py` — the `Pokedex` object:
  - the database URI builder;
  - the lazily built, cached session makers and their guard;
  - the checksum stored in `user_version` and the skip decision;
  - the conversion of CSV cells into insert values;
  - the loop over tables that produces a rebuild's inserts.

Layout (one module per file):

- `wrappers.dfy` — `Option` and `Result`.
- `ordered_enum.dfy` — what `OrderedEnum` gives every enumeration: zero-padded `sql_value` strings, string order, and `next(...)` as `FindFirst`.
- `blocks.dfy` — generic facts about consecutive blocks of a sequence, used for the game-group lists.
- `enums.dfy` — the five enumerations and the lemmas about them.
- `mixins.dfy` — the record shapes.
- `sequences.dfy` — Python's collection semantics:
  - subsequences and filtering;
  - last-writer-wins dicts and nested dicts;
  - `max` as the first maximal element;
  - the elements tied at the maximum.
- `collections.dfy` — the resolvers.
- `tables.dfy` — constraints, keys and enum storage.
- `main.dfy` — the URI, the checksum, cell and row coercion, the build decision and the `Pokedex` class.

Behaviours of the code worth knowing, all modelled as written:

- A new, empty database reports `user_version` 0. That is also the stored form of the checksum 2^31, so for CSV files with that checksum the build is skipped on an empty database (`Main.EmptyDatabaseLooksBuiltAtHalfRange`).
- `setup_database` replaces the path. Session makers already built keep the engine of the earlier path (`Main.Pokedex.SetupDatabase`).
- An empty cell in an enum column is an error, even when the column is nullable, because the enum test comes first (`Main.EmptyEnumCellFails`).
- Resolving the latest game group of an empty collection fails, because `max` of nothing raises. Resolving a requested group that no row has gives an empty list.

## Model

| member | source | states |
|---|---|---|
| `Enums.AbilitySlot.Order` | pokedex/enums.py:15-17 | `order` is a position in the declaration list, and the member at that position is this one |
| `Enums.AbilitySlotOrderIsDeclarationIndex` | pokedex/enums.py:25-29 | the i-th declared ability slot has order i |
| `Enums.AbilitySlotValuesAreUnique` | pokedex/enums.py:25-29 | `@unique`: two ability slots with the same value are the same member |
| `Enums.AbilitySlotLessIsStrictTotalOrder` | pokedex/enums.py:10-13 | `<` on ability slots is irreflexive, asymmetric, transitive and total |
| `Enums.AbilitySlotSqlValueSortsByOrder` | pokedex/enums.py:19-22 | comparing two ability slots' `sql_value` strings agrees with `<` |
| `Enums.AbilitySlot.FromValue` | pokedex/enums.py:25-29 | `AbilitySlot(value)` gives a member whose value is `value`, or nothing |
| `Enums.AbilitySlotFromValueIsExact` | pokedex/enums.py:25-29 | `AbilitySlot(value)` is x exactly when x's value is `value` |
| `Enums.AbilitySlotSqlValueExample` | pokedex/enums.py:19-22 | the first ability slot is stored as "0_SLOT_1" |
| `Enums.Game.Order` | pokedex/enums.py:15-17 | `order` is a position in the declaration list, and the member at that position is this one |
| `Enums.GameOrderIsDeclarationIndex` | pokedex/enums.py:32-71 | the i-th declared game has order i |
| `Enums.GameValuesAreUnique` | pokedex/enums.py:32-71 | two games with the same value are the same game |
| `Enums.GameLessIsStrictTotalOrder` | pokedex/enums.py:10-13 | `<` on games is a strict total order |
| `Enums.GameSqlValueSortsByOrder` | pokedex/enums.py:19-22 | comparing two games' `sql_value` strings agrees with `<` |
| `Enums.Game.FromValue` | pokedex/enums.py:32-71 | `Game(value)` gives a game whose value is `value`, or nothing |
| `Enums.GameFromValueIsExact` | pokedex/enums.py:32-71 | `Game(value)` is x exactly when x's value is `value` |
| `Enums.GameSqlValueExample` | pokedex/enums.py:19-22 | RED is stored as "00_RED": the order is padded to the two digits of the last order |
| `Enums.Game.Group` | pokedex/enums.py:73-75 | `game_group` is a group whose `games` list holds the game, and no other group holds it |
| `Enums.GameGroup.Order` | pokedex/enums.py:15-17 | `order` is a position in the declaration list, and the member at that position is this one |
| `Enums.GameGroupOrderIsDeclarationIndex` | pokedex/enums.py:78-100 | the i-th declared game group has order i |
| `Enums.GameGroupValuesAreUnique` | pokedex/enums.py:78-100 | two game groups with the same value are the same group |
| `Enums.GameGroupLessIsStrictTotalOrder` | pokedex/enums.py:10-13 | `<` on game groups is a strict total order |
| `Enums.GameGroupSqlValueSortsByOrder` | pokedex/enums.py:19-22 | comparing two game groups' `sql_value` strings agrees with `<` |
| `Enums.GameGroup.FromValue` | pokedex/enums.py:78-100 | `GameGroup(value)` gives a group whose value is `value`, or nothing |
| `Enums.GameGroupFromValueIsExact` | pokedex/enums.py:78-100 | `GameGroup(value)` is x exactly when x's value is `value` |
| `Enums.GameGroup.Games` | pokedex/enums.py:80-100 | every game group lists at least one game |
| `Enums.GameGroup.Default` | pokedex/enums.py:110-112 | `get_default` is a game group no other group is greater than |
| `Enums.GroupListsPartitionGames` | pokedex/enums.py:80-100 | no game is listed by two game groups |
| `Enums.GroupIsSlice` | pokedex/enums.py:80-100 | the i-th group's `games` list is a consecutive slice of `Game` in declaration order |
| `Enums.GroupIsMonotone` | pokedex/enums.py:73-75 | a later game never belongs to an earlier game group |
| `Enums.ConcatGamesIsAllGames` | pokedex/enums.py:33-100 | the groups' `games` lists, concatenated in group order, are exactly `Game` in declaration order |
| `Enums.HeldItemSlot.Order` | pokedex/enums.py:15-17 | `order` is a position in the declaration list, and the member at that position is this one |
| `Enums.HeldItemSlotOrderIsDeclarationIndex` | pokedex/enums.py:115-119 | the i-th declared held-item slot has order i |
| `Enums.HeldItemSlotValuesAreUnique` | pokedex/enums.py:115-119 | two held-item slots with the same value are the same slot |
| `Enums.HeldItemSlotLessIsStrictTotalOrder` | pokedex/enums.py:10-13 | `<` on held-item slots is a strict total order |
| `Enums.HeldItemSlotSqlValueSortsByOrder` | pokedex/enums.py:19-22 | comparing two held-item slots' `sql_value` strings agrees with `<` |
| `Enums.HeldItemSlot.FromValue` | pokedex/enums.py:115-119 | `HeldItemSlot(value)` gives a slot whose value is `value`, or nothing |
| `Enums.HeldItemSlotFromValueIsExact` | pokedex/enums.py:115-119 | `HeldItemSlot(value)` is x exactly when x's value is `value` |
| `Enums.Language.Order` | pokedex/enums.py:15-17 | `order` is a position in the declaration list, and the member at that position is this one |
| `Enums.LanguageOrderIsDeclarationIndex` | pokedex/enums.py:122-133 | the i-th declared language has order i |
| `Enums.LanguageValuesAreUnique` | pokedex/enums.py:122-133 | two languages with the same value are the same language |
| `Enums.LanguageLessIsStrictTotalOrder` | pokedex/enums.py:10-13 | `<` on languages is a strict total order |
| `Enums.LanguageSqlValueSortsByOrder` | pokedex/enums.py:19-22 | comparing two languages' `sql_value` strings agrees with `<` |
| `Enums.Language.FromValue` | pokedex/enums.py:122-133 | `Language(value)` gives a language whose value is `value`, or nothing |
| `Enums.LanguageFromValueIsExact` | pokedex/enums.py:122-133 | `Language(value)` is x exactly when x's value is `value` |
| `Enums.Language.Default` | pokedex/enums.py:135-137 | `get_default` is the language whose value is "en" |
| `Enums.GetAcceptsEverySpelling` | pokedex/enums.py:139-170 | `get` (`Language.Get`, a lookup of the normalised alias in the alias table) answers language L for every string whose normalised form is that of L's value |
| `Enums.GetAfterUnicodeLowering` | pokedex/enums.py:141 | lowering comes before the a–z filter, so "\u212Ao" (KELVIN SIGN) gives Korean and "\u0130t" (capital I with dot) gives Italian |
| `Enums.NormalizeAlias` | pokedex/enums.py:141 | the normalised alias holds only the letters a–z, after lowering ASCII capitals, KELVIN SIGN and capital I with dot as `str.lower()` does |
| `Enums.NormalizeAliasIsIdempotent` | pokedex/enums.py:141 | normalising an already normalised alias changes nothing |
| `Enums.GetIgnoresCaseAndPunctuation` | pokedex/enums.py:139-170 | `get` of a string and `get` of its normalised form agree |
| `Enums.GetOfValues` | pokedex/enums.py:123-170 | every language's own value, such as "jp-kana" or "zh-trad", is an alias of that language |
| `Enums.GetOfValue` | pokedex/enums.py:123-170 | for every language L, `get(L.value)` is L |
| `Enums.DefaultsAreLatestGroupAndEnglish` | pokedex/enums.py:110-137 | the default game group is the last declared one; `get("en")` is the default language |
| `OrderedEnum.SqlValueShape` | pokedex/enums.py:19-22 | `sql_value` is the order padded with zeros to the width of the last order, then "_" and the name |
| `OrderedEnum.SqlValueSortsByOrder` | pokedex/enums.py:19-22 | two `sql_value` strings of one enumeration compare as their orders do |
| `OrderedEnum.FindFirst` | pokedex/enums.py:75 | `next(x for x in s if p(x))` gives a member of s satisfying p, and gives nothing exactly when no member does |
| `OrderedEnum.FindFirstIsFirst` | pokedex/enums.py:75 | `next` gives the first member, in order, that satisfies p |
| `Mixins.GroupOf` | pokedex/mixins.py:18-54 | `game_group_enum` is missing exactly for unscoped rows; a group-tagged row gives its own group; a game-tagged row gives a group that lists its game |
| `Mixins.GroupOfShape` | pokedex/mixins.py:18-54 | exactly the game-group and game shapes have a game group; the base shapes raise instead |
| `Mixins.MappingKeyOfShape` | pokedex/mixins.py:72-89 | exactly the two mapping shapes carry a mapping key |
| `Mixins.GroupOfFollowsGameOrder` | pokedex/mixins.py:52-54 | of two game-tagged rows, the one of the later game never has the earlier game group |
| `Mixins.GameRowJoinsGroupRow` | pokedex/mixins.py:37-54 | a game-tagged row and a group-tagged row whose group lists the game have the same game group |
| `Mixins.ChangeKeyExtendsLiveKey` | pokedex/mixins.py:109-139 | a change row's primary key is the key of the live row it amends plus its range, so it is strictly longer |
| `Mixins.PrimaryKeyDeterminesTags` | pokedex/mixins.py:95-139 | within one shape, equal primary keys mean equal scope, language and change range |
| `Sequences.Filter` | pokedex/collections.py:89-96 | the filtered list is a subsequence of the input, every kept element passes, and every passing element is kept |
| `Sequences.FilterCounts` | pokedex/collections.py:89-96 | filtering keeps every copy of a passing element and no copy of a failing one |
| `Sequences.FilterKeepsAll` | pokedex/collections.py:89-96 | a filter every element passes returns the input unchanged |
| `Sequences.LastWins` | pokedex/collections.py:37 | a dict comprehension's keys are exactly the keys of its entries |
| `Sequences.LastWinsKeepsLast` | pokedex/collections.py:37 | the value under a key is the one of the last entry with that key |
| `Sequences.MaxByIsFirstMaximal` | pokedex/collections.py:105 | `max(xs, key=...)` on a non-empty list is the first element whose key no other key exceeds |
| `Sequences.TiedAtMaxIsMaximal` | pokedex/collections.py:135-140 | the elements whose key equals the maximum key are non-empty, all maximal, and include every maximal element |
| `Sequences.NestKeys` | pokedex/collections.py:47-53 | the nested dict has an outer key exactly when some entry has it |
| `Sequences.NestInnerKeys` | pokedex/collections.py:47-53 | the nested dict has an (outer, inner) pair exactly when some entry has it |
| `Sequences.NestKeepsLast` | pokedex/collections.py:47-53 | each (outer, inner) slot holds the last entry written there |
| `Sequences.NestHasNoEmptyInner` | pokedex/collections.py:47-53 | no inner dict is empty |
| `Collections.ToGameGroup` | pokedex/collections.py:18 | `GameGroup(arg)` keeps a member, converts a string to the group with that value, and fails only on a string that is no group's value |
| `Collections.ToGameGroupIsExact` | pokedex/collections.py:18 | a string converts to group g exactly when it is g's value |
| `Collections.ToLanguage` | pokedex/collections.py:87 | `Language(arg)` keeps a member, converts a string to the language with that value, and fails only on an unknown string |
| `Collections.ToLanguageIsExact` | pokedex/collections.py:87 | a string converts to language l exactly when it is l's value |
| `Collections.OmittedArgumentsAreDefaults` | pokedex/collections.py:111-118 | an omitted game group is the greatest group and an omitted language is English |
| `Collections.GroupLessIsStrictTotalOrder` | pokedex/collections.py:16 | the order `max` compares game groups by is a strict total order |
| `Collections.LatestGroup` | pokedex/collections.py:16 | `max` over the rows' groups (`Groups`, one per row) is the group of some row, and no row has a greater group |
| `Collections.BaseGet` | pokedex/collections.py:12-20 | `_get` fails exactly on an empty collection without a group, on an unknown group string, or on a row without a game group (`NotImplementedError`); otherwise it returns, in order, exactly the rows of the latest or the requested group, every copy of each |
| `Collections.LatestSelectionIsNonEmpty` | pokedex/collections.py:15-16 | on a non-empty collection the latest group's rows are not empty |
| `Collections.AbsentGroupSelectsNothing` | pokedex/collections.py:17-20 | a requested group that no row has gives an empty list, not an error |
| `Collections.SelectionKeepsDuplicates` | pokedex/collections.py:20 | every copy of a row of the requested group is kept |
| `Collections.SelectionKeepsTags` | pokedex/collections.py:20 | a selection keeps the rows' shape: mapping keys, game keys and game tags stay present |
| `Collections.GroupMappingGet` | pokedex/collections.py:34-37 | the group mapping `get` fails exactly when `_get` does, with its error; otherwise its keys are exactly the mapping keys of the selected rows |
| `Collections.KeyedKeepsLast` | pokedex/collections.py:37 | in the dict of `Keyed` (each row paired with its mapping key), each key maps to the last row with that key |
| `Collections.GroupMappingGetKeepsLast` | pokedex/collections.py:34-37 | each key of the group mapping `get` maps to the last selected row with that key |
| `Collections.NestFilesEveryKey` | pokedex/collections.py:44-53 | nesting `Filed` (each row with its mapping key and game), the per-game mapping has a key exactly when some row has it, and its inner dict is not empty |
| `Collections.NestFilesEveryGame` | pokedex/collections.py:44-53 | `entries[key][game]` exists exactly when some row has that key and game |
| `Collections.NestFilesLastRow` | pokedex/collections.py:44-53 | `entries[key][game]` is the last row with that key and game |
| `Collections.FileRows` | pokedex/collections.py:47-53 | the loop that fills the nested dict builds exactly the last-writer-wins nesting of the rows |
| `Collections.GameMappingGet` | pokedex/collections.py:44-53 | the per-game mapping `get` fails with `_get`'s error, or nests exactly the rows `_get` selects |
| `Collections.MergeLookup` | pokedex/collections.py:73-76 | in `{**group_level, **game_level}` (`Merge`, whose keys are those of both maps) a shared key takes the game-level value and a key only at group level keeps its group value |
| `Collections.GameGroupOrGameMapping.Get` | pokedex/collections.py:69-76 | the combined `get` fails with the group-level error, or the game-level one, or merges the two mappings with the game level winning |
| `Collections.GroupFilter` | pokedex/collections.py:86 | an empty or missing game-group filter means no filter; otherwise the string or member is converted, failing on an unknown string |
| `Collections.LanguageFilter` | pokedex/collections.py:87 | an empty or missing language filter means no filter; otherwise it is converted, failing on an unknown string |
| `Collections.AllOf` | pokedex/collections.py:80-96 | `all` returns the order-preserving subsequence of exactly the rows that match every given filter, every copy of each, the whole collection with no filters; or it fails with the conversion error, or with `NotImplementedError` when a game-group filter meets a row without a game group |
| `Collections.FilterRows` | pokedex/collections.py:89-96 | the loop appending matching rows returns exactly the filtered rows, or fails where a group filter meets a row without a group |
| `Collections.All` | pokedex/collections.py:80-96 | the method `all` returns what `AllOf` specifies |
| `Collections.TranslationsGet` | pokedex/collections.py:99-105 | the translations `get` fails exactly on an unknown language or an empty collection |
| `Collections.TranslationsGetIsFirstMaximal` | pokedex/collections.py:99-105 | on a non-empty collection it returns the first row whose sort key for the language is maximal |
| `Collections.GameGroupTranslationsGet` | pokedex/collections.py:108-120 | the game-group translations `get` fails exactly on an unknown group, an unknown language or an empty collection |
| `Collections.GameGroupTranslationsGetIsFirstMaximal` | pokedex/collections.py:108-120 | on a non-empty collection it returns the first row whose sort key for the language and group is maximal |
| `Collections.GameTranslationsGet` | pokedex/collections.py:123-140 | the game translations `get` fails exactly on an unknown group, an unknown language or an empty collection |
| `Collections.TiedByGameIsMaximal` | pokedex/collections.py:135-140 | the rows tied at the maximum key, paired with their games (`ByGame`) into a dict, hold only maximal rows under their own game, have a key for every maximal row's game, and for each game hold the last maximal row of that game |
| `Collections.GameTranslationsGetIsTiedAtMax` | pokedex/collections.py:123-140 | on a non-empty collection the result is not empty and maps each game of a maximal row to the last maximal row of that game |
| `Tables.KindMembers` | pokedex/tables.py:29-33 | the members of one enum column's type, each of that type |
| `Tables.KindMembersAreAll` | pokedex/tables.py:29-33 | every member of an enumeration is listed among its type's members, at its `order` |
| `Tables.FromSql` | pokedex/tables.py:29-33 | reading a stored string back gives a member of the column's type whose `sql_value` is the string, or nothing |
| `Tables.SqlValueIsUnique` | pokedex/tables.py:29-33 | two members of one type stored as the same string are the same member |
| `Tables.FromSqlIsExact` | pokedex/tables.py:29-33 | a stored string reads back as m exactly when it is m's `sql_value` |
| `Tables.SqlRoundTrip` | pokedex/tables.py:29-33 | a member stored as its `sql_value` reads back as itself |
| `Tables.StoredOrderAgrees` | pokedex/tables.py:29-33 | the database's string order on stored members agrees with the members' order |
| `Tables.FromValue` | pokedex/main.py:89-93 | `next(x for x in type if x.value == value)` gives a member of the type with that value, or nothing |
| `Tables.ValueIsUnique` | pokedex/main.py:89-93 | two members of one type with the same value are the same member |
| `Tables.FromValueIsExact` | pokedex/main.py:89-93 | the lookup gives m exactly when m's value is the cell string |
| `Tables.SpeciesFormsStrictlyOrdered` | pokedex/tables.py:279-281 | under the `order` constraint, a species' forms listed by form order (`PokemonSpecies.pokemon`, tables.py:401-403) have strictly increasing form orders |
| `Tables.SpeciesFormsOrderIsDetermined` | pokedex/tables.py:401-403 | under the `order` constraint (tables.py:279-281), ordering a species' forms by form order alone gives one list: two orderings of the same forms are equal |
| `Tables.DistinctSlotsAreAtMostTwo` | pokedex/tables.py:310 | `slot IN (1, 2)` (the `Slot` type, checked by `CheckSlot`) admits at most two distinct slot values |
| `Tables.AtMostTwoEggGroups` | pokedex/tables.py:306-310 | with (pokemon, slot) as primary key, a Pokémon has at most two egg groups |
| `Tables.AtMostTwoTypes` | pokedex/tables.py:458-462 | with (pokemon, slot) as primary key, a Pokémon has at most two types |
| `Tables.KeyedDict` | pokedex/tables.py:220 | `attribute_keyed_dict` has exactly the keys of its rows |
| `Tables.KeyedDictKeepsEveryRow` | pokedex/tables.py:220 | with unique keys, the dict built from each row paired with its key (`KeyedEntries`) holds every row under its own key |
| `Tables.FlavorTextDictKeepsEveryRow` | pokedex/tables.py:362-364 | keyed by (language, game), one Pokémon's flavour texts lose no row |
| `Tables.WildHeldGameDictKeepsEveryRow` | pokedex/tables.py:490-492 | keyed by (game, slot), one Pokémon's game-level wild held items lose no row |
| `Tables.WildHeldGroupDictKeepsEveryRow` | pokedex/tables.py:505-507 | keyed by (game group, slot), one Pokémon's group-level wild held items lose no row |
| `Tables.SetOfIsNoLarger` | pokedex/tables.py:121 | a set built from a list has no more elements than the list |
| `Tables.PokemonWildHeld` | pokedex/tables.py:119-121 | a Pokémon is in `pokemon_wild_held` exactly when it is in either relationship's list |
| `Tables.PokemonWildHeldIsNoLarger` | pokedex/tables.py:119-121 | the union has no more Pokémon than the two lists together |
| `Main.DatabaseUriShape` | pokedex/main.py:23-30 | the URI is the engine prefix, the path, then "?uri=true" and, when read-only, "&mode=ro" |
| `Main.DatabaseUriRoundTrip` | pokedex/main.py:23-30 | the path, the read-only flag and the driver can be read back from the URI |
| `Main.DatabaseUriIsInjective` | pokedex/main.py:23-30 | different paths or options give different URIs |
| `Main.UserVersion` | pokedex/main.py:62 | the stored checksum lies in the signed 32-bit range |
| `Main.UserVersionIsInjective` | pokedex/main.py:62 | two checksums are stored alike only when they are equal |
| `Main.Checksum` | pokedex/main.py:57-62 | the loop chains `crc32` over the files from `crc32(b"")` and shifts the result into the signed range |
| `Main.CoerceCell` | pokedex/main.py:86-98 | an enum cell becomes the member with that value or fails; an empty cell of a nullable column becomes null; any other cell passes through |
| `Main.EnumCellIsExact` | pokedex/main.py:86-93 | an enum cell converts to m exactly when it spells m's value |
| `Main.EnumCellRoundTrip` | pokedex/main.py:86-93 | a member's value converts back to that member, and its stored string reads back as it |
| `Main.EmptyEnumCellFails` | pokedex/main.py:86-98 | an empty cell in an enum column fails even when the column is nullable |
| `Main.FoldEntriesFailsAtFirstRejection` | pokedex/main.py:84-98 | a row converts exactly when every cell does; otherwise it fails with the first bad cell's error |
| `Main.FoldEntriesKeepsFirstError` | pokedex/main.py:84-98 | once a prefix of a row fails, the row fails with the same error |
| `Main.FoldEntriesHasEveryEntry` | pokedex/main.py:84-98 | with distinct column names, the row dict holds each cell's converted value under its column |
| `Main.FoldEntriesHasOnlyTheirNames` | pokedex/main.py:84-98 | the row dict has exactly the row's column names |
| `Main.CoerceRow` | pokedex/main.py:84-98 | the cell loop builds exactly the specified row dict, or stops at the first bad cell |
| `Main.CoercedRowsIsOkIff` | pokedex/main.py:82-99 | a file converts exactly when every row does |
| `Main.CoercedRowsAt` | pokedex/main.py:82-99 | the i-th mapping is the i-th row converted |
| `Main.CoercedRowsKeepsFirstError` | pokedex/main.py:82-99 | once some rows fail, the file fails with the same error |
| `Main.CoerceRows` | pokedex/main.py:82-99 | the row loop builds exactly the specified mappings, or stops at the first bad row |
| `Main.LoadedFiles` | pokedex/main.py:74-80 | the tables that are loaded all have a CSV file with a header |
| `Main.LoadedTablesIsOkIff` | pokedex/main.py:74-99 | a rebuild's load succeeds exactly when every loaded table's rows convert |
| `Main.LoadedTablesAreLoadedFiles` | pokedex/main.py:74-99 | the inserts are the loaded tables in `sorted_tables` order, each with its converted rows |
| `Main.LoadedTablesKeepsFirstError` | pokedex/main.py:74-99 | once some tables fail, the load fails with the same error |
| `Main.LoadTables` | pokedex/main.py:74-99 | the table loop produces exactly the specified inserts, or the first error |
| `Main.Build` | pokedex/main.py:52-102 | `skip_build` skips exactly; the build stops as up to date exactly when the stored version equals the new one; a rebuild stamps the new version |
| `Main.SecondBuildIsUpToDate` | pokedex/main.py:64-68 | after a rebuild, building again from unchanged files finds the database up to date |
| `Main.ChangedFilesRebuild` | pokedex/main.py:64-68 | a database stamped from files with another checksum is never taken as up to date |
| `Main.EmptyDatabaseLooksBuiltAtHalfRange` | pokedex/main.py:62-68 | when the checksum is 2^31, a database reporting `user_version` 0 is taken as up to date |
| `Main.Pokedex.constructor` | pokedex/main.py:18-21 | a new `Pokedex` has no path and no session makers |
| `Main.Pokedex.DatabaseUriOf` | pokedex/main.py:23-30 | `_database_uri` for the current path |
| `Main.Pokedex.Session` | pokedex/main.py:32-40 | `session` returns the cached maker; without one, it fails when no path is set, or builds, caches and returns a maker on the read-only URI; the maker is built at most once |
| `Main.Pokedex.AsyncSession` | pokedex/main.py:42-50 | `async_session` does the same with the read-only aiosqlite URI |
| `Main.Pokedex.SetupDatabase` | pokedex/main.py:52-102 | `setup_database` records the path, leaves the session makers alone, and ends as `Build` decides |

## Left out

- SQLAlchemy is not part of this model. That covers engines, sessions, `relationship`, `association_proxy`, `create_all` and running the inserts. Rows are plain datatypes. A session maker stands for the URI of its engine. A keyed relationship stands for the list of its rows.
- Reading files is not modelled: CSV parsing, globbing `*.csv` and truncating the database file. The files arrive as byte strings, already in sorted order. A table's CSV file arrives as an optional header flag plus rows of (column, value) pairs.
- `zlib.crc32` is a parameter of the checksum.
- The `PRAGMA user_version` query is a parameter: the stored version, where `None` stands for the `OperationalError` of a database without tables. Writing the new version is the `userVersion` of the `Rebuilt` outcome.
- `csv.DictReader`'s `restkey` and `restval` for ragged rows are not modelled. A row is exactly the pairs of its cells.
- Enums.NormalizeAlias: `str.lower()` is modelled for ASCII capitals and for the two non-ASCII characters whose lower-case form contains a letter a–z (KELVIN SIGN becomes `k`; capital I with dot becomes `i` and a combining dot). Every other character is kept as it is and then removed by the a–z filter; this relies on no other character lowering to an ASCII letter.
- `sort_key` and `mapping_key` are defined in none of the modelled files. The sort key is a function parameter with a strict total order on its results. The mapping key is an optional tag of the record.
- The bodies of `ChangesTable`, `NamesTranslationsTable` and `GameGroupTranslationsTableT` are not part of this model. Change tables are modelled only through their key columns; `PokemonFlavorTextChange` and the other change tables are not modelled.
- `GameCollectionTable.game_group_enum` reads the group through the related `games` table row. The model uses `Game.Group()` from the enumerations, assuming the `games` table agrees with `GameGroup.games`.
- The wild-held-item relationships are modelled by their lists of Pokémon, not by the join. At tables.py:112-117 both relationships name `pokemon_wild_held_items_game` as their association table, so in the database both lists are the same.
- `key_identifier` (tables.py:363-364, 491-492, 506-507) returns the related `Language`, `Game`, `GameGroup` and `HeldItemSlot` rows through their relationships. The model keys the dicts by those rows' enumeration members, which name the rows one to one.
- `async_session` is modelled as a lazily built maker; the async driver's behaviour is not.
- `Collections.GameGroupOrGameMapping.Get`, `Collections.GameMappingGet` and `Collections.All` delegate their loops to `FileRows` and `FilterRows`, which hold the loop invariants.
- `Tables.SpeciesFormsStrictlyOrdered`, `Tables.SpeciesFormsOrderIsDetermined`, `Tables.AtMostTwoEggGroups` and `Tables.AtMostTwoTypes` take the unique constraints as preconditions; the database enforcing them is not modelled.
