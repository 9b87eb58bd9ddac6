/**
 * The row invariants and keys of `pokedex/tables.py`: how enum columns are stored, the CHECK
 * ranges (as subset types on the row fields), the primary and unique keys, the
 * `key_identifier` tuples that key a Pokémon's relationship dicts, and `Item.pokemon_wild_held`.
 * Rows are plain values; a relationship is the sequence of rows it loads, and the Pokémon and
 * items it points at are their identifiers.
 */
module Tables {
  import opened Wrappers
  import opened Enums
  import OrderedEnum
  import Sequences

  /* ---------- Enum columns ---------- */

  /** The enumerations a column can be declared with. */
  datatype EnumKind = AbilitySlotKind | GameKind | GameGroupKind | HeldItemSlotKind | LanguageKind

  /** A member of one of the enumerations, as an enum column holds it. */
  datatype Member =
    | AbilitySlotMember(abilitySlot: AbilitySlot)
    | GameMember(game: Game)
    | GameGroupMember(gameGroup: GameGroup)
    | HeldItemSlotMember(heldItemSlot: HeldItemSlot)
    | LanguageMember(language: Language)
  {
    function Kind(): EnumKind
    {
      match this
      case AbilitySlotMember(_) => AbilitySlotKind
      case GameMember(_) => GameKind
      case GameGroupMember(_) => GameGroupKind
      case HeldItemSlotMember(_) => HeldItemSlotKind
      case LanguageMember(_) => LanguageKind
    }

    function Order(): nat
    {
      match this
      case AbilitySlotMember(x) => x.Order()
      case GameMember(x) => x.Order()
      case GameGroupMember(x) => x.Order()
      case HeldItemSlotMember(x) => x.Order()
      case LanguageMember(x) => x.Order()
    }

    function Value(): string
    {
      match this
      case AbilitySlotMember(x) => x.Value()
      case GameMember(x) => x.Value()
      case GameGroupMember(x) => x.Value()
      case HeldItemSlotMember(x) => x.Value()
      case LanguageMember(x) => x.Value()
    }

    /** The string the column stores (`values_callable` maps each member to its `sql_value`). */
    function SqlValue(): string
    {
      match this
      case AbilitySlotMember(x) => x.SqlValue()
      case GameMember(x) => x.SqlValue()
      case GameGroupMember(x) => x.SqlValue()
      case HeldItemSlotMember(x) => x.SqlValue()
      case LanguageMember(x) => x.SqlValue()
    }
  }

  /** The members of one enumeration in declaration order, as iterating the enum class yields them. */
  function KindMembers(kind: EnumKind): (r: seq<Member>)
    ensures forall i :: 0 <= i < |r| ==> r[i].Kind() == kind
  {
    match kind
    case AbilitySlotKind =>
      seq(AbilitySlot.Count, i requires 0 <= i < AbilitySlot.Count => AbilitySlotMember(AbilitySlot.At(i)))
    case GameKind =>
      seq(Game.Count, i requires 0 <= i < Game.Count => GameMember(Game.At(i)))
    case GameGroupKind =>
      seq(GameGroup.Count, i requires 0 <= i < GameGroup.Count => GameGroupMember(GameGroup.At(i)))
    case HeldItemSlotKind =>
      seq(HeldItemSlot.Count, i requires 0 <= i < HeldItemSlot.Count => HeldItemSlotMember(HeldItemSlot.At(i)))
    case LanguageKind =>
      seq(Language.Count, i requires 0 <= i < Language.Count => LanguageMember(Language.At(i)))
  }

  /** Every member of an enumeration is listed, at its `order`. */
  lemma KindMembersAreAll(m: Member)
    ensures m.Order() < |KindMembers(m.Kind())| && KindMembers(m.Kind())[m.Order()] == m
  {
  }

  function SqlIs(s: string): Member -> bool
  {
    (m: Member) => m.SqlValue() == s
  }

  /** Loading a stored string back into the member whose `sql_value` it is; `None` for any other string. */
  function FromSql(kind: EnumKind, s: string): (r: Option<Member>)
    ensures r.Some? ==> r.value.Kind() == kind && r.value.SqlValue() == s
  {
    OrderedEnum.FindFirst(KindMembers(kind), SqlIs(s))
  }

  /** Distinct `AbilitySlot` members have distinct `sql_value` strings. */
  lemma AbilitySlotSqlValuesDiffer(x: AbilitySlot, y: AbilitySlot)
    ensures x.SqlValue() == y.SqlValue() ==> x == y
  {
    OrderedEnum.StrLessIrreflexive(x.SqlValue());
    AbilitySlotSqlValueSortsByOrder(x, y);
    AbilitySlotSqlValueSortsByOrder(y, x);
    AbilitySlotLessIsStrictTotalOrder(x, y, x);
  }

  /** Distinct `Game` members have distinct `sql_value` strings. */
  lemma GameSqlValuesDiffer(x: Game, y: Game)
    ensures x.SqlValue() == y.SqlValue() ==> x == y
  {
    OrderedEnum.StrLessIrreflexive(x.SqlValue());
    GameSqlValueSortsByOrder(x, y);
    GameSqlValueSortsByOrder(y, x);
    GameLessIsStrictTotalOrder(x, y, x);
  }

  /** Distinct `GameGroup` members have distinct `sql_value` strings. */
  lemma GameGroupSqlValuesDiffer(x: GameGroup, y: GameGroup)
    ensures x.SqlValue() == y.SqlValue() ==> x == y
  {
    OrderedEnum.StrLessIrreflexive(x.SqlValue());
    GameGroupSqlValueSortsByOrder(x, y);
    GameGroupSqlValueSortsByOrder(y, x);
    GameGroupLessIsStrictTotalOrder(x, y, x);
  }

  /** Distinct `HeldItemSlot` members have distinct `sql_value` strings. */
  lemma HeldItemSlotSqlValuesDiffer(x: HeldItemSlot, y: HeldItemSlot)
    ensures x.SqlValue() == y.SqlValue() ==> x == y
  {
    OrderedEnum.StrLessIrreflexive(x.SqlValue());
    HeldItemSlotSqlValueSortsByOrder(x, y);
    HeldItemSlotSqlValueSortsByOrder(y, x);
    HeldItemSlotLessIsStrictTotalOrder(x, y, x);
  }

  /** Distinct `Language` members have distinct `sql_value` strings. */
  lemma LanguageSqlValuesDiffer(x: Language, y: Language)
    ensures x.SqlValue() == y.SqlValue() ==> x == y
  {
    OrderedEnum.StrLessIrreflexive(x.SqlValue());
    LanguageSqlValueSortsByOrder(x, y);
    LanguageSqlValueSortsByOrder(y, x);
    LanguageLessIsStrictTotalOrder(x, y, x);
  }

  /** Within one enumeration, distinct members are stored as distinct strings. */
  lemma SqlValueIsUnique(a: Member, b: Member)
    requires a.Kind() == b.Kind() && a.SqlValue() == b.SqlValue()
    ensures a == b
  {
    match a
    case AbilitySlotMember(x) => AbilitySlotSqlValuesDiffer(x, b.abilitySlot);
    case GameMember(x) => GameSqlValuesDiffer(x, b.game);
    case GameGroupMember(x) => GameGroupSqlValuesDiffer(x, b.gameGroup);
    case HeldItemSlotMember(x) => HeldItemSlotSqlValuesDiffer(x, b.heldItemSlot);
    case LanguageMember(x) => LanguageSqlValuesDiffer(x, b.language);
  }

  /** Loading a stored string finds exactly the member of the column's enumeration stored as it. */
  lemma FromSqlIsExact(kind: EnumKind, s: string, m: Member)
    ensures FromSql(kind, s) == Some(m) <==> m.Kind() == kind && m.SqlValue() == s
  {
    if m.Kind() == kind && m.SqlValue() == s {
      KindMembersAreAll(m);
      assert SqlIs(s)(KindMembers(kind)[m.Order()]);
      var r := FromSql(kind, s);
      SqlValueIsUnique(r.value, m);
    }
  }

  /** Storing a member and loading it back gives the member. */
  lemma SqlRoundTrip(m: Member)
    ensures FromSql(m.Kind(), m.SqlValue()) == Some(m)
  {
    FromSqlIsExact(m.Kind(), m.SqlValue(), m);
  }

  /** Sorting a column by its stored strings sorts it by declaration order. */
  lemma StoredOrderAgrees(a: Member, b: Member)
    requires a.Kind() == b.Kind()
    ensures OrderedEnum.StrLess(a.SqlValue(), b.SqlValue()) <==> a.Order() < b.Order()
  {
    match a
    case AbilitySlotMember(x) => AbilitySlotSqlValueSortsByOrder(x, b.abilitySlot);
    case GameMember(x) => GameSqlValueSortsByOrder(x, b.game);
    case GameGroupMember(x) => GameGroupSqlValueSortsByOrder(x, b.gameGroup);
    case HeldItemSlotMember(x) => HeldItemSlotSqlValueSortsByOrder(x, b.heldItemSlot);
    case LanguageMember(x) => LanguageSqlValueSortsByOrder(x, b.language);
  }

  function ValueIs(value: string): Member -> bool
  {
    (m: Member) => m.Value() == value
  }

  /**
   * `next(x for x in python_type if x.value == value)`: the first member of the enumeration whose
   * value is `value`; `None` where `next` raises `StopIteration`.
   */
  function FromValue(kind: EnumKind, value: string): (r: Option<Member>)
    ensures r.Some? ==> r.value.Kind() == kind && r.value.Value() == value
  {
    OrderedEnum.FindFirst(KindMembers(kind), ValueIs(value))
  }

  /** Within one enumeration, distinct members have distinct values (`@unique`). */
  lemma ValueIsUnique(a: Member, b: Member)
    requires a.Kind() == b.Kind() && a.Value() == b.Value()
    ensures a == b
  {
    match a
    case AbilitySlotMember(x) => AbilitySlotValuesAreUnique(x, b.abilitySlot);
    case GameMember(x) => GameValuesAreUnique(x, b.game);
    case GameGroupMember(x) => GameGroupValuesAreUnique(x, b.gameGroup);
    case HeldItemSlotMember(x) => HeldItemSlotValuesAreUnique(x, b.heldItemSlot);
    case LanguageMember(x) => LanguageValuesAreUnique(x, b.language);
  }

  /** No member has the empty string as its value. */
  lemma MemberValueIsNonEmpty(m: Member)
    ensures |m.Value()| > 0
  {
  }

  /** Looking a value up finds exactly the member of that enumeration with that value. */
  lemma FromValueIsExact(kind: EnumKind, value: string, m: Member)
    ensures FromValue(kind, value) == Some(m) <==> m.Kind() == kind && m.Value() == value
  {
    if m.Kind() == kind && m.Value() == value {
      KindMembersAreAll(m);
      assert ValueIs(value)(KindMembers(kind)[m.Order()]);
      var r := FromValue(kind, value);
      ValueIsUnique(r.value, m);
    }
  }

  /* ---------- CHECK constraints ---------- */

  /** `slot IN (1, 2)`. */
  type Slot = s: int | s == 1 || s == 2 witness 1

  /** `value BETWEEN 0 AND 3`. */
  type EvYield = v: int | 0 <= v <= 3

  /** `value BETWEEN 1 AND 255`. */
  type BaseStat = v: int | 1 <= v <= 255 witness 1

  /** The CHECK on a slot column: the value is stored as is, or the insert is refused. */
  function CheckSlot(v: int): (r: Option<Slot>)
    ensures r.Some? <==> v in {1, 2}
    ensures r.Some? ==> r.value == v
  {
    if v == 1 || v == 2 then Some(v) else None
  }

  /** The CHECK on an EV-yield value. */
  function CheckEvYield(v: int): (r: Option<EvYield>)
    ensures r.Some? <==> 0 <= v <= 3
    ensures r.Some? ==> r.value == v
  {
    if 0 <= v <= 3 then Some(v) else None
  }

  /** The CHECK on a base-stat value. */
  function CheckBaseStat(v: int): (r: Option<BaseStat>)
    ensures r.Some? <==> 1 <= v <= 255
    ensures r.Some? ==> r.value == v
  {
    if 1 <= v <= 255 then Some(v) else None
  }

  /* ---------- Rows and keys ---------- */

  /** `pokemon`: the unique constraint on (`pokemon_species_identifier`, `form_order`). */
  datatype Pokemon = Pokemon(identifier: string, species: string, formOrder: int)

  /** `pokemon_egg_groups` and `pokemon_egg_group_changes` (without the change range). */
  datatype PokemonEggGroup = PokemonEggGroup(pokemon: string, slot: Slot, eggGroup: string)

  /** `pokemon_types` and `pokemon_type_changes` (without the change range). */
  datatype PokemonType = PokemonType(pokemon: string, slot: Slot, typeIdentifier: string)

  /** `pokemon_evs_yield` and `pokemon_ev_yield_changes` (without the change range). */
  datatype PokemonEvYield = PokemonEvYield(pokemon: string, stat: string, value: EvYield)

  /** `pokemon_stats` and `pokemon_stat_changes` (without the change range). */
  datatype PokemonStat = PokemonStat(pokemon: string, stat: string, value: BaseStat)

  /** `pokemon_flavor_text`: a game-scoped translation. */
  datatype PokemonFlavorText = PokemonFlavorText(pokemon: string, game: Game, language: Language,
                                                 flavorText: string)

  /** `pokemon_wild_held_items_game`. */
  datatype PokemonWildHeldItemGame = PokemonWildHeldItemGame(pokemon: string, game: Game,
                                                             slot: HeldItemSlot, item: string)

  /** `pokemon_wild_held_items_game_group`. */
  datatype PokemonWildHeldItemGameGroup =
    PokemonWildHeldItemGameGroup(pokemon: string, gameGroup: GameGroup, slot: HeldItemSlot,
                                 item: string)

  /** No two rows share a key. */
  predicate UniqueBy<T, K(==)>(rows: seq<T>, key: T -> K)
  {
    forall i, j :: 0 <= i < j < |rows| ==> key(rows[i]) != key(rows[j])
  }

  /** Every row belongs to the Pokémon `p`: the rows of one of its relationships. */
  predicate OwnedBy<T>(rows: seq<T>, owner: T -> string, p: string)
  {
    forall i :: 0 <= i < |rows| ==> owner(rows[i]) == p
  }

  function SpeciesFormOrder(p: Pokemon): (string, int) { (p.species, p.formOrder) }

  function SpeciesOf(p: Pokemon): string { p.species }

  /** `order_by="Pokemon.form_order"`: no form comes after one with a greater form order. */
  predicate SortedByFormOrder(ps: seq<Pokemon>)
  {
    forall i, j :: 0 <= i < j < |ps| ==> ps[i].formOrder <= ps[j].formOrder
  }

  /**
   * `PokemonSpecies.pokemon` under the `order` constraint: one species' forms, ordered by
   * form order, have strictly increasing form orders.
   */
  lemma SpeciesFormsStrictlyOrdered(ps: seq<Pokemon>, species: string)
    requires UniqueBy(ps, SpeciesFormOrder) && OwnedBy(ps, SpeciesOf, species)
    requires SortedByFormOrder(ps)
    ensures forall i, j :: 0 <= i < j < |ps| ==> ps[i].formOrder < ps[j].formOrder
  {
    forall i, j | 0 <= i < j < |ps|
      ensures ps[i].formOrder < ps[j].formOrder
    {
      assert SpeciesOf(ps[i]) == SpeciesOf(ps[j]);
      assert SpeciesFormOrder(ps[i]) != SpeciesFormOrder(ps[j]);
    }
  }

  /** Two orderings by form order of the same forms of one species start with the same form. */
  lemma SortedFormsShareFirst(a: seq<Pokemon>, b: seq<Pokemon>, species: string)
    requires UniqueBy(a, SpeciesFormOrder) && OwnedBy(a, SpeciesOf, species)
    requires SortedByFormOrder(a) && SortedByFormOrder(b) && multiset(a) == multiset(b)
    requires |a| > 0
    ensures |b| > 0 && a[0] == b[0]
  {
    assert a[0] in multiset(b);
    assert b[0] in multiset(a);
    var k :| 0 <= k < |a| && a[k] == b[0];
    var m :| 0 <= m < |b| && b[m] == a[0];
    assert a[0].formOrder <= a[k].formOrder;
    assert b[0].formOrder <= b[m].formOrder;
  }

  /**
   * Under the `order` constraint, ordering a species' forms by form order alone leaves no
   * ties to break: any two orderings of the same forms are the same list.
   */
  lemma {:induction false} SpeciesFormsOrderIsDetermined(a: seq<Pokemon>, b: seq<Pokemon>,
                                                        species: string)
    requires UniqueBy(a, SpeciesFormOrder) && OwnedBy(a, SpeciesOf, species)
    requires SortedByFormOrder(a) && SortedByFormOrder(b) && multiset(a) == multiset(b)
    ensures a == b
    decreases |a|
  {
    assert |a| == |multiset(a)| == |multiset(b)| == |b|;
    if |a| > 0 {
      SortedFormsShareFirst(a, b, species);
      assert a == [a[0]] + a[1..] && b == [b[0]] + b[1..];
      assert multiset(a[1..]) == multiset(b[1..]) by {
        assert multiset(a[1..]) == multiset(a) - multiset{a[0]};
        assert multiset(b[1..]) == multiset(b) - multiset{b[0]};
      }
      SpeciesFormsOrderIsDetermined(a[1..], b[1..], species);
    }
  }

  function EggGroupPrimaryKey(r: PokemonEggGroup): (string, int) { (r.pokemon, r.slot) }
  function EggGroupOwner(r: PokemonEggGroup): string { r.pokemon }
  function TypePrimaryKey(r: PokemonType): (string, int) { (r.pokemon, r.slot) }
  function TypeOwner(r: PokemonType): string { r.pokemon }

  /** Among three slots two are equal. */
  lemma ThreeSlotsRepeat(slots: seq<Slot>)
    ensures |slots| > 2 ==> slots[0] == slots[1] || slots[0] == slots[2] || slots[1] == slots[2]
  {
  }

  /** Pairwise distinct slots number at most two. */
  lemma DistinctSlotsAreAtMostTwo(slots: seq<Slot>)
    requires forall i, j :: 0 <= i < j < |slots| ==> slots[i] != slots[j]
    ensures |slots| <= 2
  {
    ThreeSlotsRepeat(slots);
  }

  /** A Pokémon has at most two egg groups: its rows have distinct slots in {1, 2}. */
  lemma AtMostTwoEggGroups(rows: seq<PokemonEggGroup>, p: string)
    requires UniqueBy(rows, EggGroupPrimaryKey) && OwnedBy(rows, EggGroupOwner, p)
    ensures |rows| <= 2
  {
    var slots := seq(|rows|, i requires 0 <= i < |rows| => rows[i].slot);
    forall i, j | 0 <= i < j < |slots|
      ensures slots[i] != slots[j]
    {
      assert EggGroupPrimaryKey(rows[i]) != EggGroupPrimaryKey(rows[j]);
      assert EggGroupOwner(rows[i]) == EggGroupOwner(rows[j]);
    }
    DistinctSlotsAreAtMostTwo(slots);
  }

  /** A Pokémon has at most two types. */
  lemma AtMostTwoTypes(rows: seq<PokemonType>, p: string)
    requires UniqueBy(rows, TypePrimaryKey) && OwnedBy(rows, TypeOwner, p)
    ensures |rows| <= 2
  {
    var slots := seq(|rows|, i requires 0 <= i < |rows| => rows[i].slot);
    forall i, j | 0 <= i < j < |slots|
      ensures slots[i] != slots[j]
    {
      assert TypePrimaryKey(rows[i]) != TypePrimaryKey(rows[j]);
      assert TypeOwner(rows[i]) == TypeOwner(rows[j]);
    }
    DistinctSlotsAreAtMostTwo(slots);
  }

  /** Each row paired with its key. */
  function KeyedEntries<T, K>(rows: seq<T>, key: T -> K): (r: seq<(K, T)>)
    ensures |r| == |rows| && forall i :: 0 <= i < |rows| ==> r[i] == (key(rows[i]), rows[i])
  {
    seq(|rows|, i requires 0 <= i < |rows| => (key(rows[i]), rows[i]))
  }

  /** `attribute_keyed_dict(key)` over a relationship's rows: later rows overwrite earlier ones. */
  function KeyedDict<T, K>(rows: seq<T>, key: T -> K): (d: map<K, T>)
    ensures d.Keys == set i | 0 <= i < |rows| :: key(rows[i])
  {
    var entries := KeyedEntries(rows, key);
    assert (set i | 0 <= i < |entries| :: entries[i].0) == set i | 0 <= i < |rows| :: key(rows[i]);
    Sequences.LastWins(entries)
  }

  /** With unique keys, the dict holds every row under its own key. */
  lemma KeyedDictKeepsEveryRow<T, K>(rows: seq<T>, key: T -> K)
    requires UniqueBy(rows, key)
    ensures forall i :: 0 <= i < |rows| ==> KeyedDict(rows, key)[key(rows[i])] == rows[i]
  {
    var entries := KeyedEntries(rows, key);
    forall i | 0 <= i < |rows|
      ensures KeyedDict(rows, key)[key(rows[i])] == rows[i]
    {
      Sequences.LastWinsKeepsLast(entries, key(rows[i]));
      var j :| Sequences.IsLastWithKey(entries, j, key(rows[i]))
               && entries[j].1 == Sequences.LastWins(entries)[key(rows[i])];
      if i < j {
        assert key(rows[i]) != key(rows[j]);
      }
    }
  }

  /** `PokemonFlavorText.key_identifier`: (language, game). */
  function FlavorTextKey(r: PokemonFlavorText): (Language, Game) { (r.language, r.game) }
  function FlavorTextPrimaryKey(r: PokemonFlavorText): (string, Game, Language)
  {
    (r.pokemon, r.game, r.language)
  }
  function FlavorTextOwner(r: PokemonFlavorText): string { r.pokemon }

  /** `Pokemon.flavor_text_associations` loses no row: within one Pokémon (language, game) is the primary key. */
  lemma FlavorTextDictKeepsEveryRow(rows: seq<PokemonFlavorText>, p: string)
    requires UniqueBy(rows, FlavorTextPrimaryKey) && OwnedBy(rows, FlavorTextOwner, p)
    ensures forall i :: 0 <= i < |rows| ==> KeyedDict(rows, FlavorTextKey)[FlavorTextKey(rows[i])] == rows[i]
  {
    forall i, j | 0 <= i < j < |rows|
      ensures FlavorTextKey(rows[i]) != FlavorTextKey(rows[j])
    {
      assert FlavorTextPrimaryKey(rows[i]) != FlavorTextPrimaryKey(rows[j]);
      assert FlavorTextOwner(rows[i]) == FlavorTextOwner(rows[j]);
    }
    KeyedDictKeepsEveryRow(rows, FlavorTextKey);
  }

  /** `PokemonWildHeldItemGame.key_identifier`: (game, slot). */
  function WildHeldGameKey(r: PokemonWildHeldItemGame): (Game, HeldItemSlot) { (r.game, r.slot) }
  function WildHeldGamePrimaryKey(r: PokemonWildHeldItemGame): (string, Game, HeldItemSlot)
  {
    (r.pokemon, r.game, r.slot)
  }
  function WildHeldGameOwner(r: PokemonWildHeldItemGame): string { r.pokemon }

  /** `Pokemon.wild_held_item_game_associations` loses no row. */
  lemma WildHeldGameDictKeepsEveryRow(rows: seq<PokemonWildHeldItemGame>, p: string)
    requires UniqueBy(rows, WildHeldGamePrimaryKey) && OwnedBy(rows, WildHeldGameOwner, p)
    ensures forall i :: 0 <= i < |rows| ==> KeyedDict(rows, WildHeldGameKey)[WildHeldGameKey(rows[i])] == rows[i]
  {
    forall i, j | 0 <= i < j < |rows|
      ensures WildHeldGameKey(rows[i]) != WildHeldGameKey(rows[j])
    {
      assert WildHeldGamePrimaryKey(rows[i]) != WildHeldGamePrimaryKey(rows[j]);
      assert WildHeldGameOwner(rows[i]) == WildHeldGameOwner(rows[j]);
    }
    KeyedDictKeepsEveryRow(rows, WildHeldGameKey);
  }

  /** `PokemonWildHeldItemGameGroup.key_identifier`: (game_group, slot). */
  function WildHeldGroupKey(r: PokemonWildHeldItemGameGroup): (GameGroup, HeldItemSlot)
  {
    (r.gameGroup, r.slot)
  }
  function WildHeldGroupPrimaryKey(r: PokemonWildHeldItemGameGroup): (string, GameGroup, HeldItemSlot)
  {
    (r.pokemon, r.gameGroup, r.slot)
  }
  function WildHeldGroupOwner(r: PokemonWildHeldItemGameGroup): string { r.pokemon }

  /** `Pokemon.wild_held_item_game_group_associations` loses no row. */
  lemma WildHeldGroupDictKeepsEveryRow(rows: seq<PokemonWildHeldItemGameGroup>, p: string)
    requires UniqueBy(rows, WildHeldGroupPrimaryKey) && OwnedBy(rows, WildHeldGroupOwner, p)
    ensures forall i :: 0 <= i < |rows| ==> KeyedDict(rows, WildHeldGroupKey)[WildHeldGroupKey(rows[i])] == rows[i]
  {
    forall i, j | 0 <= i < j < |rows|
      ensures WildHeldGroupKey(rows[i]) != WildHeldGroupKey(rows[j])
    {
      assert WildHeldGroupPrimaryKey(rows[i]) != WildHeldGroupPrimaryKey(rows[j]);
      assert WildHeldGroupOwner(rows[i]) == WildHeldGroupOwner(rows[j]);
    }
    KeyedDictKeepsEveryRow(rows, WildHeldGroupKey);
  }

  /* ---------- Item.pokemon_wild_held ---------- */

  /** The distinct elements of a list, `{*xs}`. */
  function SetOf<T>(xs: seq<T>): set<T>
  {
    set i | 0 <= i < |xs| :: xs[i]
  }

  /** A set built from a list has no more elements than the list. */
  lemma {:induction false} SetOfIsNoLarger<T>(xs: seq<T>)
    ensures |SetOf(xs)| <= |xs|
  {
    if |xs| > 0 {
      var n := |xs| - 1;
      SetOfIsNoLarger(xs[..n]);
      assert SetOf(xs) == SetOf(xs[..n]) + {xs[n]} by {
        forall x | x in SetOf(xs) ensures x in SetOf(xs[..n]) + {xs[n]} {
          var i :| 0 <= i < |xs| && xs[i] == x;
          if i < n { assert xs[..n][i] == x; }
        }
      }
    }
  }

  /**
   * `Item.pokemon_wild_held`: the Pokémon holding the item in either relationship, as a set,
   * so a Pokémon listed several times counts once.
   */
  function PokemonWildHeld(byGameGroup: seq<string>, byGame: seq<string>): (r: set<string>)
    ensures forall p :: p in r <==> p in byGameGroup || p in byGame
  {
    SetOf(byGameGroup) + SetOf(byGame)
  }

  /** The union never has more Pokémon than the two lists together. */
  lemma PokemonWildHeldIsNoLarger(byGameGroup: seq<string>, byGame: seq<string>)
    ensures |PokemonWildHeld(byGameGroup, byGame)| <= |byGameGroup| + |byGame|
  {
    SetOfIsNoLarger(byGameGroup);
    SetOfIsNoLarger(byGame);
  }
}
