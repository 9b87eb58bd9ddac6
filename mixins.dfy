/**
 * The row shapes of `pokedex/mixins.py`. Every shape is one `Record` whose optional tags say
 * what the mixin declares: a game group or a game (the scope), a language, a change range and
 * a mapping key. A row's game group (`game_group_enum`) is its own group tag, or the group of
 * its game; a row with neither has none (the base mixins raise `NotImplementedError`).
 */
module Mixins {
  import opened Wrappers
  import opened Enums

  /** What places a row in the timeline: nothing, its own game group, or a game. */
  datatype Scope = Unscoped | GroupScoped(group: GameGroup) | GameScoped(game: Game)

  /**
   * The extra key columns of a change row: the game groups and revisions it runs from and to.
   * Game-level change rows carry only the revisions.
   */
  datatype ChangeRange = ChangeRange(groupFrom: Option<GameGroup>, revisionFrom: string,
                                     groupTo: Option<GameGroup>, revisionTo: string)

  /**
   * A row of a collection table. `mappingKey` is the key a concrete mapping table supplies
   * for `mapping_key`; `columns` stands for the table's own columns.
   */
  datatype Record<K, P> = Record(scope: Scope, language: Option<Language>,
                                 change: Option<ChangeRange>, mappingKey: Option<K>,
                                 columns: P)

  /** The mixins, one per shape. */
  datatype Shape =
    | BaseCollection | GameGroupCollection | GameCollection | GameGroupSequence
    | BaseMapping | GameGroupMapping | GameMapping
    | Translations | TranslationChanges | GameTranslations | GameTranslationChanges

  /** The tags a row of shape `s` carries, and no others. */
  predicate Fits<K, P>(r: Record<K, P>, s: Shape)
  {
    match s
    case BaseCollection | BaseMapping =>
      r.scope.Unscoped? && r.language.None? && r.change.None? && r.mappingKey.None?
    case GameGroupCollection | GameGroupSequence =>
      r.scope.GroupScoped? && r.language.None? && r.change.None? && r.mappingKey.None?
    case GameCollection =>
      r.scope.GameScoped? && r.language.None? && r.change.None? && r.mappingKey.None?
    case GameGroupMapping =>
      r.scope.GroupScoped? && r.language.None? && r.change.None? && r.mappingKey.Some?
    case GameMapping =>
      r.scope.GameScoped? && r.language.None? && r.change.None? && r.mappingKey.Some?
    case Translations =>
      r.scope.Unscoped? && r.language.Some? && r.change.None? && r.mappingKey.None?
    case TranslationChanges =>
      && r.scope.Unscoped? && r.language.Some? && r.mappingKey.None?
      && r.change.Some? && r.change.value.groupFrom.Some? && r.change.value.groupTo.Some?
    case GameTranslations =>
      r.scope.GameScoped? && r.language.Some? && r.change.None? && r.mappingKey.None?
    case GameTranslationChanges =>
      && r.scope.GameScoped? && r.language.Some? && r.mappingKey.None?
      && r.change.Some? && r.change.value.groupFrom.None? && r.change.value.groupTo.None?
  }

  /** The shapes whose rows have a game group. */
  predicate ScopedShape(s: Shape)
  {
    s.GameGroupCollection? || s.GameCollection? || s.GameGroupSequence? || s.GameGroupMapping?
    || s.GameMapping? || s.GameTranslations? || s.GameTranslationChanges?
  }

  /**
   * `game_group_enum`: the row's own group tag, or the group whose `games` list holds the row's
   * game; `None` where the base mixin raises `NotImplementedError`.
   */
  function GroupOf<K, P>(r: Record<K, P>): (g: Option<GameGroup>)
    ensures g.None? <==> r.scope.Unscoped?
    ensures r.scope.GroupScoped? ==> g == Some(r.scope.group)
    ensures r.scope.GameScoped? ==> g.Some? && r.scope.game in g.value.Games()
  {
    match r.scope
    case Unscoped => None
    case GroupScoped(group) => Some(group)
    case GameScoped(game) => Some(game.Group())
  }

  /** Exactly the scoped shapes have a game group; the base shapes do not. */
  lemma GroupOfShape<K, P>(r: Record<K, P>, s: Shape)
    requires Fits(r, s)
    ensures GroupOf(r).Some? <==> ScopedShape(s)
  {
  }

  /** Exactly the mapping shapes carry a mapping key. */
  lemma MappingKeyOfShape<K, P>(r: Record<K, P>, s: Shape)
    requires Fits(r, s)
    ensures r.mappingKey.Some? <==> (s == GameGroupMapping || s == GameMapping)
  {
  }

  /** Game-tagged rows inherit the order of games: a later game never has an earlier group. */
  lemma GroupOfFollowsGameOrder<K, P>(r1: Record<K, P>, r2: Record<K, P>)
    requires r1.scope.GameScoped? && r2.scope.GameScoped?
    requires !r2.scope.game.Less(r1.scope.game)
    ensures GroupOf(r1).Some? && GroupOf(r2).Some?
    ensures !GroupOf(r2).value.Less(GroupOf(r1).value)
  {
    GroupIsMonotone(r1.scope.game, r2.scope.game);
  }

  /** A game-tagged row and a group-tagged row of the game's group share a game group. */
  lemma GameRowJoinsGroupRow<K, P>(r1: Record<K, P>, r2: Record<K, P>)
    requires r1.scope.GameScoped? && r2.scope.GroupScoped?
    requires r1.scope.game in r2.scope.group.Games()
    ensures GroupOf(r1) == GroupOf(r2)
  {
    GroupListsPartitionGames(r1.scope.game);
  }

  /** One primary-key column a mixin contributes. */
  datatype KeyColumn =
    | GroupColumn(group: GameGroup) | GameColumn(game: Game) | LanguageColumn(language: Language)
    | RevisionColumn(revision: string)

  /** The primary-key columns of the scope: `game_group_identifier` or `game_identifier`. */
  function ScopeKey(scope: Scope): seq<KeyColumn>
  {
    match scope
    case Unscoped => []
    case GroupScoped(group) => [GroupColumn(group)]
    case GameScoped(game) => [GameColumn(game)]
  }

  /**
   * The range's key columns: `game_group_identifier_from`, `game_revision_from`,
   * `game_group_identifier_to`, `game_revision_to`, where the groups are present.
   */
  function RangeKey(c: ChangeRange): seq<KeyColumn>
  {
    (if c.groupFrom.Some? then [GroupColumn(c.groupFrom.value)] else [])
    + [RevisionColumn(c.revisionFrom)]
    + (if c.groupTo.Some? then [GroupColumn(c.groupTo.value)] else [])
    + [RevisionColumn(c.revisionTo)]
  }

  /** The primary-key columns the mixins give a row, in declaration order. */
  function PrimaryKey<K, P>(r: Record<K, P>): seq<KeyColumn>
  {
    ScopeKey(r.scope)
    + (if r.language.Some? then [LanguageColumn(r.language.value)] else [])
    + (if r.change.Some? then RangeKey(r.change.value) else [])
  }

  /**
   * A change row's key is the key of the live row it amends followed by its range, so a
   * change row never shares its key with a live row.
   */
  lemma ChangeKeyExtendsLiveKey<K, P>(r: Record<K, P>)
    requires Fits(r, TranslationChanges) || Fits(r, GameTranslationChanges)
    ensures Fits(r.(change := None), Translations) || Fits(r.(change := None), GameTranslations)
    ensures PrimaryKey(r) == PrimaryKey(r.(change := None)) + RangeKey(r.change.value)
    ensures |PrimaryKey(r)| > |PrimaryKey(r.(change := None))|
  {
  }

  /** Within one shape, the primary key determines every tag but the mapping key. */
  lemma PrimaryKeyDeterminesTags<K, P>(r1: Record<K, P>, r2: Record<K, P>, s: Shape)
    requires Fits(r1, s) && Fits(r2, s)
    requires PrimaryKey(r1) == PrimaryKey(r2)
    ensures r1.scope == r2.scope && r1.language == r2.language && r1.change == r2.change
  {
    var k1, k2 := PrimaryKey(r1), PrimaryKey(r2);
    var n := |ScopeKey(r1.scope)|;
    assert |ScopeKey(r2.scope)| == n;
    assert k1[..n] == ScopeKey(r1.scope) && k2[..n] == ScopeKey(r2.scope);
    var m := n + (if r1.language.Some? then 1 else 0);
    if r1.language.Some? {
      assert k1[n] == LanguageColumn(r1.language.value);
      assert k2[n] == LanguageColumn(r2.language.value);
    }
    if r1.change.Some? {
      var c1, c2 := r1.change.value, r2.change.value;
      assert k1[m..] == RangeKey(c1) && k2[m..] == RangeKey(c2);
      if c1.groupFrom.Some? {
        assert RangeKey(c1)[0] == GroupColumn(c1.groupFrom.value);
        assert RangeKey(c2)[0] == GroupColumn(c2.groupFrom.value);
        assert RangeKey(c1)[1] == RevisionColumn(c1.revisionFrom);
        assert RangeKey(c1)[2] == GroupColumn(c1.groupTo.value);
        assert RangeKey(c2)[2] == GroupColumn(c2.groupTo.value);
        assert RangeKey(c1)[3] == RevisionColumn(c1.revisionTo);
      } else {
        assert RangeKey(c1)[0] == RevisionColumn(c1.revisionFrom);
        assert RangeKey(c1)[1] == RevisionColumn(c1.revisionTo);
      }
    }
  }
}
