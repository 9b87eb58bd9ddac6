/**
 * The collection resolvers of `pokedex/collections.py`. A collection is the list of rows of
 * one table related to one parent row; the resolvers pick the rows of one game group (the
 * latest present, or the one asked for), fold them into dicts, filter translations, and pick
 * the translation with the greatest sort key. The sort key and the mapping key are defined by
 * the concrete tables: the sort key is a parameter here, with the order on its values, and the
 * mapping key is the `mappingKey` tag of a `Record`.
 */
module Collections {
  import opened Wrappers
  import opened Enums
  import opened Mixins
  import opened Sequences

  /** The exceptions the resolvers raise. */
  datatype Error =
    | EmptySequence            // `max()` of an empty sequence (`ValueError`)
    | NotImplemented           // `game_group_enum` of a row that has no game group
    | BadValue(value: string)  // `GameGroup(value)` or `Language(value)` of an unknown value

  /** An argument typed `GameGroup | str` or `Language | str`: a member, or a value string. */
  datatype Arg<E> = Member(member: E) | Text(text: string)

  /** `GameGroup(arg)`: a member is returned as it is; a string must be a member's value. */
  function ToGameGroup(arg: Arg<GameGroup>): (r: Result<GameGroup, Error>)
    ensures arg.Member? ==> r == Ok(arg.member)
    ensures arg.Text? && r.Ok? ==> r.value.Value() == arg.text
    ensures r.Err? ==> arg.Text? && r.error == BadValue(arg.text)
  {
    match arg
    case Member(g) => Ok(g)
    case Text(s) =>
      match GameGroup.FromValue(s)
      case Some(g) => Ok(g)
      case None => Err(BadValue(s))
  }

  /** A string names the game group whose value it is, and only that one. */
  lemma ToGameGroupIsExact(text: string, g: GameGroup)
    ensures ToGameGroup(Text(text)) == Ok(g) <==> g.Value() == text
  {
    GameGroupFromValueIsExact(text, g);
  }

  /** `Language(arg)`: a member is returned as it is; a string must be a member's value. */
  function ToLanguage(arg: Arg<Language>): (r: Result<Language, Error>)
    ensures arg.Member? ==> r == Ok(arg.member)
    ensures arg.Text? && r.Ok? ==> r.value.Value() == arg.text
    ensures r.Err? ==> arg.Text? && r.error == BadValue(arg.text)
  {
    match arg
    case Member(l) => Ok(l)
    case Text(s) =>
      match Language.FromValue(s)
      case Some(l) => Ok(l)
      case None => Err(BadValue(s))
  }

  /** A string names the language whose value it is, and only that one. */
  lemma ToLanguageIsExact(text: string, l: Language)
    ensures ToLanguage(Text(text)) == Ok(l) <==> l.Value() == text
  {
    LanguageFromValueIsExact(text, l);
  }

  /** A `game_group` argument with the default `GameGroup.get_default()` when it is omitted. */
  function GroupOrDefault(gameGroup: Option<Arg<GameGroup>>): Result<GameGroup, Error>
  {
    ToGameGroup(if gameGroup.Some? then gameGroup.value else Member(GameGroup.Default()))
  }

  /** A `language` argument with the default `Language.get_default()` when it is omitted. */
  function LanguageOrDefault(language: Option<Arg<Language>>): Result<Language, Error>
  {
    ToLanguage(if language.Some? then language.value else Member(Language.Default()))
  }

  /** Omitted arguments resolve to the latest game group and to English. */
  lemma OmittedArgumentsAreDefaults()
    ensures GroupOrDefault(None).Ok? && LanguageOrDefault(None).Ok?
    ensures forall h: GameGroup :: !GroupOrDefault(None).value.Less(h)
    ensures LanguageOrDefault(None).value.Value() == "en"
  {
  }

  /** Every row has a game group. */
  predicate AllScoped<K, P>(xs: seq<Record<K, P>>)
  {
    forall i :: 0 <= i < |xs| ==> GroupOf(xs[i]).Some?
  }

  /** `x.game_group_enum for x in xs`. */
  function Groups<K, P>(xs: seq<Record<K, P>>): (r: seq<GameGroup>)
    requires AllScoped(xs)
    ensures |r| == |xs| && forall i :: 0 <= i < |xs| ==> GroupOf(xs[i]) == Some(r[i])
  {
    seq(|xs|, i requires 0 <= i < |xs| => GroupOf(xs[i]).value)
  }

  /** `<` on game groups, as a value. */
  predicate GroupLess(a: GameGroup, b: GameGroup)
  {
    a.Less(b)
  }

  /** `GroupLess` is a strict total order, so `max` over game groups is well defined. */
  lemma GroupLessIsStrictTotalOrder()
    ensures StrictTotalOrder(GroupLess)
  {
    forall a: GameGroup, b: GameGroup, c: GameGroup
      ensures !GroupLess(a, a)
      ensures GroupLess(a, b) && GroupLess(b, c) ==> GroupLess(a, c)
      ensures a != b ==> GroupLess(a, b) || GroupLess(b, a)
    {
      GameGroupLessIsStrictTotalOrder(a, b, c);
    }
  }

  /** `max(x.game_group_enum for x in xs)`: the latest game group among the rows. */
  function LatestGroup<K, P>(xs: seq<Record<K, P>>): (g: GameGroup)
    requires |xs| > 0 && AllScoped(xs)
    ensures exists i :: 0 <= i < |xs| && GroupOf(xs[i]) == Some(g)
    ensures forall i :: 0 <= i < |xs| ==> !g.Less(GroupOf(xs[i]).value)
  {
    var gs := Groups(xs);
    GroupLessIsStrictTotalOrder();
    MaxByIsFirstMaximal(gs, Id, GroupLess);
    MaxBy(gs, Id, GroupLess)
  }

  /** The test of `x.game_group_enum == g`, as a value. */
  function HasGroup<K, P>(g: GameGroup): Record<K, P> -> bool
  {
    (x: Record<K, P>) => GroupOf(x) == Some(g)
  }

  /** `ys` holds exactly the rows of `xs` whose game group is `g`, in their order. */
  predicate Selects<K(==), P(==)>(ys: seq<Record<K, P>>, xs: seq<Record<K, P>>, g: GameGroup)
  {
    && IsSubsequence(ys, xs)
    && (forall i :: 0 <= i < |ys| ==> GroupOf(ys[i]) == Some(g))
    && (forall i :: 0 <= i < |xs| && GroupOf(xs[i]) == Some(g) ==> xs[i] in ys)
    && (forall x :: x in xs && GroupOf(x) == Some(g) ==> multiset(ys)[x] == multiset(xs)[x])
  }

  /**
   * `BaseCollection._get`, which is also `GameGroupSequenceCollection.get`: the rows of the
   * latest game group present when no group is given, else of the given group.
   */
  function BaseGet<K(==), P(==)>(xs: seq<Record<K, P>>, gameGroup: Option<Arg<GameGroup>>)
    : (r: Result<seq<Record<K, P>>, Error>)
    ensures r.Ok? <==>
              AllScoped(xs) && if gameGroup.None? then |xs| > 0 else ToGameGroup(gameGroup.value).Ok?
    ensures gameGroup.None? && |xs| == 0 ==> r == Err(EmptySequence)
    ensures gameGroup.Some? && ToGameGroup(gameGroup.value).Err? ==>
              r == Err(ToGameGroup(gameGroup.value).error)
    ensures r.Ok? && gameGroup.None? ==> Selects(r.value, xs, LatestGroup(xs))
    ensures r.Ok? && gameGroup.Some? ==> Selects(r.value, xs, ToGameGroup(gameGroup.value).value)
    ensures (&& r.Err? && !(gameGroup.None? && |xs| == 0)
             && !(gameGroup.Some? && ToGameGroup(gameGroup.value).Err?)) ==>
              r.error == NotImplemented
  {
    if gameGroup.None? then
      if |xs| == 0 then Err(EmptySequence)
      else if !AllScoped(xs) then Err(NotImplemented)
      else
        FilterCountsAll(xs, HasGroup(LatestGroup(xs)));
        Ok(Filter(xs, HasGroup(LatestGroup(xs))))
    else
      var g :- ToGameGroup(gameGroup.value);
      if !AllScoped(xs) then Err(NotImplemented)
      else
        FilterCountsAll(xs, HasGroup(g));
        Ok(Filter(xs, HasGroup(g)))
  }

  /** The latest game group of a non-empty collection always selects at least one row. */
  lemma LatestSelectionIsNonEmpty<K, P>(xs: seq<Record<K, P>>)
    requires |xs| > 0 && AllScoped(xs)
    ensures BaseGet(xs, None).Ok? && |BaseGet(xs, None).value| > 0
  {
    var i :| 0 <= i < |xs| && GroupOf(xs[i]) == Some(LatestGroup(xs));
    assert xs[i] in BaseGet(xs, None).value;
  }

  /** A game group no row belongs to selects an empty list, not an error. */
  lemma AbsentGroupSelectsNothing<K, P>(xs: seq<Record<K, P>>, arg: Arg<GameGroup>,
                                                g: GameGroup)
    requires AllScoped(xs) && ToGameGroup(arg) == Ok(g)
    requires forall i :: 0 <= i < |xs| ==> GroupOf(xs[i]) != Some(g)
    ensures BaseGet(xs, Some(arg)) == Ok([])
  {
    var ys := BaseGet(xs, Some(arg)).value;
    SubsequenceHeadIsMember(ys, xs);
  }

  /** A selected row occurs as often as in the collection: duplicates are kept. */
  lemma SelectionKeepsDuplicates<K, P>(xs: seq<Record<K, P>>, arg: Arg<GameGroup>,
                                               g: GameGroup, x: Record<K, P>)
    requires AllScoped(xs) && ToGameGroup(arg) == Ok(g) && GroupOf(x) == Some(g)
    ensures BaseGet(xs, Some(arg)).Ok?
    ensures multiset(BaseGet(xs, Some(arg)).value)[x] == multiset(xs)[x]
  {
    FilterCounts(xs, HasGroup(g), x);
  }

  /** Rows drawn from `xs` keep the tags every row of `xs` has. */
  lemma SelectionKeepsTags<K, P>(xs: seq<Record<K, P>>, ys: seq<Record<K, P>>)
    requires IsSubsequence(ys, xs)
    ensures HasMappingKeys(xs) ==> HasMappingKeys(ys)
    ensures GameKeyed(xs) ==> GameKeyed(ys)
    ensures GameTagged(xs) ==> GameTagged(ys)
  {
    SubsequenceMembers(ys, xs);
    forall i | 0 <= i < |ys|
      ensures HasMappingKeys(xs) ==> ys[i].mappingKey.Some?
      ensures GameKeyed(xs) ==> ys[i].mappingKey.Some? && ys[i].scope.GameScoped?
      ensures GameTagged(xs) ==> ys[i].scope.GameScoped?
    {
      var j :| 0 <= j < |xs| && xs[j] == ys[i];
    }
  }

  /** Every row has a mapping key. */
  predicate HasMappingKeys<K, P>(xs: seq<Record<K, P>>)
  {
    forall i :: 0 <= i < |xs| ==> xs[i].mappingKey.Some?
  }

  /** `(x.mapping_key, x) for x in rows`. */
  function Keyed<K, P>(rows: seq<Record<K, P>>): (r: seq<(K, Record<K, P>)>)
    requires HasMappingKeys(rows)
    ensures |r| == |rows|
    ensures forall i :: 0 <= i < |rows| ==> r[i] == (rows[i].mappingKey.value, rows[i])
  {
    seq(|rows|, i requires 0 <= i < |rows| => (rows[i].mappingKey.value, rows[i]))
  }

  /** `GameGroupMappingCollection.get`: the selected rows keyed by their mapping key. */
  function GroupMappingGet<K(==), P(==)>(xs: seq<Record<K, P>>,
                                         gameGroup: Option<Arg<GameGroup>>)
    : (r: Result<map<K, Record<K, P>>, Error>)
    requires HasMappingKeys(xs)
    ensures r.Ok? <==> BaseGet(xs, gameGroup).Ok?
    ensures r.Err? ==> r.error == BaseGet(xs, gameGroup).error
    ensures r.Ok? ==>
              var sel := BaseGet(xs, gameGroup).value;
              HasMappingKeys(sel) &&
              r.value.Keys == set i | 0 <= i < |sel| :: sel[i].mappingKey.value
  {
    var sel :- BaseGet(xs, gameGroup);
    SelectionKeepsTags(xs, sel);
    Ok(LastWins(Keyed(sel)))
  }

  /** Each key of the dict of keyed rows holds the last row with that key. */
  lemma KeyedKeepsLast<K, P>(rows: seq<Record<K, P>>, k: K)
    requires HasMappingKeys(rows) && k in LastWins(Keyed(rows))
    ensures exists i :: && 0 <= i < |rows| && rows[i] == LastWins(Keyed(rows))[k]
                        && rows[i].mappingKey == Some(k)
                        && forall j :: i < j < |rows| ==> rows[j].mappingKey != Some(k)
  {
    var keyed := Keyed(rows);
    LastWinsKeepsLast(keyed, k);
    var i :| IsLastWithKey(keyed, i, k) && keyed[i].1 == LastWins(keyed)[k];
    forall j | i < j < |rows|
      ensures rows[j].mappingKey != Some(k)
    {
      assert keyed[j].0 != k;
    }
  }

  /** Each key of the group-level dict holds the last selected row with that key. */
  lemma GroupMappingGetKeepsLast<K, P>(xs: seq<Record<K, P>>,
                                       gameGroup: Option<Arg<GameGroup>>, k: K)
    requires HasMappingKeys(xs)
    requires GroupMappingGet(xs, gameGroup).Ok? && k in GroupMappingGet(xs, gameGroup).value
    ensures var sel := BaseGet(xs, gameGroup).value;
            exists i :: && 0 <= i < |sel| && sel[i] == GroupMappingGet(xs, gameGroup).value[k]
                        && sel[i].mappingKey == Some(k)
                        && forall j :: i < j < |sel| ==> sel[j].mappingKey != Some(k)
  {
    var sel := BaseGet(xs, gameGroup).value;
    assert GroupMappingGet(xs, gameGroup).value == LastWins(Keyed(sel));
    KeyedKeepsLast(sel, k);
  }

  /** Every row has a mapping key and a game. */
  predicate GameKeyed<K, P>(xs: seq<Record<K, P>>)
  {
    forall i :: 0 <= i < |xs| ==> xs[i].mappingKey.Some? && xs[i].scope.GameScoped?
  }

  /** `(x.mapping_key, x.game_identifier, x) for x in rows`: where each row is filed. */
  function Filed<K, P>(rows: seq<Record<K, P>>): (r: seq<(K, Game, Record<K, P>)>)
    requires GameKeyed(rows)
    ensures |r| == |rows|
    ensures forall i :: 0 <= i < |rows| ==>
              r[i] == (rows[i].mappingKey.value, rows[i].scope.game, rows[i])
  {
    seq(|rows|, i requires 0 <= i < |rows| =>
                  (rows[i].mappingKey.value, rows[i].scope.game, rows[i]))
  }

  /** Row `r` is filed under key `k` and game `game`. */
  predicate FiledAt<K(==), P>(r: Record<K, P>, k: K, game: Game)
  {
    r.mappingKey == Some(k) && r.scope.GameScoped? && r.scope.game == game
  }

  /**
   * The nested dict of `GameMappingCollection.get` has a key for every row's mapping key and
   * no other, and no inner dict is empty.
   */
  lemma NestFilesEveryKey<K, P>(rows: seq<Record<K, P>>, k: K)
    requires GameKeyed(rows)
    ensures k in Nest(Filed(rows)) <==>
              exists i :: 0 <= i < |rows| && rows[i].mappingKey == Some(k)
    ensures k in Nest(Filed(rows)) ==> exists g :: g in Nest(Filed(rows))[k]
  {
    var filed := Filed(rows);
    NestKeys(filed, k);
    if k in Nest(filed) {
      NestHasNoEmptyInner(filed, k);
      var i :| 0 <= i < |filed| && filed[i].0 == k;
      assert rows[i].mappingKey == Some(k);
    }
    if exists i :: 0 <= i < |rows| && rows[i].mappingKey == Some(k) {
      var i :| 0 <= i < |rows| && rows[i].mappingKey == Some(k);
      assert filed[i].0 == k;
    }
  }

  /** An inner dict of `GameMappingCollection.get` has a game exactly where a row with that key and game exists. */
  lemma NestFilesEveryGame<K, P>(rows: seq<Record<K, P>>, k: K, game: Game)
    requires GameKeyed(rows)
    ensures (k in Nest(Filed(rows)) && game in Nest(Filed(rows))[k]) <==>
              exists i :: 0 <= i < |rows| && FiledAt(rows[i], k, game)
  {
    var filed := Filed(rows);
    NestInnerKeys(filed, k, game);
    if k in Nest(filed) && game in Nest(filed)[k] {
      var i :| 0 <= i < |filed| && filed[i].0 == k && filed[i].1 == game;
      assert FiledAt(rows[i], k, game);
    }
    forall i | 0 <= i < |rows| && FiledAt(rows[i], k, game)
      ensures k in Nest(filed) && game in Nest(filed)[k]
    {
      assert filed[i].0 == k && filed[i].1 == game;
    }
  }

  /** An inner dict of `GameMappingCollection.get` holds the last row with its key and game. */
  lemma NestFilesLastRow<K, P>(rows: seq<Record<K, P>>, k: K, game: Game)
    requires GameKeyed(rows)
    requires k in Nest(Filed(rows)) && game in Nest(Filed(rows))[k]
    ensures exists i :: && 0 <= i < |rows| && FiledAt(rows[i], k, game)
                        && rows[i] == Nest(Filed(rows))[k][game]
                        && forall j :: i < j < |rows| ==> !FiledAt(rows[j], k, game)
  {
    var filed := Filed(rows);
    NestKeepsLast(filed, k, game);
    var i :| IsLastAt(filed, i, k, game) && filed[i].2 == Nest(filed)[k][game];
    assert FiledAt(rows[i], k, game);
    forall j | i < j < |rows|
      ensures !FiledAt(rows[j], k, game)
    {
      assert !(filed[j].0 == k && filed[j].1 == game);
    }
  }

  /** The loop of `GameMappingCollection.get`: files each row under its key and its game. */
  method FileRows<K(==), P(==)>(sel: seq<Record<K, P>>)
    returns (entries: map<K, map<Game, Record<K, P>>>)
    requires GameKeyed(sel)
    ensures entries == Nest(Filed(sel))
  {
    var filed := Filed(sel);
    entries := map[];
    for i := 0 to |sel|
      invariant entries == Nest(filed[..i])
    {
      var entry := sel[i];
      var key := entry.mappingKey.value;
      if key !in entries {
        entries := entries[key := map[]];
      }
      entries := entries[key := entries[key][entry.scope.game := entry]];
      assert filed[..i + 1][..i] == filed[..i];
    }
    assert filed[..|sel|] == filed;
  }

  /** `GameMappingCollection.get`: the selected rows filed by mapping key and game. */
  method GameMappingGet<K(==), P(==)>(xs: seq<Record<K, P>>, gameGroup: Option<Arg<GameGroup>>)
    returns (r: Result<map<K, map<Game, Record<K, P>>>, Error>)
    requires GameKeyed(xs)
    ensures BaseGet(xs, gameGroup).Err? ==> r == Err(BaseGet(xs, gameGroup).error)
    ensures BaseGet(xs, gameGroup).Ok? ==>
              GameKeyed(BaseGet(xs, gameGroup).value) &&
              r == Ok(Nest(Filed(BaseGet(xs, gameGroup).value)))
  {
    var sel :- BaseGet(xs, gameGroup);
    SelectionKeepsTags(xs, sel);
    var entries := FileRows(sel);
    return Ok(entries);
  }

  /** A value of the combined dict: a group-level row, or a game-level dict of rows. */
  datatype Entry<G, R> = GroupEntry(row: G) | GameEntries(byGame: map<Game, R>)

  /** `{**groupLevel, **gameLevel}`. */
  function Merge<K(==), G, R>(groupLevel: map<K, G>, gameLevel: map<K, map<Game, R>>)
    : (m: map<K, Entry<G, R>>)
    ensures m.Keys == groupLevel.Keys + gameLevel.Keys
  {
    map k | k in groupLevel.Keys + gameLevel.Keys ::
      if k in gameLevel then GameEntries(gameLevel[k]) else GroupEntry(groupLevel[k])
  }

  /** On a shared key the game level wins; a key only at group level keeps its row. */
  lemma MergeLookup<K, G, R>(groupLevel: map<K, G>, gameLevel: map<K, map<Game, R>>, k: K)
    ensures k in gameLevel ==> Merge(groupLevel, gameLevel)[k] == GameEntries(gameLevel[k])
    ensures k in groupLevel && k !in gameLevel ==>
              Merge(groupLevel, gameLevel)[k] == GroupEntry(groupLevel[k])
  {
  }

  /** `GameGroupOrGameMappingCollection`: a group-level and a game-level mapping table. */
  datatype GameGroupOrGameMapping<K(==), P(==), Q(==)> =
    GameGroupOrGameMapping(gameGroupTable: seq<Record<K, P>>, gameTable: seq<Record<K, Q>>)
  {
    /**
     * `get`: each table resolved with the same argument, the game level merged last. Without
     * a game group each table falls back to its own latest group, so the two can differ.
     */
    method Get(gameGroup: Option<Arg<GameGroup>>)
      returns (r: Result<map<K, Entry<Record<K, P>, Record<K, Q>>>, Error>)
      requires HasMappingKeys(gameGroupTable) && GameKeyed(gameTable)
      ensures GroupMappingGet(gameGroupTable, gameGroup).Err? ==>
                r == Err(GroupMappingGet(gameGroupTable, gameGroup).error)
      ensures (GroupMappingGet(gameGroupTable, gameGroup).Ok? &&
               BaseGet(gameTable, gameGroup).Err?) ==>
                r == Err(BaseGet(gameTable, gameGroup).error)
      ensures (GroupMappingGet(gameGroupTable, gameGroup).Ok? &&
               BaseGet(gameTable, gameGroup).Ok?) ==>
                GameKeyed(BaseGet(gameTable, gameGroup).value) &&
                    r == Ok(Merge(GroupMappingGet(gameGroupTable, gameGroup).value,
                                  Nest(Filed(BaseGet(gameTable, gameGroup).value))))
    {
      var groupLevel :- GroupMappingGet(gameGroupTable, gameGroup);
      var gameLevel :- GameMappingGet(gameTable, gameGroup);
      return Ok(Merge(groupLevel, gameLevel));
    }
  }

  /** Python truthiness of an optional argument: `None` and `""` are false. */
  predicate Truthy<E>(a: Option<Arg<E>>)
  {
    a.Some? && !(a.value.Text? && a.value.text == "")
  }

  /** `GameGroup(game_group) if game_group else None`. */
  function GroupFilter(gameGroup: Option<Arg<GameGroup>>): (r: Result<Option<GameGroup>, Error>)
    ensures r.Ok? && r.value.Some? ==> Truthy(gameGroup) && ToGameGroup(gameGroup.value) == Ok(r.value.value)
    ensures !Truthy(gameGroup) ==> r == Ok(None)
    ensures r.Err? ==> Truthy(gameGroup) && ToGameGroup(gameGroup.value) == Err(r.error)
  {
    if Truthy(gameGroup) then
      var g :- ToGameGroup(gameGroup.value);
      Ok(Some(g))
    else Ok(None)
  }

  /** `Language(language) if language else None`. */
  function LanguageFilter(language: Option<Arg<Language>>): (r: Result<Option<Language>, Error>)
    ensures r.Ok? && r.value.Some? ==> Truthy(language) && ToLanguage(language.value) == Ok(r.value.value)
    ensures !Truthy(language) ==> r == Ok(None)
    ensures r.Err? ==> Truthy(language) && ToLanguage(language.value) == Err(r.error)
  {
    if Truthy(language) then
      var l :- ToLanguage(language.value);
      Ok(Some(l))
    else Ok(None)
  }

  /** A row passes the filters that are set. */
  predicate Matches<K, P>(x: Record<K, P>, group: Option<GameGroup>, language: Option<Language>)
  {
    (group.None? || GroupOf(x) == group) && (language.None? || x.language == language)
  }

  /** `Matches` with its filters fixed, as a value. */
  function Passes<K, P>(group: Option<GameGroup>, language: Option<Language>): Record<K, P> -> bool
  {
    (x: Record<K, P>) => Matches(x, group, language)
  }

  /**
   * What `BaseTranslationsCollection.all` returns: the rows passing the filters, in order; the
   * filters are converted group first; a group filter meets a row with no game group as an
   * error.
   */
  function AllOf<K(==), P(==)>(xs: seq<Record<K, P>>, gameGroup: Option<Arg<GameGroup>>,
                               language: Option<Arg<Language>>)
    : (r: Result<seq<Record<K, P>>, Error>)
    ensures r.Ok? ==> IsSubsequence(r.value, xs)
    ensures r.Ok? ==>
              && GroupFilter(gameGroup).Ok? && LanguageFilter(language).Ok?
              && var group, lang := GroupFilter(gameGroup).value, LanguageFilter(language).value;
                 && (forall i :: 0 <= i < |r.value| ==> Matches(r.value[i], group, lang))
                 && (forall i :: 0 <= i < |xs| && Matches(xs[i], group, lang) ==> xs[i] in r.value)
                 && (forall x :: x in xs && Matches(x, group, lang) ==> multiset(r.value)[x] == multiset(xs)[x])
    ensures GroupFilter(gameGroup).Err? ==> r == Err(GroupFilter(gameGroup).error)
    ensures GroupFilter(gameGroup).Ok? && LanguageFilter(language).Err? ==>
              r == Err(LanguageFilter(language).error)
    ensures r.Err? && GroupFilter(gameGroup).Ok? && LanguageFilter(language).Ok? ==>
              r.error == NotImplemented && GroupFilter(gameGroup).value.Some? && !AllScoped(xs)
    ensures !Truthy(gameGroup) && !Truthy(language) ==> r == Ok(xs)
  {
    var group :- GroupFilter(gameGroup);
    var lang :- LanguageFilter(language);
    if group.Some? && !AllScoped(xs) then Err(NotImplemented)
    else
      FilterCountsAll(xs, Passes(group, lang));
      if group.None? && lang.None? then FilterKeepsAll(xs, Passes(group, lang)); Ok(Filter(xs, Passes(group, lang)))
      else Ok(Filter(xs, Passes(group, lang)))
  }

  /**
   * The loop of `BaseTranslationsCollection.all`: appends the rows passing the filters; a group
   * filter meets a row with no game group as an error.
   */
  method FilterRows<K(==), P(==)>(xs: seq<Record<K, P>>, group: Option<GameGroup>,
                                  lang: Option<Language>)
    returns (r: Result<seq<Record<K, P>>, Error>)
    ensures r == if group.Some? && !AllScoped(xs) then Err(NotImplemented)
                 else Ok(Filter(xs, Passes(group, lang)))
  {
    var entries := [];
    var i := 0;
    while i < |xs|
      invariant 0 <= i <= |xs|
      invariant group.Some? ==> AllScoped(xs[..i])
      invariant entries == Filter(xs[..i], Passes(group, lang))
    {
      var entry := xs[i];
      if group.Some? && GroupOf(entry).None? {
        return Err(NotImplemented);
      }
      FilterSnoc(xs[..i], entry, Passes(group, lang));
      assert xs[..i + 1] == xs[..i] + [entry];
      if (group.None? || group == GroupOf(entry)) && (lang.None? || lang == entry.language) {
        entries := entries + [entry];
      }
      i := i + 1;
    }
    assert xs[..i] == xs;
    return Ok(entries);
  }

  /** `BaseTranslationsCollection.all`: converts the filters, group first, then runs the loop. */
  method All<K(==), P(==)>(xs: seq<Record<K, P>>, gameGroup: Option<Arg<GameGroup>>,
                           language: Option<Arg<Language>>)
    returns (r: Result<seq<Record<K, P>>, Error>)
    ensures r == AllOf(xs, gameGroup, language)
  {
    var group :- GroupFilter(gameGroup);
    var lang :- LanguageFilter(language);
    r := FilterRows(xs, group, lang);
  }

  /** The sort key for a language, as a value. */
  function ByLanguage<K, P, S>(sortKey: (Record<K, P>, Language) -> S, l: Language)
    : Record<K, P> -> S
  {
    (x: Record<K, P>) => sortKey(x, l)
  }

  /** The sort key for a language and a game group, as a value. */
  function ByLanguageAndGroup<K, P, S>(sortKey: (Record<K, P>, Language, GameGroup) -> S,
                                       l: Language, g: GameGroup): Record<K, P> -> S
  {
    (x: Record<K, P>) => sortKey(x, l, g)
  }

  /** `TranslationsCollection.get`: `max(self, key=sort_key(language))`. */
  function TranslationsGet<K, P, S>(xs: seq<Record<K, P>>, language: Option<Arg<Language>>,
                                    sortKey: (Record<K, P>, Language) -> S,
                                    less: (S, S) -> bool)
    : (r: Result<Record<K, P>, Error>)
    ensures r.Err? <==> LanguageOrDefault(language).Err? || |xs| == 0
    ensures r.Err? ==> r.error == if LanguageOrDefault(language).Err?
                                  then LanguageOrDefault(language).error else EmptySequence
  {
    var l :- LanguageOrDefault(language);
    if |xs| == 0 then Err(EmptySequence) else Ok(MaxBy(xs, ByLanguage(sortKey, l), less))
  }

  /** The translation returned is the first row whose sort key no other key exceeds. */
  lemma TranslationsGetIsFirstMaximal<K, P, S(!new)>(xs: seq<Record<K, P>>,
                                                    language: Option<Arg<Language>>,
                                                    sortKey: (Record<K, P>, Language) -> S,
                                                    less: (S, S) -> bool, l: Language)
    requires StrictTotalOrder(less) && |xs| > 0 && LanguageOrDefault(language) == Ok(l)
    ensures TranslationsGet(xs, language, sortKey, less).Ok?
    ensures exists k :: && IsFirstMaximal(xs, ByLanguage(sortKey, l), less, k)
                        && xs[k] == TranslationsGet(xs, language, sortKey, less).value
  {
    MaxByIsFirstMaximal(xs, ByLanguage(sortKey, l), less);
  }

  /** `GameGroupTranslationsCollection.get`: `max(self, key=sort_key(language, game_group))`. */
  function GameGroupTranslationsGet<K, P, S>(xs: seq<Record<K, P>>,
                                             gameGroup: Option<Arg<GameGroup>>,
                                             language: Option<Arg<Language>>,
                                             sortKey: (Record<K, P>, Language, GameGroup) -> S,
                                             less: (S, S) -> bool)
    : (r: Result<Record<K, P>, Error>)
    ensures r.Err? <==> GroupOrDefault(gameGroup).Err? || LanguageOrDefault(language).Err? || |xs| == 0
    ensures r.Err? ==> r.error == if GroupOrDefault(gameGroup).Err? then GroupOrDefault(gameGroup).error
                                  else if LanguageOrDefault(language).Err?
                                  then LanguageOrDefault(language).error else EmptySequence
  {
    var g :- GroupOrDefault(gameGroup);
    var l :- LanguageOrDefault(language);
    if |xs| == 0 then Err(EmptySequence)
    else Ok(MaxBy(xs, ByLanguageAndGroup(sortKey, l, g), less))
  }

  /** The translation returned is the first row whose sort key no other key exceeds. */
  lemma GameGroupTranslationsGetIsFirstMaximal<K, P, S(!new)>(
    xs: seq<Record<K, P>>, gameGroup: Option<Arg<GameGroup>>, language: Option<Arg<Language>>,
    sortKey: (Record<K, P>, Language, GameGroup) -> S, less: (S, S) -> bool,
    g: GameGroup, l: Language)
    requires StrictTotalOrder(less) && |xs| > 0
    requires GroupOrDefault(gameGroup) == Ok(g) && LanguageOrDefault(language) == Ok(l)
    ensures GameGroupTranslationsGet(xs, gameGroup, language, sortKey, less).Ok?
    ensures exists k :: && IsFirstMaximal(xs, ByLanguageAndGroup(sortKey, l, g), less, k)
                        && xs[k] == GameGroupTranslationsGet(xs, gameGroup, language, sortKey, less).value
  {
    MaxByIsFirstMaximal(xs, ByLanguageAndGroup(sortKey, l, g), less);
  }

  /** Every row has a game. */
  predicate GameTagged<K, P>(xs: seq<Record<K, P>>)
  {
    forall i :: 0 <= i < |xs| ==> xs[i].scope.GameScoped?
  }

  /** `(x.game.identifier, x) for x in rows`. */
  function ByGame<K, P>(rows: seq<Record<K, P>>): (r: seq<(Game, Record<K, P>)>)
    requires GameTagged(rows)
    ensures |r| == |rows|
    ensures forall i :: 0 <= i < |rows| ==> r[i] == (rows[i].scope.game, rows[i])
  {
    seq(|rows|, i requires 0 <= i < |rows| => (rows[i].scope.game, rows[i]))
  }

  /**
   * `GameTranslationsCollection.get`: the greatest sort key, then every row whose key equals
   * it, keyed by game.
   */
  function GameTranslationsGet<K(==), P(==), S(==)>(
    xs: seq<Record<K, P>>, gameGroup: Option<Arg<GameGroup>>, language: Option<Arg<Language>>,
    sortKey: (Record<K, P>, Language, GameGroup) -> S, less: (S, S) -> bool)
    : (r: Result<map<Game, Record<K, P>>, Error>)
    requires GameTagged(xs)
    ensures r.Err? <==> GroupOrDefault(gameGroup).Err? || LanguageOrDefault(language).Err? || |xs| == 0
    ensures r.Err? ==> r.error == if GroupOrDefault(gameGroup).Err? then GroupOrDefault(gameGroup).error
                                  else if LanguageOrDefault(language).Err?
                                  then LanguageOrDefault(language).error else EmptySequence
  {
    var g :- GroupOrDefault(gameGroup);
    var l :- LanguageOrDefault(language);
    if |xs| == 0 then Err(EmptySequence)
    else
      var tied := TiedAtMax(xs, ByLanguageAndGroup(sortKey, l, g), less);
      SelectionKeepsTags(xs, tied);
      Ok(LastWins(ByGame(tied)))
  }

  /** The scope of a row, as a value. */
  function ScopeOf<K, P>(x: Record<K, P>): Scope
  {
    x.scope
  }

  /** `xs[i]` is a row of `game` that no key exceeds, and no later row is both. */
  ghost predicate IsLastMaximalOfGame<K, P, S>(xs: seq<Record<K, P>>, key: Record<K, P> -> S,
                                               less: (S, S) -> bool, game: Game, i: int)
  {
    && 0 <= i < |xs| && IsMaximal(xs, key, less, xs[i]) && xs[i].scope == GameScoped(game)
    && forall j :: i < j < |xs| ==> !(IsMaximal(xs, key, less, xs[j]) && xs[j].scope == GameScoped(game))
  }

  /** Among the rows tied at the greatest key, the last one of each game is the one kept. */
  lemma TiedByGameKeepsLast<K, P, S(!new)>(xs: seq<Record<K, P>>, key: Record<K, P> -> S,
                                           less: (S, S) -> bool, game: Game)
    requires StrictTotalOrder(less) && |xs| > 0
    requires GameTagged(TiedAtMax(xs, key, less))
    requires game in LastWins(ByGame(TiedAtMax(xs, key, less)))
    ensures exists i :: && IsLastMaximalOfGame(xs, key, less, game, i)
                        && xs[i] == LastWins(ByGame(TiedAtMax(xs, key, less)))[game]
  {
    var tied := TiedAtMax(xs, key, less);
    var byGame := ByGame(tied);
    LastWinsKeepsLast(byGame, game);
    var t :| IsLastWithKey(byGame, t, game) && byGame[t].1 == LastWins(byGame)[game];
    assert ScopeOf(tied[t]) == GameScoped(game);
    forall u | t < u < |tied|
      ensures ScopeOf(tied[u]) != GameScoped(game)
    {
      assert byGame[u].0 != game;
    }
    var i := TiedAtMaxLastWithKey(xs, key, less, ScopeOf, GameScoped(game), t);
    assert IsLastMaximalOfGame(xs, key, less, game, i);
  }

  /**
   * The rows tied at the greatest key, keyed by game: exactly the rows no key exceeds, each
   * under its game, and at least one; where a game has several, the last one wins.
   */
  lemma TiedByGameIsMaximal<K, P, S(!new)>(xs: seq<Record<K, P>>, key: Record<K, P> -> S,
                                           less: (S, S) -> bool)
    requires GameTagged(xs) && StrictTotalOrder(less) && |xs| > 0
    ensures GameTagged(TiedAtMax(xs, key, less))
    ensures var r := LastWins(ByGame(TiedAtMax(xs, key, less)));
            && |r| > 0
            && (forall game :: game in r ==>
                  && r[game] in xs && r[game].scope == GameScoped(game)
                  && IsMaximal(xs, key, less, r[game]))
            && (forall i :: 0 <= i < |xs| && IsMaximal(xs, key, less, xs[i]) ==>
                  xs[i].scope.game in r)
            && (forall game :: game in r ==>
                  exists i :: IsLastMaximalOfGame(xs, key, less, game, i) && xs[i] == r[game])
  {
    var tied := TiedAtMax(xs, key, less);
    SelectionKeepsTags(xs, tied);
    var byGame := ByGame(tied);
    var r := LastWins(byGame);
    TiedAtMaxIsMaximal(xs, key, less);
    assert byGame[0].0 in r;
    forall game | game in r
      ensures r[game] in xs && r[game].scope == GameScoped(game)
      ensures IsMaximal(xs, key, less, r[game])
      ensures exists i :: IsLastMaximalOfGame(xs, key, less, game, i) && xs[i] == r[game]
    {
      TiedByGameKeepsLast(xs, key, less, game);
    }
    forall i | 0 <= i < |xs| && IsMaximal(xs, key, less, xs[i])
      ensures xs[i].scope.game in r
    {
      var t :| 0 <= t < |tied| && tied[t] == xs[i];
      assert byGame[t].0 == xs[i].scope.game;
    }
  }

  /**
   * `GameTranslationsCollection.get` holds exactly the rows tied at the greatest sort key,
   * each under its game (the last such row of the game), and is not empty when the
   * collection is not.
   */
  lemma GameTranslationsGetIsTiedAtMax<K, P, S(!new)>(
    xs: seq<Record<K, P>>, gameGroup: Option<Arg<GameGroup>>, language: Option<Arg<Language>>,
    sortKey: (Record<K, P>, Language, GameGroup) -> S, less: (S, S) -> bool,
    g: GameGroup, l: Language)
    requires GameTagged(xs) && StrictTotalOrder(less) && |xs| > 0
    requires GroupOrDefault(gameGroup) == Ok(g) && LanguageOrDefault(language) == Ok(l)
    ensures var r := GameTranslationsGet(xs, gameGroup, language, sortKey, less);
            var key := ByLanguageAndGroup(sortKey, l, g);
            && r.Ok? && |r.value| > 0
            && (forall game :: game in r.value ==>
                  && r.value[game] in xs && r.value[game].scope == GameScoped(game)
                  && IsMaximal(xs, key, less, r.value[game]))
            && (forall i :: 0 <= i < |xs| && IsMaximal(xs, key, less, xs[i]) ==>
                  xs[i].scope.game in r.value)
            && (forall game :: game in r.value ==>
                  exists i :: IsLastMaximalOfGame(xs, key, less, game, i) && xs[i] == r.value[game])
  {
    var key := ByLanguageAndGroup(sortKey, l, g);
    TiedByGameIsMaximal(xs, key, less);
    assert GameTranslationsGet(xs, gameGroup, language, sortKey, less)
        == Ok(LastWins(ByGame(TiedAtMax(xs, key, less))));
  }
}
