/**
 * The ordered enumerations of pokedex/enums.py. Each `OrderedEnum` becomes a datatype whose
 * constructors are its members; comparing members of two different enumerations is a type
 * error here, where Python's `__lt__` returns NotImplemented. The declaration of each
 * enumeration is kept as tables indexed by position (`At`, `NameAt`, `ValueAt`), and a
 * member's `order` is its position.
 */
module Enums {
  import opened Wrappers
  import OrderedEnum
  import Blocks

  /** `AbilitySlot` (pokedex/enums.py:25-29). */
  datatype AbilitySlot =
    | Slot1 | Slot2 | Hidden
  {
    static const Count: nat := 3

    /** `list(AbilitySlot)[i]`: the member declared at position `i`. */
    static function At(i: nat): AbilitySlot
      requires i < Count
    {
      match i
      case 0 => Slot1 case 1 => Slot2 case _ => Hidden
    }

    /** The name declared at position `i`. */
    static function NameAt(i: nat): string
      requires i < Count
    {
      match i
      case 0 => "SLOT_1" case 1 => "SLOT_2" case _ => "HIDDEN"
    }

    /** The value declared at position `i`. */
    static function ValueAt(i: nat): string
      requires i < Count
    {
      match i
      case 0 => "1" case 1 => "2" case _ => "h"
    }

    /** `list(AbilitySlot)`. */
    static function Members(): (r: seq<AbilitySlot>)
      ensures |r| == Count && forall i :: 0 <= i < Count ==> r[i] == At(i)
    {
      seq(Count, i requires 0 <= i < Count => At(i))
    }

    /** `order`: the zero-based position of this member in the declaration. */
    function Order(): (r: nat)
      ensures r < Count && At(r) == this
    {
      match this
      case Slot1 => 0 case Slot2 => 1 case Hidden => 2
    }

    /** `name`. */
    function Name(): string
    {
      NameAt(Order())
    }

    /** `value`. */
    function Value(): string
    {
      ValueAt(Order())
    }

    /**
     * `sql_value`, the string the member is stored as: its order, padded with zeros to
     * the digit count of the last member's order (`Count - 1`), then `_` and its name.
     */
    function SqlValue(): string
    {
      OrderedEnum.SqlValue(Order(), Count - 1, Name())
    }

    /** `__lt__` between two members of `AbilitySlot`. */
    predicate Less(other: AbilitySlot)
    {
      Order() < other.Order()
    }

    /** `AbilitySlot(value)`: the member with that value, `None` where Python raises ValueError. */
    static function FromValue(value: string): (r: Option<AbilitySlot>)
      ensures r.Some? ==> r.value.Value() == value
    {
      OrderedEnum.FindFirst(Members(), (x: AbilitySlot) => x.Value() == value)
    }
  }

  /** `At` and `Order` are inverse: `order` is the member's index in `list(AbilitySlot)`. */
  lemma AbilitySlotOrderIsDeclarationIndex(i: nat)
    requires i < AbilitySlot.Count
    ensures AbilitySlot.At(i).Order() == i
    ensures AbilitySlot.Members()[i].Order() == i
  {
  }

  /** The declared values are pairwise distinct. */
  lemma AbilitySlotDeclaredValuesDiffer(i: nat, j: nat)
    requires i < j < AbilitySlot.Count
    ensures AbilitySlot.ValueAt(i) != AbilitySlot.ValueAt(j)
  {
  }

  /** `@unique`: no two members share a value. */
  lemma AbilitySlotValuesAreUnique(a: AbilitySlot, b: AbilitySlot)
    ensures a.Value() == b.Value() ==> a == b
  {
    if a.Order() < b.Order() {
      AbilitySlotDeclaredValuesDiffer(a.Order(), b.Order());
    } else if b.Order() < a.Order() {
      AbilitySlotDeclaredValuesDiffer(b.Order(), a.Order());
    } else {
      assert a == AbilitySlot.At(a.Order()) == b;
    }
  }

  /** `<` (with `@total_ordering`) is a strict total order on `AbilitySlot`. */
  lemma AbilitySlotLessIsStrictTotalOrder(a: AbilitySlot, b: AbilitySlot, c: AbilitySlot)
    ensures !a.Less(a)
    ensures a.Less(b) ==> !b.Less(a)
    ensures a.Less(b) && b.Less(c) ==> a.Less(c)
    ensures a == b || a.Less(b) || b.Less(a)
  {
    assert a.Order() == b.Order() ==> a == AbilitySlot.At(a.Order()) == b;
  }

  /** Comparing stored `sql_value` strings agrees with `<`. */
  lemma AbilitySlotSqlValueSortsByOrder(a: AbilitySlot, b: AbilitySlot)
    ensures OrderedEnum.StrLess(a.SqlValue(), b.SqlValue()) <==> a.Less(b)
  {
    OrderedEnum.SqlValueSortsByOrder(a.Order(), b.Order(), AbilitySlot.Count - 1, a.Name(), b.Name());
  }

  /** `AbilitySlot(value)` finds exactly the member with that value. */
  lemma AbilitySlotFromValueIsExact(value: string, x: AbilitySlot)
    ensures AbilitySlot.FromValue(value) == Some(x) <==> x.Value() == value
  {
    if x.Value() == value {
      assert AbilitySlot.Members()[x.Order()] == x;
      var found := AbilitySlot.FromValue(value);
      AbilitySlotValuesAreUnique(found.value, x);
    }
  }

  /** `Game` (pokedex/enums.py:32-75). */
  datatype Game =
    | Red | Blue | BlueJp | Yellow | Gold | Silver | Crystal | Ruby | Sapphire | FireRed
    | LeafGreen | Emerald | Diamond | Pearl | Platinum | HeartGold | SoulSilver | Black | White
    | Black2 | White2 | X | Y | OmegaRuby | AlphaSapphire | Sun | Moon | UltraSun | UltraMoon
    | LetsGoPikachu | LetsGoEevee | Sword | Shield | BrilliantDiamond | ShiningPearl
    | LegendsArceus | Scarlet | Violet
  {
    static const Count: nat := 38

    /** `list(Game)[i]`: the member declared at position `i`. */
    static function At(i: nat): Game
      requires i < Count
    {
      match i
      case 0 => Red case 1 => Blue case 2 => BlueJp case 3 => Yellow case 4 => Gold
      case 5 => Silver case 6 => Crystal case 7 => Ruby case 8 => Sapphire case 9 => FireRed
      case 10 => LeafGreen case 11 => Emerald case 12 => Diamond case 13 => Pearl
      case 14 => Platinum case 15 => HeartGold case 16 => SoulSilver case 17 => Black
      case 18 => White case 19 => Black2 case 20 => White2 case 21 => X case 22 => Game.Y
      case 23 => OmegaRuby case 24 => AlphaSapphire case 25 => Sun case 26 => Moon
      case 27 => UltraSun case 28 => UltraMoon case 29 => LetsGoPikachu case 30 => LetsGoEevee
      case 31 => Sword case 32 => Shield case 33 => BrilliantDiamond case 34 => ShiningPearl
      case 35 => LegendsArceus case 36 => Scarlet case _ => Violet
    }

    /** The name declared at position `i`. */
    static function NameAt(i: nat): string
      requires i < Count
    {
      match i
      case 0 => "RED" case 1 => "BLUE" case 2 => "BLUE_JP" case 3 => "YELLOW" case 4 => "GOLD"
      case 5 => "SILVER" case 6 => "CRYSTAL" case 7 => "RUBY" case 8 => "SAPPHIRE"
      case 9 => "FIRE_RED" case 10 => "LEAF_GREEN" case 11 => "EMERALD" case 12 => "DIAMOND"
      case 13 => "PEARL" case 14 => "PLATINUM" case 15 => "HEART_GOLD" case 16 => "SOUL_SILVER"
      case 17 => "BLACK" case 18 => "WHITE" case 19 => "BLACK_2" case 20 => "WHITE_2"
      case 21 => "X" case 22 => "Y" case 23 => "OMEGA_RUBY" case 24 => "ALPHA_SAPPHIRE"
      case 25 => "SUN" case 26 => "MOON" case 27 => "ULTRA_SUN" case 28 => "ULTRA_MOON"
      case 29 => "LETS_GO_PIKACHU" case 30 => "LETS_GO_EEVEE" case 31 => "SWORD"
      case 32 => "SHIELD" case 33 => "BRILLIANT_DIAMOND" case 34 => "SHINING_PEARL"
      case 35 => "LEGENDS_ARCEUS" case 36 => "SCARLET" case _ => "VIOLET"
    }

    /** The value declared at position `i`. */
    static function ValueAt(i: nat): string
      requires i < Count
    {
      match i
      case 0 => "red" case 1 => "blue" case 2 => "blue-jp" case 3 => "yellow" case 4 => "gold"
      case 5 => "silver" case 6 => "crystal" case 7 => "ruby" case 8 => "sapphire"
      case 9 => "fire-red" case 10 => "leaf-green" case 11 => "emerald" case 12 => "diamond"
      case 13 => "pearl" case 14 => "platinum" case 15 => "heart-gold" case 16 => "soul-silver"
      case 17 => "black" case 18 => "white" case 19 => "black-2" case 20 => "white-2"
      case 21 => "x" case 22 => "y" case 23 => "omega-ruby" case 24 => "alpha-sapphire"
      case 25 => "sun" case 26 => "moon" case 27 => "ultra-sun" case 28 => "ultra-moon"
      case 29 => "lets-go-pikachu" case 30 => "lets-go-eevee" case 31 => "sword"
      case 32 => "shield" case 33 => "brilliant-diamond" case 34 => "shining-pearl"
      case 35 => "legends-arceus" case 36 => "scarlet" case _ => "violet"
    }

    /** `list(Game)`. */
    static function Members(): (r: seq<Game>)
      ensures |r| == Count && forall i :: 0 <= i < Count ==> r[i] == At(i)
    {
      seq(Count, i requires 0 <= i < Count => At(i))
    }

    /** `order`: the zero-based position of this member in the declaration. */
    function Order(): (r: nat)
      ensures r < Count && At(r) == this
    {
      match this
      case Red => 0 case Blue => 1 case BlueJp => 2 case Yellow => 3 case Gold => 4
      case Silver => 5 case Crystal => 6 case Ruby => 7 case Sapphire => 8 case FireRed => 9
      case LeafGreen => 10 case Emerald => 11 case Diamond => 12 case Pearl => 13
      case Platinum => 14 case HeartGold => 15 case SoulSilver => 16 case Black => 17
      case White => 18 case Black2 => 19 case White2 => 20 case X => 21 case Y => 22
      case OmegaRuby => 23 case AlphaSapphire => 24 case Sun => 25 case Moon => 26
      case UltraSun => 27 case UltraMoon => 28 case LetsGoPikachu => 29 case LetsGoEevee => 30
      case Sword => 31 case Shield => 32 case BrilliantDiamond => 33 case ShiningPearl => 34
      case LegendsArceus => 35 case Scarlet => 36 case Violet => 37
    }

    /** `name`. */
    function Name(): string
    {
      NameAt(Order())
    }

    /** `value`. */
    function Value(): string
    {
      ValueAt(Order())
    }

    /**
     * `sql_value`, the string the member is stored as: its order, padded with zeros to
     * the digit count of the last member's order (`Count - 1`), then `_` and its name.
     */
    function SqlValue(): string
    {
      OrderedEnum.SqlValue(Order(), Count - 1, Name())
    }

    /** `__lt__` between two members of `Game`. */
    predicate Less(other: Game)
    {
      Order() < other.Order()
    }

    /** `Game(value)`: the member with that value, `None` where Python raises ValueError. */
    static function FromValue(value: string): (r: Option<Game>)
      ensures r.Some? ==> r.value.Value() == value
    {
      OrderedEnum.FindFirst(Members(), (x: Game) => x.Value() == value)
    }

    /**
     * `game_group`: the first group, in declaration order, whose `games` list holds this
     * game. The group lists partition the games, so it is the only such group.
     */
    function Group(): (r: GameGroup)
      ensures this in r.Games()
      ensures forall h: GameGroup :: this in h.Games() ==> h == r
    {
      GroupListsPartitionGames(this);
      var found := OrderedEnum.FindFirst(GameGroup.Members(), (h: GameGroup) => this in h.Games());
      assert found.Some? by {
        var h := GroupListing(this);
        assert GameGroup.Members()[h.Order()] == h;
      }
      found.value
    }
  }

  /** `At` and `Order` are inverse: `order` is the member's index in `list(Game)`. */
  lemma GameOrderIsDeclarationIndex(i: nat)
    requires i < Game.Count
    ensures Game.At(i).Order() == i
    ensures Game.Members()[i].Order() == i
  {
  }

  /** The declared values are pairwise distinct. */
  lemma GameDeclaredValuesDiffer(i: nat, j: nat)
    requires i < j < Game.Count
    ensures Game.ValueAt(i) != Game.ValueAt(j)
  {
    if j < 19 {
      GameDeclaredValuesDiffer0To18(i, j);
    } else if j < 27 {
      GameDeclaredValuesDiffer19To26(i, j);
    } else if j < 33 {
      GameDeclaredValuesDiffer27To32(i, j);
    } else {
      GameDeclaredValuesDiffer33ToLast(i, j);
    }
  }

  // The same, checked for a few `j` at a time.

  lemma GameDeclaredValuesDiffer0To18(i: nat, j: nat)
    requires i < j < 19
    ensures Game.ValueAt(i) != Game.ValueAt(j)
  {
  }

  lemma GameDeclaredValuesDiffer19To26(i: nat, j: nat)
    requires i < j && 19 <= j < 27
    ensures Game.ValueAt(i) != Game.ValueAt(j)
  {
  }

  lemma GameDeclaredValuesDiffer27To32(i: nat, j: nat)
    requires i < j && 27 <= j < 33
    ensures Game.ValueAt(i) != Game.ValueAt(j)
  {
  }

  lemma GameDeclaredValuesDiffer33ToLast(i: nat, j: nat)
    requires i < j && 33 <= j < Game.Count
    ensures Game.ValueAt(i) != Game.ValueAt(j)
  {
  }

  /** `@unique`: no two members share a value. */
  lemma GameValuesAreUnique(a: Game, b: Game)
    ensures a.Value() == b.Value() ==> a == b
  {
    if a.Order() < b.Order() {
      GameDeclaredValuesDiffer(a.Order(), b.Order());
    } else if b.Order() < a.Order() {
      GameDeclaredValuesDiffer(b.Order(), a.Order());
    } else {
      assert a == Game.At(a.Order()) == b;
    }
  }

  /** `<` (with `@total_ordering`) is a strict total order on `Game`. */
  lemma GameLessIsStrictTotalOrder(a: Game, b: Game, c: Game)
    ensures !a.Less(a)
    ensures a.Less(b) ==> !b.Less(a)
    ensures a.Less(b) && b.Less(c) ==> a.Less(c)
    ensures a == b || a.Less(b) || b.Less(a)
  {
    assert a.Order() == b.Order() ==> a == Game.At(a.Order()) == b;
  }

  /** Comparing stored `sql_value` strings agrees with `<`. */
  lemma GameSqlValueSortsByOrder(a: Game, b: Game)
    ensures OrderedEnum.StrLess(a.SqlValue(), b.SqlValue()) <==> a.Less(b)
  {
    OrderedEnum.SqlValueSortsByOrder(a.Order(), b.Order(), Game.Count - 1, a.Name(), b.Name());
  }

  /** `Game(value)` finds exactly the member with that value. */
  lemma GameFromValueIsExact(value: string, x: Game)
    ensures Game.FromValue(value) == Some(x) <==> x.Value() == value
  {
    if x.Value() == value {
      assert Game.Members()[x.Order()] == x;
      var found := Game.FromValue(value);
      GameValuesAreUnique(found.value, x);
    }
  }

  /** `GameGroup` (pokedex/enums.py:78-112). */
  datatype GameGroup =
    | Rb | Y | Gs | C | Rs | Frlg | E | Dp | P | Hgss | Bw | B2w2 | Xy | Oras | Sm | Usum
    | Lgpe | Ss | Bdsp | La | Sv
  {
    static const Count: nat := 21

    /** `list(GameGroup)[i]`: the member declared at position `i`. */
    static function At(i: nat): GameGroup
      requires i < Count
    {
      match i
      case 0 => Rb case 1 => GameGroup.Y case 2 => Gs case 3 => C case 4 => Rs case 5 => Frlg
      case 6 => E case 7 => Dp case 8 => P case 9 => Hgss case 10 => Bw case 11 => B2w2
      case 12 => Xy case 13 => Oras case 14 => Sm case 15 => Usum case 16 => Lgpe case 17 => Ss
      case 18 => Bdsp case 19 => La case _ => Sv
    }

    /** The name declared at position `i`. */
    static function NameAt(i: nat): string
      requires i < Count
    {
      match i
      case 0 => "RB" case 1 => "Y" case 2 => "GS" case 3 => "C" case 4 => "RS" case 5 => "FRLG"
      case 6 => "E" case 7 => "DP" case 8 => "P" case 9 => "HGSS" case 10 => "BW"
      case 11 => "B2W2" case 12 => "XY" case 13 => "ORAS" case 14 => "SM" case 15 => "USUM"
      case 16 => "LGPE" case 17 => "SS" case 18 => "BDSP" case 19 => "LA" case _ => "SV"
    }

    /** The value declared at position `i`. */
    static function ValueAt(i: nat): string
      requires i < Count
    {
      match i
      case 0 => "rb" case 1 => "y" case 2 => "gs" case 3 => "c" case 4 => "rs" case 5 => "frlg"
      case 6 => "e" case 7 => "dp" case 8 => "p" case 9 => "hgss" case 10 => "bw"
      case 11 => "b2w2" case 12 => "xy" case 13 => "oras" case 14 => "sm" case 15 => "usum"
      case 16 => "lgpe" case 17 => "ss" case 18 => "bdsp" case 19 => "la" case _ => "sv"
    }

    /** `list(GameGroup)`. */
    static function Members(): (r: seq<GameGroup>)
      ensures |r| == Count && forall i :: 0 <= i < Count ==> r[i] == At(i)
    {
      seq(Count, i requires 0 <= i < Count => At(i))
    }

    /** `order`: the zero-based position of this member in the declaration. */
    function Order(): (r: nat)
      ensures r < Count && At(r) == this
    {
      match this
      case Rb => 0 case Y => 1 case Gs => 2 case C => 3 case Rs => 4 case Frlg => 5 case E => 6
      case Dp => 7 case P => 8 case Hgss => 9 case Bw => 10 case B2w2 => 11 case Xy => 12
      case Oras => 13 case Sm => 14 case Usum => 15 case Lgpe => 16 case Ss => 17
      case Bdsp => 18 case La => 19 case Sv => 20
    }

    /** `name`. */
    function Name(): string
    {
      NameAt(Order())
    }

    /** `value`. */
    function Value(): string
    {
      ValueAt(Order())
    }

    /**
     * `sql_value`, the string the member is stored as: its order, padded with zeros to
     * the digit count of the last member's order (`Count - 1`), then `_` and its name.
     */
    function SqlValue(): string
    {
      OrderedEnum.SqlValue(Order(), Count - 1, Name())
    }

    /** `__lt__` between two members of `GameGroup`. */
    predicate Less(other: GameGroup)
    {
      Order() < other.Order()
    }

    /** `GameGroup(value)`: the member with that value, `None` where Python raises ValueError. */
    static function FromValue(value: string): (r: Option<GameGroup>)
      ensures r.Some? ==> r.value.Value() == value
    {
      OrderedEnum.FindFirst(Members(), (x: GameGroup) => x.Value() == value)
    }

    /** The `games` list declared for the group at position `i`. */
    static function GamesAt(i: nat): (r: seq<Game>)
      requires i < Count
      ensures |r| > 0
    {
      match i
      case 0 => [Game.Red, Game.Blue, Game.BlueJp] case 1 => [Game.Yellow]
      case 2 => [Game.Gold, Game.Silver] case 3 => [Game.Crystal]
      case 4 => [Game.Ruby, Game.Sapphire] case 5 => [Game.FireRed, Game.LeafGreen]
      case 6 => [Game.Emerald] case 7 => [Game.Diamond, Game.Pearl] case 8 => [Game.Platinum]
      case 9 => [Game.HeartGold, Game.SoulSilver] case 10 => [Game.Black, Game.White]
      case 11 => [Game.Black2, Game.White2] case 12 => [Game.X, Game.Y]
      case 13 => [Game.OmegaRuby, Game.AlphaSapphire] case 14 => [Game.Sun, Game.Moon]
      case 15 => [Game.UltraSun, Game.UltraMoon]
      case 16 => [Game.LetsGoPikachu, Game.LetsGoEevee] case 17 => [Game.Sword, Game.Shield]
      case 18 => [Game.BrilliantDiamond, Game.ShiningPearl] case 19 => [Game.LegendsArceus]
      case _ => [Game.Scarlet, Game.Violet]
    }

    /** `games`: the games released in this group. */
    function Games(): (r: seq<Game>)
      ensures |r| > 0
    {
      GamesAt(Order())
    }

    /** `get_default`. */
    static function Default(): (r: GameGroup)
      ensures forall h: GameGroup :: !r.Less(h)
    {
      Sv
    }
  }

  /** `At` and `Order` are inverse: `order` is the member's index in `list(GameGroup)`. */
  lemma GameGroupOrderIsDeclarationIndex(i: nat)
    requires i < GameGroup.Count
    ensures GameGroup.At(i).Order() == i
    ensures GameGroup.Members()[i].Order() == i
  {
  }

  /** The declared values are pairwise distinct. */
  lemma GameGroupDeclaredValuesDiffer(i: nat, j: nat)
    requires i < j < GameGroup.Count
    ensures GameGroup.ValueAt(i) != GameGroup.ValueAt(j)
  {
  }

  /** `@unique`: no two members share a value. */
  lemma GameGroupValuesAreUnique(a: GameGroup, b: GameGroup)
    ensures a.Value() == b.Value() ==> a == b
  {
    if a.Order() < b.Order() {
      GameGroupDeclaredValuesDiffer(a.Order(), b.Order());
    } else if b.Order() < a.Order() {
      GameGroupDeclaredValuesDiffer(b.Order(), a.Order());
    } else {
      assert a == GameGroup.At(a.Order()) == b;
    }
  }

  /** `<` (with `@total_ordering`) is a strict total order on `GameGroup`. */
  lemma GameGroupLessIsStrictTotalOrder(a: GameGroup, b: GameGroup, c: GameGroup)
    ensures !a.Less(a)
    ensures a.Less(b) ==> !b.Less(a)
    ensures a.Less(b) && b.Less(c) ==> a.Less(c)
    ensures a == b || a.Less(b) || b.Less(a)
  {
    assert a.Order() == b.Order() ==> a == GameGroup.At(a.Order()) == b;
  }

  /** Comparing stored `sql_value` strings agrees with `<`. */
  lemma GameGroupSqlValueSortsByOrder(a: GameGroup, b: GameGroup)
    ensures OrderedEnum.StrLess(a.SqlValue(), b.SqlValue()) <==> a.Less(b)
  {
    OrderedEnum.SqlValueSortsByOrder(a.Order(), b.Order(), GameGroup.Count - 1, a.Name(), b.Name());
  }

  /** `GameGroup(value)` finds exactly the member with that value. */
  lemma GameGroupFromValueIsExact(value: string, x: GameGroup)
    ensures GameGroup.FromValue(value) == Some(x) <==> x.Value() == value
  {
    if x.Value() == value {
      assert GameGroup.Members()[x.Order()] == x;
      var found := GameGroup.FromValue(value);
      GameGroupValuesAreUnique(found.value, x);
    }
  }

  /** `HeldItemSlot` (pokedex/enums.py:115-119). */
  datatype HeldItemSlot =
    | Common | Rare | RarerDarkGrass
  {
    static const Count: nat := 3

    /** `list(HeldItemSlot)[i]`: the member declared at position `i`. */
    static function At(i: nat): HeldItemSlot
      requires i < Count
    {
      match i
      case 0 => Common case 1 => Rare case _ => RarerDarkGrass
    }

    /** The name declared at position `i`. */
    static function NameAt(i: nat): string
      requires i < Count
    {
      match i
      case 0 => "COMMON" case 1 => "RARE" case _ => "RARER_DARK_GRASS"
    }

    /** The value declared at position `i`. */
    static function ValueAt(i: nat): string
      requires i < Count
    {
      match i
      case 0 => "common" case 1 => "rare" case _ => "rarer_dark_grass"
    }

    /** `list(HeldItemSlot)`. */
    static function Members(): (r: seq<HeldItemSlot>)
      ensures |r| == Count && forall i :: 0 <= i < Count ==> r[i] == At(i)
    {
      seq(Count, i requires 0 <= i < Count => At(i))
    }

    /** `order`: the zero-based position of this member in the declaration. */
    function Order(): (r: nat)
      ensures r < Count && At(r) == this
    {
      match this
      case Common => 0 case Rare => 1 case RarerDarkGrass => 2
    }

    /** `name`. */
    function Name(): string
    {
      NameAt(Order())
    }

    /** `value`. */
    function Value(): string
    {
      ValueAt(Order())
    }

    /**
     * `sql_value`, the string the member is stored as: its order, padded with zeros to
     * the digit count of the last member's order (`Count - 1`), then `_` and its name.
     */
    function SqlValue(): string
    {
      OrderedEnum.SqlValue(Order(), Count - 1, Name())
    }

    /** `__lt__` between two members of `HeldItemSlot`. */
    predicate Less(other: HeldItemSlot)
    {
      Order() < other.Order()
    }

    /** `HeldItemSlot(value)`: the member with that value, `None` where Python raises ValueError. */
    static function FromValue(value: string): (r: Option<HeldItemSlot>)
      ensures r.Some? ==> r.value.Value() == value
    {
      OrderedEnum.FindFirst(Members(), (x: HeldItemSlot) => x.Value() == value)
    }
  }

  /** `At` and `Order` are inverse: `order` is the member's index in `list(HeldItemSlot)`. */
  lemma HeldItemSlotOrderIsDeclarationIndex(i: nat)
    requires i < HeldItemSlot.Count
    ensures HeldItemSlot.At(i).Order() == i
    ensures HeldItemSlot.Members()[i].Order() == i
  {
  }

  /** The declared values are pairwise distinct. */
  lemma HeldItemSlotDeclaredValuesDiffer(i: nat, j: nat)
    requires i < j < HeldItemSlot.Count
    ensures HeldItemSlot.ValueAt(i) != HeldItemSlot.ValueAt(j)
  {
  }

  /** `@unique`: no two members share a value. */
  lemma HeldItemSlotValuesAreUnique(a: HeldItemSlot, b: HeldItemSlot)
    ensures a.Value() == b.Value() ==> a == b
  {
    if a.Order() < b.Order() {
      HeldItemSlotDeclaredValuesDiffer(a.Order(), b.Order());
    } else if b.Order() < a.Order() {
      HeldItemSlotDeclaredValuesDiffer(b.Order(), a.Order());
    } else {
      assert a == HeldItemSlot.At(a.Order()) == b;
    }
  }

  /** `<` (with `@total_ordering`) is a strict total order on `HeldItemSlot`. */
  lemma HeldItemSlotLessIsStrictTotalOrder(a: HeldItemSlot, b: HeldItemSlot, c: HeldItemSlot)
    ensures !a.Less(a)
    ensures a.Less(b) ==> !b.Less(a)
    ensures a.Less(b) && b.Less(c) ==> a.Less(c)
    ensures a == b || a.Less(b) || b.Less(a)
  {
    assert a.Order() == b.Order() ==> a == HeldItemSlot.At(a.Order()) == b;
  }

  /** Comparing stored `sql_value` strings agrees with `<`. */
  lemma HeldItemSlotSqlValueSortsByOrder(a: HeldItemSlot, b: HeldItemSlot)
    ensures OrderedEnum.StrLess(a.SqlValue(), b.SqlValue()) <==> a.Less(b)
  {
    OrderedEnum.SqlValueSortsByOrder(a.Order(), b.Order(), HeldItemSlot.Count - 1, a.Name(), b.Name());
  }

  /** `HeldItemSlot(value)` finds exactly the member with that value. */
  lemma HeldItemSlotFromValueIsExact(value: string, x: HeldItemSlot)
    ensures HeldItemSlot.FromValue(value) == Some(x) <==> x.Value() == value
  {
    if x.Value() == value {
      assert HeldItemSlot.Members()[x.Order()] == x;
      var found := HeldItemSlot.FromValue(value);
      HeldItemSlotValuesAreUnique(found.value, x);
    }
  }

  /** `Language` (pokedex/enums.py:122-170). */
  datatype Language =
    | JapaneseKana | JapaneseKanji | English | French | Italian | German | Spanish | Korean
    | ChineseSimplified | ChineseTraditional
  {
    static const Count: nat := 10

    /** `list(Language)[i]`: the member declared at position `i`. */
    static function At(i: nat): Language
      requires i < Count
    {
      match i
      case 0 => JapaneseKana case 1 => JapaneseKanji case 2 => English case 3 => French
      case 4 => Italian case 5 => German case 6 => Spanish case 7 => Korean
      case 8 => ChineseSimplified case _ => ChineseTraditional
    }

    /** The name declared at position `i`. */
    static function NameAt(i: nat): string
      requires i < Count
    {
      match i
      case 0 => "JAPANESE_KANA" case 1 => "JAPANESE_KANJI" case 2 => "ENGLISH"
      case 3 => "FRENCH" case 4 => "ITALIAN" case 5 => "GERMAN" case 6 => "SPANISH"
      case 7 => "KOREAN" case 8 => "CHINESE_SIMPLIFIED" case _ => "CHINESE_TRADITIONAL"
    }

    /** The value declared at position `i`. */
    static function ValueAt(i: nat): string
      requires i < Count
    {
      match i
      case 0 => "jp-kana" case 1 => "jp-kanji" case 2 => "en" case 3 => "fr" case 4 => "it"
      case 5 => "de" case 6 => "es" case 7 => "ko" case 8 => "zh-simp" case _ => "zh-trad"
    }

    /** `list(Language)`. */
    static function Members(): (r: seq<Language>)
      ensures |r| == Count && forall i :: 0 <= i < Count ==> r[i] == At(i)
    {
      seq(Count, i requires 0 <= i < Count => At(i))
    }

    /** `order`: the zero-based position of this member in the declaration. */
    function Order(): (r: nat)
      ensures r < Count && At(r) == this
    {
      match this
      case JapaneseKana => 0 case JapaneseKanji => 1 case English => 2 case French => 3
      case Italian => 4 case German => 5 case Spanish => 6 case Korean => 7
      case ChineseSimplified => 8 case ChineseTraditional => 9
    }

    /** `name`. */
    function Name(): string
    {
      NameAt(Order())
    }

    /** `value`. */
    function Value(): string
    {
      ValueAt(Order())
    }

    /**
     * `sql_value`, the string the member is stored as: its order, padded with zeros to
     * the digit count of the last member's order (`Count - 1`), then `_` and its name.
     */
    function SqlValue(): string
    {
      OrderedEnum.SqlValue(Order(), Count - 1, Name())
    }

    /** `__lt__` between two members of `Language`. */
    predicate Less(other: Language)
    {
      Order() < other.Order()
    }

    /** `Language(value)`: the member with that value, `None` where Python raises ValueError. */
    static function FromValue(value: string): (r: Option<Language>)
      ensures r.Some? ==> r.value.Value() == value
    {
      OrderedEnum.FindFirst(Members(), (x: Language) => x.Value() == value)
    }

    /** `get_default`. */
    static function Default(): (r: Language)
      ensures r.Value() == "en"
    {
      English
    }

    /** The alias table of `Language.get`, keyed by normalised alias. */
    static function Aliases(): map<string, Language>
    {
      map[
        "jp" := JapaneseKana, "japanese" := JapaneseKana, "kana" := JapaneseKana,
        "jpkana" := JapaneseKana, "japanesekana" := JapaneseKana,
        "kanji" := JapaneseKanji, "jpkanji" := JapaneseKanji, "japanesekanji" := JapaneseKanji,
        "fr" := French, "french" := French,
        "de" := German, "german" := German,
        "es" := Spanish, "spanish" := Spanish,
        "it" := Italian, "italian" := Italian,
        "en" := English, "english" := English,
        "ko" := Korean, "korean" := Korean,
        "zh" := ChineseSimplified, "chinese" := ChineseSimplified,
        "zhsimp" := ChineseSimplified, "chinesesimplified" := ChineseSimplified,
        "zhtrad" := ChineseTraditional, "chinesetraditional" := ChineseTraditional
      ]
    }

    /**
     * `Language.get`: lower-case the text, delete every character outside a-z, and look the
     * rest up in the alias table; an unknown alias gives `None`.
     */
    static function Get(language: string): (r: Option<Language>)
      ensures r.Some? <==> NormalizeAlias(language) in Aliases()
      ensures r.Some? ==> r.value == Aliases()[NormalizeAlias(language)]
    {
      var key := NormalizeAlias(language);
      if key in Aliases() then Some(Aliases()[key]) else None
    }
  }

  /** `At` and `Order` are inverse: `order` is the member's index in `list(Language)`. */
  lemma LanguageOrderIsDeclarationIndex(i: nat)
    requires i < Language.Count
    ensures Language.At(i).Order() == i
    ensures Language.Members()[i].Order() == i
  {
  }

  /** The declared values are pairwise distinct. */
  lemma LanguageDeclaredValuesDiffer(i: nat, j: nat)
    requires i < j < Language.Count
    ensures Language.ValueAt(i) != Language.ValueAt(j)
  {
  }

  /** `@unique`: no two members share a value. */
  lemma LanguageValuesAreUnique(a: Language, b: Language)
    ensures a.Value() == b.Value() ==> a == b
  {
    if a.Order() < b.Order() {
      LanguageDeclaredValuesDiffer(a.Order(), b.Order());
    } else if b.Order() < a.Order() {
      LanguageDeclaredValuesDiffer(b.Order(), a.Order());
    } else {
      assert a == Language.At(a.Order()) == b;
    }
  }

  /** `<` (with `@total_ordering`) is a strict total order on `Language`. */
  lemma LanguageLessIsStrictTotalOrder(a: Language, b: Language, c: Language)
    ensures !a.Less(a)
    ensures a.Less(b) ==> !b.Less(a)
    ensures a.Less(b) && b.Less(c) ==> a.Less(c)
    ensures a == b || a.Less(b) || b.Less(a)
  {
    assert a.Order() == b.Order() ==> a == Language.At(a.Order()) == b;
  }

  /** Comparing stored `sql_value` strings agrees with `<`. */
  lemma LanguageSqlValueSortsByOrder(a: Language, b: Language)
    ensures OrderedEnum.StrLess(a.SqlValue(), b.SqlValue()) <==> a.Less(b)
  {
    OrderedEnum.SqlValueSortsByOrder(a.Order(), b.Order(), Language.Count - 1, a.Name(), b.Name());
  }

  /** `Language(value)` finds exactly the member with that value. */
  lemma LanguageFromValueIsExact(value: string, x: Language)
    ensures Language.FromValue(value) == Some(x) <==> x.Value() == value
  {
    if x.Value() == value {
      assert Language.Members()[x.Order()] == x;
      var found := Language.FromValue(value);
      LanguageValuesAreUnique(found.value, x);
    }
  }

  /**
   * The a-z letters that `str.lower` makes of one character. ASCII capitals become their small
   * letters; KELVIN SIGN (U+212A) lowers to `k`, and LATIN CAPITAL LETTER I WITH DOT ABOVE
   * (U+0130) to `i` followed by COMBINING DOT ABOVE (U+0307). Every other character is kept:
   * its lower-case form holds no a-z letter unless it is one already.
   */
  function LowerChar(c: char): (r: string)
    ensures 'A' <= c <= 'Z' ==> r == [(c as int - 'A' as int + 'a' as int) as char]
    ensures 'a' <= c <= 'z' ==> r == [c]
  {
    if 'A' <= c <= 'Z' then [(c as int - 'A' as int + 'a' as int) as char]
    else if c == '\U{212A}' then "k"
    else if c == '\U{0130}' then "i\U{0307}"
    else [c]
  }

  /** `re.sub(r"[^a-z]", "", s)`: the characters of `s` in a-z, in order. */
  function KeepLowerLetters(s: string): string
  {
    if |s| == 0 then []
    else (if 'a' <= s[0] <= 'z' then [s[0]] else []) + KeepLowerLetters(s[1..])
  }

  /** `str.lower`, as far as the a-z letters it yields are concerned. */
  function Lower(s: string): string
  {
    if |s| == 0 then [] else LowerChar(s[0]) + Lower(s[1..])
  }

  /** The key `Language.get` looks up: `re.sub(r"[^a-z]", "", language.lower())`. */
  function NormalizeAlias(language: string): (r: string)
    ensures forall i :: 0 <= i < |r| ==> 'a' <= r[i] <= 'z'
  {
    KeepLowerLettersKeepsOnlyThem(Lower(language));
    KeepLowerLetters(Lower(language))
  }

  lemma {:induction false} KeepLowerLettersKeepsOnlyThem(s: string)
    ensures forall i :: 0 <= i < |KeepLowerLetters(s)| ==> 'a' <= KeepLowerLetters(s)[i] <= 'z'
  {
    if |s| > 0 {
      KeepLowerLettersKeepsOnlyThem(s[1..]);
    }
  }

  /** Text made only of a-z is left as it is by both steps. */
  lemma {:induction false} NormalizeLowerLetters(s: string)
    requires forall i :: 0 <= i < |s| ==> 'a' <= s[i] <= 'z'
    ensures Lower(s) == s && KeepLowerLetters(s) == s
  {
    if |s| > 0 {
      NormalizeLowerLetters(s[1..]);
    }
  }

  /** Normalising an alias twice is normalising it once. */
  lemma NormalizeAliasIsIdempotent(language: string)
    ensures NormalizeAlias(NormalizeAlias(language)) == NormalizeAlias(language)
  {
    NormalizeLowerLetters(NormalizeAlias(language));
  }

  /** `Language.get` is lenient: case and non-letters in the alias never matter. */
  lemma GetIgnoresCaseAndPunctuation(language: string)
    ensures Language.Get(language) == Language.Get(NormalizeAlias(language))
  {
    NormalizeAliasIsIdempotent(language);
  }

  /** The two-letter values are already normalised. */
  lemma NormalizeTwoLetterValues()
    ensures NormalizeAlias("en") == "en" && NormalizeAlias("fr") == "fr"
    ensures NormalizeAlias("it") == "it"
  {
    NormalizeLowerLetters("en");
    NormalizeLowerLetters("fr");
    NormalizeLowerLetters("it");
  }

  lemma NormalizeMoreTwoLetterValues()
    ensures NormalizeAlias("de") == "de" && NormalizeAlias("es") == "es"
    ensures NormalizeAlias("ko") == "ko"
  {
    NormalizeLowerLetters("de");
    NormalizeLowerLetters("es");
    NormalizeLowerLetters("ko");
  }

  /** `re.sub` keeps letters piecewise. */
  lemma {:induction false} KeepLowerLettersAppend(a: string, b: string)
    ensures KeepLowerLetters(a + b) == KeepLowerLetters(a) + KeepLowerLetters(b)
  {
    if |a| > 0 {
      assert (a + b)[1..] == a[1..] + b;
      KeepLowerLettersAppend(a[1..], b);
    } else {
      assert a + b == b;
    }
  }

  /** `str.lower` works piecewise. */
  lemma {:induction false} LowerAppend(a: string, b: string)
    ensures Lower(a + b) == Lower(a) + Lower(b)
  {
    if |a| > 0 {
      assert (a + b)[1..] == a[1..] + b;
      LowerAppend(a[1..], b);
    } else {
      assert a + b == b;
    }
  }

  /** `str.lower` leaves a hyphenated lower-case value as it is. */
  lemma LowerOfHyphenated(a: string, b: string)
    requires forall i :: 0 <= i < |a| ==> 'a' <= a[i] <= 'z'
    requires forall i :: 0 <= i < |b| ==> 'a' <= b[i] <= 'z'
    ensures Lower(a + "-" + b) == a + "-" + b
  {
    var hyphen := "-";
    assert Lower(hyphen) == hyphen;
    NormalizeLowerLetters(a);
    NormalizeLowerLetters(b);
    LowerAppend(a + hyphen, b);
    LowerAppend(a, hyphen);
  }

  /** `re.sub` drops the hyphen of a hyphenated lower-case value. */
  lemma KeepLowerLettersOfHyphenated(a: string, b: string)
    requires forall i :: 0 <= i < |a| ==> 'a' <= a[i] <= 'z'
    requires forall i :: 0 <= i < |b| ==> 'a' <= b[i] <= 'z'
    ensures KeepLowerLetters(a + "-" + b) == a + b
  {
    var hyphen := "-";
    var none: string := [];
    assert KeepLowerLetters(hyphen) == none;
    NormalizeLowerLetters(a);
    NormalizeLowerLetters(b);
    KeepLowerLettersAppend(a, hyphen);
    assert a + none == a;
    assert KeepLowerLetters(a + hyphen) == a;
    KeepLowerLettersAppend(a + hyphen, b);
  }

  /** A hyphenated lower-case value normalises to its two halves run together. */
  lemma NormalizeHyphenated(a: string, b: string)
    requires forall i :: 0 <= i < |a| ==> 'a' <= a[i] <= 'z'
    requires forall i :: 0 <= i < |b| ==> 'a' <= b[i] <= 'z'
    ensures NormalizeAlias(a + "-" + b) == a + b
  {
    LowerOfHyphenated(a, b);
    KeepLowerLettersOfHyphenated(a, b);
  }

  // The hyphenated values lose their hyphen.

  lemma NormalizeJapaneseKana()
    ensures NormalizeAlias("jp-kana") == "jpkana"
  {
    NormalizeHyphenated("jp", "kana");
    assert "jp-kana" == "jp" + "-" + "kana";
    assert "jp" + "kana" == "jpkana";
  }

  lemma NormalizeJapaneseKanji()
    ensures NormalizeAlias("jp-kanji") == "jpkanji"
  {
    NormalizeHyphenated("jp", "kanji");
    assert "jp-kanji" == "jp" + "-" + "kanji";
    assert "jp" + "kanji" == "jpkanji";
  }

  lemma NormalizeChineseSimplified()
    ensures NormalizeAlias("zh-simp") == "zhsimp"
  {
    NormalizeHyphenated("zh", "simp");
    assert "zh-simp" == "zh" + "-" + "simp";
    assert "zh" + "simp" == "zhsimp";
  }

  lemma NormalizeChineseTraditional()
    ensures NormalizeAlias("zh-trad") == "zhtrad"
  {
    NormalizeHyphenated("zh", "trad");
    assert "zh-trad" == "zh" + "-" + "trad";
    assert "zh" + "trad" == "zhtrad";
  }

  /** The alias table lists the hyphen-free form of each hyphenated value. */
  lemma AliasesOfHyphenatedValues()
    ensures "jpkana" in Language.Aliases() && Language.Aliases()["jpkana"] == Language.JapaneseKana
    ensures "jpkanji" in Language.Aliases() && Language.Aliases()["jpkanji"] == Language.JapaneseKanji
    ensures "zhsimp" in Language.Aliases() && Language.Aliases()["zhsimp"] == Language.ChineseSimplified
    ensures "zhtrad" in Language.Aliases() && Language.Aliases()["zhtrad"] == Language.ChineseTraditional
  {
  }

  /** The alias table lists each two-letter value. */
  lemma AliasesOfTwoLetterValues()
    ensures "en" in Language.Aliases() && Language.Aliases()["en"] == Language.English
    ensures "fr" in Language.Aliases() && Language.Aliases()["fr"] == Language.French
    ensures "it" in Language.Aliases() && Language.Aliases()["it"] == Language.Italian
  {
  }

  lemma AliasesOfMoreTwoLetterValues()
    ensures "de" in Language.Aliases() && Language.Aliases()["de"] == Language.German
    ensures "es" in Language.Aliases() && Language.Aliases()["es"] == Language.Spanish
    ensures "ko" in Language.Aliases() && Language.Aliases()["ko"] == Language.Korean
  {
  }

  /** `Language.get` of each value, worked out. */
  lemma GetOfValues()
    ensures Language.Get("jp-kana") == Some(Language.JapaneseKana)
    ensures Language.Get("jp-kanji") == Some(Language.JapaneseKanji)
    ensures Language.Get("en") == Some(Language.English)
    ensures Language.Get("fr") == Some(Language.French)
    ensures Language.Get("it") == Some(Language.Italian)
    ensures Language.Get("de") == Some(Language.German)
    ensures Language.Get("es") == Some(Language.Spanish)
    ensures Language.Get("ko") == Some(Language.Korean)
    ensures Language.Get("zh-simp") == Some(Language.ChineseSimplified)
    ensures Language.Get("zh-trad") == Some(Language.ChineseTraditional)
  {
    NormalizeJapaneseKana();
    NormalizeJapaneseKanji();
    NormalizeTwoLetterValues();
    NormalizeMoreTwoLetterValues();
    NormalizeChineseSimplified();
    NormalizeChineseTraditional();
    AliasesOfHyphenatedValues();
    AliasesOfTwoLetterValues();
    AliasesOfMoreTwoLetterValues();
  }

  /** The value declared at position `i` is an alias of the member declared there. */
  lemma GetOfValueAt(i: nat)
    requires i < Language.Count
    ensures Language.Get(Language.ValueAt(i)) == Some(Language.At(i))
  {
    GetOfValues();
    if i == 0 {
    } else if i == 1 {
    } else if i == 2 {
    } else if i == 3 {
    } else if i == 4 {
    } else if i == 5 {
    } else if i == 6 {
    } else if i == 7 {
    } else if i == 8 {
    } else {
    }
  }

  /** Every member's own value is an alias of it: `Language.get(l.value) == l`. */
  lemma GetOfValue(l: Language)
    ensures Language.Get(l.Value()) == Some(l)
  {
    GetOfValueAt(l.Order());
  }

  /**
   * `Language.get` accepts every spelling of a language's value that normalises like it:
   * any case, any punctuation or other characters around or between the letters.
   */
  lemma GetAcceptsEverySpelling(language: string, l: Language)
    requires NormalizeAlias(language) == NormalizeAlias(l.Value())
    ensures Language.Get(language) == Some(l)
  {
    GetIgnoresCaseAndPunctuation(language);
    GetIgnoresCaseAndPunctuation(l.Value());
    GetOfValue(l);
  }

  /**
   * `str.lower` reaches a-z from outside ASCII too: KELVIN SIGN then `o` is Korean, and
   * I WITH DOT ABOVE then `t` is Italian, the combining dot being deleted.
   */
  lemma GetAfterUnicodeLowering()
    ensures Language.Get("\U{212A}o") == Some(Language.Korean)
    ensures Language.Get("\U{0130}t") == Some(Language.Italian)
  {
    var kelvin := "\U{212A}o";
    assert Lower(kelvin) == "k" + Lower(kelvin[1..]);
    assert Lower(kelvin[1..]) == "o";
    assert NormalizeAlias(kelvin) == "ko";
    var dotted := "\U{0130}t";
    assert Lower(dotted) == "i\U{0307}" + Lower(dotted[1..]);
    assert Lower(dotted[1..]) == "t";
    assert KeepLowerLetters("i\U{0307}t") == "i" + KeepLowerLetters("\U{0307}t");
    assert NormalizeAlias(dotted) == "it";
  }


  /** The defaults: SV is the latest group; English, whose alias `en` `Language.get` accepts. */
  lemma DefaultsAreLatestGroupAndEnglish()
    ensures GameGroup.Default() == GameGroup.At(GameGroup.Count - 1)
    ensures Language.Get("en") == Some(Language.Default())
  {
    GetOfValue(Language.Default());
  }

  // Examples of stored values: the digit field is as wide as the last member's order.

  lemma GameSqlValueExample()
    ensures Game.Red.SqlValue() == "00_RED"
  {
    assert Game.Red.SqlValue() == OrderedEnum.SqlValue(0, 37, "RED");
  }

  lemma AbilitySlotSqlValueExample()
    ensures AbilitySlot.Slot1.SqlValue() == "0_SLOT_1"
  {
  }

  // ---------------------------------------------------------------------------------------
  // The group lists split the games into consecutive blocks, one per group, in group order.

  /** How many games the `i`-th group lists (none past the last group). */
  ghost function GroupSize(i: nat): nat
  {
    if i < GameGroup.Count then |GameGroup.GamesAt(i)| else 0
  }

  /**
   * Where the block of the `i`-th group starts, that is how many games the groups before it
   * list; past the last group, the number of games.
   */
  ghost function GroupStart(i: nat): nat
  {
    match i
    case 0 => 0 case 1 => 3 case 2 => 4 case 3 => 6 case 4 => 7 case 5 => 9 case 6 => 11
    case 7 => 12 case 8 => 14 case 9 => 15 case 10 => 17 case 11 => 19 case 12 => 21
    case 13 => 23 case 14 => 25 case 15 => 27 case 16 => 29 case 17 => 31 case 18 => 33
    case 19 => 35 case 20 => 36 case _ => 38
  }

  /**
   * Each group lists consecutive games in declaration order: the slice of `list(Game)` from
   * where its block starts to where the next group's block starts.
   */
  lemma GroupIsSlice(i: nat)
    requires i < GameGroup.Count
    ensures GroupStart(i) + GroupSize(i) == GroupStart(i + 1) <= Game.Count
    ensures GameGroup.GamesAt(i) == Game.Members()[GroupStart(i)..GroupStart(i + 1)]
  {
    if i < 7 {
      GroupIsSlice0To6(i);
    } else if i < 14 {
      GroupIsSlice7To13(i);
    } else {
      GroupIsSlice14To20(i);
    }
  }

  // The same, checked a few groups at a time.

  lemma GroupIsSlice0To6(i: nat)
    requires 0 <= i < 7
    ensures GroupStart(i) < GroupStart(i + 1) <= Game.Count
    ensures GameGroup.GamesAt(i) == Game.Members()[GroupStart(i)..GroupStart(i + 1)]
  {
    if i == 0 {
    } else if i == 1 {
    } else if i == 2 {
    } else if i == 3 {
    } else if i == 4 {
    } else if i == 5 {
    } else {
    }
  }

  lemma GroupIsSlice7To13(i: nat)
    requires 7 <= i < 14
    ensures GroupStart(i) < GroupStart(i + 1) <= Game.Count
    ensures GameGroup.GamesAt(i) == Game.Members()[GroupStart(i)..GroupStart(i + 1)]
  {
    if i == 7 {
    } else if i == 8 {
    } else if i == 9 {
    } else if i == 10 {
    } else if i == 11 {
    } else if i == 12 {
    } else {
    }
  }

  lemma GroupIsSlice14To20(i: nat)
    requires 14 <= i < 21
    ensures GroupStart(i) < GroupStart(i + 1) <= Game.Count
    ensures GameGroup.GamesAt(i) == Game.Members()[GroupStart(i)..GroupStart(i + 1)]
  {
    if i == 14 {
    } else if i == 15 {
    } else if i == 16 {
    } else if i == 17 {
    } else if i == 18 {
    } else if i == 19 {
    } else {
    }
  }

  /** The blocks tile the games. */
  lemma GroupBlocksTile()
    ensures Blocks.Tiles(GroupStart, GroupSize, GameGroup.Count)
    ensures GroupStart(GameGroup.Count - 1) + GroupSize(GameGroup.Count - 1) == Game.Count
  {
    forall i | 0 < i < GameGroup.Count
      ensures GroupStart(i) == GroupStart(i - 1) + GroupSize(i - 1)
    {
      GroupIsSlice(i - 1);
    }
    GroupIsSlice(GameGroup.Count - 1);
  }

  /** A game lies in a slice of `list(Game)` exactly when its order falls in the slice's range. */
  lemma InSliceOfGames(g: Game, lo: nat, hi: nat)
    requires lo <= hi <= Game.Count
    ensures g in Game.Members()[lo..hi] <==> lo <= g.Order() < hi
  {
    var all := Game.Members();
    forall k | 0 <= k < |all| && all[k] == g
      ensures k == g.Order()
    {
      GameOrderIsDeclarationIndex(k);
    }
    Blocks.InSlice(all, g, g.Order(), lo, hi);
  }

  /** Blocks of earlier groups end before blocks of later groups start. */
  lemma BlocksAscend(i1: nat, i2: nat)
    requires i1 < i2 < GameGroup.Count
    ensures GroupStart(i1) + GroupSize(i1) <= GroupStart(i2)
  {
    GroupBlocksTile();
    Blocks.TilesAscend(GroupStart, GroupSize, GameGroup.Count, i1, i2);
  }

  /** A game is listed by a group exactly when its order falls in that group's block. */
  lemma ListedIffInBlock(g: Game, i: nat)
    requires i < GameGroup.Count
    ensures g in GameGroup.GamesAt(i) <==> GroupStart(i) <= g.Order() < GroupStart(i) + GroupSize(i)
  {
    GroupIsSlice(i);
    InSliceOfGames(g, GroupStart(i), GroupStart(i + 1));
  }

  /** A group that lists `g`, found from the blocks. */
  lemma GroupListing(g: Game) returns (h: GameGroup)
    ensures g in h.Games()
  {
    GroupBlocksTile();
    var i := Blocks.TilesCover(GroupStart, GroupSize, GameGroup.Count, g.Order(), GameGroup.Count - 1);
    ListedIffInBlock(g, i);
    h := GameGroup.At(i);
    GameGroupOrderIsDeclarationIndex(i);
  }

  /** No game is listed by two groups. */
  lemma GroupListsPartitionGames(g: Game)
    ensures forall h1: GameGroup, h2: GameGroup :: g in h1.Games() && g in h2.Games() ==> h1 == h2
  {
    forall h1: GameGroup, h2: GameGroup | g in h1.Games() && g in h2.Games()
      ensures h1 == h2
    {
      ListedIffInBlock(g, h1.Order());
      ListedIffInBlock(g, h2.Order());
      if h1.Order() < h2.Order() {
        BlocksAscend(h1.Order(), h2.Order());
      } else if h2.Order() < h1.Order() {
        BlocksAscend(h2.Order(), h1.Order());
      } else {
        assert h1 == GameGroup.At(h1.Order()) == h2;
      }
    }
  }

  /** `game_group` is monotone: a later game never belongs to an earlier group. */
  lemma GroupIsMonotone(g1: Game, g2: Game)
    requires !g2.Less(g1)
    ensures !g2.Group().Less(g1.Group())
  {
    var i1, i2 := g1.Group().Order(), g2.Group().Order();
    ListedIffInBlock(g1, i1);
    ListedIffInBlock(g2, i2);
    if i2 < i1 {
      BlocksAscend(i2, i1);
    }
  }

  /** The `games` list of the `i`-th group (none past the last group). */
  ghost function GroupGames(i: nat): seq<Game>
  {
    if i < GameGroup.Count then GameGroup.At(i).Games() else []
  }

  /** Each group's `games` list is the slice of `list(Game)` its block covers. */
  lemma GroupGamesAreSlices()
    ensures forall i :: 0 <= i < GameGroup.Count ==>
              Blocks.HoldsSlice(Game.Members(), GroupGames, GroupStart, GroupSize, i)
  {
    forall i | 0 <= i < GameGroup.Count
      ensures Blocks.HoldsSlice(Game.Members(), GroupGames, GroupStart, GroupSize, i)
    {
      GameGroupOrderIsDeclarationIndex(i);
      GroupIsSlice(i);
    }
  }

  /** Concatenating the groups' `games` lists in group order gives `list(Game)`. */
  lemma ConcatGamesIsAllGames()
    ensures Blocks.Flatten(GroupGames, GameGroup.Count) == Game.Members()
  {
    GroupBlocksTile();
    GroupGamesAreSlices();
    Blocks.FlattenTilesAll(Game.Members(), GroupGames, GroupStart, GroupSize, GameGroup.Count);
  }
}
