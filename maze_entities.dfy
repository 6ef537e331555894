/** The tiles, items, player and inventory of the MazeRunner game
    (A2/a2.py), together with the candy item that A3/a3.py adds. */
module MazeEntities {
  import opened Common

  // Tile and entity IDs. The `constants` module that defines them is not
  // part of this model: any distinct characters will do, and these are
  // representative ones.
  const WALL: char := '#'
  const EMPTY: char := ' '
  const LAVA: char := 'L'
  const DOOR: char := 'D'
  const PLAYER: char := 'P'
  const COIN: char := 'C'
  const POTION: char := 'M'
  const HONEY: char := 'H'
  const APPLE: char := 'A'
  const WATER: char := 'W'
  const CANDY: char := 'Y'
  const ABSTRACT_TILE: char := 'T'

  // Game amounts, as the class documentation states them (HP starts at 100,
  // lava does 5 damage, a potion restores 20 HP, water 5 thirst, an apple 1
  // hunger and honey 5 hunger); the hunger and thirst ceilings are
  // representative.
  const MAX_HEALTH: int := 100
  const MAX_HUNGER: int := 10
  const MAX_THIRST: int := 10
  const MIN_HEALTH: int := 0
  const MIN_HUNGER: int := 0
  const MIN_THIRST: int := 0
  const TILE_DAMAGE: int := 0
  const LAVA_DAMAGE: int := 5
  const MOVE_DAMAGE: int := 1
  const HUNGER_CUMULATE: int := 1
  const THIRST_CUMULATE: int := 1
  const POTION_AMOUNT: int := 20
  const WATER_AMOUNT: int := -5
  const APPLE_AMOUNT: int := -1
  const HONEY_AMOUNT: int := -5
  const CANDY_HUNGER_AMOUNT: int := -10
  const CANDY_HEALTH_AMOUNT: int := -2

  /** The tile IDs on which `Level.remove_item` lets an item be removed. */
  const ITEM_ENTITY: seq<char> := [EMPTY, COIN, POTION, HONEY, APPLE, WATER]

  /** A (row, column) position. */
  type Pos = (int, int)

  function Shift(p: Pos, delta: Pos): Pos
  {
    (p.0 + delta.0, p.1 + delta.1)
  }

  // ---------------------------------------------------------------- tiles

  /** The floor kinds. Every door cell of a maze is the maze's one shared
      `Door` object, so `DoorTile` carries no state: its state is the door's. */
  datatype Tile = BaseTile | Wall | Empty | Lava | DoorTile

  /** The maze's door: locked (blocking, with the door ID) until unlocked,
      after which it is passable and shows as an empty tile. */
  class Door {
    var blocking: bool
    var id: char

    ghost predicate Valid()
      reads this
    {
      (blocking && id == DOOR) || (!blocking && id == EMPTY)
    }

    constructor()
      ensures blocking && id == DOOR
      ensures Valid()
    {
      blocking := true;
      id := DOOR;
    }

    /** Unlocking an unlocked door leaves it unlocked: the new state does not
        depend on the old one. */
    method Unlock()
      modifies this
      ensures !blocking && id == EMPTY
      ensures Valid()
    {
      blocking := false;
      id := EMPTY;
    }
  }

  /** `Tile.is_blocking` and its overrides, for a tile of a maze whose door is `door`. */
  function IsBlocking(t: Tile, door: Door): bool
    reads door
  {
    match t
    case Wall => true
    case DoorTile => door.blocking
    case _ => false
  }

  /** `Tile.get_id` and its overrides. */
  function TileId(t: Tile, door: Door): char
    reads door
  {
    match t
    case BaseTile => ABSTRACT_TILE
    case Wall => WALL
    case Empty => EMPTY
    case Lava => LAVA
    case DoorTile => door.id
  }

  /** `Tile.damage` and its override in `Lava`. */
  function Damage(t: Tile): int
  {
    match t
    case Lava => LAVA_DAMAGE
    case _ => TILE_DAMAGE
  }

  /** A wall always blocks; the base tile, empty floor and lava never do; a
      door blocks exactly while it shows the door ID. Only a wall shows the
      wall ID and only lava the lava ID; only lava does damage. */
  lemma TileBehaviour(t: Tile, door: Door)
    requires door.Valid()
    ensures IsBlocking(t, door) <==> t == Wall || (t == DoorTile && TileId(t, door) == DOOR)
    ensures TileId(t, door) == WALL <==> t == Wall
    ensures TileId(t, door) == LAVA <==> t == Lava
    ensures Damage(t) == (if t == Lava then LAVA_DAMAGE else 0)
  {
  }

  // ---------------------------------------------------------------- items

  /** The item kinds, each at the position it was created for. */
  datatype Item =
    | Potion(position: Pos)
    | Coin(position: Pos)
    | Water(position: Pos)
    | Apple(position: Pos)
    | Honey(position: Pos)
    | Candy(position: Pos)

  /** The class name, which the inventory uses as the item's key. */
  function Name(item: Item): string
  {
    match item
    case Potion(_) => "Potion"
    case Coin(_) => "Coin"
    case Water(_) => "Water"
    case Apple(_) => "Apple"
    case Honey(_) => "Honey"
    case Candy(_) => "Candy"
  }

  /** `get_id` of each item class. */
  function ItemId(item: Item): char
  {
    match item
    case Potion(_) => POTION
    case Coin(_) => COIN
    case Water(_) => WATER
    case Apple(_) => APPLE
    case Honey(_) => HONEY
    case Candy(_) => CANDY
  }

  /** Two items share an inventory key exactly when they are of the same kind. */
  lemma NameIsKind(a: Item, b: Item)
    ensures Name(a) == Name(b) <==> ItemId(a) == ItemId(b)
  {
  }

  // ---------------------------------------------------------------- player

  /** Python's bounds check after `+=`: below `lo` becomes `lo`, above `hi`
      becomes `hi`. */
  function Clamp(x: int, lo: int, hi: int): (r: int)
    ensures lo <= hi ==> lo <= r <= hi
    ensures lo <= x <= hi ==> r == x
    ensures x < lo ==> r == lo
    ensures lo <= hi < x ==> r == hi
  {
    if x < lo then lo else if x > hi then hi else x
  }

  /** The player: position, the three stats and an inventory. */
  class Player {
    var position: Pos
    var hunger: int
    var thirst: int
    var health: int
    const inventory: Inventory

    constructor(position: Pos)
      ensures this.position == position
      ensures hunger == MIN_HUNGER && thirst == MIN_THIRST && health == MAX_HEALTH
      ensures fresh(inventory) && inventory.items == map[]
    {
      this.position := position;
      hunger := MIN_HUNGER;
      thirst := MIN_THIRST;
      health := MAX_HEALTH;
      inventory := new Inventory([]);
    }

    /** All three stats lie within their bounds. */
    ghost predicate InRange()
      reads this
    {
      MIN_HEALTH <= health <= MAX_HEALTH
      && MIN_HUNGER <= hunger <= MAX_HUNGER
      && MIN_THIRST <= thirst <= MAX_THIRST
    }

    method SetPosition(p: Pos)
      modifies this
      ensures position == p
      ensures hunger == old(hunger) && thirst == old(thirst) && health == old(health)
    {
      position := p;
    }

    method ChangeHunger(amount: int)
      modifies this
      ensures MIN_HUNGER <= hunger <= MAX_HUNGER
      ensures hunger == Clamp(old(hunger) + amount, MIN_HUNGER, MAX_HUNGER)
      ensures position == old(position) && thirst == old(thirst) && health == old(health)
    {
      hunger := hunger + amount;
      if hunger < MIN_HUNGER {
        hunger := MIN_HUNGER;
      } else if hunger > MAX_HUNGER {
        hunger := MAX_HUNGER;
      }
    }

    method ChangeThirst(amount: int)
      modifies this
      ensures MIN_THIRST <= thirst <= MAX_THIRST
      ensures thirst == Clamp(old(thirst) + amount, MIN_THIRST, MAX_THIRST)
      ensures position == old(position) && hunger == old(hunger) && health == old(health)
    {
      thirst := thirst + amount;
      if thirst < MIN_THIRST {
        thirst := MIN_THIRST;
      } else if thirst > MAX_THIRST {
        thirst := MAX_THIRST;
      }
    }

    method ChangeHealth(amount: int)
      modifies this
      ensures MIN_HEALTH <= health <= MAX_HEALTH
      ensures health == Clamp(old(health) + amount, MIN_HEALTH, MAX_HEALTH)
      ensures position == old(position) && hunger == old(hunger) && thirst == old(thirst)
    {
      health := health + amount;
      if health < MIN_HEALTH {
        health := MIN_HEALTH;
      } else if health > MAX_HEALTH {
        health := MAX_HEALTH;
      }
    }
  }

  /** The `apply` method of each item class: a potion heals, water quenches,
      apple and honey feed, candy feeds but hurts, a coin does nothing. Every
      change goes through the clamping setters. */
  method ApplyItem(item: Item, player: Player)
    modifies player
    ensures player.position == old(player.position)
    ensures player.health == match item
      case Potion(_) => Clamp(old(player.health) + POTION_AMOUNT, MIN_HEALTH, MAX_HEALTH)
      case Candy(_) => Clamp(old(player.health) + CANDY_HEALTH_AMOUNT, MIN_HEALTH, MAX_HEALTH)
      case _ => old(player.health)
    ensures player.hunger == match item
      case Apple(_) => Clamp(old(player.hunger) + APPLE_AMOUNT, MIN_HUNGER, MAX_HUNGER)
      case Honey(_) => Clamp(old(player.hunger) + HONEY_AMOUNT, MIN_HUNGER, MAX_HUNGER)
      case Candy(_) => Clamp(old(player.hunger) + CANDY_HUNGER_AMOUNT, MIN_HUNGER, MAX_HUNGER)
      case _ => old(player.hunger)
    ensures player.thirst == match item
      case Water(_) => Clamp(old(player.thirst) + WATER_AMOUNT, MIN_THIRST, MAX_THIRST)
      case _ => old(player.thirst)
  {
    match item
    case Potion(_) => player.ChangeHealth(POTION_AMOUNT);
    case Coin(_) =>
    case Water(_) => player.ChangeThirst(WATER_AMOUNT);
    case Apple(_) => player.ChangeHunger(APPLE_AMOUNT);
    case Honey(_) => player.ChangeHunger(HONEY_AMOUNT);
    case Candy(_) =>
      player.ChangeHunger(CANDY_HUNGER_AMOUNT);
      player.ChangeHealth(CANDY_HEALTH_AMOUNT);
  }

  // ---------------------------------------------------------------- inventory

  /** An inventory's dictionary: item name to the instances held, oldest first. */
  type Stock = map<string, seq<Item>>

  /** `dict.get(name, [])`. */
  function Get(inv: Stock, name: string): seq<Item>
  {
    if name in inv then inv[name] else []
  }

  /** How many items named `name` the inventory holds. */
  function Count(inv: Stock, name: string): nat
  {
    |Get(inv, name)|
  }

  /** No name maps to an empty list. */
  predicate NoEmptyList(inv: Stock)
  {
    forall name :: name in inv ==> inv[name] != []
  }

  /** The dictionary after `add_item(item)`. */
  function Added(inv: Stock, item: Item): (r: Stock)
    ensures r.Keys == inv.Keys + {Name(item)}
    ensures r[Name(item)] == Get(inv, Name(item)) + [item]
    ensures forall name :: name in inv && name != Name(item) ==> r[name] == inv[name]
    ensures NoEmptyList(inv) ==> NoEmptyList(r)
  {
    var name := Name(item);
    if name in inv then inv[name := inv[name] + [item]] else inv[name := [item]]
  }

  /** The dictionary after `remove_item(name)`, which needs the list under
      `name`, when there is one, to have a first element. */
  function Dropped(inv: Stock, name: string): (r: Stock)
    requires name in inv ==> inv[name] != []
    ensures name !in inv ==> r == inv
    ensures Count(r, name) == if Count(inv, name) == 0 then 0 else Count(inv, name) - 1
    ensures name in inv ==> Get(r, name) == inv[name][1..]
    ensures forall other :: other != name ==> Get(r, other) == Get(inv, other)
    ensures r.Keys <= inv.Keys
    ensures NoEmptyList(inv) ==> NoEmptyList(r)
  {
    if name !in inv then inv
    else if |inv[name]| == 1 then inv - {name}
    else inv[name := inv[name][1..]]
  }

  /** The dictionary the constructor builds from `initial`, one `add_item` at a time. */
  function Stocked(initial: seq<Item>): Stock
  {
    if initial == [] then map[]
    else Added(Stocked(initial[..|initial| - 1]), initial[|initial| - 1])
  }

  /** The items of `xs` named `name`, in their order in `xs`. */
  function Named(xs: seq<Item>, name: string): seq<Item>
  {
    if xs == [] then []
    else Named(xs[..|xs| - 1], name) + (if Name(xs[|xs| - 1]) == name then [xs[|xs| - 1]] else [])
  }

  /** The inventory built from a list groups it by name: under each name it
      holds exactly that name's items, in their original order. */
  lemma {:induction false} StockedGroups(initial: seq<Item>, name: string)
    ensures Get(Stocked(initial), name) == Named(initial, name)
  {
    if initial != [] {
      StockedGroups(initial[..|initial| - 1], name);
    }
  }

  /** The inventory built from a list has no empty entry. */
  lemma {:induction false} StockedNoEmptyList(initial: seq<Item>)
    ensures NoEmptyList(Stocked(initial))
  {
    if initial != [] {
      StockedNoEmptyList(initial[..|initial| - 1]);
    }
  }

  /** Removing by the name of an item just added to an inventory that had
      none of its kind gives the inventory back. */
  lemma DropUndoesAdd(inv: Stock, item: Item)
    requires Name(item) !in inv
    ensures Dropped(Added(inv, item), Name(item)) == inv
  {
  }

  /** The player's inventory, a dictionary of lists keyed by item name. */
  class Inventory {
    var items: Stock

    ghost predicate Valid()
      reads this
    {
      NoEmptyList(items)
    }

    constructor(initial: seq<Item>)
      ensures items == Stocked(initial)
      ensures Valid()
    {
      items := map[];
      new;
      var i := 0;
      while i < |initial|
        invariant 0 <= i <= |initial|
        invariant items == Stocked(initial[..i])
      {
        assert initial[..i + 1][..i] == initial[..i];
        AddItem(initial[i]);
        i := i + 1;
      }
      assert initial[..|initial|] == initial;
      StockedNoEmptyList(initial);
    }

    /** Appends `item` under its name, creating the entry if needed. */
    method AddItem(item: Item)
      modifies this
      ensures items == Added(old(items), item)
    {
      var name := Name(item);
      if name in items {
        items := items[name := items[name] + [item]];
      } else {
        items := items[name := [item]];
      }
    }

    /** Takes out the oldest item named `name`, or returns `None` when there is none. */
    method RemoveItem(name: string) returns (r: Option<Item>)
      requires name in items ==> items[name] != []
      modifies this
      ensures name !in old(items) ==> r == None
      ensures name in old(items) ==> r == Some(old(items)[name][0])
      ensures items == Dropped(old(items), name)
    {
      if name !in items {
        return None;
      }
      var removed := items[name][0];
      items := items[name := items[name][1..]];
      if items[name] == [] {
        items := items - {name};
      }
      r := Some(removed);
    }
  }
}
