/** The game rules A3/a3.py adds to MazeRunner: the shop's price list and
    purchase, the coin count the shop is given, the candy item and the
    arithmetic of the timer label. */
module MazeShop {
  import opened Common
  import opened MazeEntities

  // ---------------------------------------------------------------- the shop

  /** The inventory key of coins, the class name `Coin`. */
  const COIN_NAME: string := "Coin"

  /** `SHOP_LIST`: item name to price and the instance sold. Candy, at 3
      coins, is added to it when the shop is first drawn. */
  function ShopList(shopDrawn: bool): map<string, (int, Item)>
  {
    var goods := map["apple" := (1, Apple((0, 0))), "water" := (1, Water((0, 0))),
                     "honey" := (2, Honey((0, 0))), "potion" := (2, Potion((0, 0)))];
    if shopDrawn then goods["candy" := (3, Candy((0, 0)))] else goods
  }

  /** Apple and water cost one coin, honey and potion two and candy three;
      every good is never a coin itself, and is filed in the inventory under
      its own name; candy is on sale exactly once the shop has been drawn,
      and drawing it changes no other entry. */
  lemma ShopListPrices(shopDrawn: bool, name: string)
    ensures ShopList(shopDrawn)["apple"].0 == 1 && ShopList(shopDrawn)["water"].0 == 1
    ensures ShopList(shopDrawn)["honey"].0 == 2 && ShopList(shopDrawn)["potion"].0 == 2
    ensures ShopList(true)["candy"].0 == 3
    ensures name in ShopList(shopDrawn) ==>
      1 <= ShopList(shopDrawn)[name].0 <= 3
      && Name(ShopList(shopDrawn)[name].1) != COIN_NAME
      && Name(ShopList(shopDrawn)[name].1) == [name[0] - 'a' + 'A'] + name[1..]
    ensures "candy" in ShopList(shopDrawn) <==> shopDrawn
    ensures name != "candy" ==> (name in ShopList(true) <==> name in ShopList(false))
    ensures name != "candy" && name in ShopList(false) ==> ShopList(true)[name] == ShopList(false)[name]
  {
  }

  /** `GraphicalInterface.get_num_coin`: how many coins the inventory holds,
      none when it has no coin entry. */
  function NumCoin(inv: Stock): (n: nat)
    ensures COIN_NAME !in inv ==> n == 0
    ensures COIN_NAME in inv ==> n == |inv[COIN_NAME]|
  {
    |Get(inv, COIN_NAME)|
  }

  /** How many of `xs` are coins. */
  function Coins(xs: seq<Item>): nat
  {
    if xs == [] then 0
    else Coins(xs[..|xs| - 1]) + (if xs[|xs| - 1].Coin? then 1 else 0)
  }

  /** Only coins are filed under the coin name. */
  lemma {:induction false} NamedCoins(xs: seq<Item>)
    ensures |Named(xs, COIN_NAME)| == Coins(xs)
  {
    if xs != [] {
      NamedCoins(xs[..|xs| - 1]);
    }
  }

  /** The coin count of an inventory built from `initial` is the number of
      coins among `initial`. */
  lemma NumCoinCountsCoins(initial: seq<Item>)
    ensures NumCoin(Stocked(initial)) == Coins(initial)
  {
    StockedGroups(initial, COIN_NAME);
    NamedCoins(initial);
  }

  /** The dictionary after `k` calls of `remove_item(name)`. */
  function DroppedN(inv: Stock, name: string, k: nat): (r: Stock)
    requires NoEmptyList(inv)
    ensures NoEmptyList(r)
  {
    if k == 0 then inv else Dropped(DroppedN(inv, name, k - 1), name)
  }

  /** `k` removals by name take the first `k` items of that name, or all of
      them when there are fewer. */
  lemma {:induction false} DroppedNTakesFirst(inv: Stock, name: string, k: nat)
    requires NoEmptyList(inv)
    ensures k <= Count(inv, name) ==> Get(DroppedN(inv, name, k), name) == Get(inv, name)[k..]
    ensures k >= Count(inv, name) ==> Get(DroppedN(inv, name, k), name) == []
  {
    if k > 0 {
      DroppedNTakesFirst(inv, name, k - 1);
      var g := Get(inv, name);
      var before := DroppedN(inv, name, k - 1);
      DroppedGet(before, name);
      if k <= |g| {
        assert g[k - 1..][1..] == g[k..];
      }
    }
  }

  /** One removal by name drops the first item of that name, if any. */
  lemma DroppedGet(inv: Stock, name: string)
    requires NoEmptyList(inv)
    ensures Get(Dropped(inv, name), name) == if Get(inv, name) == [] then [] else Get(inv, name)[1..]
  {
  }

  /** Removals by one name leave every other name alone. */
  lemma {:induction false} DroppedNKeepsOthers(inv: Stock, name: string, k: nat, other: string)
    requires NoEmptyList(inv) && other != name
    ensures Get(DroppedN(inv, name, k), other) == Get(inv, other)
  {
    if k > 0 {
      DroppedNKeepsOthers(inv, name, k - 1, other);
    }
  }

  /** The inventory after a purchase of `itemName`: the price in coins
      removed, then the sold item added. */
  function Purchased(inv: Stock, itemName: string, shopDrawn: bool): Stock
    requires NoEmptyList(inv) && itemName in ShopList(shopDrawn)
  {
    var (price, item) := ShopList(shopDrawn)[itemName];
    Added(DroppedN(inv, COIN_NAME, price), item)
  }

  /** When the player has the coins to pay, a purchase removes exactly the
      price in coins, adds exactly one item of the kind bought, touches no
      other entry and keeps every entry non-empty. */
  lemma PurchaseEffect(inv: Stock, itemName: string, shopDrawn: bool)
    requires NoEmptyList(inv) && itemName in ShopList(shopDrawn)
    requires NumCoin(inv) >= ShopList(shopDrawn)[itemName].0
    ensures var (price, item) := ShopList(shopDrawn)[itemName]; var r := Purchased(inv, itemName, shopDrawn);
      NumCoin(r) == NumCoin(inv) - price
      && Get(r, Name(item)) == Get(inv, Name(item)) + [item]
      && (forall other :: other != COIN_NAME && other != Name(item) ==> Get(r, other) == Get(inv, other))
      && NoEmptyList(r)
  {
    var (price, item) := ShopList(shopDrawn)[itemName];
    ShopListPrices(shopDrawn, itemName);
    DroppedNTakesFirst(inv, COIN_NAME, price);
    DroppedNKeepsOthers(inv, COIN_NAME, price, Name(item));
    forall other | other != COIN_NAME && other != Name(item)
      ensures Get(Purchased(inv, itemName, shopDrawn), other) == Get(inv, other)
    {
      DroppedNKeepsOthers(inv, COIN_NAME, price, other);
    }
  }

  /** `_try_buy_item`: buys `itemName` when `coinNum`, the coin count the
      caller read, covers its price. An item the price list does not hold
      is the source's `KeyError`: `known` is then false and nothing changes. */
  method TryBuyItem(itemName: string, coinNum: int, inventory: Inventory, shopDrawn: bool)
    returns (known: bool, bought: bool)
    requires inventory.Valid()
    modifies inventory
    ensures known == (itemName in ShopList(shopDrawn))
    ensures bought == (known && coinNum >= ShopList(shopDrawn)[itemName].0)
    ensures inventory.items == if bought then Purchased(old(inventory.items), itemName, shopDrawn)
                               else old(inventory.items)
    ensures inventory.Valid()
  {
    var shop := ShopList(shopDrawn);
    if itemName !in shop {
      return false, false;
    }
    known := true;
    var (price, instance) := shop[itemName];
    bought := coinNum >= price;
    if bought {
      var times := 0;
      while times < price
        invariant 0 <= times <= price
        invariant inventory.items == DroppedN(old(inventory.items), COIN_NAME, times)
      {
        var _ := inventory.RemoveItem(COIN_NAME);
        times := times + 1;
      }
      inventory.AddItem(instance);
    }
  }

  // ---------------------------------------------------------------- candy

  /** `Candy.apply`: candy lowers hunger by ten and health by two, both
      through the clamping setters, as ApplyItem's candy case does. */
  method ApplyCandy(player: Player)
    modifies player
    ensures player.hunger == Clamp(old(player.hunger) + CANDY_HUNGER_AMOUNT, MIN_HUNGER, MAX_HUNGER)
    ensures player.health == Clamp(old(player.health) + CANDY_HEALTH_AMOUNT, MIN_HEALTH, MAX_HEALTH)
    ensures player.thirst == old(player.thirst) && player.position == old(player.position)
    ensures MIN_HUNGER <= player.hunger <= MAX_HUNGER && MIN_HEALTH <= player.health <= MAX_HEALTH
  {
    ApplyItem(Candy(player.position), player);
  }

  // ---------------------------------------------------------------- timer

  /** The minutes and seconds `ControlsFrame.set_timer_label` shows for
      `timePlayed` seconds. Python's `//` and `%` by a positive number round
      down, as Dafny's do. */
  function TimerLabel(timePlayed: int): (shown: (int, int))
  {
    (timePlayed / 60, timePlayed % 60 - 1)
  }

  /** The label shows one second too few: the minutes and seconds shown,
      plus one, give back the time played; the seconds run from -1 to 58
      and show -1 exactly on a whole minute. */
  lemma TimerLabelOffByOne(timePlayed: nat)
    ensures var (m, s) := TimerLabel(timePlayed);
      m >= 0 && -1 <= s <= 58
      && m * 60 + s + 1 == timePlayed
      && (s == -1 <==> timePlayed % 60 == 0)
  {
  }
}
