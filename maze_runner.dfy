/** The maze, level and game model of MazeRunner (A2/a2.py): how rows of
    IDs become tiles and items, and what a move does to the player, the
    level and its door. */
module MazeRunner {
  import opened Common
  import opened MazeEntities

  // ---------------------------------------------------------------- rows

  /** The IDs that `Maze.add_row` keeps in its row text; every other
      character (coins and the player among them) is written as `EMPTY`. */
  const KEPT_IDS: seq<char> := [WALL, DOOR, LAVA, WATER, APPLE, HONEY, POTION]

  function Sanitized(c: char): char
  {
    if c in KEPT_IDS then c else EMPTY
  }

  /** A row as `Maze.add_row` records it in the row text. */
  function SanitizedRow(row: string): string
  {
    seq(|row|, i requires 0 <= i < |row| => Sanitized(row[i]))
  }

  /** A recorded row holds no coin and no line break. */
  lemma SanitizedRowClean(row: string)
    ensures COIN !in SanitizedRow(row)
    ensures '\n' !in SanitizedRow(row)
  {
    var r := SanitizedRow(row);
    forall i | 0 <= i < |r|
      ensures r[i] != COIN && r[i] != '\n'
    {
      assert r[i] == Sanitized(row[i]);
    }
  }

  /** The tile `Maze.add_row` builds for a character of the row text other
      than a line break: only walls and doors are told apart. */
  function TileOf(c: char): Tile
  {
    if c == WALL then Wall else if c == DOOR then DoorTile else Empty
  }

  function RowTiles(s: string): seq<Tile>
  {
    seq(|s|, j requires 0 <= j < |s| => TileOf(s[j]))
  }

  /** The scan `Maze.add_row` makes over the whole row text: the finished
      rows of tiles, and the row under construction since the last line break. */
  function Scan(info: string): (seq<seq<Tile>>, seq<Tile>)
  {
    if info == [] then ([], [])
    else
      var before := Scan(info[..|info| - 1]);
      if info[|info| - 1] == '\n' then (before.0 + [before.1], [])
      else (before.0, before.1 + [TileOf(info[|info| - 1])])
  }

  /** The tiles a maze holds after `add_row` with row text `info`. */
  function TilesOf(info: string): seq<seq<Tile>>
  {
    Scan(info).0
  }

  /** The row text of a maze whose rows, as recorded, are `lines`. */
  function Lines(lines: seq<string>): string
  {
    if lines == [] then []
    else Lines(lines[..|lines| - 1]) + lines[|lines| - 1] + "\n"
  }

  function RowsTiles(lines: seq<string>): seq<seq<Tile>>
  {
    seq(|lines|, i requires 0 <= i < |lines| => RowTiles(lines[i]))
  }

  predicate NoLineBreaks(lines: seq<string>)
  {
    forall i :: 0 <= i < |lines| ==> '\n' !in lines[i]
  }

  /** Scanning text with no line break only extends the row under construction. */
  lemma {:induction false} ScanWithinRow(prefix: string, s: string)
    requires '\n' !in s
    ensures Scan(prefix + s) == (Scan(prefix).0, Scan(prefix).1 + RowTiles(s))
  {
    if s == [] {
      assert prefix + s == prefix;
      assert Scan(prefix).1 + RowTiles(s) == Scan(prefix).1;
    } else {
      var s' := s[..|s| - 1];
      var c := s[|s| - 1];
      assert '\n' !in s' by {
        forall k | 0 <= k < |s'| ensures s'[k] != '\n' {
          assert s'[k] == s[k];
        }
      }
      ScanWithinRow(prefix, s');
      var whole := prefix + s;
      assert whole[..|whole| - 1] == prefix + s';
      assert whole[|whole| - 1] == c && c != '\n';
      assert RowTiles(s) == RowTiles(s') + [TileOf(c)];
      assert Scan(prefix).1 + RowTiles(s) == (Scan(prefix).1 + RowTiles(s')) + [TileOf(c)];
    }
  }

  /** Row text made of whole lines scans to one row of tiles per line, with
      nothing left under construction. */
  lemma {:induction false} ScanLines(lines: seq<string>)
    requires NoLineBreaks(lines)
    ensures Scan(Lines(lines)) == (RowsTiles(lines), [])
  {
    if lines != [] {
      var init := lines[..|lines| - 1];
      var last := lines[|lines| - 1];
      assert NoLineBreaks(init) by {
        forall i | 0 <= i < |init| ensures '\n' !in init[i] {
          assert init[i] == lines[i];
        }
      }
      ScanLines(init);
      ScanWithinRow(Lines(init), last);
      var text := Lines(lines);
      assert text == Lines(init) + last + "\n";
      assert text[..|text| - 1] == Lines(init) + last;
      assert text[|text| - 1] == '\n';
      assert RowsTiles(lines) == RowsTiles(init) + [RowTiles(last)];
      assert Scan(Lines(init) + last).1 == RowTiles(last);
    }
  }

  function SanitizedRows(rows: seq<string>): seq<string>
  {
    seq(|rows|, i requires 0 <= i < |rows| => SanitizedRow(rows[i]))
  }

  /** A maze that has been given `rows` holds one list of tiles per row, as
      long as the row, with a wall for each wall ID, the door for each door
      ID and empty floor for every other character, lava included. */
  lemma MazeFromRows(rows: seq<string>)
    ensures var t := TilesOf(Lines(SanitizedRows(rows)));
      |t| == |rows|
      && (forall i :: 0 <= i < |rows| ==> |t[i]| == |rows[i]|)
      && (forall i, j :: 0 <= i < |rows| && 0 <= j < |rows[i]| ==>
            t[i][j] == (if rows[i][j] == WALL then Wall else if rows[i][j] == DOOR then DoorTile else Empty))
  {
    TilesOfRows(rows);
  }

  /** The tiles of a maze given `rows` are the rows' tiles, one list per row. */
  lemma TilesOfRows(rows: seq<string>)
    ensures TilesOf(Lines(SanitizedRows(rows))) == RowsTiles(SanitizedRows(rows))
  {
    var lines := SanitizedRows(rows);
    assert NoLineBreaks(lines) by {
      forall i | 0 <= i < |lines| ensures '\n' !in lines[i] {
        SanitizedRowClean(rows[i]);
      }
    }
    ScanLines(lines);
  }

  /** No tile list holds lava. */
  predicate NoLava(tiles: seq<seq<Tile>>)
  {
    forall i, j :: 0 <= i < |tiles| && 0 <= j < |tiles[i]| ==> tiles[i][j] != Lava
  }

  /** `Maze.add_row` never builds a lava tile, whatever the row text. */
  lemma {:induction false} ScanNoLava(info: string)
    ensures NoLava(Scan(info).0) && Lava !in Scan(info).1
  {
    if info != [] {
      ScanNoLava(info[..|info| - 1]);
    }
  }

  /** Python's reading of an index `i` into a list of length `n`: negative
      indices count from the end. */
  function PyIndex(i: int, n: nat): int
  {
    if i < 0 then n + i else i
  }

  predicate PyIndexOk(i: int, n: nat)
  {
    0 <= n + i && i < n
  }

  /** Python's reading of a slice bound `k` on a string of length `n`. */
  function SliceBound(k: int, n: nat): (r: nat)
    ensures r <= n
  {
    if k < 0 then (if n + k < 0 then 0 else n + k)
    else if k > n then n
    else k
  }

  // ---------------------------------------------------------------- maze

  /** A maze: its row text, its tiles and its one door. */
  class Maze {
    const dimensions: Pos
    var rowInfo: string
    var tiles: seq<seq<Tile>>
    const door: Door

    /** What every maze keeps: no coin ID in the row text, no lava tile and
        a door in one of its two states. */
    ghost predicate Valid()
      reads this, door
    {
      COIN !in rowInfo && NoLava(tiles) && door.Valid()
    }

    constructor(dimensions: Pos)
      ensures this.dimensions == dimensions
      ensures rowInfo == [] && tiles == []
      ensures fresh(door) && door.blocking && door.id == DOOR
      ensures Valid()
    {
      this.dimensions := dimensions;
      rowInfo := [];
      tiles := [];
      door := new Door();
    }

    /** Records `row` in the row text and rebuilds every row of tiles from
        the whole text. */
    method AddRow(row: string)
      modifies this
      ensures rowInfo == old(rowInfo) + SanitizedRow(row) + "\n"
      ensures tiles == TilesOf(rowInfo)
      ensures forall lines :: old(rowInfo) == Lines(lines) ==> rowInfo == Lines(lines + [SanitizedRow(row)])
      ensures old(Valid()) ==> Valid()
    {
      var i := 0;
      while i < |row|
        invariant 0 <= i <= |row|
        invariant rowInfo == old(rowInfo) + SanitizedRow(row[..i])
      {
        assert row[..i + 1][..i] == row[..i];
        if row[i] !in KEPT_IDS {
          rowInfo := rowInfo + [EMPTY];
        } else {
          rowInfo := rowInfo + [row[i]];
        }
        i := i + 1;
      }
      assert row[..|row|] == row;
      rowInfo := rowInfo + "\n";

      var processed: seq<Tile> := [];
      tiles := [];
      var j := 0;
      while j < |rowInfo|
        invariant 0 <= j <= |rowInfo|
        invariant rowInfo == old(rowInfo) + SanitizedRow(row) + "\n"
        invariant (tiles, processed) == Scan(rowInfo[..j])
      {
        assert rowInfo[..j + 1][..j] == rowInfo[..j];
        var id := rowInfo[j];
        if id == WALL {
          processed := processed + [Wall];
        } else if id == DOOR {
          processed := processed + [DoorTile];
        } else if id == '\n' {
          tiles := tiles + [processed];
          processed := [];
        } else {
          processed := processed + [Empty];
        }
        j := j + 1;
      }
      assert rowInfo[..|rowInfo|] == rowInfo;

      forall lines | old(rowInfo) == Lines(lines)
        ensures rowInfo == Lines(lines + [SanitizedRow(row)])
      {
        assert (lines + [SanitizedRow(row)])[..|lines|] == lines;
      }
      SanitizedRowClean(row);
      ScanNoLava(rowInfo);
    }

    /** Every door cell shares the one door, so this unlocks them all. */
    method UnlockDoor()
      modifies door
      ensures !door.blocking && door.id == EMPTY
    {
      door.Unlock();
    }

    /** `position` can be looked up with Python's list indexing. */
    predicate InTiles(position: Pos)
      reads this
    {
      PyIndexOk(position.0, |tiles|)
      && PyIndexOk(position.1, |tiles[PyIndex(position.0, |tiles|)]|)
    }

    /** `tiles[row][column]`, negative indices counting from the end. */
    function GetTile(position: Pos): Tile
      reads this
      requires InTiles(position)
    {
      var row := tiles[PyIndex(position.0, |tiles|)];
      row[PyIndex(position.1, |row|)]
    }
  }

  /** In a maze that keeps its invariant no looked-up tile shows the lava ID,
      so a move never does lava damage. */
  lemma NoLavaInValidMaze(m: Maze, position: Pos)
    requires m.Valid() && m.InTiles(position)
    ensures TileId(m.GetTile(position), m.door) != LAVA
  {
    var t := m.GetTile(position);
    assert t != Lava;
    TileBehaviour(t, m.door);
  }

  /** In a maze whose tiles were built from `rows` (see `TilesOfRows`), a
      lookup at a non-negative position gives the tile its row ID names. */
  lemma GetTileOfRows(m: Maze, rows: seq<string>, r: nat, c: nat)
    requires m.tiles == RowsTiles(SanitizedRows(rows))
    requires r < |rows| && c < |rows[r]|
    ensures m.InTiles((r, c))
    ensures m.GetTile((r, c)) == (if rows[r][c] == WALL then Wall else if rows[r][c] == DOOR then DoorTile else Empty)
  {
    TileOfSanitized(rows[r][c]);
  }

  /** Recording a character and building its tile tells only walls and doors apart. */
  lemma TileOfSanitized(c: char)
    ensures TileOf(Sanitized(c)) == (if c == WALL then Wall else if c == DOOR then DoorTile else Empty)
  {
  }

  /** A lookup one maze height above a row wraps round to that row, as
      Python's negative indexing does: a move off the top edge lands on the
      bottom row. */
  lemma GetTileWraps(m: Maze, r: nat, c: int)
    requires r < |m.tiles| && m.InTiles((r, c))
    ensures m.InTiles((r - |m.tiles|, c))
    ensures m.GetTile((r - |m.tiles|, c)) == m.GetTile((r, c))
  {
    assert PyIndex(r - |m.tiles|, |m.tiles|) == r;
  }

  // ---------------------------------------------------------------- items on a level

  /** The item an entity ID creates at `position`, if it is an item ID. */
  function ItemFor(c: char, position: Pos): Option<Item>
  {
    if c == COIN then Some(Coin(position))
    else if c == POTION then Some(Potion(position))
    else if c == HONEY then Some(Honey(position))
    else if c == APPLE then Some(Apple(position))
    else if c == WATER then Some(Water(position))
    else None
  }

  /** The items `Level.add_row` places for `row` as row number `r`. */
  function RowItems(row: string, r: int): map<Pos, Item>
  {
    if row == [] then map[]
    else
      var i := |row| - 1;
      var m := RowItems(row[..i], r);
      match ItemFor(row[i], (r, i))
      case Some(item) => m[(r, i) := item]
      case None => m
  }

  /** `RowItems` holds an item exactly at the cells of row `r` whose ID is an
      item ID, and it is the item that ID names, created at that cell. */
  lemma {:induction false} RowItemsAt(row: string, r: int, p: Pos)
    ensures p in RowItems(row, r) <==> p.0 == r && 0 <= p.1 < |row| && ItemFor(row[p.1], p).Some?
    ensures p in RowItems(row, r) ==> RowItems(row, r)[p] == ItemFor(row[p.1], p).value
  {
    if row != [] {
      var i := |row| - 1;
      RowItemsAt(row[..i], r, p);
    }
  }

  /** The last position of `c` in `s`. */
  function LastIndexOf(s: string, c: char): (i: nat)
    requires c in s
    ensures i < |s| && s[i] == c
    ensures forall j :: i < j < |s| ==> s[j] != c
  {
    if s[|s| - 1] == c then |s| - 1 else LastIndexOf(s[..|s| - 1], c)
  }

  /** Some coin is still on the level. */
  predicate CoinsLeft(items: map<Pos, Item>)
  {
    exists p | p in items :: items[p].Coin?
  }

  /** Whether `Level.attempt_unlock_door` unlocks. As written it asks whether
      the row text shows a coin; the evident intent is to ask whether a coin
      is left on the level. */
  predicate Unlocks(v: Variant, rowInfo: string, items: map<Pos, Item>)
  {
    match v
    case AsWritten => COIN !in rowInfo
    case Corrected => !CoinsLeft(items)
  }

  /** A level: its maze, its items by position, its player and the number of
      rows added so far. */
  class Level {
    const dimensions: Pos
    var player: Player?
    const maze: Maze
    var items: map<Pos, Item>
    var callTime: int

    constructor(dimensions: Pos)
      ensures this.dimensions == dimensions
      ensures player == null && items == map[] && callTime == 0
      ensures fresh(maze) && maze.dimensions == dimensions && maze.rowInfo == [] && maze.tiles == []
      ensures fresh(maze.door) && maze.door.blocking && maze.door.id == DOOR
      ensures maze.Valid()
    {
      this.dimensions := dimensions;
      player := null;
      maze := new Maze(dimensions);
      items := map[];
      callTime := 0;
    }

    /** Unlocks the maze's door when `Unlocks` says so; returns nothing. */
    method AttemptUnlockDoor(v: Variant)
      modifies maze.door
      ensures Unlocks(v, maze.rowInfo, items) ==> !maze.door.blocking && maze.door.id == EMPTY
      ensures !Unlocks(v, maze.rowInfo, items) ==>
        maze.door.blocking == old(maze.door.blocking) && maze.door.id == old(maze.door.id)
    {
      var open := match v
        case AsWritten => COIN !in maze.rowInfo
        case Corrected => !CoinsLeft(items);
      if open {
        maze.UnlockDoor();
      }
    }

    /** Adds `row` to the maze, places its items at (rows so far, column),
        creates the player at the last player ID in it, and counts the row. */
    method AddRow(row: string)
      modifies this, maze
      ensures maze.rowInfo == old(maze.rowInfo) + SanitizedRow(row) + "\n"
      ensures maze.tiles == TilesOf(maze.rowInfo)
      ensures old(maze.Valid()) ==> maze.Valid()
      ensures items == old(items) + RowItems(row, old(callTime))
      ensures callTime == old(callTime) + 1
      ensures PLAYER !in row ==> player == old(player)
      ensures PLAYER in row ==>
        player != null && fresh(player) && fresh(player.inventory)
        && player.position == (old(callTime), LastIndexOf(row, PLAYER))
        && player.health == MAX_HEALTH && player.hunger == MIN_HUNGER && player.thirst == MIN_THIRST
        && player.inventory.items == map[]
    {
      maze.AddRow(row);
      var idx := 0;
      while idx < |row|
        invariant 0 <= idx <= |row|
        invariant items == old(items) + RowItems(row[..idx], callTime)
        invariant callTime == old(callTime)
        invariant maze.rowInfo == old(maze.rowInfo) + SanitizedRow(row) + "\n"
        invariant maze.tiles == TilesOf(maze.rowInfo)
        invariant old(maze.Valid()) ==> maze.Valid()
        invariant PLAYER !in row[..idx] ==> player == old(player)
        invariant PLAYER in row[..idx] ==>
          player != null && fresh(player) && fresh(player.inventory)
          && player.position == (callTime, LastIndexOf(row[..idx], PLAYER))
          && player.health == MAX_HEALTH && player.hunger == MIN_HUNGER && player.thirst == MIN_THIRST
          && player.inventory.items == map[]
      {
        assert row[..idx + 1][..idx] == row[..idx];
        var id := row[idx];
        var p := (callTime, idx);
        if id == COIN {
          items := items[p := Coin(p)];
        } else if id == POTION {
          items := items[p := Potion(p)];
        } else if id == HONEY {
          items := items[p := Honey(p)];
        } else if id == APPLE {
          items := items[p := Apple(p)];
        } else if id == WATER {
          items := items[p := Water(p)];
        } else if id == PLAYER {
          player := new Player(p);
        }
        idx := idx + 1;
      }
      assert row[..|row|] == row;
      callTime := callTime + 1;
    }

    /** Drops the item at `position`, which must be there when the tile's ID
        is one on which items can lie. */
    method RemoveItem(position: Pos)
      requires maze.InTiles(position)
      requires TileId(maze.GetTile(position), maze.door) in ITEM_ENTITY ==> position in items
      modifies this
      ensures items == if TileId(maze.GetTile(position), maze.door) in ITEM_ENTITY
        then old(items) - {position} else old(items)
      ensures player == old(player) && callTime == old(callTime)
    {
      if TileId(maze.GetTile(position), maze.door) in ITEM_ENTITY {
        items := items - {position};
      }
    }

    /** The player's position, or `None` while no player has been placed. */
    function GetPlayerStart(): Option<Pos>
      reads this, player
    {
      if player != null then Some(player.position) else None
    }
  }

  /** A level that has just had a row with the player ID added reports the
      last such cell of that row as the player's start. */
  lemma PlayerStartAfterRow(lvl: Level, row: string, r: int)
    requires PLAYER in row && lvl.player != null
    requires lvl.player.position == (r, LastIndexOf(row, PLAYER))
    ensures lvl.GetPlayerStart() == Some((r, LastIndexOf(row, PLAYER)))
    ensures row[lvl.GetPlayerStart().value.1] == PLAYER
  {
  }

  // ---------------------------------------------------------------- collecting a coin

  /** Where `Model.attempt_collect_item` blanks a collected coin in the row
      text of a maze `width` cells wide. As written it skips one character
      per row too few and one too many at the start; the cell of `position`
      in the row text, whose rows each end in a line break, is the evident
      target. */
  function CoinIndex(v: Variant, position: Pos, width: int): int
  {
    match v
    case AsWritten => (position.0 + 1) * width + position.1 - 1
    case Corrected => position.0 * (width + 1) + position.1
  }

  /** The character written over a collected coin: a literal space in the
      source, whatever the empty tile's ID is. */
  const BLANK: char := ' '

  /** `row_info[:k] + ' ' + row_info[k + 1:]` for `k == CoinIndex(..)`. */
  function CoinCleared(v: Variant, rowInfo: string, position: Pos, width: int): string
  {
    var k := CoinIndex(v, position, width);
    rowInfo[..SliceBound(k, |rowInfo|)] + [BLANK] + rowInfo[SliceBound(k + 1, |rowInfo|)..]
  }

  /** Blanking a cell never writes a coin ID. */
  lemma CoinClearedNoCoin(v: Variant, rowInfo: string, position: Pos, width: int)
    requires COIN !in rowInfo
    ensures COIN !in CoinCleared(v, rowInfo, position, width)
  {
    var k := CoinIndex(v, position, width);
    var a := rowInfo[..SliceBound(k, |rowInfo|)];
    var b := rowInfo[SliceBound(k + 1, |rowInfo|)..];
    assert COIN !in a && COIN !in b by {
      forall x | x in a ensures x in rowInfo {}
      forall x | x in b ensures x in rowInfo {}
    }
  }

  lemma {:induction false} LinesAppend(a: seq<string>, b: seq<string>)
    ensures Lines(a + b) == Lines(a) + Lines(b)
  {
    if b == [] {
      assert a + b == a;
    } else {
      var b' := b[..|b| - 1];
      LinesAppend(a, b');
      assert (a + b)[..|a + b| - 1] == a + b';
    }
  }

  predicate AllWidth(lines: seq<string>, width: nat)
  {
    forall i :: 0 <= i < |lines| ==> |lines[i]| == width
  }

  lemma {:induction false} LinesLength(lines: seq<string>, width: nat)
    requires AllWidth(lines, width)
    ensures |Lines(lines)| == |lines| * (width + 1)
  {
    if lines != [] {
      var init := lines[..|lines| - 1];
      assert AllWidth(init, width) by {
        forall i | 0 <= i < |init| ensures |init[i]| == width {
          assert init[i] == lines[i];
        }
      }
      LinesLength(init, width);
      assert Lines(lines) == Lines(init) + lines[|lines| - 1] + "\n";
      assert |lines| * (width + 1) == |init| * (width + 1) + (width + 1);
    }
  }

  /** The row text around line `r`. */
  lemma LinesAround(lines: seq<string>, r: nat)
    requires r < |lines|
    ensures Lines(lines) == Lines(lines[..r]) + (lines[r] + "\n") + Lines(lines[r + 1..])
  {
    LinesSplit(lines, r + 1);
    var p := lines[..r + 1];
    assert p[..|p| - 1] == lines[..r] && p[|p| - 1] == lines[r];
    var a, b, c := Lines(lines[..r]), lines[r] + "\n", Lines(lines[r + 1..]);
    assert Lines(p) == a + lines[r] + "\n";
    assert a + lines[r] + "\n" == a + b;
    assert (a + b) + c == a + b + c;
  }

  lemma LinesSplit(lines: seq<string>, r: nat)
    requires r <= |lines|
    ensures Lines(lines) == Lines(lines[..r]) + Lines(lines[r..])
  {
    assert lines[..r] + lines[r..] == lines;
    LinesAppend(lines[..r], lines[r..]);
  }

  /** With the evidently intended index, collecting a coin blanks exactly the
      coin's cell of the row text: every other cell and every line break stays. */
  lemma CorrectedCoinClearsCell(lines: seq<string>, width: nat, r: nat, c: nat)
    requires AllWidth(lines, width) && r < |lines| && c < width
    ensures CoinCleared(Corrected, Lines(lines), (r, c), width)
      == Lines(lines[r := lines[r][c := BLANK]])
  {
    var before := Lines(lines[..r]);
    var after := Lines(lines[r + 1..]);
    var line := lines[r];
    LinesAround(lines, r);
    assert AllWidth(lines[..r], width) by {
      forall i | 0 <= i < r ensures |lines[..r][i]| == width {
        assert lines[..r][i] == lines[i];
      }
    }
    LinesLength(lines[..r], width);
    assert |before| + c == CoinIndex(Corrected, (r, c), width);
    BlankAt(before, line, after, c);
    var blanked := lines[r := line[c := BLANK]];
    LinesAround(blanked, r);
    assert blanked[..r] == lines[..r] && blanked[r + 1..] == lines[r + 1..];
  }

  /** Blanking character `c` of the middle line of `b + (l + "\n") + a`. */
  lemma BlankAt(b: string, l: string, a: string, c: nat)
    requires c < |l|
    ensures var t := b + (l + "\n") + a; var k := |b| + c;
      SliceBound(k, |t|) == k && SliceBound(k + 1, |t|) == k + 1
      && t[..k] + [BLANK] + t[k + 1..] == b + (l[c := BLANK] + "\n") + a
  {
    var t := b + (l + "\n") + a;
    var k := |b| + c;
    assert t[..k] == b + l[..c];
    assert t[k + 1..] == l[c + 1..] + "\n" + a;
    assert l[c := BLANK] == l[..c] + [BLANK] + l[c + 1..];
  }

  /** The index as written, on a one-row maze of width 3 holding a player, a
      coin and a wall: collecting the coin at (0, 1) overwrites the row's line
      break instead of the coin's cell, which the intended index leaves alone. */
  lemma AsWrittenCoinIndexHitsLineBreak()
    ensures RowItems("PC#", 0) == map[(0, 1) := Coin((0, 1))]
    ensures Lines(SanitizedRows(["PC#"])) == "  #\n"
    ensures CoinCleared(AsWritten, "  #\n", (0, 1), 3) == "  # "
    ensures CoinCleared(Corrected, "  #\n", (0, 1), 3) == "  #\n"
  {
    assert SanitizedRow("PC#") == "  #";
    assert SanitizedRows(["PC#"]) == ["  #"];
    assert ["  #"][..0] == [];
    assert Lines(["  #"]) == Lines([]) + "  #" + "\n";
    assert "P"[..0] == [];
    assert RowItems("P", 0) == map[];
    assert "PC"[..1] == "P";
    assert RowItems("PC", 0) == map[(0, 1) := Coin((0, 1))];
    assert "PC#"[..2] == "PC";
  }

  /** Row text built only by `Maze.add_row` never shows a coin. */
  lemma {:induction false} LinesHaveNoCoin(rows: seq<string>)
    ensures COIN !in Lines(SanitizedRows(rows))
  {
    if rows != [] {
      var init := rows[..|rows| - 1];
      LinesHaveNoCoin(init);
      assert SanitizedRows(rows)[..|rows| - 1] == SanitizedRows(init);
      SanitizedRowClean(rows[|rows| - 1]);
    }
  }

  /** As written, the door check of a level read from rows always unlocks,
      here with a coin still on the level: one row holding a player, a coin
      and a door. The intended check keeps that door locked. */
  lemma AsWrittenUnlocksWithCoinLeft()
    ensures forall rows, items :: Unlocks(AsWritten, Lines(SanitizedRows(rows)), items)
    ensures CoinsLeft(RowItems("PCD", 0))
    ensures Unlocks(AsWritten, Lines(SanitizedRows(["PCD"])), RowItems("PCD", 0))
    ensures !Unlocks(Corrected, Lines(SanitizedRows(["PCD"])), RowItems("PCD", 0))
  {
    forall rows: seq<string> ensures COIN !in Lines(SanitizedRows(rows)) {
      LinesHaveNoCoin(rows);
    }
    RowItemsAt("PCD", 0, (0, 1));
    assert RowItems("PCD", 0)[(0, 1)].Coin?;
  }

  /** With the intended check, a level whose row held a coin keeps its door
      locked, and one whose row held none opens it: the check asks exactly
      whether the row placed a coin. */
  lemma CorrectedUnlocksIffNoCoin(row: string, r: int)
    ensures Unlocks(Corrected, Lines(SanitizedRows([row])), RowItems(row, r)) <==> COIN !in row
  {
    if COIN in row {
      var c :| 0 <= c < |row| && row[c] == COIN;
      RowItemsAt(row, r, (r, c));
    }
    if CoinsLeft(RowItems(row, r)) {
      var p :| p in RowItems(row, r) && RowItems(row, r)[p].Coin?;
      RowItemsAt(row, r, p);
    }
  }

  // ---------------------------------------------------------------- model

  /** The whole game: its levels, which one is being played, and the won,
      lost, levelled-up and move-count state. */
  class Model {
    const levels: seq<Level>
    var levelNum: int
    var won: bool
    var lost: bool
    var levelUp: bool
    var moveTime: int

    /** A model over already-built levels, at the first level. */
    constructor(levels: seq<Level>)
      ensures this.levels == levels
      ensures levelNum == 0 && !won && !lost && !levelUp && moveTime == 0
    {
      this.levels := levels;
      levelNum := 0;
      won := false;
      lost := false;
      levelUp := false;
      moveTime := 0;
    }

    /** Moves on a level; past the last one the game is won. */
    method LevelUp()
      modifies this
      ensures levelNum == old(levelNum) + 1
      ensures won == (old(won) || levelNum == |levels|)
      ensures levelUp == (old(levelUp) || levelNum != |levels|)
      ensures lost == old(lost) && moveTime == old(moveTime)
    {
      levelNum := levelNum + 1;
      if levelNum == |levels| {
        won := true;
      } else {
        levelUp := true;
      }
    }

    /** Records a loss when the current player's stats call for one, and
        reports whether the game has been lost, now or before. */
    method HasLost() returns (r: bool)
      requires 0 <= levelNum < |levels| && levels[levelNum].player != null
      modifies this
      ensures levelNum == old(levelNum) && won == old(won) && levelUp == old(levelUp)
      ensures moveTime == old(moveTime)
      ensures lost == (old(lost) || Losing(levels[levelNum].player))
      ensures r == lost
    {
      var p := levels[levelNum].player;
      if p.health <= MIN_HEALTH || p.hunger >= MAX_HUNGER || p.thirst >= MAX_THIRST {
        lost := true;
      }
      r := lost;
    }

    /** Moves the item at `position`, if any, into the player's inventory,
        blanks a coin in the row text and drops the item from the level. */
    method AttemptCollectItem(position: Pos, v: Variant)
      requires 0 <= levelNum < |levels| && levels[levelNum].player != null
      requires position in levels[levelNum].items ==> levels[levelNum].maze.InTiles(position)
      modifies levels[levelNum], levels[levelNum].maze, levels[levelNum].player.inventory
      ensures var lvl := levels[levelNum];
        lvl.player == old(lvl.player) && lvl.callTime == old(lvl.callTime)
        && lvl.maze.tiles == old(lvl.maze.tiles)
      ensures old(levels[levelNum].maze.Valid()) ==> levels[levelNum].maze.Valid()
      ensures var lvl := levels[levelNum]; var inv := lvl.player.inventory;
        if position in old(lvl.items) then
          var item := old(lvl.items)[position];
          inv.items == Added(old(inv.items), item)
          && lvl.maze.rowInfo == (if item.Coin? then CoinCleared(v, old(lvl.maze.rowInfo), position, lvl.dimensions.1)
                                  else old(lvl.maze.rowInfo))
          && lvl.items == (if TileId(lvl.maze.GetTile(position), lvl.maze.door) in ITEM_ENTITY
                           then old(lvl.items) - {position} else old(lvl.items))
        else
          inv.items == old(inv.items) && lvl.maze.rowInfo == old(lvl.maze.rowInfo) && lvl.items == old(lvl.items)
    {
      var lvl := levels[levelNum];
      if position in lvl.items {
        var item := lvl.items[position];
        lvl.player.inventory.AddItem(item);
        if item.Coin? {
          if COIN !in lvl.maze.rowInfo {
            CoinClearedNoCoin(v, lvl.maze.rowInfo, position, lvl.dimensions.1);
          }
          lvl.maze.rowInfo := CoinCleared(v, lvl.maze.rowInfo, position, lvl.dimensions.1);
        }
        lvl.RemoveItem(position);
      }
    }

    /** Moves the current player by `delta` unless a wall is in the way: the
        move is counted, costs health (and lava's damage on a lava tile),
        every fifth move adds hunger and thirst, an item on the new cell is
        collected, and the door check runs. That check returns nothing, so
        the move never changes the level number. */
    method MovePlayer(delta: Pos, v: Variant)
      requires 0 <= levelNum < |levels| && levels[levelNum].player != null
      requires levels[levelNum].maze.InTiles(Shift(levels[levelNum].player.position, delta))
      modifies this, levels[levelNum], levels[levelNum].maze, levels[levelNum].maze.door
      modifies levels[levelNum].player, levels[levelNum].player.inventory
      ensures levelNum == old(levelNum) && won == old(won) && lost == old(lost) && levelUp == old(levelUp)
      ensures var lvl := levels[levelNum];
        lvl.player == old(lvl.player) && lvl.callTime == old(lvl.callTime)
        && lvl.maze.tiles == old(lvl.maze.tiles)
      ensures old(levels[levelNum].maze.Valid()) ==> levels[levelNum].maze.Valid()
      ensures var lvl := levels[levelNum]; var p := lvl.player; var inv := p.inventory;
        var target := Shift(old(p.position), delta);
        var tile := lvl.maze.GetTile(target);
        if old(TileId(lvl.maze.GetTile(target), lvl.maze.door)) == WALL then
          moveTime == old(moveTime) && p.position == old(p.position)
          && p.health == old(p.health) && p.hunger == old(p.hunger) && p.thirst == old(p.thirst)
          && inv.items == old(inv.items) && lvl.items == old(lvl.items)
          && lvl.maze.rowInfo == old(lvl.maze.rowInfo)
          && lvl.maze.door.blocking == old(lvl.maze.door.blocking) && lvl.maze.door.id == old(lvl.maze.door.id)
        else
          var stepped := Clamp(old(p.health) - MOVE_DAMAGE, MIN_HEALTH, MAX_HEALTH);
          moveTime == old(moveTime) + 1
          && p.position == target
          && p.health == (if old(TileId(lvl.maze.GetTile(target), lvl.maze.door)) == LAVA
                          then Clamp(stepped - LAVA_DAMAGE, MIN_HEALTH, MAX_HEALTH) else stepped)
          && p.hunger == (if moveTime % 5 == 0 then Clamp(old(p.hunger) + HUNGER_CUMULATE, MIN_HUNGER, MAX_HUNGER)
                          else old(p.hunger))
          && p.thirst == (if moveTime % 5 == 0 then Clamp(old(p.thirst) + THIRST_CUMULATE, MIN_THIRST, MAX_THIRST)
                          else old(p.thirst))
          && (if target in old(lvl.items) then
                inv.items == Added(old(inv.items), old(lvl.items)[target])
                && lvl.items == (if old(TileId(lvl.maze.GetTile(target), lvl.maze.door)) in ITEM_ENTITY
                                 then old(lvl.items) - {target} else old(lvl.items))
              else inv.items == old(inv.items) && lvl.items == old(lvl.items))
          && lvl.maze.rowInfo == (if target in old(lvl.items) && old(lvl.items)[target].Coin?
                                  then CoinCleared(v, old(lvl.maze.rowInfo), target, lvl.dimensions.1)
                                  else old(lvl.maze.rowInfo))
          && (Unlocks(v, lvl.maze.rowInfo, lvl.items) ==> !lvl.maze.door.blocking && lvl.maze.door.id == EMPTY)
          && (!Unlocks(v, lvl.maze.rowInfo, lvl.items) ==>
                lvl.maze.door.blocking == old(lvl.maze.door.blocking) && lvl.maze.door.id == old(lvl.maze.door.id))
      ensures var lvl := levels[levelNum]; var p := lvl.player;
        var target := Shift(old(p.position), delta);
        old(lvl.maze.Valid()) && old(TileId(lvl.maze.GetTile(target), lvl.maze.door)) != WALL ==>
          p.health == Clamp(old(p.health) - MOVE_DAMAGE, MIN_HEALTH, MAX_HEALTH)
          && (v == AsWritten ==> !lvl.maze.door.blocking)
    {
      var lvl := levels[levelNum];
      var player := lvl.player;
      var target := Shift(player.position, delta);
      if TileId(lvl.maze.GetTile(target), lvl.maze.door) == WALL {
        return;
      }
      if lvl.maze.Valid() {
        NoLavaInValidMaze(lvl.maze, target);
      }
      moveTime := moveTime + 1;
      player.SetPosition(target);
      player.ChangeHealth(-MOVE_DAMAGE);
      if moveTime % 5 == 0 {
        player.ChangeHunger(HUNGER_CUMULATE);
        player.ChangeThirst(THIRST_CUMULATE);
      }
      if TileId(lvl.maze.GetTile(target), lvl.maze.door) == LAVA {
        player.ChangeHealth(-LAVA_DAMAGE);
      }
      if target in lvl.items {
        AttemptCollectItem(target, v);
      }
      lvl.AttemptUnlockDoor(v);
    }
  }

  /** The stats that lose the game: no health left, or hunger or thirst at its ceiling. */
  predicate Losing(p: Player)
    reads p
  {
    p.health <= MIN_HEALTH || p.hunger >= MAX_HUNGER || p.thirst >= MAX_THIRST
  }
}
