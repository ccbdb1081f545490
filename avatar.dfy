/** The player's avatar (Avatar.java): a grid position plus the tile the
    avatar is standing on, moved one cell at a time over the tile grid. */
module Movement {
  import opened Tileset
  import Tiles
  import Palettes

  /** The tiles the avatar may step onto. */
  predicate Walkable(t: TETile)
  {
    t == Tree || t == Grass || t == Sand || t == Flower || t == Floor
  }

  /** In every known palette, the avatar can walk on room floor and hallway
      floor and on nothing else the generator draws. */
  lemma WalkableRoles(name: string, t: Tiles.Tile)
    requires Palettes.KnownPack(name)
    ensures Walkable(Palettes.Render(Palettes.PackTiles(name), t)) <==> t == Tiles.Floor || t == Tiles.Hall
  {
  }

  predicate InBounds(x: int, y: int, world: array2<TETile>)
  {
    0 <= x < world.Length0 && 0 <= y < world.Length1
  }

  class Avatar {
    const character: TETile
    var previousTile: TETile
    var xPosition: int
    var yPosition: int

    constructor (initialX: int, initialY: int, initialTile: TETile, character: TETile)
      ensures xPosition == initialX && yPosition == initialY
      ensures previousTile == initialTile && this.character == character
    {
      xPosition := initialX;
      yPosition := initialY;
      previousTile := initialTile;
      this.character := character;
    }

    /** A move is valid exactly when the target cell lies in the world and
        holds a walkable tile. */
    function IsValidMove(x: int, y: int, world: array2<TETile>): (ok: bool)
      reads world
      ensures ok <==> InBounds(x, y, world) && Walkable(world[x, y])
      ensures !InBounds(x, y, world) ==> !ok
    {
      if 0 <= x < world.Length0 && 0 <= y < world.Length1 then
        var target := world[x, y];
        target == Tree || target == Grass || target == Sand || target == Flower || target == Floor
      else
        false
    }

    /** The shared body of the four moves: when the target is valid, restore
        the remembered tile on the vacated cell, remember the target's tile,
        and draw the avatar on the target; otherwise change nothing. */
    method StepTo(newX: int, newY: int, world: array2<TETile>)
      requires InBounds(xPosition, yPosition, world)
      requires newX != xPosition || newY != yPosition
      modifies this, world
      ensures InBounds(xPosition, yPosition, world)
      ensures old(IsValidMove(newX, newY, world)) ==>
                && xPosition == newX && yPosition == newY
                && previousTile == old(world[newX, newY])
                && forall i, j :: 0 <= i < world.Length0 && 0 <= j < world.Length1 ==>
                     world[i, j] == if i == old(xPosition) && j == old(yPosition) then old(previousTile)
                                    else if i == newX && j == newY then character
                                    else old(world[i, j])
      ensures !old(IsValidMove(newX, newY, world)) ==>
                && xPosition == old(xPosition) && yPosition == old(yPosition)
                && previousTile == old(previousTile)
                && unchanged(world)
    {
      if IsValidMove(newX, newY, world) {
        world[xPosition, yPosition] := previousTile;
        previousTile := world[newX, newY];
        xPosition, yPosition := newX, newY;
        world[xPosition, yPosition] := character;
      }
    }

    method MoveUp(world: array2<TETile>)
      requires InBounds(xPosition, yPosition, world)
      modifies this, world
      ensures InBounds(xPosition, yPosition, world)
      ensures xPosition == old(xPosition)
      ensures yPosition == if old(IsValidMove(xPosition, yPosition + 1, world)) then old(yPosition) + 1 else old(yPosition)
      ensures old(IsValidMove(xPosition, yPosition + 1, world)) ==>
                && previousTile == old(world[xPosition, yPosition + 1])
                && forall i, j :: 0 <= i < world.Length0 && 0 <= j < world.Length1 ==>
                     world[i, j] == if i == old(xPosition) && j == old(yPosition) then old(previousTile)
                                    else if i == old(xPosition) && j == old(yPosition) + 1 then character
                                    else old(world[i, j])
      ensures !old(IsValidMove(xPosition, yPosition + 1, world)) ==>
                previousTile == old(previousTile) && unchanged(world)
    {
      StepTo(xPosition, yPosition + 1, world);
    }

    method MoveDown(world: array2<TETile>)
      requires InBounds(xPosition, yPosition, world)
      modifies this, world
      ensures InBounds(xPosition, yPosition, world)
      ensures xPosition == old(xPosition)
      ensures yPosition == if old(IsValidMove(xPosition, yPosition - 1, world)) then old(yPosition) - 1 else old(yPosition)
      ensures old(IsValidMove(xPosition, yPosition - 1, world)) ==>
                && previousTile == old(world[xPosition, yPosition - 1])
                && forall i, j :: 0 <= i < world.Length0 && 0 <= j < world.Length1 ==>
                     world[i, j] == if i == old(xPosition) && j == old(yPosition) then old(previousTile)
                                    else if i == old(xPosition) && j == old(yPosition) - 1 then character
                                    else old(world[i, j])
      ensures !old(IsValidMove(xPosition, yPosition - 1, world)) ==>
                previousTile == old(previousTile) && unchanged(world)
    {
      StepTo(xPosition, yPosition - 1, world);
    }

    method MoveLeft(world: array2<TETile>)
      requires InBounds(xPosition, yPosition, world)
      modifies this, world
      ensures InBounds(xPosition, yPosition, world)
      ensures yPosition == old(yPosition)
      ensures xPosition == if old(IsValidMove(xPosition - 1, yPosition, world)) then old(xPosition) - 1 else old(xPosition)
      ensures old(IsValidMove(xPosition - 1, yPosition, world)) ==>
                && previousTile == old(world[xPosition - 1, yPosition])
                && forall i, j :: 0 <= i < world.Length0 && 0 <= j < world.Length1 ==>
                     world[i, j] == if i == old(xPosition) && j == old(yPosition) then old(previousTile)
                                    else if i == old(xPosition) - 1 && j == old(yPosition) then character
                                    else old(world[i, j])
      ensures !old(IsValidMove(xPosition - 1, yPosition, world)) ==>
                previousTile == old(previousTile) && unchanged(world)
    {
      StepTo(xPosition - 1, yPosition, world);
    }

    method MoveRight(world: array2<TETile>)
      requires InBounds(xPosition, yPosition, world)
      modifies this, world
      ensures InBounds(xPosition, yPosition, world)
      ensures yPosition == old(yPosition)
      ensures xPosition == if old(IsValidMove(xPosition + 1, yPosition, world)) then old(xPosition) + 1 else old(xPosition)
      ensures old(IsValidMove(xPosition + 1, yPosition, world)) ==>
                && previousTile == old(world[xPosition + 1, yPosition])
                && forall i, j :: 0 <= i < world.Length0 && 0 <= j < world.Length1 ==>
                     world[i, j] == if i == old(xPosition) && j == old(yPosition) then old(previousTile)
                                    else if i == old(xPosition) + 1 && j == old(yPosition) then character
                                    else old(world[i, j])
      ensures !old(IsValidMove(xPosition + 1, yPosition, world)) ==>
                previousTile == old(previousTile) && unchanged(world)
    {
      StepTo(xPosition + 1, yPosition, world);
    }
  }
}
