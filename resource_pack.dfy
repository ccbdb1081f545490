/** Palette selection (ResourcePack.java): each named pack appends its four
    tiles, in the order [room floor, wall, hallway floor, empty], to a list
    the pack object keeps and returns that list. */
module Palettes {
  import opened Tileset
  import Tiles

  const ForestTiles: seq<TETile> := [Tree, Mountain, Grass, Nothing]
  const BeachTiles: seq<TETile> := [Grass, Water, Sand, Nothing]
  const CottonCandyTiles: seq<TETile> := [Flower, Wall, Floor, Nothing]

  /** The tiles one call of the chooser appends for a pack name. */
  function PackTiles(name: string): seq<TETile>
  {
    if name == "A Forest" then ForestTiles
    else if name == "Beach" then BeachTiles
    else if name == "Cotton Candy" then CottonCandyTiles
    else []
  }

  predicate KnownPack(name: string)
  {
    name == "A Forest" || name == "Beach" || name == "Cotton Candy"
  }

  /** The palette entry that stands for a role: indices 0, 1, 2 and the last one. */
  function Render(palette: seq<TETile>, t: Tiles.Tile): TETile
    requires |palette| >= 3
  {
    match t
    case Floor => palette[0]
    case Wall => palette[1]
    case Hall => palette[2]
    case Nothing => palette[|palette| - 1]
  }

  /** Every known pack is a four-entry palette ending in the empty tile whose
      roles render to pairwise distinct tiles, so comparing tiles by identity
      (as the generator does) is comparing roles; an unknown name gives no
      palette at all. */
  lemma PackShape(name: string)
    ensures KnownPack(name) ==> |PackTiles(name)| == 4 && PackTiles(name)[3] == Nothing
    ensures KnownPack(name) ==> forall s, t :: Render(PackTiles(name), s) == Render(PackTiles(name), t) ==> s == t
    ensures !KnownPack(name) ==> PackTiles(name) == []
  {
  }

  class ResourcePack {
    var forest: seq<TETile>
    var beach: seq<TETile>
    var cottonCandy: seq<TETile>
    const name: string

    constructor (name: string)
      ensures this.name == name && forest == [] && beach == [] && cottonCandy == []
    {
      this.name := name;
      forest, beach, cottonCandy := [], [], [];
    }

    /** Dispatches on the pack name. A known name appends that pack's four
        tiles to its list and returns the whole list; any other name returns
        a fresh empty list and changes nothing. */
    method ChooseResourcePack() returns (palette: seq<TETile>)
      modifies this
      ensures name == "A Forest" ==> forest == old(forest) + ForestTiles && palette == forest
      ensures name == "Beach" ==> beach == old(beach) + BeachTiles && palette == beach
      ensures name == "Cotton Candy" ==> cottonCandy == old(cottonCandy) + CottonCandyTiles && palette == cottonCandy
      ensures name != "A Forest" ==> forest == old(forest)
      ensures name != "Beach" ==> beach == old(beach)
      ensures name != "Cotton Candy" ==> cottonCandy == old(cottonCandy)
      ensures !KnownPack(name) ==> palette == []
      ensures KnownPack(name) ==> |palette| >= 4 && palette[|palette| - 4..] == PackTiles(name)
      ensures KnownPack(name) ==> palette[|palette| - 1] == Nothing
    {
      if name == "A Forest" {
        palette := CreateForest();
      } else if name == "Beach" {
        palette := CreateBeach();
      } else if name == "Cotton Candy" {
        palette := CreateCottonCandy();
      } else {
        palette := [];
      }
    }

    method CreateForest() returns (palette: seq<TETile>)
      modifies this`forest
      ensures forest == old(forest) + ForestTiles && palette == forest
    {
      forest := forest + [Tree];
      forest := forest + [Mountain];
      forest := forest + [Grass];
      forest := forest + [Nothing];
      palette := forest;
    }

    method CreateBeach() returns (palette: seq<TETile>)
      modifies this`beach
      ensures beach == old(beach) + BeachTiles && palette == beach
    {
      beach := beach + [Grass];
      beach := beach + [Water];
      beach := beach + [Sand];
      beach := beach + [Nothing];
      palette := beach;
    }

    method CreateCottonCandy() returns (palette: seq<TETile>)
      modifies this`cottonCandy
      ensures cottonCandy == old(cottonCandy) + CottonCandyTiles && palette == cottonCandy
    {
      cottonCandy := cottonCandy + [Flower];
      cottonCandy := cottonCandy + [Wall];
      cottonCandy := cottonCandy + [Floor];
      cottonCandy := cottonCandy + [Nothing];
      palette := cottonCandy;
    }
  }
}
