/** The concrete tiles of the tile engine that the core refers to. Two tiles
    are equal exactly when they are the same Tileset constant. */
module Tileset {

  datatype TETile =
    | Tree | Mountain | Grass | Water | Sand | Flower
    | Wall | Floor | Nothing
    | Heart | Indent | House | LockedDoor | UnlockedDoor
}

/** The four roles a palette entry plays in the generated world; the
    generator only ever writes palette entries, so a cell is described by
    the index of the entry it holds. */
module Tiles {

  datatype Tile =
    | Floor    // palette index 0: room floor
    | Wall     // palette index 1: wall
    | Hall     // palette index 2: hallway floor
    | Nothing  // the last palette entry: the empty tile
}
