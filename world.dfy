/** The dungeon generator (BareBonesWorld.java): rooms with wall rings and
    one to three openings each, then corridors planned greedily between the
    nearest openings of different regions, dead ends sealed, and a wall ring
    drawn around every corridor cell. */
module Generator {
  import opened Geometry
  import opened Tiles
  import opened RoomCells
  import opened Wrappers
  import Union
  import Randomness

  const MIN_ROOMS: int := 20
  const HEADER_SIZE: int := 2
  const MAX_FAILED_ATTEMPTS: int := 40

  /** Two openings of one room are far enough apart when they differ by more
      than one on both axes. */
  predicate IsGoodDist(entryOne: Point, entryTwo: Point): (r: bool)
    ensures r ==> !Near(entryOne, entryTwo) && !Near(entryTwo, entryOne)
  {
    Abs(entryTwo.x - entryOne.x) > 1 && Abs(entryTwo.y - entryOne.y) > 1
  }

  /** Openings at a good distance are distinct, are not neighbours, and the
      relation does not depend on which one is named first. */
  lemma GoodDistSeparates(a: Point, b: Point)
    ensures IsGoodDist(a, b) ==> a != b && !Adjacent4(a, b)
    ensures IsGoodDist(a, b) == IsGoodDist(b, a)
  {
  }

  /** What a run of the generator ended with. The source throws when a room
      has no opening candidate and may loop forever when reconnection makes
      no progress; both are reported here instead. */
  datatype Outcome = Generated | NoOpeningCandidate | OutOfFuel

  /** A room site as the generator draws it: the floor's lower-left corner
      and its two sizes; the floor covers [x, x + w] x [y, y + h]. */
  datatype Site = Site(x: int, y: int, w: int, h: int)

  /** How one room was placed: the draw its attempts started at, how many
      sites it drew, the site it was built on, if any, and the openings its
      ring received together with the draws their search took. */
  datatype RoomTry = RoomTry(start: nat, attempts: nat, site: Option<Site>, openings: seq<Point>, draws: nat)

  /** The draw after room try `t`'s last attempted site, where its opening
      search starts. */
  function NextDraw(t: RoomTry): nat
  {
    t.start + 4 * t.attempts
  }

  /** The draws room try `t` consumes: four per attempted site, then its
      opening search. */
  function TryDraws(t: RoomTry): nat
  {
    4 * t.attempts + t.draws
  }

  /** Each room try of `record` begins at the draw where the one before it
      ended, the first at draw `start`. */
  ghost predicate DrawsFrom(start: nat, record: seq<RoomTry>)
  {
    && (|record| > 0 ==> record[0].start == start)
    && forall i :: 0 < i < |record| ==> record[i].start == record[i - 1].start + TryDraws(record[i - 1])
  }

  /** The draw after the last room try of `record`. */
  function DrawsAfter(start: nat, record: seq<RoomTry>): nat
  {
    if |record| == 0 then start else record[|record| - 1].start + TryDraws(record[|record| - 1])
  }

  /** `p` is an opening made by some room try of `record`. */
  ghost predicate OpenedBy(record: seq<RoomTry>, p: Point)
  {
    exists i :: 0 <= i < |record| && p in record[i].openings
  }

  /** A room try that begins where the record ends extends the chain of
      draws, and its openings join those of the record. */
  lemma DrawsFromSnoc(start: nat, record: seq<RoomTry>, t: RoomTry)
    requires DrawsFrom(start, record) && t.start == DrawsAfter(start, record)
    ensures DrawsFrom(start, record + [t])
    ensures DrawsAfter(start, record + [t]) == t.start + TryDraws(t)
    ensures forall p :: OpenedBy(record + [t], p) <==> OpenedBy(record, p) || p in t.openings
  {
    var r := record + [t];
    forall i | 0 < i < |r| ensures r[i].start == r[i - 1].start + TryDraws(r[i - 1]) {
      if i < |record| {
        assert r[i] == record[i] && r[i - 1] == record[i - 1];
      }
    }
    forall p ensures OpenedBy(r, p) <==> OpenedBy(record, p) || p in t.openings {
      if OpenedBy(r, p) {
        var i :| 0 <= i < |r| && p in r[i].openings;
        if i < |record| {
          assert r[i] == record[i];
        }
      }
      if OpenedBy(record, p) {
        var i :| 0 <= i < |record| && p in record[i].openings;
        assert r[i] == record[i];
      }
      if p in t.openings {
        assert r[|record|] == t;
      }
    }
  }

  /** The corridor phase's state between two weeding turns: the corridor
      cells planned so far, the dead ends, and the region of each opening
      (its union-find representative). */
  datatype WeedState = WeedState(floors: set<Point>, dead: set<Point>, regions: map<Point, Point>)

  /** One weeding turn: the opening that took it, the opening of another
      region it aimed for (none when every opening shares its region), the
      corridor planned towards that opening, and the states before and
      after it. */
  datatype Turn = Turn(tile: Point, target: Option<Point>, plan: set<Point>, before: WeedState, after: WeedState)

  /** One reconnection round: the state it began from and the weeding turns
      it took. */
  datatype Round = Round(from: WeedState, turns: seq<Turn>)

  /** The openings that took the turns of `turns`. */
  function TilesOf(turns: seq<Turn>): set<Point>
  {
    set t | t in turns :: t.tile
  }

  /** Each turn of `turns` starts where the previous one ended, the first
      one at `first`. */
  predicate Chained(first: WeedState, turns: seq<Turn>)
  {
    && (|turns| > 0 ==> turns[0].before == first)
    && forall i :: 0 < i < |turns| ==> turns[i].before == turns[i - 1].after
  }

  /** The state after the turns of `turns`, starting from `first`. */
  function After(first: WeedState, turns: seq<Turn>): WeedState
  {
    if |turns| == 0 then first else turns[|turns| - 1].after
  }

  /** A round starts with the corridors and regions of the state it began
      from and no dead ends. */
  function RoundStart(r: Round): WeedState
  {
    WeedState(r.from.floors, {}, r.from.regions)
  }

  /** The state a round ends in. */
  function RoundEnd(r: Round): WeedState
  {
    After(RoundStart(r), r.turns)
  }

  /** Each round of `rounds` begins where the previous one ended, the first
      one at `first`. */
  predicate RoundsChained(first: WeedState, rounds: seq<Round>)
  {
    && (|rounds| > 0 ==> rounds[0].from == first)
    && forall i :: 0 < i < |rounds| ==> rounds[i].from == RoundEnd(rounds[i - 1])
  }

  /** The state after the rounds of `rounds`, starting from `first`. */
  function EndOf(first: WeedState, rounds: seq<Round>): WeedState
  {
    if |rounds| == 0 then first else RoundEnd(rounds[|rounds| - 1])
  }

  /** `target` is an opening of `starts` outside the region of `tile`
      under `regions`, and no other such opening lies strictly closer to
      `tile`. */
  predicate NearestIn(regions: map<Point, Point>, tile: Point, starts: set<Point>, target: Point)
  {
    && starts <= regions.Keys && tile in regions
    && target in starts
    && regions[target] != regions[tile]
    && forall s :: s in starts && regions[s] != regions[tile] ==> Dist2(tile, target) <= Dist2(tile, s)
  }

  /** The regions once the region of `a` has joined the region of `b`. */
  function MergeRegions(regions: map<Point, Point>, a: Point, b: Point): map<Point, Point>
    requires a in regions && b in regions
  {
    map q | q in regions :: if regions[q] == regions[a] then regions[b] else regions[q]
  }

  /** Every opening of `regions` lies in one region. */
  predicate Joined(regions: map<Point, Point>)
  {
    forall p, q :: p in regions && q in regions ==> regions[p] == regions[q]
  }

  /** `t` is a weeding turn over `starts`, from state `t.before` to state
      `t.after`: with every opening in `t.tile`'s region the tile becomes a
      dead end; otherwise `t.target` is the nearest opening of another
      region; a plan that reaches the target is kept, the two regions merge
      and both ends stop being dead ends; one that does not leaves a dead
      end unless a corridor already ends on the tile. */
  predicate TurnStep(starts: set<Point>, t: Turn)
  {
    var a, b := t.before, t.after;
    && starts <= a.regions.Keys && t.tile in starts
    && (t.target.None? <==> forall s :: s in starts ==> a.regions[s] == a.regions[t.tile])
    && (t.target.None? ==> b == WeedState(a.floors, a.dead + {t.tile}, a.regions))
    && (t.target.Some? ==> NearestIn(a.regions, t.tile, starts, t.target.value))
    && (t.target.Some? && t.target.value in t.plan ==>
          b == WeedState(a.floors + t.plan, a.dead - {t.tile, t.target.value},
                         MergeRegions(a.regions, t.tile, t.target.value)))
    && (t.target.Some? && t.target.value !in t.plan ==>
          b == WeedState(a.floors, if t.tile in a.floors then a.dead else a.dead + {t.tile}, a.regions))
  }

  /** `turns` are successive weeding turns over `starts` from state
      `first`. */
  predicate Turns(starts: set<Point>, first: WeedState, turns: seq<Turn>)
  {
    && Chained(first, turns)
    && forall i {:trigger TurnStep(starts, turns[i])} :: 0 <= i < |turns| ==> TurnStep(starts, turns[i])
  }

  /** A turn from the last state extends a chain of turns. */
  lemma TurnsSnoc(starts: set<Point>, first: WeedState, turns: seq<Turn>, t: Turn)
    requires Turns(starts, first, turns)
    requires TurnStep(starts, t) && t.before == After(first, turns)
    ensures Turns(starts, first, turns + [t])
    ensures After(first, turns + [t]) == t.after
    ensures TilesOf(turns + [t]) == TilesOf(turns) + {t.tile}
  {
    var turns' := turns + [t];
    forall i | 0 <= i < |turns'| ensures TurnStep(starts, turns'[i]) {
      if i < |turns| {
        assert turns'[i] == turns[i];
      }
    }
    assert TilesOf(turns') == TilesOf(turns) + {t.tile};
  }

  /** With no openings left to visit, all of them were visited. */
  lemma NoneLeft(starts: set<Point>, rest: set<Point>)
    requires rest == {}
    ensures starts - rest == starts
  {
  }

  /** Taking `tile` out of the openings `rest` still to visit adds it to
      the openings visited. */
  lemma TakeOne(starts: set<Point>, rest: set<Point>, tile: Point)
    requires rest <= starts && tile in rest
    ensures starts - (rest - {tile}) == (starts - rest) + {tile}
    ensures |starts - (rest - {tile})| == |starts - rest| + 1
  {
    assert starts - (rest - {tile}) == (starts - rest) + {tile};
  }

  /** The floor cells of a site, in the order they are recorded. */
  function SiteBlock(s: Site): seq<Point>
  {
    Block(s.x, s.x + s.w, s.y, s.y + s.h)
  }

  /** Two floors with more than five cells between them along some axis. */
  predicate Apart(r: Site, s: Site)
  {
    r.x + r.w + 5 < s.x || s.x + s.w + 5 < r.x || r.y + r.h + 5 < s.y || s.y + s.h + 5 < r.y
  }

  /** The floor cells the rooms of `record` recorded, room after room. */
  function FloorsOf(record: seq<RoomTry>): seq<Point>
  {
    FloorsUpTo(record, |record|)
  }

  /** The floor cells the first `n` rooms of `record` recorded. */
  function FloorsUpTo(record: seq<RoomTry>, n: nat): seq<Point>
    requires n <= |record|
  {
    if n == 0 then [] else FloorsUpTo(record, n - 1) + TryFloors(record[n - 1])
  }

  /** The floors of the first `n` rooms depend on those rooms alone. */
  lemma {:induction false} FloorsUpToPrefix(record: seq<RoomTry>, more: seq<RoomTry>, n: nat)
    requires n <= |record|
    ensures FloorsUpTo(record + more, n) == FloorsUpTo(record, n)
  {
    if n > 0 {
      FloorsUpToPrefix(record, more, n - 1);
      assert (record + more)[n - 1] == record[n - 1];
    }
  }

  /** The floor cells one room recorded: its site's block, or none. */
  function TryFloors(t: RoomTry): seq<Point>
  {
    match t.site
    case Some(s) => SiteBlock(s)
    case None => []
  }

  /** Every room took between 1 and 40 site draws, and all 40 when it
      was not built. */
  predicate AttemptsBounded(record: seq<RoomTry>)
  {
    forall i :: 0 <= i < |record| ==>
      1 <= record[i].attempts <= MAX_FAILED_ATTEMPTS && (record[i].site.None? ==> record[i].attempts == MAX_FAILED_ATTEMPTS)
  }

  /** Any two built rooms of `record` keep apart. */
  predicate Separated(record: seq<RoomTry>)
  {
    forall i, j :: 0 <= i < j < |record| && record[i].site.Some? && record[j].site.Some? ==>
      Apart(record[i].site.value, record[j].site.value)
  }

  /** Appending one room keeps the record separated when the new room
      keeps apart from every built room before it. */
  lemma SeparatedSnoc(record: seq<RoomTry>, t: RoomTry)
    requires Separated(record)
    requires t.site.Some? ==> forall i :: 0 <= i < |record| && record[i].site.Some? ==> Apart(record[i].site.value, t.site.value)
    ensures Separated(record + [t])
  {
    var r := record + [t];
    forall i, j | 0 <= i < j < |r| && r[i].site.Some? && r[j].site.Some?
      ensures Apart(r[i].site.value, r[j].site.value)
    {
      if j < |record| {
        assert r[i] == record[i] && r[j] == record[j];
      } else {
        assert r[i] == record[i] && r[j] == t;
      }
    }
  }

  /** Appending a room with 1 to 40 attempts, all 40 when it was not
      built, keeps the record bounded. */
  lemma AttemptsBoundedSnoc(record: seq<RoomTry>, t: RoomTry)
    requires AttemptsBounded(record)
    requires 1 <= t.attempts <= MAX_FAILED_ATTEMPTS && (t.site.None? ==> t.attempts == MAX_FAILED_ATTEMPTS)
    ensures AttemptsBounded(record + [t])
  {
    var r := record + [t];
    forall i | 0 <= i < |r|
      ensures 1 <= r[i].attempts <= MAX_FAILED_ATTEMPTS && (r[i].site.None? ==> r[i].attempts == MAX_FAILED_ATTEMPTS)
    {
      if i < |record| {
        assert r[i] == record[i];
      }
    }
  }

  /** The floors of a record grow by the floor of the room appended. */
  lemma FloorsOfSnoc(base: seq<Point>, record: seq<RoomTry>, t: RoomTry)
    ensures base + FloorsOf(record + [t]) == (base + FloorsOf(record)) + TryFloors(t)
  {
    FloorsUpToPrefix(record, [t], |record|);
  }

  /** Every floor cell of a built room of `record` is among its recorded floors. */
  lemma FloorsOfHas(record: seq<RoomTry>, i: int, p: Point)
    requires 0 <= i < |record| && record[i].site.Some? && p in SiteBlock(record[i].site.value)
    ensures p in FloorsOf(record)
  {
    FloorsUpToHas(record, |record|, i, p);
  }

  /** Every floor cell of a built room among the first `n` is among their floors. */
  lemma {:induction false} FloorsUpToHas(record: seq<RoomTry>, n: nat, i: int, p: Point)
    requires n <= |record|
    requires 0 <= i < n && record[i].site.Some? && p in SiteBlock(record[i].site.value)
    ensures p in FloorsUpTo(record, n)
  {
    var front, last := FloorsUpTo(record, n - 1), TryFloors(record[n - 1]);
    assert FloorsUpTo(record, n) == front + last;
    if i < n - 1 {
      FloorsUpToHas(record, n - 1, i, p);
      assert p in front;
    } else {
      assert last == SiteBlock(record[i].site.value);
      assert p in last;
    }
  }

  class BareBonesWorld {
    const width: int
    const height: int
    const world: array2<Tile>
    const random: Randomness.RandomStream
    /** Connects the cells of each room's wall, and later whole rooms. */
    const allRooms: Union.HallwayUnion
    /** Every room-floor cell, in the order the rooms drew them. */
    var allRoomFloors: seq<Point>
    /** The openings of all rooms. */
    var hallwayStarts: set<Point>
    /** The cells of all corridors planned so far. */
    var hallwayFloors: set<Point>
    /** Openings whose corridor did not reach a partner. */
    var deadEnds: set<Point>

    /** The grid's shape; these sizes keep every random range non-empty. */
    ghost predicate Shaped()
    {
      world.Length0 == width && world.Length1 == height && width >= 10 && height >= 13
    }

    predicate InGrid(p: Point)
    {
      0 <= p.x < width && 0 <= p.y < height
    }

    /** A cell at least three cells away from every border of the world. */
    predicate OpeningCell(p: Point)
    {
      3 <= p.x < width - 3 && 3 <= p.y < height - 3
    }

    /** A cell with all eight neighbours inside the world. */
    predicate InteriorCell(p: Point)
    {
      1 <= p.x < width - 1 && 1 <= p.y < height - 1
    }

    /** The structural invariant: the grid's shape, a well-formed union-find
        and the places recorded cells may lie. */
    ghost predicate Valid()
      reads this, allRooms
    {
      Shaped() && allRooms.Valid() && Recorded()
    }

    /** Where each recorded cell may lie. */
    ghost predicate Recorded()
      reads this
    {
      && (forall i :: 0 <= i < |allRoomFloors| ==> InGrid(allRoomFloors[i]))
      && (forall p :: p in hallwayStarts ==> OpeningCell(p))
      && (forall p :: p in hallwayFloors ==> InteriorCell(p))
      && deadEnds <= hallwayStarts
    }

    /** Every recorded room-floor cell still holds the floor tile. */
    ghost predicate FloorsIntact()
      reads this, world
      requires Shaped()
    {
      forall i :: 0 <= i < |allRoomFloors| ==>
        InGrid(allRoomFloors[i]) && world[allRoomFloors[i].x, allRoomFloors[i].y] == Floor
    }

    /** What room generation establishes about the grid: recorded room
        floors hold the floor tile and openings hold the hallway tile. */
    ghost predicate RoomsIntact()
      reads this, world
      requires Shaped()
    {
      && FloorsIntact()
      && (forall p :: p in hallwayStarts ==> InGrid(p) && world[p.x, p.y] == Hall)
    }

    constructor (source: nat -> nat, width: int, height: int)
      requires width >= 10 && height >= 13
      ensures Valid() && fresh(world) && fresh(random) && fresh(allRooms)
      ensures this.width == width && this.height == height
      ensures allRoomFloors == [] && hallwayStarts == {} && hallwayFloors == {} && deadEnds == {}
      ensures random.source == source
    {
      this.width := width;
      this.height := height;
      world := new Tile[width, height];
      random := new Randomness.RandomStream(source);
      allRooms := new Union.HallwayUnion();
      allRoomFloors := [];
      hallwayStarts := {};
      hallwayFloors := {};
      deadEnds := {};
    }

    /** Sets every cell of the grid to the empty tile. */
    method FillWorldWithNothing()
      requires Shaped()
      modifies world
      ensures forall x, y :: 0 <= x < width && 0 <= y < height ==> world[x, y] == Nothing
    {
      var x := 0;
      while x < width
        invariant 0 <= x <= width
        invariant forall i, j :: 0 <= i < x && 0 <= j < height ==> world[i, j] == Nothing
      {
        var y := 0;
        while y < height
          invariant 0 <= y <= height
          invariant forall i, j :: 0 <= i < x && 0 <= j < height ==> world[i, j] == Nothing
          invariant forall j :: 0 <= j < y ==> world[x, j] == Nothing
        {
          world[x, y] := Nothing;
          y := y + 1;
        }
        x := x + 1;
      }
    }

    /** The room site with its five-cell margin is empty wherever it lies
        below the header band; cells outside the world are ignored. */
    ghost predicate SiteClear(xCorner: int, yCorner: int, floorWidth: int, floorHeight: int)
      reads world
      requires Shaped()
    {
      forall x, y ::
        && xCorner - 5 <= x <= xCorner + floorWidth + 5
        && yCorner - 5 <= y <= yCorner + floorHeight + 5
        && 0 <= x < width && 0 <= y < height - HEADER_SIZE
        ==> world[x, y] == Nothing
    }

    /** Scans the margin-expanded site and answers whether it is clear. */
    method IsValidRoom(xCorner: int, yCorner: int, floorWidth: int, floorHeight: int) returns (ok: bool)
      requires Shaped()
      ensures ok <==> SiteClear(xCorner, yCorner, floorWidth, floorHeight)
    {
      var x := xCorner - 5;
      while x <= xCorner + floorWidth + 5
        invariant xCorner - 5 <= x || xCorner + floorWidth + 5 < xCorner - 5
        invariant forall i, j ::
          && xCorner - 5 <= i < x && i <= xCorner + floorWidth + 5
          && yCorner - 5 <= j <= yCorner + floorHeight + 5
          && 0 <= i < width && 0 <= j < height - HEADER_SIZE
          ==> world[i, j] == Nothing
      {
        var y := yCorner - 5;
        while y <= yCorner + floorHeight + 5
          invariant forall j ::
            && yCorner - 5 <= j < y && j <= yCorner + floorHeight + 5
            && 0 <= x < width && 0 <= j < height - HEADER_SIZE
            ==> world[x, j] == Nothing
        {
          if x >= 0 && y >= 0 && x < width && y < height - HEADER_SIZE {
            if world[x, y] != Nothing {
              return false;
            }
          }
          y := y + 1;
        }
        x := x + 1;
      }
      return true;
    }

    /** Draws a room's (floorWidth+1) x (floorHeight+1) floor and records
        each of its cells once, column by column. */
    method CreateFloor(xCorner: int, yCorner: int, floorWidth: int, floorHeight: int)
      requires Shaped()
      requires 0 <= xCorner && xCorner + floorWidth < width && 0 <= floorWidth
      requires 0 <= yCorner && yCorner + floorHeight < height && 0 <= floorHeight
      modifies this`allRoomFloors, world
      ensures allRoomFloors == old(allRoomFloors) + Block(xCorner, xCorner + floorWidth, yCorner, yCorner + floorHeight)
      ensures forall x, y :: 0 <= x < width && 0 <= y < height ==>
                world[x, y] == if InRect(Point(x, y), xCorner, xCorner + floorWidth, yCorner, yCorner + floorHeight)
                               then Floor else old(world[x, y])
    {
      var x := xCorner;
      while x <= xCorner + floorWidth
        invariant xCorner <= x <= xCorner + floorWidth + 1
        invariant allRoomFloors == old(allRoomFloors) + Block(xCorner, x - 1, yCorner, yCorner + floorHeight)
        invariant forall i, j :: 0 <= i < width && 0 <= j < height ==>
                    world[i, j] == if InRect(Point(i, j), xCorner, x - 1, yCorner, yCorner + floorHeight)
                                   then Floor else old(world[i, j])
      {
        var y := yCorner;
        while y <= yCorner + floorHeight
          invariant yCorner <= y <= yCorner + floorHeight + 1
          invariant allRoomFloors == old(allRoomFloors) + Block(xCorner, x - 1, yCorner, yCorner + floorHeight) + Column(x, yCorner, y - 1)
          invariant forall i, j :: 0 <= i < width && 0 <= j < height ==>
                      world[i, j] == if InRect(Point(i, j), xCorner, x - 1, yCorner, yCorner + floorHeight) ||
                                        (i == x && yCorner <= j < y)
                                     then Floor else old(world[i, j])
        {
          world[x, y] := Floor;
          allRoomFloors := allRoomFloors + [Point(x, y)];
          y := y + 1;
        }
        x := x + 1;
      }
    }

    /** A cell of a room's one-cell-larger box that becomes an opening
        candidate when it is still empty: at least three cells from the
        world's border and not one of the ring's four corners. */
    predicate CandidateSpot(p: Point, xCorner: int, yCorner: int, newX: int, newY: int)
    {
      && InRect(p, xCorner - 1, newX + 1, yCorner - 1, newY + 1)
      && OpeningCell(p)
      && !((p.x == xCorner - 1 || p.x == newX + 1) && (p.y == yCorner - 1 || p.y == newY + 1))
    }

    /** Cell `p` comes before cell (x, y) in the column-by-column scan. */
    predicate Before(p: Point, x: int, y: int)
    {
      p.x < x || (p.x == x && p.y < y)
    }

    /** The ring of a room: the cells of the floor's one-cell-larger box
        that are not floor cells. */
    predicate OnRing(p: Point, xCorner: int, yCorner: int, newX: int, newY: int)
    {
      InRect(p, xCorner - 1, newX + 1, yCorner - 1, newY + 1) && !InRect(p, xCorner, newX, yCorner, newY)
    }

    /** Every ring cell inside the world is still empty. */
    ghost predicate RingClear(xCorner: int, yCorner: int, newX: int, newY: int)
      reads world
      requires Shaped()
    {
      forall i, j :: 0 <= i < width && 0 <= j < height && OnRing(Point(i, j), xCorner, yCorner, newX, newY) ==> world[i, j] == Nothing
    }

    /** The opening candidates of a ring scan: the candidate spots of the
        floor's one-cell-larger box that are still empty. */
    ghost function EmptySpots(xCorner: int, yCorner: int, newX: int, newY: int): (keep: set<Point>)
      reads this, world
      requires Shaped()
      ensures forall p :: p in keep <==> CandidateSpot(p, xCorner, yCorner, newX, newY) && world[p.x, p.y] == Nothing
    {
      set i, j | xCorner - 1 <= i <= newX + 1 && yCorner - 1 <= j <= newY + 1
                         && CandidateSpot(Point(i, j), xCorner, yCorner, newX, newY) && world[i, j] == Nothing :: Point(i, j)
    }

    /** Scanning the box lists every candidate spot of `keep`. */
    lemma ScanSpots(keep: set<Point>, xCorner: int, yCorner: int, newX: int, newY: int)
      requires forall p :: p in keep ==> CandidateSpot(p, xCorner, yCorner, newX, newY)
      ensures forall p :: p in Scan(keep, xCorner - 1, newX + 2, yCorner - 1, newY + 2) <==> p in keep
    {
      ScanLists(keep, xCorner - 1, newX + 2, yCorner - 1, newY + 2);
    }

    /** The tile of every grid cell, as a value. */
    ghost function Cells(): (m: map<Point, Tile>)
      reads this, world
      requires Shaped()
      ensures forall p :: p in m <==> InGrid(p)
      ensures forall p :: p in m ==> InGrid(p) && m[p] == world[p.x, p.y]
    {
      map i, j | 0 <= i < width && 0 <= j < height :: Point(i, j) := world[i, j]
    }

    /** Compared with the earlier tiles `before`, the empty cells of the
        floor's one-cell-larger box that come before column `x`, row `y` in
        scan order are walls, and every other cell is as it was. */
    ghost predicate WalledBefore(before: map<Point, Tile>, xCorner: int, yCorner: int, newX: int, newY: int, x: int, y: int)
      reads this, world
      requires Shaped()
    {
      && (forall i, j {:trigger Point(i, j) in before} :: 0 <= i < width && 0 <= j < height ==> Point(i, j) in before)
      && forall i, j {:trigger world[i, j]} :: 0 <= i < width && 0 <= j < height ==>
        world[i, j] == if InRect(Point(i, j), xCorner - 1, newX + 1, yCorner - 1, newY + 1) && Before(Point(i, j), x, y)
                             && before[Point(i, j)] == Nothing
                          then Wall else before[Point(i, j)]
    }

    /** Every ring cell that comes before column `x`, row `y` in scan order
        is recorded in `border` and lies in the corner's region. */
    ghost predicate JoinedBefore(border: set<Point>, xCorner: int, yCorner: int, newX: int, newY: int, x: int, y: int)
      reads allRooms
      requires allRooms.Valid()
    {
      forall p {:trigger OnRing(p, xCorner, yCorner, newX, newY)} :: OnRing(p, xCorner, yCorner, newX, newY) && Before(p, x, y) ==>
        p in border && allRooms.RepOf(p) == allRooms.RepOf(Point(xCorner - 1, yCorner - 1))
    }

    /** `tiles` is the scan of `keep` over columns `lo` up to `end`. */
    ghost predicate Scanned(tiles: seq<Point>, keep: set<Point>, lo: int, end: int, bottom: int, top: int)
    {
      tiles == Scan(keep, lo, end, bottom, top)
    }

    /** `tiles` is the scan of `keep` over the whole one-cell-larger box of
        the floor from (xCorner, yCorner) to (newX, newY). */
    ghost predicate RingScanned(tiles: seq<Point>, keep: set<Point>, xCorner: int, yCorner: int, newX: int, newY: int)
    {
      tiles == Scan(keep, xCorner - 1, newX + 2, yCorner - 1, newY + 2)
    }

    /** `keep` holds the opening candidates of the box that were empty in
        the earlier tiles `before`. */
    ghost predicate KeepsSpots(keep: set<Point>, before: map<Point, Tile>, xCorner: int, yCorner: int, newX: int, newY: int)
    {
      forall p {:trigger p in keep} :: p in keep <==> CandidateSpot(p, xCorner, yCorner, newX, newY) && p in before && before[p] == Nothing
    }

    /** Every ring cell was empty in the earlier tiles `before`. */
    ghost predicate RingEmpty(before: map<Point, Tile>, xCorner: int, yCorner: int, newX: int, newY: int)
    {
      forall p {:trigger OnRing(p, xCorner, yCorner, newX, newY)} :: OnRing(p, xCorner, yCorner, newX, newY) ==> p in before && before[p] == Nothing
    }

    /** Every ring cell is in the region of the ring's lower-left corner. */
    ghost predicate RingJoined(xCorner: int, yCorner: int, newX: int, newY: int)
      reads this, allRooms
      requires allRooms.Valid()
    {
      forall p :: OnRing(p, xCorner, yCorner, newX, newY) ==> allRooms.RepOf(p) == allRooms.RepOf(Point(xCorner - 1, yCorner - 1))
    }

    /** Draws the wall ring around a floor and picks one to three of the
        candidate cells as openings. `ok` is false when no candidate exists,
        where the source's random draw over an empty range throws. */
    method CreateWall(xCorner: int, yCorner: int, floorWidth: int, floorHeight: int)
      returns (ok: bool, ghost candidates: seq<Point>, ghost starts: seq<Point>)
      requires Valid() && RoomsIntact()
      requires 1 <= xCorner && xCorner + floorWidth + 1 < width && 0 <= floorWidth
      requires 1 <= yCorner && yCorner + floorHeight + 1 < height && 0 <= floorHeight
      modifies world, allRooms, random, this`hallwayStarts
      ensures Valid() && RoomsIntact()
      ensures forall p :: p in candidates <==>
                CandidateSpot(p, xCorner, yCorner, xCorner + floorWidth, yCorner + floorHeight) && old(world[p.x, p.y]) == Nothing
      ensures RingScanned(candidates, old(EmptySpots(xCorner, yCorner, xCorner + floorWidth, yCorner + floorHeight)),
                          xCorner, yCorner, xCorner + floorWidth, yCorner + floorHeight)
      ensures starts == RoomOpenings(random.source, old(random.drawn), candidates)
      ensures random.drawn == old(random.drawn) + RoomDraws(random.source, old(random.drawn), candidates)
      ensures ok <==> |candidates| > 0
      ensures ok ==> 1 <= |starts| <= 3
      ensures !ok ==> starts == []
      ensures forall i :: 0 <= i < |starts| ==> starts[i] in candidates
      ensures forall i, j :: 0 <= i < j < |starts| ==> IsGoodDist(starts[i], starts[j])
      ensures forall p :: p in hallwayStarts <==> p in old(hallwayStarts) || p in starts
      ensures forall x, y :: 0 <= x < width && 0 <= y < height ==>
                world[x, y] == if InRect(Point(x, y), xCorner - 1, xCorner + floorWidth + 1, yCorner - 1, yCorner + floorHeight + 1)
                                  && old(world[x, y]) == Nothing
                               then (if Point(x, y) in starts then Hall else Wall)
                               else old(world[x, y])
      ensures forall i :: 0 <= i < |starts| ==> allRooms.RepOf(starts[i]) == allRooms.RepOf(starts[0])
      ensures old(RingClear(xCorner, yCorner, xCorner + floorWidth, yCorner + floorHeight)) ==>
                RingJoined(xCorner, yCorner, xCorner + floorWidth, yCorner + floorHeight)
    {
      var nonBorderTiles := WallRing(xCorner, yCorner, xCorner + floorWidth, yCorner + floorHeight);
      assert RingScanned(nonBorderTiles, old(EmptySpots(xCorner, yCorner, xCorner + floorWidth, yCorner + floorHeight)),
                         xCorner, yCorner, xCorner + floorWidth, yCorner + floorHeight);
      assert old(RingClear(xCorner, yCorner, xCorner + floorWidth, yCorner + floorHeight)) ==>
               RingJoined(xCorner, yCorner, xCorner + floorWidth, yCorner + floorHeight);
      ok, starts := CreateHallwayStart(nonBorderTiles, Point(xCorner - 1, yCorner - 1));
      forall p | p in starts
        ensures CandidateSpot(p, xCorner, yCorner, xCorner + floorWidth, yCorner + floorHeight) && old(world[p.x, p.y]) == Nothing
      {
        assert p in nonBorderTiles;
      }
      candidates := nonBorderTiles;
    }

    /** The ring scan: every empty cell of the floor's one-cell-larger box
        becomes wall and each newly walled cell is joined with the already
        walled cells beside it, so that a ring that was empty ends up as one
        region. Returns the opening candidates in scan order. */
    method WallRing(xCorner: int, yCorner: int, newX: int, newY: int) returns (nonBorderTiles: seq<Point>)
      requires Valid() && RoomsIntact()
      requires 1 <= xCorner <= newX && newX + 1 < width
      requires 1 <= yCorner <= newY && newY + 1 < height
      modifies world, allRooms
      ensures Valid() && RoomsIntact()
      ensures RingScanned(nonBorderTiles, old(EmptySpots(xCorner, yCorner, newX, newY)), xCorner, yCorner, newX, newY)
      ensures forall p :: p in nonBorderTiles <==> CandidateSpot(p, xCorner, yCorner, newX, newY) && old(world[p.x, p.y]) == Nothing
      ensures forall i :: 0 <= i < |nonBorderTiles| ==>
                OpeningCell(nonBorderTiles[i]) && world[nonBorderTiles[i].x, nonBorderTiles[i].y] == Wall
      ensures forall x, y :: 0 <= x < width && 0 <= y < height ==>
                world[x, y] == if InRect(Point(x, y), xCorner - 1, newX + 1, yCorner - 1, newY + 1) && old(world[x, y]) == Nothing
                               then Wall else old(world[x, y])
      ensures old(RingClear(xCorner, yCorner, newX, newY)) ==> RingJoined(xCorner, yCorner, newX, newY)
    {
      ghost var before := Cells();
      ghost var keep := EmptySpots(xCorner, yCorner, newX, newY);
      ghost var clear := RingClear(xCorner, yCorner, newX, newY);
      ScanStarts(xCorner, yCorner, newX, newY);
      nonBorderTiles := ScanRing(xCorner, yCorner, newX, newY, before, keep, clear);
      ScanFinished(before, xCorner, yCorner, newX, newY);
      ScanSpots(keep, xCorner, yCorner, newX, newY);
    }

    /** Before the scan nothing is walled yet, and the grid's empty spots
        and empty ring read the same on a snapshot of it. */
    lemma ScanStarts(xCorner: int, yCorner: int, newX: int, newY: int)
      requires Shaped() && 1 <= xCorner && newX + 1 < width && 1 <= yCorner && newY + 1 < height
      ensures WalledBefore(Cells(), xCorner, yCorner, newX, newY, xCorner - 1, yCorner - 1)
      ensures KeepsSpots(EmptySpots(xCorner, yCorner, newX, newY), Cells(), xCorner, yCorner, newX, newY)
      ensures RingClear(xCorner, yCorner, newX, newY) ==> RingEmpty(Cells(), xCorner, yCorner, newX, newY)
    {
    }

    /** Once every column is scanned, every cell of the box that was empty
        in the snapshot `before` is a wall, and every other cell is as it
        was. */
    lemma ScanFinished(before: map<Point, Tile>, xCorner: int, yCorner: int, newX: int, newY: int)
      requires Shaped()
      requires WalledBefore(before, xCorner, yCorner, newX, newY, newX + 2, yCorner - 1)
      ensures forall i, j :: 0 <= i < width && 0 <= j < height ==>
                && Point(i, j) in before
                && world[i, j] == if InRect(Point(i, j), xCorner - 1, newX + 1, yCorner - 1, newY + 1) && before[Point(i, j)] == Nothing
                                  then Wall else before[Point(i, j)]
    {
    }

    /** The loop of the ring scan, column by column, stated against the
        snapshot `before` of the grid taken when the scan starts. */
    method ScanRing(xCorner: int, yCorner: int, newX: int, newY: int,
                    ghost before: map<Point, Tile>, ghost keep: set<Point>, ghost clear: bool)
      returns (nonBorderTiles: seq<Point>)
      requires Shaped() && allRooms.Valid()
      requires 1 <= xCorner <= newX && newX + 1 < width
      requires 1 <= yCorner <= newY && newY + 1 < height
      requires WalledBefore(before, xCorner, yCorner, newX, newY, xCorner - 1, yCorner - 1)
      requires KeepsSpots(keep, before, xCorner, yCorner, newX, newY)
      requires clear ==> RingEmpty(before, xCorner, yCorner, newX, newY)
      modifies world, allRooms
      ensures allRooms.Valid()
      ensures WalledBefore(before, xCorner, yCorner, newX, newY, newX + 2, yCorner - 1)
      ensures RingScanned(nonBorderTiles, keep, xCorner, yCorner, newX, newY)
      ensures clear ==> RingJoined(xCorner, yCorner, newX, newY)
    {
      var roomBorder: set<Point> := {};
      nonBorderTiles := [];
      var x := xCorner - 1;
      while x <= newX + 1
        invariant xCorner - 1 <= x <= newX + 2
        invariant allRooms.Valid()
        invariant WalledBefore(before, xCorner, yCorner, newX, newY, x, yCorner - 1)
        invariant Scanned(nonBorderTiles, keep, xCorner - 1, x, yCorner - 1, newY + 2)
        invariant clear ==> JoinedBefore(roomBorder, xCorner, yCorner, newX, newY, x, yCorner - 1)
      {
        nonBorderTiles, roomBorder := WallColumn(x, xCorner, yCorner, newX, newY, nonBorderTiles, roomBorder, before, keep, clear);
        x := x + 1;
      }
      assert x == newX + 2;
    }

    /** Column `x` of the ring scan, bottom to top. */
    method WallColumn(x: int, xCorner: int, yCorner: int, newX: int, newY: int, tilesIn: seq<Point>, borderIn: set<Point>,
                      ghost before: map<Point, Tile>, ghost keep: set<Point>, ghost clear: bool)
      returns (tiles: seq<Point>, border: set<Point>)
      requires Shaped() && allRooms.Valid()
      requires 1 <= xCorner <= newX && newX + 1 < width
      requires 1 <= yCorner <= newY && newY + 1 < height
      requires xCorner - 1 <= x <= newX + 1
      requires WalledBefore(before, xCorner, yCorner, newX, newY, x, yCorner - 1)
      requires KeepsSpots(keep, before, xCorner, yCorner, newX, newY)
      requires clear ==> RingEmpty(before, xCorner, yCorner, newX, newY)
      requires Scanned(tilesIn, keep, xCorner - 1, x, yCorner - 1, newY + 2)
      requires clear ==> JoinedBefore(borderIn, xCorner, yCorner, newX, newY, x, yCorner - 1)
      modifies world, allRooms
      ensures allRooms.Valid()
      ensures WalledBefore(before, xCorner, yCorner, newX, newY, x + 1, yCorner - 1)
      ensures Scanned(tiles, keep, xCorner - 1, x + 1, yCorner - 1, newY + 2)
      ensures clear ==> JoinedBefore(border, xCorner, yCorner, newX, newY, x + 1, yCorner - 1)
    {
      var column := [];
      border := borderIn;
      var y := yCorner - 1;
      while y <= newY + 1
        invariant yCorner - 1 <= y <= newY + 2
        invariant allRooms.Valid()
        invariant WalledBefore(before, xCorner, yCorner, newX, newY, x, y)
        invariant column == ColumnScan(keep, x, yCorner - 1, y)
        invariant clear ==> JoinedBefore(border, xCorner, yCorner, newX, newY, x, y)
      {
        var candidate;
        candidate, border := ScanCell(x, y, xCorner, yCorner, newX, newY, border, before, keep, clear);
        ColumnScanNext(keep, x, yCorner - 1, y);
        if candidate {
          column := column + [Point(x, y)];
        }
        y := y + 1;
      }
      NextColumn(before, border, xCorner, yCorner, newX, newY, x);
      ScanNext(keep, xCorner - 1, x, yCorner - 1, newY + 2);
      tiles := tilesIn + column;
    }

    /** Finishing a column's scan is starting the next column's. */
    lemma NextColumn(before: map<Point, Tile>, border: set<Point>, xCorner: int, yCorner: int, newX: int, newY: int, x: int)
      requires Shaped() && allRooms.Valid()
      ensures WalledBefore(before, xCorner, yCorner, newX, newY, x, newY + 2) ==>
                WalledBefore(before, xCorner, yCorner, newX, newY, x + 1, yCorner - 1)
      ensures JoinedBefore(border, xCorner, yCorner, newX, newY, x, newY + 2) ==>
                JoinedBefore(border, xCorner, yCorner, newX, newY, x + 1, yCorner - 1)
    {
    }

    /** One step of the ring scan, stated against the cells as they were
        before the scan: cell (x, y) joins the scanned part, is a candidate
        just when it is kept, and a ring that was empty stays joined. */
    method ScanCell(x: int, y: int, xCorner: int, yCorner: int, newX: int, newY: int, roomBorder: set<Point>,
                    ghost before: map<Point, Tile>, ghost keep: set<Point>, ghost clear: bool)
      returns (candidate: bool, border: set<Point>)
      requires Shaped() && allRooms.Valid() && 1 <= xCorner && newX + 1 < width && 1 <= yCorner && newY + 1 < height
      requires InRect(Point(x, y), xCorner - 1, newX + 1, yCorner - 1, newY + 1)
      requires WalledBefore(before, xCorner, yCorner, newX, newY, x, y)
      requires KeepsSpots(keep, before, xCorner, yCorner, newX, newY)
      requires clear ==> RingEmpty(before, xCorner, yCorner, newX, newY)
      requires clear ==> JoinedBefore(roomBorder, xCorner, yCorner, newX, newY, x, y)
      modifies world, allRooms
      ensures allRooms.Valid()
      ensures WalledBefore(before, xCorner, yCorner, newX, newY, x, y + 1)
      ensures candidate <==> Point(x, y) in keep
      ensures clear ==> JoinedBefore(border, xCorner, yCorner, newX, newY, x, y + 1)
    {
      assert Point(x, y) in before && world[x, y] == before[Point(x, y)];
      candidate, border := WallCell(x, y, xCorner, yCorner, newX, newY, roomBorder);
    }

    /** One step of the ring scan: an empty cell becomes wall, is recorded
        in the ring and is joined with each neighbour already in the ring;
        `candidate` says whether it may become an opening. Any other cell is
        left alone. */
    method WallCell(x: int, y: int, xCorner: int, yCorner: int, newX: int, newY: int, roomBorder: set<Point>)
      returns (candidate: bool, border: set<Point>)
      requires Shaped() && allRooms.Valid() && 1 <= xCorner && newX + 1 < width && 1 <= yCorner && newY + 1 < height
      requires InRect(Point(x, y), xCorner - 1, newX + 1, yCorner - 1, newY + 1)
      modifies world, allRooms
      ensures allRooms.Valid()
      ensures forall i, j :: 0 <= i < width && 0 <= j < height ==>
                world[i, j] == if i == x && j == y && old(world[x, y]) == Nothing then Wall else old(world[i, j])
      ensures candidate <==> old(world[x, y]) == Nothing && CandidateSpot(Point(x, y), xCorner, yCorner, newX, newY)
      ensures border == if old(world[x, y]) == Nothing then roomBorder + {Point(x, y)} else roomBorder
      ensures old(world[x, y]) == Nothing ==>
                forall q :: q in border && Adjacent4(q, Point(x, y)) && InGrid(q) ==> allRooms.RepOf(q) == allRooms.RepOf(Point(x, y))
      ensures forall q :: allRooms.RepOf(q) == allRooms.RepOf(old(allRooms.RepOf(q)))
      ensures && (forall p :: OnRing(p, xCorner, yCorner, newX, newY) && Before(p, x, y) ==>
                    p in roomBorder && old(allRooms.RepOf(p)) == old(allRooms.RepOf(Point(xCorner - 1, yCorner - 1))))
              && (OnRing(Point(x, y), xCorner, yCorner, newX, newY) ==> old(world[x, y]) == Nothing)
              ==> forall p :: OnRing(p, xCorner, yCorner, newX, newY) && Before(p, x, y + 1) ==>
                    allRooms.RepOf(p) == allRooms.RepOf(Point(xCorner - 1, yCorner - 1))
    {
      candidate := false;
      border := roomBorder;
      forall q ensures allRooms.RepOf(allRooms.RepOf(q)) == allRooms.RepOf(q) {
        allRooms.RepIdempotent(q);
      }
      if world[x, y] == Nothing {
        world[x, y] := Wall;
        if x >= 3 && y >= 3 && x < width - 3 && y < height - 3 {
          if !((x == xCorner - 1 || x == newX + 1) && (y == yCorner - 1 || y == newY + 1)) {
            candidate := true;
          }
        }
        border := border + {Point(x, y)};
        label Walled:
        JoinRingNeighbours(Point(x, y), border);
        forall q ensures allRooms.RepOf(q) == allRooms.RepOf(old(allRooms.RepOf(q))) {
          assert old@Walled(allRooms.RepOf(q)) == old(allRooms.RepOf(q));
        }
      }
      ghost var corner := Point(xCorner - 1, yCorner - 1);
      if && (forall p :: OnRing(p, xCorner, yCorner, newX, newY) && Before(p, x, y) ==>
               p in roomBorder && old(allRooms.RepOf(p)) == old(allRooms.RepOf(corner)))
         && (OnRing(Point(x, y), xCorner, yCorner, newX, newY) ==> old(world[x, y]) == Nothing)
      {
        forall p | OnRing(p, xCorner, yCorner, newX, newY) && Before(p, x, y + 1)
          ensures allRooms.RepOf(p) == allRooms.RepOf(corner)
        {
          assert allRooms.RepOf(p) == allRooms.RepOf(old(allRooms.RepOf(p)));
          assert allRooms.RepOf(corner) == allRooms.RepOf(old(allRooms.RepOf(corner)));
          if p == Point(x, y) && p != corner {
            // the ring cell scanned just before it, beside it: below it in the
            // two full columns, to its left along the top and bottom rows
            var previous := if x == xCorner - 1 || (x == newX + 1 && y > yCorner - 1) then Point(x, y - 1) else Point(x - 1, y);
            assert OnRing(previous, xCorner, yCorner, newX, newY) && Before(previous, x, y);
            assert previous in border && Adjacent4(previous, p) && InGrid(previous);
            assert allRooms.RepOf(previous) == allRooms.RepOf(old(allRooms.RepOf(previous)));
          }
        }
      }
    }

    /** Joins a newly walled cell with each of its four neighbours that is
        already part of the ring, checking the grid bounds first. Classes
        only ever merge. */
    method JoinRingNeighbours(p: Point, border: set<Point>)
      requires allRooms.Valid() && InGrid(p)
      modifies allRooms
      ensures allRooms.Valid()
      ensures forall q :: q in border && Adjacent4(q, p) && InGrid(q) ==> allRooms.RepOf(q) == allRooms.RepOf(p)
      ensures forall q :: allRooms.RepOf(q) == allRooms.RepOf(old(allRooms.RepOf(q)))
    {
      var right, up, left, down := Point(p.x + 1, p.y), Point(p.x, p.y + 1), Point(p.x - 1, p.y), Point(p.x, p.y - 1);
      label S0:
      JoinIfRing(p, right, p.x < width - 1, border);
      label S1:
      JoinIfRing(p, up, p.y < height - 1, border);
      label S2:
      JoinIfRing(p, left, p.x >= 1, border);
      label S3:
      JoinIfRing(p, down, p.y >= 1, border);
      forall q ensures allRooms.RepOf(q) == allRooms.RepOf(old(allRooms.RepOf(q))) {
        ghost var r0 := old(allRooms.RepOf(q));
        ghost var r1 := old@S1(allRooms.RepOf(q));
        ghost var r2 := old@S2(allRooms.RepOf(q));
        ghost var r3 := old@S3(allRooms.RepOf(q));
        assert old@S1(allRooms.RepOf(r0)) == r1;
        assert old@S2(allRooms.RepOf(r1)) == r2;
        assert old@S3(allRooms.RepOf(r2)) == r3;
      }
      forall q | q in border && Adjacent4(q, p) && InGrid(q) ensures allRooms.RepOf(q) == allRooms.RepOf(p) {
        ghost var q1, p1 := old@S1(allRooms.RepOf(q)), old@S1(allRooms.RepOf(p));
        ghost var q2, p2 := old@S2(allRooms.RepOf(q)), old@S2(allRooms.RepOf(p));
        ghost var q3, p3 := old@S3(allRooms.RepOf(q)), old@S3(allRooms.RepOf(p));
        if q == right {
          assert q1 == p1;
          assert q2 == old@S2(allRooms.RepOf(q1)) && p2 == old@S2(allRooms.RepOf(p1));
        }
        if q == right || q == up {
          assert q2 == p2;
          assert q3 == old@S3(allRooms.RepOf(q2)) && p3 == old@S3(allRooms.RepOf(p2));
        }
        if q != down {
          assert q3 == p3;
          assert allRooms.RepOf(q) == allRooms.RepOf(q3) && allRooms.RepOf(p) == allRooms.RepOf(p3);
        }
      }
    }

    /** One neighbour of the step above: unions `p` with `q` when the bound
        check passes and `q` is already in the ring. */
    method JoinIfRing(p: Point, q: Point, inside: bool, border: set<Point>)
      requires allRooms.Valid()
      modifies allRooms
      ensures allRooms.Valid()
      ensures inside && q in border ==> allRooms.RepOf(q) == allRooms.RepOf(p)
      ensures forall a :: allRooms.RepOf(a) == allRooms.RepOf(old(allRooms.RepOf(a)))
    {
      if inside && q in border {
        Merge(p, q);
      } else {
        forall a ensures allRooms.RepOf(allRooms.RepOf(a)) == allRooms.RepOf(a) {
          allRooms.RepIdempotent(a);
        }
      }
    }

    /** A union seen from outside: `a` and `b` end in one region, and
        regions only ever merge (every point keeps the region of its
        former representative). */
    method Merge(a: Point, b: Point)
      requires allRooms.Valid()
      modifies allRooms
      ensures allRooms.Valid()
      ensures allRooms.RepOf(a) == allRooms.RepOf(b)
      ensures forall q :: allRooms.RepOf(q) == allRooms.RepOf(old(allRooms.RepOf(q)))
    {
      forall q ensures allRooms.RepOf(allRooms.RepOf(q)) == allRooms.RepOf(q) {
        allRooms.RepIdempotent(q);
      }
      allRooms.Union(a, b);
    }

    /** Marks `p` as an opening: it gets the hallway tile and joins the set
        of openings. */
    method PlaceOpening(p: Point)
      requires Valid() && OpeningCell(p)
      modifies world, this`hallwayStarts
      ensures Valid()
      ensures hallwayStarts == old(hallwayStarts) + {p}
      ensures forall x, y :: 0 <= x < width && 0 <= y < height ==>
                world[x, y] == if Point(x, y) == p then Hall else old(world[x, y])
    {
      hallwayStarts := hallwayStarts + {p};
      world[p.x, p.y] := Hall;
    }

    /** One draw: a uniformly chosen candidate. */
    method DrawCandidate(tiles: seq<Point>, ghost start: nat, ghost i: nat) returns (candidate: Point)
      requires |tiles| > 0 && random.drawn == start + i
      modifies random
      ensures candidate == Pick(random.source, start, i, tiles)
      ensures random.drawn == start + i + 1
    {
      var k := random.Uniform(0, |tiles|);
      candidate := tiles[k];
    }

    /** Draws candidates up to 40 times and returns the first one that is
        distinct from, and at a good distance from, every opening in
        `others`; each attempt consumes one draw. */
    method DrawOpening(tiles: seq<Point>, others: seq<Point>) returns (found: Option<Point>)
      requires |tiles| > 0
      modifies random
      ensures var r := FirstFar(random.source, old(random.drawn), tiles, others, 0);
              && random.drawn == old(random.drawn) + DrawsUsed(r)
              && found == if r.Some? then Some(Pick(random.source, old(random.drawn), r.value, tiles)) else None
      ensures found.Some? ==> found.value in tiles && FarFromAll(found.value, others)
    {
      ghost var source, start := random.source, random.drawn;
      ghost var r := FirstFar(source, start, tiles, others, 0);
      var i := 0;
      while i < MAX_FAILED_ATTEMPTS
        invariant 0 <= i <= MAX_FAILED_ATTEMPTS
        invariant random.source == source && random.drawn == start + i
        invariant r == FirstFar(source, start, tiles, others, i)
      {
        var candidate := DrawCandidate(tiles, start, i);
        if FarFromAll(candidate, others) {
          return Some(candidate);
        }
        FirstFarSkips(source, start, tiles, others, i);
        i := i + 1;
      }
      return None;
    }

    /** Turns one random candidate into an opening, then tries up to 40 draws
        for a second one at a good distance from it, then up to 40 draws for
        a third at a good distance from both. Every opening gets the hallway
        tile, joins the set of openings and the first opening's region.
        `starts` lists the openings in the order they were made. */
    method CreateHallwayStart(nonBorderTiles: seq<Point>, ghost anchor: Point) returns (ok: bool, ghost starts: seq<Point>)
      requires Valid() && RoomsIntact()
      requires forall i :: 0 <= i < |nonBorderTiles| ==>
                 OpeningCell(nonBorderTiles[i]) && world[nonBorderTiles[i].x, nonBorderTiles[i].y] == Wall
      modifies world, allRooms, random, this`hallwayStarts
      ensures Valid() && RoomsIntact()
      ensures ok <==> |nonBorderTiles| > 0
      ensures starts == RoomOpenings(random.source, old(random.drawn), nonBorderTiles)
      ensures random.drawn == old(random.drawn) + RoomDraws(random.source, old(random.drawn), nonBorderTiles)
      ensures ok ==> 1 <= |starts| <= 3
      ensures !ok ==> starts == []
      ensures forall i :: 0 <= i < |starts| ==> starts[i] in nonBorderTiles
      ensures forall i, j :: 0 <= i < j < |starts| ==> IsGoodDist(starts[i], starts[j])
      ensures forall p :: p in hallwayStarts <==> p in old(hallwayStarts) || p in starts
      ensures forall x, y :: 0 <= x < width && 0 <= y < height ==>
                world[x, y] == if Point(x, y) in starts then Hall else old(world[x, y])
      ensures forall i :: 0 <= i < |starts| ==> allRooms.RepOf(starts[i]) == allRooms.RepOf(starts[0])
      ensures forall q :: old(allRooms.RepOf(q)) == old(allRooms.RepOf(anchor)) ==> allRooms.RepOf(q) == allRooms.RepOf(anchor)
    {
      if |nonBorderTiles| == 0 {
        return false, [];
      }
      ghost var start := random.drawn;
      var allRoomStarts := ChooseOpenings(nonBorderTiles);
      OpeningsSpread(random.source, start, nonBorderTiles, allRoomStarts);
      OpenRoom(nonBorderTiles, allRoomStarts, anchor);
      return true, allRoomStarts;
    }

    /** Draws a room's chosen openings, which are wall cells of the room,
        keeping every recorded floor cell and every opening intact. */
    method OpenRoom(tiles: seq<Point>, starts: seq<Point>, ghost anchor: Point)
      requires Valid() && RoomsIntact()
      requires forall i :: 0 <= i < |tiles| ==> OpeningCell(tiles[i]) && world[tiles[i].x, tiles[i].y] == Wall
      requires 1 <= |starts| <= 3
      requires forall i :: 0 <= i < |starts| ==> starts[i] in tiles
      modifies world, allRooms, this`hallwayStarts
      ensures Valid() && RoomsIntact()
      ensures forall p :: p in hallwayStarts <==> p in old(hallwayStarts) || p in starts
      ensures forall x, y :: 0 <= x < width && 0 <= y < height ==>
                world[x, y] == if Point(x, y) in starts then Hall else old(world[x, y])
      ensures forall i :: 0 <= i < |starts| ==> allRooms.RepOf(starts[i]) == allRooms.RepOf(starts[0])
      ensures forall q :: old(allRooms.RepOf(q)) == old(allRooms.RepOf(anchor)) ==> allRooms.RepOf(q) == allRooms.RepOf(anchor)
    {
      OpenAll(starts, anchor);
      forall i | 0 <= i < |allRoomFloors|
        ensures world[allRoomFloors[i].x, allRoomFloors[i].y] == Floor
      {
        var f := allRoomFloors[i];
        assert old(world[f.x, f.y]) == Floor;
        assert f !in starts;
      }
      forall p | p in hallwayStarts
        ensures InGrid(p) && world[p.x, p.y] == Hall
      {
        if p !in starts {
          assert p in old(hallwayStarts);
        }
      }
    }

    /** The random part of choosing a room's openings: the first draw picks
        the first opening; each further opening is the first of up to 40
        draws that lies far enough from all openings chosen before it. The
        draws do not depend on the grid, so they are made before any
        opening is drawn on it. */
    method ChooseOpenings(tiles: seq<Point>) returns (starts: seq<Point>)
      requires |tiles| > 0
      modifies random
      ensures starts == Openings(random.source, old(random.drawn), tiles)
      ensures random.drawn == old(random.drawn) + OpeningDraws(random.source, old(random.drawn), tiles)
    {
      ghost var source, start := random.source, random.drawn;
      var first := DrawCandidate(tiles, start, 0);
      starts := [first];
      ghost var r2 := FirstFar(source, start + 1, tiles, starts, 0);
      var second := DrawOpening(tiles, starts);
      if second.Some? {
        starts := starts + [second.value];
      }
      ghost var two, next := starts, random.drawn;
      ghost var r3 := FirstFar(source, next, tiles, two, 0);
      var third := DrawOpening(tiles, starts);
      if third.Some? {
        starts := starts + [third.value];
      }
      OpeningsUnfold(source, start, tiles, r2, two, next, r3, starts, random.drawn);
    }

    /** Draws the chosen openings in order; each one after the first is
        joined with every opening before it. Regions only grow: whatever
        shared `anchor`'s region still does. */
    method OpenAll(starts: seq<Point>, ghost anchor: Point)
      requires Valid()
      requires 1 <= |starts| <= 3
      requires forall i :: 0 <= i < |starts| ==> OpeningCell(starts[i])
      modifies world, allRooms, this`hallwayStarts
      ensures Valid()
      ensures forall p :: p in hallwayStarts <==> p in old(hallwayStarts) || p in starts
      ensures forall x, y :: 0 <= x < width && 0 <= y < height ==>
                world[x, y] == if Point(x, y) in starts then Hall else old(world[x, y])
      ensures forall i :: 0 <= i < |starts| ==> allRooms.RepOf(starts[i]) == allRooms.RepOf(starts[0])
      ensures forall q :: old(allRooms.RepOf(q)) == old(allRooms.RepOf(anchor)) ==> allRooms.RepOf(q) == allRooms.RepOf(anchor)
    {
      PlaceOpening(starts[0]);
      var i := 1;
      while i < |starts|
        invariant 1 <= i <= |starts|
        invariant Valid()
        invariant forall p :: p in hallwayStarts <==> p in old(hallwayStarts) || p in starts[..i]
        invariant forall x, y :: 0 <= x < width && 0 <= y < height ==>
                    world[x, y] == if Point(x, y) in starts[..i] then Hall else old(world[x, y])
        invariant forall j :: 0 <= j < i ==> allRooms.RepOf(starts[j]) == allRooms.RepOf(starts[0])
        invariant forall q :: old(allRooms.RepOf(q)) == old(allRooms.RepOf(anchor)) ==> allRooms.RepOf(q) == allRooms.RepOf(anchor)
      {
        JoinOpening(starts[i], starts[..i], anchor);
        assert allRooms.RepOf(starts[..i][0]) == allRooms.RepOf(starts[i]);
        forall j | 0 <= j <= i ensures allRooms.RepOf(starts[j]) == allRooms.RepOf(starts[0]) {
          if j < i {
            assert allRooms.RepOf(starts[..i][j]) == allRooms.RepOf(starts[i]);
          }
        }
        PrefixStep(starts, i);
        i := i + 1;
      }
      assert starts[..i] == starts;
    }

    /** Makes `e` an opening and joins it with each earlier opening of the
        room in turn, as the source does for the second and third opening. */
    method JoinOpening(e: Point, earlier: seq<Point>, ghost anchor: Point)
      requires Valid() && OpeningCell(e)
      requires 1 <= |earlier| <= 2
      requires forall i :: 0 <= i < |earlier| ==> allRooms.RepOf(earlier[i]) == allRooms.RepOf(earlier[0])
      modifies world, allRooms, this`hallwayStarts
      ensures Valid()
      ensures hallwayStarts == old(hallwayStarts) + {e}
      ensures forall x, y :: 0 <= x < width && 0 <= y < height ==>
                world[x, y] == if Point(x, y) == e then Hall else old(world[x, y])
      ensures forall i :: 0 <= i < |earlier| ==> allRooms.RepOf(earlier[i]) == allRooms.RepOf(e)
      ensures forall q :: old(allRooms.RepOf(q)) == old(allRooms.RepOf(anchor)) ==> allRooms.RepOf(q) == allRooms.RepOf(anchor)
    {
      PlaceOpening(e);
      label Placed:
      allRooms.Union(earlier[0], e);
      if |earlier| > 1 {
        allRooms.Union(earlier[1], e);
      }
      forall q | old(allRooms.RepOf(q)) == old(allRooms.RepOf(anchor)) ensures allRooms.RepOf(q) == allRooms.RepOf(anchor) {
        assert old@Placed(allRooms.RepOf(q)) == old@Placed(allRooms.RepOf(anchor));
      }
    }

    /** Builds a room when its site is clear. `built` says whether the site
        was clear; `ok` is false when the ring had no opening candidate. */
    method CreateRoom(xCorner: int, yCorner: int, floorWidth: int, floorHeight: int)
      returns (built: bool, ok: bool, ghost starts: seq<Point>)
      requires Valid() && RoomsIntact()
      requires 1 <= xCorner && xCorner + floorWidth + 1 < width && 0 <= floorWidth
      requires 1 <= yCorner && yCorner + floorHeight + 1 < height - HEADER_SIZE && 0 <= floorHeight
      modifies world, allRooms, random, this`hallwayStarts, this`allRoomFloors
      ensures Valid() && RoomsIntact()
      ensures built <==> old(SiteClear(xCorner, yCorner, floorWidth, floorHeight))
      ensures !built ==> ok && starts == []
      ensures !built ==> allRoomFloors == old(allRoomFloors) && hallwayStarts == old(hallwayStarts)
      ensures built ==> allRoomFloors == old(allRoomFloors) + Block(xCorner, xCorner + floorWidth, yCorner, yCorner + floorHeight)
      ensures built ==> forall p :: p in hallwayStarts <==> p in old(hallwayStarts) || p in starts
      ensures forall x, y :: 0 <= x < width && 0 <= y < height ==>
                world[x, y] == if !built then old(world[x, y])
                               else if InRect(Point(x, y), xCorner, xCorner + floorWidth, yCorner, yCorner + floorHeight) then Floor
                               else if InRect(Point(x, y), xCorner - 1, xCorner + floorWidth + 1, yCorner - 1, yCorner + floorHeight + 1)
                               then (if Point(x, y) in starts then Hall else Wall)
                               else old(world[x, y])
      ensures built ==> (ok <==> |starts| > 0) && |starts| <= 3
      ensures built ==> (ok <==> HasOpeningSpot(xCorner, yCorner, xCorner + floorWidth, yCorner + floorHeight))
      ensures var order := RingOrder(xCorner, yCorner, xCorner + floorWidth, yCorner + floorHeight);
              && starts == (if built then RoomOpenings(random.source, old(random.drawn), order) else [])
              && random.drawn == old(random.drawn) + (if built then RoomDraws(random.source, old(random.drawn), order) else 0)
      ensures forall i, j :: 0 <= i < j < |starts| ==> IsGoodDist(starts[i], starts[j])
      ensures forall i :: 0 <= i < |starts| ==> allRooms.RepOf(starts[i]) == allRooms.RepOf(starts[0])
      ensures built ==> forall p :: OnRing(p, xCorner, yCorner, xCorner + floorWidth, yCorner + floorHeight) ==>
                          allRooms.RepOf(p) == allRooms.RepOf(Point(xCorner - 1, yCorner - 1))
    {
      built := IsValidRoom(xCorner, yCorner, floorWidth, floorHeight);
      ok := true;
      starts := [];
      if built {
        ok, starts := BuildRoom(xCorner, yCorner, floorWidth, floorHeight);
      }
    }

    /** The floor half of building a room on a clear site: the floor is
        laid and every recorded floor and hallway start is intact. */
    method LayFloor(xCorner: int, yCorner: int, floorWidth: int, floorHeight: int)
      requires Valid() && RoomsIntact() && SiteClear(xCorner, yCorner, floorWidth, floorHeight)
      requires 1 <= xCorner && xCorner + floorWidth + 1 < width && 0 <= floorWidth
      requires 1 <= yCorner && yCorner + floorHeight + 1 < height - HEADER_SIZE && 0 <= floorHeight
      modifies world, this`allRoomFloors
      ensures Valid() && RoomsIntact()
      ensures allRoomFloors == old(allRoomFloors) + Block(xCorner, xCorner + floorWidth, yCorner, yCorner + floorHeight)
      ensures forall x, y :: 0 <= x < width && 0 <= y < height ==>
                world[x, y] == if InRect(Point(x, y), xCorner, xCorner + floorWidth, yCorner, yCorner + floorHeight)
                               then Floor else old(world[x, y])
    {
      CreateFloor(xCorner, yCorner, floorWidth, floorHeight);
      assert forall p :: p in hallwayStarts ==> InGrid(p) && world[p.x, p.y] == Hall by {
        forall p | p in hallwayStarts
          ensures InGrid(p) && world[p.x, p.y] == Hall
        {
          assert old(world[p.x, p.y]) == Hall;
          assert !InRect(p, xCorner, xCorner + floorWidth, yCorner, yCorner + floorHeight);
        }
      }
      assert FloorsIntact() by {
        forall i | 0 <= i < |allRoomFloors|
          ensures InGrid(allRoomFloors[i]) && world[allRoomFloors[i].x, allRoomFloors[i].y] == Floor
        {
          var p := allRoomFloors[i];
          if i < |old(allRoomFloors)| {
            assert p == old(allRoomFloors)[i];
          } else {
            assert p in Block(xCorner, xCorner + floorWidth, yCorner, yCorner + floorHeight);
            BlockWithin(xCorner, xCorner + floorWidth, yCorner, yCorner + floorHeight, p);
          }
        }
      }
    }

    /** Builds a room on a clear site: the floor first, then the wall ring
        with its openings. The ring becomes one region. */
    method BuildRoom(xCorner: int, yCorner: int, floorWidth: int, floorHeight: int)
      returns (ok: bool, ghost starts: seq<Point>)
      requires Valid() && RoomsIntact() && SiteClear(xCorner, yCorner, floorWidth, floorHeight)
      requires 1 <= xCorner && xCorner + floorWidth + 1 < width && 0 <= floorWidth
      requires 1 <= yCorner && yCorner + floorHeight + 1 < height - HEADER_SIZE && 0 <= floorHeight
      modifies world, allRooms, random, this`hallwayStarts, this`allRoomFloors
      ensures Valid() && RoomsIntact()
      ensures allRoomFloors == old(allRoomFloors) + Block(xCorner, xCorner + floorWidth, yCorner, yCorner + floorHeight)
      ensures forall p :: p in hallwayStarts <==> p in old(hallwayStarts) || p in starts
      ensures forall x, y :: 0 <= x < width && 0 <= y < height ==>
                world[x, y] == if InRect(Point(x, y), xCorner, xCorner + floorWidth, yCorner, yCorner + floorHeight) then Floor
                               else if InRect(Point(x, y), xCorner - 1, xCorner + floorWidth + 1, yCorner - 1, yCorner + floorHeight + 1)
                               then (if Point(x, y) in starts then Hall else Wall)
                               else old(world[x, y])
      ensures (ok <==> |starts| > 0) && |starts| <= 3
      ensures ok <==> HasOpeningSpot(xCorner, yCorner, xCorner + floorWidth, yCorner + floorHeight)
      ensures var order := RingOrder(xCorner, yCorner, xCorner + floorWidth, yCorner + floorHeight);
              && starts == RoomOpenings(random.source, old(random.drawn), order)
              && random.drawn == old(random.drawn) + RoomDraws(random.source, old(random.drawn), order)
      ensures forall i, j :: 0 <= i < j < |starts| ==> IsGoodDist(starts[i], starts[j])
      ensures forall i :: 0 <= i < |starts| ==> allRooms.RepOf(starts[i]) == allRooms.RepOf(starts[0])
      ensures forall p :: OnRing(p, xCorner, yCorner, xCorner + floorWidth, yCorner + floorHeight) ==>
                allRooms.RepOf(p) == allRooms.RepOf(Point(xCorner - 1, yCorner - 1))
    {
      LayFloor(xCorner, yCorner, floorWidth, floorHeight);
      assert RingClear(xCorner, yCorner, xCorner + floorWidth, yCorner + floorHeight) by {
        forall i, j | 0 <= i < width && 0 <= j < height && OnRing(Point(i, j), xCorner, yCorner, xCorner + floorWidth, yCorner + floorHeight)
          ensures world[i, j] == Nothing
        {
          assert !InRect(Point(i, j), xCorner, xCorner + floorWidth, yCorner, yCorner + floorHeight);
          assert old(world[i, j]) == Nothing;
        }
      }
      ok, starts := WallRoom(xCorner, yCorner, floorWidth, floorHeight);
    }

    /** The wall half of building a room, once its floor is down and its
        ring is empty: the ring is walled, the openings are drawn from the
        ring's candidates in scan order, and the ring becomes one region. */
    method WallRoom(xCorner: int, yCorner: int, floorWidth: int, floorHeight: int)
      returns (ok: bool, ghost starts: seq<Point>)
      requires Valid() && RoomsIntact()
      requires 1 <= xCorner && xCorner + floorWidth + 1 < width && 0 <= floorWidth
      requires 1 <= yCorner && yCorner + floorHeight + 1 < height && 0 <= floorHeight
      requires RingClear(xCorner, yCorner, xCorner + floorWidth, yCorner + floorHeight)
      requires forall x, y :: 0 <= x < width && 0 <= y < height && InRect(Point(x, y), xCorner, xCorner + floorWidth, yCorner, yCorner + floorHeight) ==>
                 world[x, y] == Floor
      modifies world, allRooms, random, this`hallwayStarts
      ensures Valid() && RoomsIntact()
      ensures forall p :: p in hallwayStarts <==> p in old(hallwayStarts) || p in starts
      ensures forall x, y :: 0 <= x < width && 0 <= y < height ==>
                world[x, y] == if InRect(Point(x, y), xCorner - 1, xCorner + floorWidth + 1, yCorner - 1, yCorner + floorHeight + 1)
                                  && old(world[x, y]) == Nothing
                               then (if Point(x, y) in starts then Hall else Wall)
                               else old(world[x, y])
      ensures (ok <==> |starts| > 0) && |starts| <= 3
      ensures ok <==> HasOpeningSpot(xCorner, yCorner, xCorner + floorWidth, yCorner + floorHeight)
      ensures var order := RingOrder(xCorner, yCorner, xCorner + floorWidth, yCorner + floorHeight);
              && starts == RoomOpenings(random.source, old(random.drawn), order)
              && random.drawn == old(random.drawn) + RoomDraws(random.source, old(random.drawn), order)
      ensures forall i, j :: 0 <= i < j < |starts| ==> IsGoodDist(starts[i], starts[j])
      ensures forall i :: 0 <= i < |starts| ==> allRooms.RepOf(starts[i]) == allRooms.RepOf(starts[0])
      ensures forall p :: OnRing(p, xCorner, yCorner, xCorner + floorWidth, yCorner + floorHeight) ==>
                allRooms.RepOf(p) == allRooms.RepOf(Point(xCorner - 1, yCorner - 1))
    {
      ClearRingSpots(xCorner, yCorner, xCorner + floorWidth, yCorner + floorHeight);
      assert EmptySpots(xCorner, yCorner, xCorner + floorWidth, yCorner + floorHeight)
          == OpeningSpots(xCorner, yCorner, xCorner + floorWidth, yCorner + floorHeight);
      RingOrderLists(xCorner, yCorner, xCorner + floorWidth, yCorner + floorHeight);
      assert |RingOrder(xCorner, yCorner, xCorner + floorWidth, yCorner + floorHeight)| > 0
        <==> HasOpeningSpot(xCorner, yCorner, xCorner + floorWidth, yCorner + floorHeight);
      ghost var candidates;
      ok, candidates, starts := CreateWall(xCorner, yCorner, floorWidth, floorHeight);
    }

    /** The ring cells an opening may be drawn at once the floor is down,
        as a set. */
    ghost function OpeningSpots(xCorner: int, yCorner: int, newX: int, newY: int): (r: set<Point>)
      ensures forall p :: p in r <==> OnRing(p, xCorner, yCorner, newX, newY) && CandidateSpot(p, xCorner, yCorner, newX, newY)
    {
      set i, j | xCorner - 1 <= i <= newX + 1 && yCorner - 1 <= j <= newY + 1
                 && OnRing(Point(i, j), xCorner, yCorner, newX, newY) && CandidateSpot(Point(i, j), xCorner, yCorner, newX, newY)
        :: Point(i, j)
    }

    /** A room's opening candidates in the order its ring is scanned, once
        its floor is down on a clear site. */
    ghost function RingOrder(xCorner: int, yCorner: int, newX: int, newY: int): seq<Point>
    {
      Scan(OpeningSpots(xCorner, yCorner, newX, newY), xCorner - 1, newX + 2, yCorner - 1, newY + 2)
    }

    /** The opening candidates of the room on site `s`, in scan order. */
    ghost function SiteOrder(s: Site): seq<Point>
    {
      RingOrder(s.x, s.y, s.x + s.w, s.y + s.h)
    }

    /** With the floor down and the ring empty, the empty candidate spots of
        the box are exactly the ring's candidate spots. */
    lemma ClearRingSpots(xCorner: int, yCorner: int, newX: int, newY: int)
      requires Shaped() && 1 <= xCorner <= newX && newX + 1 < width && 1 <= yCorner <= newY && newY + 1 < height
      requires RingClear(xCorner, yCorner, newX, newY)
      requires forall x, y :: 0 <= x < width && 0 <= y < height && InRect(Point(x, y), xCorner, newX, yCorner, newY) ==>
                 world[x, y] == Floor
      ensures EmptySpots(xCorner, yCorner, newX, newY) == OpeningSpots(xCorner, yCorner, newX, newY)
    {
    }

    /** A ring's scan lists exactly its opening spots, so it is empty just
        when the ring has no cell an opening may be drawn at. */
    lemma RingOrderLists(xCorner: int, yCorner: int, newX: int, newY: int)
      ensures forall p :: p in RingOrder(xCorner, yCorner, newX, newY) <==> p in OpeningSpots(xCorner, yCorner, newX, newY)
      ensures |RingOrder(xCorner, yCorner, newX, newY)| > 0 <==> HasOpeningSpot(xCorner, yCorner, newX, newY)
    {
      var spots := OpeningSpots(xCorner, yCorner, newX, newY);
      ScanLists(spots, xCorner - 1, newX + 2, yCorner - 1, newY + 2);
      if HasOpeningSpot(xCorner, yCorner, newX, newY) {
        var p :| OnRing(p, xCorner, yCorner, newX, newY) && CandidateSpot(p, xCorner, yCorner, newX, newY);
        assert p in RingOrder(xCorner, yCorner, newX, newY);
      }
      if |RingOrder(xCorner, yCorner, newX, newY)| > 0 {
        assert RingOrder(xCorner, yCorner, newX, newY)[0] in spots;
      }
    }

    /** The ring cells an opening may be drawn at once the floor is down. */
    ghost predicate HasOpeningSpot(xCorner: int, yCorner: int, newX: int, newY: int)
    {
      exists p :: OnRing(p, xCorner, yCorner, newX, newY) && CandidateSpot(p, xCorner, yCorner, newX, newY)
    }

    /** The sites the generator can draw: the ring stays inside the world
        and below the header band. */
    predicate SiteInWorld(s: Site)
    {
      && 4 <= s.w < 8 && 5 <= s.h < 9
      && 1 <= s.x && s.x + s.w + 1 < width
      && 1 <= s.y && s.y + s.h + 1 < height - HEADER_SIZE
    }

    /** The site drawn by draws `n` .. `n + 3`: floor width in [4, 8), floor
        height in [5, 9), then the corner in the ranges that keep the ring
        inside the world and below the header band. */
    function DrawnSite(source: nat -> nat, n: nat): (s: Site)
      requires Shaped()
    {
      var w := 4 + source(n) % 4;
      var h := 5 + source(n + 1) % 4;
      Site(1 + source(n + 2) % (width - w - 2), 1 + source(n + 3) % (height - HEADER_SIZE - h - 2), w, h)
    }

    /** The site of attempt `k` of a search whose first attempt starts at
        draw `start`; each attempt takes four draws. */
    function AttemptSite(source: nat -> nat, start: nat, k: nat): (s: Site)
      requires Shaped()
      decreases k
    {
      if k == 0 then DrawnSite(source, start) else AttemptSite(source, start + 4, k - 1)
    }

    /** Attempt `k` uses the four draws from `start + 4 * k` on. */
    lemma {:induction false} AttemptSiteDraws(source: nat -> nat, start: nat, k: nat)
      requires Shaped()
      ensures AttemptSite(source, start, k) == DrawnSite(source, start + 4 * k)
      decreases k
    {
      if k > 0 {
        AttemptSiteDraws(source, start + 4, k - 1);
      }
    }

    /** Every attempted site keeps its ring inside the world and below the
        header band. */
    lemma AttemptSiteInWorld(source: nat -> nat, start: nat, k: nat)
      requires Shaped()
      ensures SiteInWorld(AttemptSite(source, start, k))
    {
      AttemptSiteDraws(source, start, k);
    }

    /** The margin of the site of attempt `k` from draw `start` is clear. */
    ghost predicate DrawClear(start: nat, k: nat)
      reads world
      requires Shaped()
    {
      var s := AttemptSite(random.source, start, k);
      SiteClear(s.x, s.y, s.w, s.h)
    }

    /** None of the first `count` sites drawn from draw `start` on has a
        clear margin. */
    ghost predicate NoneClear(start: nat, count: nat)
      reads world
      requires Shaped()
      decreases count
    {
      count == 0 || (NoneClear(start, count - 1) && !DrawClear(start, count - 1))
    }

    /** `NoneClear` says of each of those sites that it is not clear. */
    lemma {:induction false} NoneClearEach(start: nat, count: nat)
      requires Shaped()
      ensures NoneClear(start, count) <==> forall k :: 0 <= k < count ==> !DrawClear(start, k)
      decreases count
    {
      if count > 0 {
        NoneClearEach(start, count - 1);
      }
    }

    /** Four draws: the floor's width and height, then its corner. */
    method DrawSite() returns (s: Site)
      requires Shaped()
      modifies random
      ensures s == DrawnSite(random.source, old(random.drawn))
      ensures random.drawn == old(random.drawn) + 4
    {
      var floorWidth := random.Uniform(4, 8);
      var floorHeight := random.Uniform(5, 9);
      var xCorner := random.Uniform(1, width - floorWidth - 1);
      var yCorner := random.Uniform(1, height - HEADER_SIZE - floorHeight - 1);
      s := Site(xCorner, yCorner, floorWidth, floorHeight);
    }

    /** The draws of attempt `k` of a search that began at draw `start`. */
    method DrawAttempt(ghost start: nat, ghost k: nat) returns (s: Site)
      requires Shaped() && random.drawn == start + 4 * k
      modifies random
      ensures s == AttemptSite(random.source, start, k)
      ensures random.drawn == old(random.drawn) + 4
    {
      s := DrawSite();
      AttemptSiteDraws(random.source, start, k);
    }

    /** A site whose margin is clear keeps more than five cells from the
        floor of every room already recorded. */
    lemma SeparatedSites(r: Site, s: Site)
      requires Shaped() && FloorsIntact() && SiteInWorld(r) && SiteInWorld(s) && SiteClear(s.x, s.y, s.w, s.h)
      requires forall p :: p in SiteBlock(r) ==> p in allRoomFloors
      ensures Apart(r, s)
    {
      // the floor cell of r nearest to the low corner of s's margin
      var p := Point(if r.x < s.x - 5 then s.x - 5 else r.x, if r.y < s.y - 5 then s.y - 5 else r.y);
      if InRect(p, r.x, r.x + r.w, r.y, r.y + r.h) {
        assert world[p.x, p.y] == Floor by {
          BlockHas(r.x, r.x + r.w, r.y, r.y + r.h, p);
          assert p in SiteBlock(r);
          var i :| 0 <= i < |allRoomFloors| && allRoomFloors[i] == p;
        }
      }
      if !Apart(r, s) {
        assert false;
      }
    }

    /** A site whose margin is clear keeps away from every built room of
        `earlier`, whose floors end `allRoomFloors`. */
    lemma SeparatedFromAll(base: seq<Point>, earlier: seq<RoomTry>, s: Site)
      requires Shaped() && FloorsIntact() && SiteInWorld(s) && SiteClear(s.x, s.y, s.w, s.h)
      requires allRoomFloors == base + FloorsOf(earlier)
      requires SitesDrawn(random.source, earlier)
      ensures forall i :: 0 <= i < |earlier| && earlier[i].site.Some? ==> Apart(earlier[i].site.value, s)
    {
      forall i | 0 <= i < |earlier| && earlier[i].site.Some?
        ensures Apart(earlier[i].site.value, s)
      {
        AttemptSiteInWorld(random.source, earlier[i].start, earlier[i].attempts - 1);
        forall p | p in SiteBlock(earlier[i].site.value)
          ensures p in allRoomFloors
        {
          FloorsOfHas(earlier, i, p);
        }
        SeparatedSites(earlier[i].site.value, s);
      }
    }

    /** The openings and draws room try `t` records are those of the
        opening search on its site's ring, right after its last attempt;
        a try that built nothing records none. */
    ghost predicate OpeningsDrawn(source: nat -> nat, t: RoomTry)
    {
      match t.site
      case None => t.openings == [] && t.draws == 0
      case Some(s) => && t.openings == RoomOpenings(source, NextDraw(t), SiteOrder(s))
                      && t.draws == RoomDraws(source, NextDraw(t), SiteOrder(s))
    }

    /** Every room try of `record` records the openings drawn for it. */
    ghost predicate RoomsOpened(source: nat -> nat, record: seq<RoomTry>)
    {
      forall i :: 0 <= i < |record| ==> OpeningsDrawn(source, record[i])
    }

    /** Appending a room try that records its own openings keeps every
        try of the record doing so. */
    lemma RoomsOpenedSnoc(source: nat -> nat, record: seq<RoomTry>, t: RoomTry)
      requires RoomsOpened(source, record) && OpeningsDrawn(source, t)
      ensures RoomsOpened(source, record + [t])
    {
      assert forall i :: 0 <= i < |record| ==> (record + [t])[i] == record[i];
    }

    /** Every built room of `record` stands on the site drawn by the last
        of its attempts. */
    ghost predicate SitesDrawn(source: nat -> nat, record: seq<RoomTry>)
      requires Shaped()
    {
      forall i :: 0 <= i < |record| && record[i].site.Some? ==>
        record[i].attempts >= 1 && record[i].site.value == AttemptSite(source, record[i].start, record[i].attempts - 1)
    }

    /** The room, if built, had an opening candidate on its ring. */
    ghost predicate Openable(t: RoomTry)
    {
      t.site.Some? ==> HasOpeningSpot(t.site.value.x, t.site.value.y, t.site.value.x + t.site.value.w, t.site.value.y + t.site.value.h)
    }

    /** The first `n` rooms of `record` are all openable. */
    ghost predicate OpenableUpTo(record: seq<RoomTry>, n: int)
    {
      forall i :: 0 <= i < n && i < |record| ==> Openable(record[i])
    }

    /** Appending a room drawn from `source` keeps the record drawn from it. */
    lemma SitesDrawnSnoc(source: nat -> nat, record: seq<RoomTry>, t: RoomTry)
      requires Shaped() && SitesDrawn(source, record)
      requires t.site.Some? ==> t.attempts >= 1 && t.site.value == AttemptSite(source, t.start, t.attempts - 1)
      ensures SitesDrawn(source, record + [t])
    {
      var r := record + [t];
      forall i | 0 <= i < |r| && r[i].site.Some?
        ensures r[i].attempts >= 1 && r[i].site.value == AttemptSite(source, r[i].start, r[i].attempts - 1)
      {
        if i < |record| {
          assert r[i] == record[i];
        }
      }
    }

    /** Appending a room: the record stays openable up to the new room
        exactly when the new room is openable. */
    lemma OpenableSnoc(record: seq<RoomTry>, t: RoomTry)
      requires OpenableUpTo(record, |record|)
      ensures OpenableUpTo(record + [t], if Openable(t) then |record| + 1 else |record|)
    {
      var r := record + [t];
      forall i | 0 <= i < (if Openable(t) then |record| + 1 else |record|) && i < |r|
        ensures Openable(r[i])
      {
        if i < |record| {
          assert r[i] == record[i];
        }
      }
    }

    /** `createRoom` on a site already found clear: it is built, and `ok`
        says whether its ring had an opening candidate. */
    method BuildSite(s: Site) returns (ok: bool)
      requires Valid() && RoomsIntact() && SiteInWorld(s) && SiteClear(s.x, s.y, s.w, s.h)
      modifies world, allRooms, random, this`hallwayStarts, this`allRoomFloors
      ensures Valid() && RoomsIntact()
      ensures allRoomFloors == old(allRoomFloors) + SiteBlock(s)
      ensures ok <==> HasOpeningSpot(s.x, s.y, s.x + s.w, s.y + s.h)
      ensures random.drawn == old(random.drawn) + RoomDraws(random.source, old(random.drawn), SiteOrder(s))
      ensures forall p :: p in hallwayStarts <==> p in old(hallwayStarts) || p in RoomOpenings(random.source, old(random.drawn), SiteOrder(s))
      ensures forall x, y :: 0 <= x < width && 0 <= y < height ==>
                world[x, y] == if InRect(Point(x, y), s.x, s.x + s.w, s.y, s.y + s.h) then Floor
                               else if InRect(Point(x, y), s.x - 1, s.x + s.w + 1, s.y - 1, s.y + s.h + 1)
                               then (if Point(x, y) in RoomOpenings(random.source, old(random.drawn), SiteOrder(s)) then Hall else Wall)
                               else old(world[x, y])
    {
      var built;
      ghost var starts;
      built, ok, starts := CreateRoom(s.x, s.y, s.w, s.h);
      assert built;
      assert SiteOrder(s) == RingOrder(s.x, s.y, s.x + s.w, s.y + s.h);
    }

    /** One room: up to 40 random sites, built on the first clear one.
        `ok` is false when that room had no opening candidate. The ghost
        `earlier` is the record of the rooms before, whose floors end
        `allRoomFloors`; the new site keeps away from each of them. */
    method PlaceRoom(ghost base: seq<Point>, ghost earlier: seq<RoomTry>) returns (ok: bool, ghost t: RoomTry)
      requires Valid() && RoomsIntact()
      requires allRoomFloors == base + FloorsOf(earlier)
      requires SitesDrawn(random.source, earlier)
      modifies world, allRooms, random, this`hallwayStarts, this`allRoomFloors
      ensures Valid() && RoomsIntact()
      ensures t.start == old(random.drawn) && 1 <= t.attempts <= MAX_FAILED_ATTEMPTS
      ensures OpeningsDrawn(random.source, t)
      ensures random.drawn == old(random.drawn) + TryDraws(t)
      ensures forall p :: p in hallwayStarts <==> p in old(hallwayStarts) || p in t.openings
      ensures old(NoneClear(t.start, t.attempts - 1))
      ensures allRoomFloors == old(allRoomFloors) + TryFloors(t)
      ensures ok <==> Openable(t)
      ensures t.site.None? ==> t.attempts == MAX_FAILED_ATTEMPTS && old(NoneClear(t.start, MAX_FAILED_ATTEMPTS))
      ensures t.site.Some? ==> var s := t.site.value;
                               && s == AttemptSite(random.source, t.start, t.attempts - 1)
                               && old(SiteClear(s.x, s.y, s.w, s.h))
                               && forall i :: 0 <= i < |earlier| && earlier[i].site.Some? ==> Apart(earlier[i].site.value, s)
    {
      ghost var start := random.drawn;
      var found;
      ghost var attempts;
      found, attempts := FindSite();
      if found.None? {
        return true, RoomTry(start, attempts, None, [], 0);
      }
      ok, t := PlaceOnSite(base, earlier, found.value, start, attempts);
    }

    /** The second half of `PlaceRoom`: builds the room on `site`, the clear
        site drawn by the last of `attempts` attempts from draw `start`. */
    method PlaceOnSite(ghost base: seq<Point>, ghost earlier: seq<RoomTry>, site: Site, ghost start: nat, ghost attempts: nat)
      returns (ok: bool, ghost t: RoomTry)
      requires Valid() && RoomsIntact()
      requires allRoomFloors == base + FloorsOf(earlier)
      requires SitesDrawn(random.source, earlier)
      requires 1 <= attempts && random.drawn == start + 4 * attempts
      requires site == AttemptSite(random.source, start, attempts - 1) && SiteClear(site.x, site.y, site.w, site.h)
      modifies world, allRooms, random, this`hallwayStarts, this`allRoomFloors
      ensures Valid() && RoomsIntact()
      ensures t.start == start && t.attempts == attempts && t.site == Some(site)
      ensures site == AttemptSite(random.source, t.start, t.attempts - 1)
      ensures OpeningsDrawn(random.source, t)
      ensures random.drawn == old(random.drawn) + t.draws
      ensures forall p :: p in hallwayStarts <==> p in old(hallwayStarts) || p in t.openings
      ensures allRoomFloors == old(allRoomFloors) + SiteBlock(site)
      ensures ok <==> Openable(t)
      ensures forall i :: 0 <= i < |earlier| && earlier[i].site.Some? ==> Apart(earlier[i].site.value, site)
    {
      AttemptSiteInWorld(random.source, start, attempts - 1);
      SeparatedFromAll(base, earlier, site);
      ghost var order := SiteOrder(site);
      t := RoomTry(start, attempts, Some(site), RoomOpenings(random.source, random.drawn, order), RoomDraws(random.source, random.drawn, order));
      assert NextDraw(t) == random.drawn;
      ok := BuildSite(site);
    }

    /** The search for a room's site: up to 40 sites are drawn, four draws
        each, and the search stops at the first whose margin is clear. */
    method FindSite() returns (found: Option<Site>, ghost attempts: nat)
      requires Shaped()
      modifies random
      ensures 1 <= attempts <= MAX_FAILED_ATTEMPTS
      ensures random.drawn == old(random.drawn) + 4 * attempts
      ensures old(NoneClear(random.drawn, attempts - 1))
      ensures found.None? ==> attempts == MAX_FAILED_ATTEMPTS && !old(DrawClear(random.drawn, attempts - 1))
      ensures found.Some? ==> && found.value == AttemptSite(random.source, old(random.drawn), attempts - 1)
                              && old(DrawClear(random.drawn, attempts - 1))
    {
      ghost var start := random.drawn;
      var tries := 0;
      while tries < MAX_FAILED_ATTEMPTS
        invariant 0 <= tries <= MAX_FAILED_ATTEMPTS
        invariant random.drawn == start + 4 * tries
        invariant old(NoneClear(start, tries))
      {
        var s := DrawAttempt(start, tries);
        var clear := IsValidRoom(s.x, s.y, s.w, s.h);
        if clear {
          return Some(s), tries + 1;
        }
        tries := tries + 1;
      }
      return None, MAX_FAILED_ATTEMPTS;
    }

    /** Tries 20 to 28 rooms, the number taken from the first draw; each
        room is placed by `PlaceRoom`. `ok` is false when a built room had
        no opening candidate, where the source throws; generation stops
        there. `record` tells, room by room, how it was placed. */
    method GenerateRooms() returns (ok: bool, rooms: int, ghost record: seq<RoomTry>)
      requires Valid() && RoomsIntact()
      modifies world, allRooms, random, this`hallwayStarts, this`allRoomFloors
      ensures Valid() && RoomsIntact()
      ensures rooms == MIN_ROOMS + random.source(old(random.drawn)) % 9
      ensures ok ==> |record| == rooms
      ensures !ok ==> 1 <= |record| <= rooms && record[|record| - 1].site.Some?
      ensures AttemptsBounded(record) && SitesDrawn(random.source, record) && Separated(record)
      ensures OpenableUpTo(record, if ok then |record| else |record| - 1)
      ensures !ok ==> !Openable(record[|record| - 1])
      ensures allRoomFloors == old(allRoomFloors) + FloorsOf(record)
      ensures RoomsOpened(random.source, record) && DrawsFrom(old(random.drawn) + 1, record)
      ensures random.drawn == DrawsAfter(old(random.drawn) + 1, record)
      ensures forall p :: p in hallwayStarts <==> p in old(hallwayStarts) || OpenedBy(record, p)
    {
      var extra := random.Uniform(0, 9);
      rooms := MIN_ROOMS + extra;
      ghost var source := random.source;
      record := [];
      var i := 0;
      while i < rooms
        invariant 0 <= i <= rooms && |record| == i
        invariant Valid() && RoomsIntact() && random.source == source
        invariant AttemptsBounded(record) && SitesDrawn(source, record) && Separated(record) && OpenableUpTo(record, i)
        invariant allRoomFloors == old(allRoomFloors) + FloorsOf(record)
        invariant RoomsOpened(source, record) && DrawsFrom(old(random.drawn) + 1, record)
        invariant random.drawn == DrawsAfter(old(random.drawn) + 1, record)
        invariant forall p :: p in hallwayStarts <==> p in old(hallwayStarts) || OpenedBy(record, p)
      {
        var roomOk;
        ghost var t;
        roomOk, t := PlaceRoom(old(allRoomFloors), record);
        SeparatedSnoc(record, t);
        FloorsOfSnoc(old(allRoomFloors), record, t);
        AttemptsBoundedSnoc(record, t);
        SitesDrawnSnoc(source, record, t);
        OpenableSnoc(record, t);
        DrawsFromSnoc(old(random.drawn) + 1, record, t);
        RoomsOpenedSnoc(source, record, t);
        record := record + [t];
        if !roomOk {
          ok := false;
          assert record[|record| - 1] == t;
          return;
        }
        i := i + 1;
      }
      ok := true;
    }

    /** Walls and room floors keep corridors away. */
    predicate Blocks(t: Tile)
    {
      t == Wall || t == Floor
    }

    /** Whether a corridor cell may go at (x, y): inside the world's interior
        below the header band, still empty, and with no wall or room floor
        among its four neighbours. */
    function IsValidHall(x: int, y: int): (ok: bool)
      reads world
      requires Shaped()
      ensures ok ==> InteriorCell(Point(x, y)) && world[x, y] == Nothing
    {
      if x < 1 || x >= width - 1 || y < 1 || y >= height - HEADER_SIZE - 1 then false
      else if world[x + 1, y] == Wall || world[x + 1, y] == Floor
           || world[x - 1, y] == Wall || world[x - 1, y] == Floor
           || world[x, y + 1] == Wall || world[x, y + 1] == Floor
           || world[x, y - 1] == Wall || world[x, y - 1] == Floor then false
      else world[x, y] == Nothing
    }

    /** A corridor cell may go at (x, y) exactly when the cell lies inside
        the world's interior below the header band, is still empty, and none
        of its four neighbours is a wall or room floor. */
    lemma HallSpot(x: int, y: int)
      requires Shaped()
      ensures IsValidHall(x, y) <==> && 1 <= x < width - 1 && 1 <= y < height - HEADER_SIZE - 1
                                     && world[x, y] == Nothing
                                     && (forall q :: Adjacent4(q, Point(x, y)) ==> InGrid(q) && !Blocks(world[q.x, q.y]))
    {
      var c := Point(x, y);
      assert Adjacent4(Point(x + 1, y), c) && Adjacent4(Point(x - 1, y), c);
      assert Adjacent4(Point(x, y + 1), c) && Adjacent4(Point(x, y - 1), c);
    }

    /** The cells a corridor may still go to: those passing `IsValidHall`,
        gathered column by column (`OpenCellsAre`). */
    ghost function OpenCells(): set<Point>
      reads world
      requires Shaped()
    {
      OpenColumns(width)
    }

    /** The open cells of the first `n` columns. */
    ghost function OpenColumns(n: nat): set<Point>
      reads world
      requires Shaped() && n <= width
    {
      if n == 0 then {} else OpenColumns(n - 1) + OpenColumn(n - 1, height)
    }

    /** The open cells among the lowest `n` cells of column `x`. */
    ghost function OpenColumn(x: int, n: nat): set<Point>
      reads world
      requires Shaped() && n <= height
    {
      if n == 0 then {}
      else OpenColumn(x, n - 1) + (if IsValidHall(x, n - 1) then {Point(x, n - 1)} else {})
    }

    lemma {:induction false} OpenColumnHas(x: int, n: nat, q: Point)
      requires Shaped() && n <= height
      ensures q in OpenColumn(x, n) <==> q.x == x && q.y < n && IsValidHall(q.x, q.y)
    {
      if n > 0 {
        OpenColumnHas(x, n - 1, q);
      }
    }

    lemma {:induction false} OpenColumnsHas(n: nat, q: Point)
      requires Shaped() && n <= width
      ensures q in OpenColumns(n) <==> q.x < n && IsValidHall(q.x, q.y)
    {
      if n > 0 {
        OpenColumnsHas(n - 1, q);
        OpenColumnHas(n - 1, height, q);
      }
    }

    /** A cell is open exactly when a corridor may go there. */
    lemma OpenCellsAre()
      requires Shaped()
      ensures forall q :: q in OpenCells() <==> IsValidHall(q.x, q.y)
    {
      forall q {
        OpenColumnsHas(width, q);
      }
    }

    /** When the direct step is blocked: a sideways step into a valid, not
        yet planned cell, trying +1 before -1; none when `curr` already is
        the target or no sideways step is possible. */
    method MakeTurnOrAdvance(curr: Point, target: Point, plan: set<Point>) returns (r: Option<Point>)
      requires Shaped()
      ensures r == TurnOrAdvance(OpenCells(), curr, target, plan)
    {
      OpenCellsAre();
      if curr.x != target.x {
        if IsValidHall(curr.x, curr.y + 1) && Point(curr.x, curr.y + 1) !in plan {
          return Some(Point(curr.x, curr.y + 1));
        } else if IsValidHall(curr.x, curr.y - 1) && Point(curr.x, curr.y - 1) !in plan {
          return Some(Point(curr.x, curr.y - 1));
        }
      } else if curr.y != target.y {
        if IsValidHall(curr.x + 1, curr.y) && Point(curr.x + 1, curr.y) !in plan {
          return Some(Point(curr.x + 1, curr.y));
        } else if IsValidHall(curr.x - 1, curr.y) && Point(curr.x - 1, curr.y) !in plan {
          return Some(Point(curr.x - 1, curr.y));
        }
      }
      return None;
    }

    /** One step of the corridor walk: the first open step towards the
        target in the order +x, -x, +y, -y, else the sideways step
        `MakeTurnOrAdvance` offers, unless that one is already planned. */
    method NextStep(curr: Point, target: Point, plan: set<Point>) returns (r: Option<Point>)
      requires Shaped()
      ensures r == Step(OpenCells(), curr, target, plan)
    {
      OpenCellsAre();
      if curr.x < target.x && IsValidHall(curr.x + 1, curr.y) && Point(curr.x + 1, curr.y) !in plan {
        r := Some(Point(curr.x + 1, curr.y));
      } else if curr.x > target.x && IsValidHall(curr.x - 1, curr.y) && Point(curr.x - 1, curr.y) !in plan {
        r := Some(Point(curr.x - 1, curr.y));
      } else if curr.y < target.y && IsValidHall(curr.x, curr.y + 1) && Point(curr.x, curr.y + 1) !in plan {
        r := Some(Point(curr.x, curr.y + 1));
      } else if curr.y > target.y && IsValidHall(curr.x, curr.y - 1) && Point(curr.x, curr.y - 1) !in plan {
        r := Some(Point(curr.x, curr.y - 1));
      } else {
        var other := MakeTurnOrAdvance(curr, target, plan);
        r := if other.None? || other.value in plan then None else other;
      }
    }

    /** The walk standing at `curr` ends here: it has reached the target, or
        no valid cell outside `plan` is left among the steps towards the
        target and the sideways steps. */
    ghost predicate Stuck(curr: Point, target: Point, plan: set<Point>)
      reads world
      requires Shaped()
    {
      StuckIn(OpenCells(), curr, target, plan)
    }

    /** The walk the planner takes from `start` towards `target`. */
    ghost function GreedyPath(start: Point, target: Point): seq<Point>
      reads world
      requires Shaped()
    {
      Walk(OpenCells(), start, target, [])
    }

    /** The plan the planner returns: the cells of its walk, plus the target
        when the walk did not reach it but planned a valid 4-neighbour of it. */
    ghost function PlanOf(start: Point, target: Point): set<Point>
      reads world
      requires Shaped()
    {
      var path := GreedyPath(start, target);
      if target !in path && exists q :: q in path && Adjacent4(q, target) && IsValidHall(q.x, q.y)
      then SetOf(path) + {target} else SetOf(path)
    }

    /** The planner's walk is a trail of valid cells from `start`, empty
        when `start` is the target, and it ends where it is stuck. */
    lemma GreedyPathKeeps(start: Point, target: Point)
      requires Shaped()
      ensures var w := GreedyPath(start, target);
              && Trail(start, w, SetOf(w))
              && (forall p :: p in w ==> IsValidHall(p.x, p.y))
              && Stuck(Last(start, w), target, SetOf(w))
              && (start == target ==> w == [])
    {
      assert SetOf([]) == {};
      WalkKeeps(OpenCells(), start, target, []);
      OpenCellsAre();
    }

    /** Greedily plans a corridor from `start` to `target`: the walk, then
        the target when a valid neighbour of it was planned. Every planned
        cell other than the target passed `IsValidHall` when it was planned,
        the walk's cells are successive 4-neighbours and all different, and
        a start equal to the target plans nothing. The grid is only read. */
    method PlanHallwayFloors(start: Point, target: Point) returns (plan: set<Point>, ghost path: seq<Point>)
      requires Shaped()
      ensures forall p :: p in plan ==> p in path || p == target
      ensures forall i :: 0 <= i < |path| ==> path[i] in plan
      ensures forall p :: p in plan && p != target ==> IsValidHall(p.x, p.y)
      ensures |path| > 0 ==> Adjacent4(start, path[0])
      ensures forall i :: 0 < i < |path| ==> Adjacent4(path[i - 1], path[i])
      ensures forall i, j :: 0 <= i < j < |path| ==> path[i] != path[j]
      ensures target in plan <==>
                target in path || exists q :: q in path && Adjacent4(q, target) && IsValidHall(q.x, q.y)
      ensures start == target ==> plan == {}
      ensures Stuck(Last(start, path), target, SetOf(path))
      ensures path == GreedyPath(start, target) && plan == PlanOf(start, target)
    {
      plan, path := WalkTowards(start, target);
      plan := AddTarget(plan, target);
      GreedyPathShape(start, target);
      PlanOfKeeps(start, target);
    }

    /** The planner's walk is a chain of distinct 4-neighbours from
        `start` through valid cells, empty when `start` is the target, and
        it ends where it is stuck. */
    lemma GreedyPathShape(start: Point, target: Point)
      requires Shaped()
      ensures var path := GreedyPath(start, target);
              && (forall p :: p in path ==> IsValidHall(p.x, p.y))
              && (|path| > 0 ==> Adjacent4(start, path[0]))
              && (forall i :: 0 < i < |path| ==> Adjacent4(path[i - 1], path[i]))
              && (forall i, j :: 0 <= i < j < |path| ==> path[i] != path[j])
              && (start == target ==> path == [])
              && Stuck(Last(start, path), target, SetOf(path))
    {
      var path := GreedyPath(start, target);
      GreedyPathKeeps(start, target);
      CountedCellsDistinct(path, SetOf(path));
      WalkSteps(start, path);
    }

    /** The planner's plan: every planned cell is on the walk or is the
        target, every one but the target is valid, and the target is planned
        exactly when the walk reaches it or a valid neighbour of it. */
    lemma PlanOfKeeps(start: Point, target: Point)
      requires Shaped()
      ensures var path, plan := GreedyPath(start, target), PlanOf(start, target);
              && (forall p :: p in plan ==> p in path || p == target)
              && (forall i :: 0 <= i < |path| ==> path[i] in plan)
              && (forall p :: p in plan && p != target ==> IsValidHall(p.x, p.y))
              && (target in plan <==>
                    target in path || exists q :: q in path && Adjacent4(q, target) && IsValidHall(q.x, q.y))
              && (start == target ==> plan == {})
    {
      GreedyPathShape(start, target);
    }

    /** The walk of the corridor planner: from `start`, take `NextStep`
        until the target is reached or no step is left; `path` records the
        cells in the order they were planned. */
    method WalkTowards(start: Point, target: Point) returns (plan: set<Point>, ghost path: seq<Point>)
      requires Shaped()
      ensures path == GreedyPath(start, target) && plan == SetOf(path)
    {
      ghost var open := OpenCells();
      var curr := start;
      plan := {};
      path := [];
      while curr != target
        invariant curr == Last(start, path)
        invariant plan == SetOf(path) && Walk(open, start, target, path) == GreedyPath(start, target)
        invariant plan <= open
        decreases |open - plan|
      {
        var next := NextStep(curr, target, plan);
        if next.None? {
          WalkStops(open, start, target, path);
          break;
        }
        WalkAdvances(open, start, target, path);
        Shrink(open, plan, next.value);
        curr := next.value;
        plan := plan + {curr};
        path := path + [curr];
      }
      WalkStops(open, start, target, path);
    }

    /** The valid corridor cells among the four neighbours of `target`. */
    method SurroundingTargetTile(target: Point) returns (around: set<Point>)
      requires Shaped()
      ensures forall q :: q in around <==> Adjacent4(q, target) && IsValidHall(q.x, q.y)
    {
      around := {};
      if IsValidHall(target.x + 1, target.y) {
        around := around + {Point(target.x + 1, target.y)};
      }
      if IsValidHall(target.x - 1, target.y) {
        around := around + {Point(target.x - 1, target.y)};
      }
      if IsValidHall(target.x, target.y + 1) {
        around := around + {Point(target.x, target.y + 1)};
      }
      if IsValidHall(target.x, target.y - 1) {
        around := around + {Point(target.x, target.y - 1)};
      }
    }

    /** Adds the target to a plan that does not hold it yet when one of the
        target's valid neighbours is planned, so the corridor reaches it. */
    method AddTarget(plannedHalls: set<Point>, target: Point) returns (plan: set<Point>)
      requires Shaped()
      ensures plan == if target !in plannedHalls &&
                         exists q :: q in plannedHalls && Adjacent4(q, target) && IsValidHall(q.x, q.y)
                      then plannedHalls + {target} else plannedHalls
    {
      plan := plannedHalls;
      if target !in plannedHalls {
        var around := SurroundingTargetTile(target);
        var rest := around;
        while rest != {}
          invariant rest <= around
          invariant forall q :: q in around - rest ==> q !in plannedHalls
          decreases |rest|
        {
          var tile :| tile in rest;
          if tile in plannedHalls {
            plan := plannedHalls + {target};
            break;
          }
          rest := rest - {tile};
        }
      }
    }

    /** Corridor cells are inside the world and never lie on a room floor. */
    ghost predicate CorridorsClear()
      reads this, world
      requires Shaped()
    {
      forall p :: p in hallwayFloors ==> InGrid(p) && world[p.x, p.y] != Floor
    }

    /** Every opening of `s` shares a region with every other. */
    ghost predicate AllConnected(s: set<Point>)
      reads allRooms
      requires allRooms.Valid()
    {
      forall p, q {:trigger p in s, q in s} :: p in s && q in s ==> allRooms.RepOf(p) == allRooms.RepOf(q)
    }

    /** All openings share one region exactly when the region map of the
        openings has a single value. */
    lemma JoinedIsConnected()
      requires allRooms.Valid()
      ensures Joined(Regions()) <==> AllConnected(hallwayStarts)
    {
      if !AllConnected(hallwayStarts) {
        var p, q :| p in hallwayStarts && q in hallwayStarts && allRooms.RepOf(p) != allRooms.RepOf(q);
        assert Regions()[p] != Regions()[q];
      }
    }

    /** `target` is an opening of `starts` outside the region of `tile`,
        and no other such opening lies strictly closer to `tile`. */
    ghost predicate Nearest(tile: Point, starts: set<Point>, target: Point)
      reads allRooms
      requires allRooms.Valid()
    {
      && target in starts
      && allRooms.RepOf(target) != allRooms.RepOf(tile)
      && forall s :: s in starts && allRooms.RepOf(s) != allRooms.RepOf(tile) ==> Dist2(tile, target) <= Dist2(tile, s)
    }

    /** The nearest opening of `starts` not yet connected to `tile`, or none
        when all of them are. Openings are visited in any order; of several
        at the least distance the one visited last wins, as equal keys
        overwrite each other in the source's sorted map. Only the
        union-find's path compression changes. */
    method LeastDistance(tile: Point, starts: set<Point>) returns (target: Option<Point>)
      requires allRooms.Valid()
      modifies allRooms
      ensures allRooms.Valid()
      ensures forall q :: allRooms.RepOf(q) == old(allRooms.RepOf(q))
      ensures target.None? <==> forall s :: s in starts ==> allRooms.RepOf(s) == allRooms.RepOf(tile)
      ensures target.Some? ==> Nearest(tile, starts, target.value)
    {
      target := None;
      var rest := starts;
      while rest != {}
        invariant rest <= starts
        invariant allRooms.Valid()
        invariant forall q :: allRooms.RepOf(q) == old(allRooms.RepOf(q))
        invariant target.None? <==> forall s :: s in starts - rest ==> allRooms.RepOf(s) == allRooms.RepOf(tile)
        invariant target.Some? ==> Nearest(tile, starts - rest, target.value)
        decreases |rest|
      {
        var s :| s in rest;
        var joined := allRooms.Connected(tile, s);
        if !joined && (target.None? || Dist2(tile, s) <= Dist2(tile, target.value)) {
          target := Some(s);
        }
        rest := rest - {s};
      }
    }

    /** The region of every opening, as the union-find has it now. */
    ghost function Regions(): map<Point, Point>
      reads this`hallwayStarts, allRooms
      requires allRooms.Valid()
    {
      map p | p in hallwayStarts :: allRooms.RepOf(p)
    }

    /** The weeding state as it stands, with dead-end set `dead`. */
    ghost function Weeding(dead: set<Point>): WeedState
      reads this`hallwayStarts, this`hallwayFloors, allRooms
      requires allRooms.Valid()
    {
      WeedState(hallwayFloors, dead, Regions())
    }

    /** The plan recorded for turn `t` is the corridor the planner draws
        from its tile to its target. */
    ghost predicate Planned(t: Turn)
      reads world
      requires Shaped()
    {
      t.target.Some? ==> t.plan == PlanOf(t.tile, t.target.value)
    }

    /** A whole weeding pass over `starts` from state `first`: each opening
        takes exactly one turn, in some order, and every plan is the
        planner's. */
    ghost predicate Pass(starts: set<Point>, first: WeedState, turns: seq<Turn>)
      reads world
      requires Shaped()
    {
      |turns| == |starts| && TilesOf(turns) == starts && Turns(starts, first, turns) && PlansDrawn(turns)
    }

    /** Every plan recorded in `turns` is the planner's. */
    ghost predicate PlansDrawn(turns: seq<Turn>)
      reads world
      requires Shaped()
    {
      forall i {:trigger Planned(turns[i])} :: 0 <= i < |turns| ==> Planned(turns[i])
    }

    /** A turn whose plan is the planner's extends a record of such turns. */
    lemma PlansDrawnSnoc(turns: seq<Turn>, t: Turn)
      requires Shaped() && PlansDrawn(turns) && Planned(t)
      ensures PlansDrawn(turns + [t])
    {
      var turns' := turns + [t];
      forall i | 0 <= i < |turns'| ensures Planned(turns'[i]) {
        if i < |turns| {
          assert turns'[i] == turns[i];
        }
      }
    }

    /** One turn of the weeding loop for opening `tile`: with no opening of
        `starts` left outside its region, `tile` is a dead end. Otherwise a
        corridor is planned to the nearest such opening; when the plan
        reaches it the corridor is kept, the two regions merge and neither
        opening is a dead end any more, and when it does not, `tile` is a
        dead end unless an earlier corridor already ends on it. */
    method WeedTile(tile: Point, starts: set<Point>, deadEndsIn: set<Point>)
      returns (deadEndsOut: set<Point>, ghost target: Option<Point>, ghost plan: set<Point>)
      requires Valid() && RoomsIntact() && CorridorsClear()
      requires tile in starts && starts <= hallwayStarts
      modifies allRooms, this`hallwayFloors
      ensures Valid() && RoomsIntact() && CorridorsClear()
      ensures target.None? <==> forall s :: s in starts ==> old(allRooms.RepOf(s)) == old(allRooms.RepOf(tile))
      ensures target.Some? ==> old(Nearest(tile, starts, target.value))
      ensures target.None? ==> deadEndsOut == deadEndsIn + {tile} && hallwayFloors == old(hallwayFloors)
      ensures target.Some? && target.value in plan ==>
                && hallwayFloors == old(hallwayFloors) + plan
                && deadEndsOut == deadEndsIn - {tile, target.value}
                && (forall q :: allRooms.RepOf(q) ==
                      if old(allRooms.RepOf(q)) == old(allRooms.RepOf(tile)) then old(allRooms.RepOf(target.value))
                      else old(allRooms.RepOf(q)))
      ensures target.Some? && target.value !in plan ==>
                && hallwayFloors == old(hallwayFloors)
                && deadEndsOut == if tile in old(hallwayFloors) then deadEndsIn else deadEndsIn + {tile}
      ensures !(target.Some? && target.value in plan) ==> forall q :: allRooms.RepOf(q) == old(allRooms.RepOf(q))
      ensures target.Some? ==> plan == PlanOf(tile, target.value)
    {
      var found := LeastDistance(tile, starts);
      label Chosen:
      target, plan := found, {};
      deadEndsOut := deadEndsIn;
      if found.None? {
        deadEndsOut := deadEndsOut + {tile};
        return;
      }
      var t := found.value;
      var planned;
      ghost var path;
      planned, path := PlanHallwayFloors(tile, t);
      plan := planned;
      if t in planned {
        KeepCorridor(tile, t, planned);
        forall q ensures allRooms.RepOf(q) ==
                           if old(allRooms.RepOf(q)) == old(allRooms.RepOf(tile)) then old(allRooms.RepOf(t))
                           else old(allRooms.RepOf(q))
        {
          assert old@Chosen(allRooms.RepOf(q)) == old(allRooms.RepOf(q));
        }
        deadEndsOut := deadEndsOut - {tile} - {t};
      } else if tile !in hallwayFloors {
        deadEndsOut := deadEndsOut + {tile};
      }
    }

    /** The regions of the openings once the region of `tile` has joined
        that of `target`, given the regions `before` the merge. */
    lemma RegionsMerged(before: map<Point, Point>, tile: Point, target: Point)
      requires allRooms.Valid() && before.Keys == hallwayStarts && tile in before && target in before
      requires forall q :: q in before ==>
                 allRooms.RepOf(q) == if before[q] == before[tile] then before[target] else before[q]
      ensures Regions() == MergeRegions(before, tile, target)
    {
    }

    /** The regions of the openings when no representative changed. */
    lemma RegionsKept(before: map<Point, Point>)
      requires allRooms.Valid() && before.Keys == hallwayStarts
      requires forall q :: q in before ==> allRooms.RepOf(q) == before[q]
      ensures Regions() == before
    {
    }

    /** One weeding turn for opening `tile`, recorded as `t`. */
    method TakeTurn(tile: Point, starts: set<Point>, deadEndsIn: set<Point>) returns (deadEndsOut: set<Point>, ghost t: Turn)
      requires Valid() && RoomsIntact() && CorridorsClear()
      requires tile in starts && starts <= hallwayStarts
      modifies allRooms, this`hallwayFloors
      ensures Valid() && RoomsIntact() && CorridorsClear()
      ensures t.tile == tile && t.before == old(Weeding(deadEndsIn)) && t.after == Weeding(deadEndsOut)
      ensures TurnStep(starts, t) && Planned(t)
      ensures deadEndsOut <= deadEndsIn + starts
      ensures old(hallwayFloors) <= hallwayFloors
      ensures forall q :: allRooms.RepOf(q) == allRooms.RepOf(old(allRooms.RepOf(q)))
    {
      forall q ensures allRooms.RepOf(q) == allRooms.RepOf(allRooms.RepOf(q)) {
        allRooms.RepIdempotent(q);
      }
      ghost var a := Weeding(deadEndsIn);
      ghost var target, plan;
      deadEndsOut, target, plan := WeedTile(tile, starts, deadEndsIn);
      t := Turn(tile, target, plan, a, Weeding(deadEndsOut));
      if target.Some? {
        assert NearestIn(a.regions, tile, starts, target.value);
      }
      if target.Some? && target.value in plan {
        RegionsMerged(a.regions, tile, target.value);
      } else {
        RegionsKept(a.regions);
      }
      forall q ensures allRooms.RepOf(q) == allRooms.RepOf(old(allRooms.RepOf(q))) {
        ghost var o := old(allRooms.RepOf(q));
        assert old(allRooms.RepOf(o)) == o;
      }
    }

    /** The weeding loop's body: opening `tile` takes its turn, which
        extends the turns `turns` taken so far from state `first` to
        `turnsOut`. */
    method ExtendPass(tile: Point, starts: set<Point>, deadEndsIn: set<Point>, ghost first: WeedState, ghost turns: seq<Turn>,
                      ghost entry: map<Point, Point>, ghost rank: map<Point, nat>, ghost bound: nat)
      returns (deadEndsOut: set<Point>, ghost turnsOut: seq<Turn>)
      requires Valid() && RoomsIntact() && CorridorsClear()
      requires tile in starts && starts <= hallwayStarts
      requires Turns(starts, first, turns) && After(first, turns) == Weeding(deadEndsIn)
      requires PlansDrawn(turns)
      requires Union.Ranked(entry, rank, bound)
      requires forall q :: allRooms.RepOf(q) == allRooms.RepOf(Union.Rep(entry, rank, bound, q))
      modifies allRooms, this`hallwayFloors
      ensures Valid() && RoomsIntact() && CorridorsClear()
      ensures Turns(starts, first, turnsOut) && After(first, turnsOut) == Weeding(deadEndsOut)
      ensures PlansDrawn(turnsOut)
      ensures |turnsOut| == |turns| + 1 && TilesOf(turnsOut) == TilesOf(turns) + {tile}
      ensures deadEndsOut <= deadEndsIn + starts
      ensures old(hallwayFloors) <= hallwayFloors
      ensures forall q :: allRooms.RepOf(q) == allRooms.RepOf(Union.Rep(entry, rank, bound, q))
    {
      ghost var t;
      label Turn:
      deadEndsOut, t := TakeTurn(tile, starts, deadEndsIn);
      TurnsSnoc(starts, first, turns, t);
      PlansDrawnSnoc(turns, t);
      turnsOut := turns + [t];
      forall q ensures allRooms.RepOf(q) == allRooms.RepOf(Union.Rep(entry, rank, bound, q)) {
        ghost var o := Union.Rep(entry, rank, bound, q);
        assert old(allRooms.RepOf(q)) == old(allRooms.RepOf(o));
      }
    }

    /** Records a planned corridor that reached its target and merges the
        regions of its two ends. */
    method KeepCorridor(tile: Point, t: Point, plan: set<Point>)
      requires Valid() && RoomsIntact() && CorridorsClear()
      requires t in hallwayStarts
      requires forall p :: p in plan && p != t ==> IsValidHall(p.x, p.y)
      modifies allRooms, this`hallwayFloors
      ensures Valid() && RoomsIntact() && CorridorsClear()
      ensures hallwayFloors == old(hallwayFloors) + plan
      ensures forall q :: allRooms.RepOf(q) ==
                if old(allRooms.RepOf(q)) == old(allRooms.RepOf(tile)) then old(allRooms.RepOf(t)) else old(allRooms.RepOf(q))
    {
      hallwayFloors := hallwayFloors + plan;
      allRooms.Union(tile, t);
    }

    /** The weeding loop: every opening of `starts` takes one turn
        (`WeedTile`), in any order, updating the dead-end set `deadEndsIn`.
        `turns` records the turns in the order taken, from the state on
        entry to the state on exit. Corridors are only added and regions
        only merge: every point stays in the region of its former
        representative. */
    method WeedOutPlannedDeadEnds(starts: set<Point>, deadEndsIn: set<Point>)
      returns (deadEndsOut: set<Point>, ghost turns: seq<Turn>)
      requires Valid() && RoomsIntact() && CorridorsClear()
      requires starts <= hallwayStarts
      modifies allRooms, this`hallwayFloors
      ensures Valid() && RoomsIntact() && CorridorsClear()
      ensures Pass(starts, old(Weeding(deadEndsIn)), turns)
      ensures After(old(Weeding(deadEndsIn)), turns) == Weeding(deadEndsOut)
      ensures deadEndsOut <= deadEndsIn + starts
      ensures old(hallwayFloors) <= hallwayFloors
      ensures forall q :: allRooms.RepOf(q) == allRooms.RepOf(old(allRooms.RepOf(q)))
    {
      forall q ensures allRooms.RepOf(q) == allRooms.RepOf(allRooms.RepOf(q)) {
        allRooms.RepIdempotent(q);
      }
      ghost var first := Weeding(deadEndsIn);
      ghost var entry, rank, bound := allRooms.parent, allRooms.rank, allRooms.bound;
      deadEndsOut := deadEndsIn;
      turns := [];
      var rest := starts;
      while rest != {}
        invariant rest <= starts
        invariant Valid() && RoomsIntact() && CorridorsClear()
        invariant |turns| == |starts - rest| && TilesOf(turns) == starts - rest
        invariant Turns(starts, first, turns) && After(first, turns) == Weeding(deadEndsOut)
        invariant PlansDrawn(turns)
        invariant deadEndsOut <= deadEndsIn + starts
        invariant old(hallwayFloors) <= hallwayFloors
        invariant forall q :: allRooms.RepOf(q) == allRooms.RepOf(Union.Rep(entry, rank, bound, q))
        decreases |rest|
      {
        var tile :| tile in rest;
        deadEndsOut, turns := ExtendPass(tile, starts, deadEndsOut, first, turns, entry, rank, bound);
        TakeOne(starts, rest, tile);
        rest := rest - {tile};
      }
      NoneLeft(starts, rest);
    }

    /** Whether every pair of openings is in one region, checked pair by
        pair over a list of the openings in any order. Only the
        union-find's path compression changes. */
    method AreAllRoomsConnected() returns (all: bool)
      requires Valid()
      modifies allRooms
      ensures Valid()
      ensures forall q :: allRooms.RepOf(q) == old(allRooms.RepOf(q))
      ensures Regions() == old(Regions())
      ensures all <==> AllConnected(hallwayStarts)
    {
      var list := ListOf(hallwayStarts);
      var i := 0;
      while i < |list|
        invariant 0 <= i <= |list|
        invariant Valid()
        invariant forall q :: allRooms.RepOf(q) == old(allRooms.RepOf(q))
        invariant forall a, b :: 0 <= a < i && a < b < |list| ==> allRooms.RepOf(list[a]) == allRooms.RepOf(list[b])
      {
        var joined := ConnectedToLater(list, i);
        if !joined {
          ghost var b :| i < b < |list| && allRooms.RepOf(list[i]) != allRooms.RepOf(list[b]);
          assert list[i] in hallwayStarts && list[b] in hallwayStarts;
          return false;
        }
        i := i + 1;
      }
      PairsConnectAll(list, hallwayStarts);
      return true;
    }

    /** Every cell in the 3 x 3 block around a corridor cell is filled. */
    ghost predicate CorridorsWalled()
      reads this, world
      requires Shaped()
    {
      forall p, t :: t in hallwayFloors && InGrid(p) && Near(p, t) ==> world[p.x, p.y] != Nothing
    }

    /** Round `r` starts because some two openings of the state it began
        from lie in different regions, and it is a weeding pass over that
        state's dead ends with a fresh dead-end set. */
    ghost predicate RoundStep(r: Round)
      reads world
      requires Shaped()
    {
      !Joined(r.from.regions) && Pass(r.from.dead, RoundStart(r), r.turns)
    }

    /** `rounds` are successive reconnection rounds from state `first`. */
    ghost predicate RoundsFrom(first: WeedState, rounds: seq<Round>)
      reads world
      requires Shaped()
    {
      && RoundsChained(first, rounds)
      && forall i {:trigger RoundStep(rounds[i])} :: 0 <= i < |rounds| ==> RoundStep(rounds[i])
    }

    /** A round from the current end state extends a chain of rounds. */
    lemma RoundsSnoc(first: WeedState, rounds: seq<Round>, r: Round)
      requires Shaped() && RoundsFrom(first, rounds)
      requires RoundStep(r) && r.from == EndOf(first, rounds)
      ensures RoundsFrom(first, rounds + [r])
      ensures EndOf(first, rounds + [r]) == RoundEnd(r)
    {
      var rounds' := rounds + [r];
      forall i | 0 <= i < |rounds'| ensures RoundStep(rounds'[i]) {
        if i < |rounds| {
          assert rounds'[i] == rounds[i];
        }
      }
    }

    /** The reconnection rounds: while some two openings lie in different
        regions, the weeding loop runs again over the current dead ends
        with a fresh dead-end set, whose result becomes the current dead
        ends. `rounds` records each round. The source repeats without
        bound; here at most `fuel` rounds run, and `done` is false when
        they ran out first. */
    method ReconnectRounds(fuel: nat) returns (done: bool, current: set<Point>, ghost rounds: seq<Round>)
      requires Valid() && RoomsIntact() && CorridorsClear()
      modifies allRooms, this`hallwayFloors
      ensures Valid() && RoomsIntact() && CorridorsClear()
      ensures done <==> AllConnected(hallwayStarts)
      ensures RoundsFrom(old(Weeding(deadEnds)), rounds)
      ensures current == EndOf(old(Weeding(deadEnds)), rounds).dead
      ensures hallwayFloors == EndOf(old(Weeding(deadEnds)), rounds).floors
      ensures Regions() == EndOf(old(Weeding(deadEnds)), rounds).regions
      ensures |rounds| <= fuel && (!done ==> |rounds| == fuel)
      ensures current <= deadEnds
      ensures old(hallwayFloors) <= hallwayFloors
      ensures forall q :: allRooms.RepOf(q) == allRooms.RepOf(old(allRooms.RepOf(q)))
    {
      forall q ensures allRooms.RepOf(q) == allRooms.RepOf(allRooms.RepOf(q)) {
        allRooms.RepIdempotent(q);
      }
      ghost var first := Weeding(deadEnds);
      ghost var entry, rank, bound := allRooms.parent, allRooms.rank, allRooms.bound;
      current := deadEnds;
      rounds := [];
      var left := fuel;
      while true
        invariant Valid() && RoomsIntact() && CorridorsClear()
        invariant RoundsFrom(first, rounds) && Weeding(current) == EndOf(first, rounds)
        invariant 0 <= left && left + |rounds| == fuel
        invariant current <= deadEnds
        invariant old(hallwayFloors) <= hallwayFloors
        invariant forall q :: allRooms.RepOf(q) == allRooms.RepOf(Union.Rep(entry, rank, bound, q))
        decreases left
      {
        var all := AreAllRoomsConnected();
        if all {
          return true, current, rounds;
        }
        if left == 0 {
          return false, current, rounds;
        }
        current, rounds := NextRound(current, first, rounds, entry, rank, bound);
        left := left - 1;
      }
    }

    /** The reconnection loop's body: one more weeding pass over the
        current dead ends `current`, recorded as a round after `rounds`. */
    method NextRound(current: set<Point>, ghost first: WeedState, ghost rounds: seq<Round>,
                     ghost entry: map<Point, Point>, ghost rank: map<Point, nat>, ghost bound: nat)
      returns (out: set<Point>, ghost roundsOut: seq<Round>)
      requires Valid() && RoomsIntact() && CorridorsClear()
      requires !AllConnected(hallwayStarts) && current <= deadEnds
      requires RoundsFrom(first, rounds) && Weeding(current) == EndOf(first, rounds)
      requires Union.Ranked(entry, rank, bound)
      requires forall q :: allRooms.RepOf(q) == allRooms.RepOf(Union.Rep(entry, rank, bound, q))
      modifies allRooms, this`hallwayFloors
      ensures Valid() && RoomsIntact() && CorridorsClear()
      ensures RoundsFrom(first, roundsOut) && Weeding(out) == EndOf(first, roundsOut)
      ensures |roundsOut| == |rounds| + 1
      ensures out <= current
      ensures old(hallwayFloors) <= hallwayFloors
      ensures forall q :: allRooms.RepOf(q) == allRooms.RepOf(Union.Rep(entry, rank, bound, q))
    {
      ghost var from := EndOf(first, rounds);
      JoinedIsConnected();
      ghost var turns;
      out, turns := WeedOutPlannedDeadEnds(current, {});
      RoundsSnoc(first, rounds, Round(from, turns));
      roundsOut := rounds + [Round(from, turns)];
      forall q ensures allRooms.RepOf(q) == allRooms.RepOf(Union.Rep(entry, rank, bound, q)) {
        ghost var o := Union.Rep(entry, rank, bound, q);
        assert old(allRooms.RepOf(q)) == old(allRooms.RepOf(o));
      }
    }

    /** Walls off each remaining dead end. */
    method SealDeadEnds(current: set<Point>)
      requires Shaped() && forall p :: p in current ==> InGrid(p)
      modifies world
      ensures forall x, y :: 0 <= x < width && 0 <= y < height ==>
                world[x, y] == if Point(x, y) in current then Wall else old(world[x, y])
    {
      var rest := current;
      while rest != {}
        invariant rest <= current
        invariant forall x, y :: 0 <= x < width && 0 <= y < height ==>
                    world[x, y] == if Point(x, y) in current - rest then Wall else old(world[x, y])
        decreases |rest|
      {
        var tile :| tile in rest;
        world[tile.x, tile.y] := Wall;
        rest := rest - {tile};
      }
    }

    /** Reconnects the dead ends (`rounds` records the rounds) and, once
        all openings are in one region, walls off the dead ends the last
        round left (`sealed`); nothing is sealed when the rounds ran out.
        The dead-end field itself is only read. */
    method ReconnectDeadEnds(fuel: nat) returns (done: bool, ghost sealed: set<Point>, ghost rounds: seq<Round>,
                                                 ghost last: WeedState)
      requires Valid() && RoomsIntact() && CorridorsClear()
      modifies world, allRooms, this`hallwayFloors
      ensures Valid() && FloorsIntact() && CorridorsClear()
      ensures done <==> AllConnected(hallwayStarts)
      ensures old(RoundsFrom(Weeding(deadEnds), rounds))
      ensures last == old(EndOf(Weeding(deadEnds), rounds))
      ensures hallwayFloors == last.floors && Regions() == last.regions
      ensures sealed == if done then last.dead else {}
      ensures |rounds| <= fuel && (!done ==> |rounds| == fuel)
      ensures sealed <= deadEnds
      ensures forall p :: p in hallwayStarts ==> world[p.x, p.y] == if p in sealed then Wall else Hall
      ensures forall x, y :: 0 <= x < width && 0 <= y < height ==>
                world[x, y] == if Point(x, y) in sealed then Wall else old(world[x, y])
      ensures old(hallwayFloors) <= hallwayFloors
      ensures forall q :: allRooms.RepOf(q) == allRooms.RepOf(old(allRooms.RepOf(q)))
    {
      ghost var first := Weeding(deadEnds);
      var current;
      done, current, rounds := ReconnectRounds(fuel);
      label Rounds:
      sealed := {};
      if done {
        SealDeadEnds(current);
        sealed := current;
      }
      assert old@Rounds(RoundsFrom(first, rounds));
      last := EndOf(first, rounds);
    }

    /** Lays the hallway tile on every planned corridor cell. */
    method CreateHallwayFloors()
      requires Valid()
      modifies world
      ensures forall x, y :: 0 <= x < width && 0 <= y < height ==>
                world[x, y] == if Point(x, y) in hallwayFloors then Hall else old(world[x, y])
    {
      var rest := hallwayFloors;
      while rest != {}
        invariant rest <= hallwayFloors
        invariant forall x, y :: 0 <= x < width && 0 <= y < height ==>
                    world[x, y] == if Point(x, y) in hallwayFloors - rest then Hall else old(world[x, y])
        decreases |rest|
      {
        var tile :| tile in rest;
        world[tile.x, tile.y] := Hall;
        rest := rest - {tile};
      }
    }

    /** Walls in every corridor cell: each empty cell of the 3 x 3 block
        around a corridor cell becomes wall; no other cell changes. */
    method CreateHallwayWalls()
      requires Valid()
      modifies world
      ensures forall x, y :: 0 <= x < width && 0 <= y < height ==>
                world[x, y] == if old(world[x, y]) == Nothing && NearAny(Point(x, y), hallwayFloors) then Wall
                               else old(world[x, y])
    {
      var rest := hallwayFloors;
      while rest != {}
        invariant rest <= hallwayFloors
        invariant forall x, y :: 0 <= x < width && 0 <= y < height ==>
                    world[x, y] == if old(world[x, y]) == Nothing && NearAny(Point(x, y), hallwayFloors - rest) then Wall
                                   else old(world[x, y])
        decreases |rest|
      {
        var tile :| tile in rest;
        WallAround(tile);
        rest := rest - {tile};
      }
    }

    /** Turns each empty cell of the 3 x 3 block around `t` into wall. */
    method WallAround(t: Point)
      requires Shaped() && InteriorCell(t)
      modifies world
      ensures forall x, y :: 0 <= x < width && 0 <= y < height ==>
                world[x, y] == if old(world[x, y]) == Nothing && Near(Point(x, y), t) then Wall else old(world[x, y])
    {
      var x := t.x - 1;
      while x <= t.x + 1
        invariant t.x - 1 <= x <= t.x + 2
        invariant forall i, j :: 0 <= i < width && 0 <= j < height ==>
                    world[i, j] == if old(world[i, j]) == Nothing && Near(Point(i, j), t) && i < x then Wall else old(world[i, j])
      {
        var y := t.y - 1;
        while y <= t.y + 1
          invariant t.y - 1 <= y <= t.y + 2
          invariant forall i, j :: 0 <= i < width && 0 <= j < height ==>
                      world[i, j] == if old(world[i, j]) == Nothing && Near(Point(i, j), t) && (i < x || (i == x && j < y))
                                     then Wall else old(world[i, j])
        {
          if world[x, y] == Nothing {
            world[x, y] := Wall;
          }
          y := y + 1;
        }
        x := x + 1;
      }
    }

    /** The planning half of the corridor phase: one weeding turn per
        opening (`turns`), then reconnection of the dead ends (`rounds`),
        ending in `last`. Openings the last round left dead ends are walled
        off when all openings were joined; every other opening keeps its
        hallway tile. */
    method PlanCorridors(fuel: nat) returns (done: bool, ghost turns: seq<Turn>, ghost rounds: seq<Round>,
                                             ghost last: WeedState)
      requires Valid() && RoomsIntact() && CorridorsClear()
      modifies world, allRooms, this`hallwayFloors, this`deadEnds
      ensures Valid() && FloorsIntact() && CorridorsClear()
      ensures done <==> AllConnected(hallwayStarts)
      ensures old(Pass(hallwayStarts, Weeding(deadEnds), turns))
      ensures deadEnds == old(After(Weeding(deadEnds), turns)).dead
      ensures old(RoundsFrom(After(Weeding(deadEnds), turns), rounds))
      ensures last == old(EndOf(After(Weeding(deadEnds), turns), rounds))
      ensures hallwayFloors == last.floors && Regions() == last.regions
      ensures |rounds| <= fuel && (!done ==> |rounds| == fuel)
      ensures forall p :: p in hallwayStarts ==> world[p.x, p.y] == if done && p in last.dead then Wall else Hall
    {
      ghost var first := Weeding(deadEnds);
      deadEnds, turns := WeedOutPlannedDeadEnds(hallwayStarts, deadEnds);
      ghost var weeded := Weeding(deadEnds);
      assert weeded == After(first, turns);
      label Weeded:
      ghost var sealed;
      done, sealed, rounds, last := ReconnectDeadEnds(fuel);
      assert old@Weeded(Pass(hallwayStarts, first, turns));
      assert old@Weeded(RoundsFrom(weeded, rounds));
    }

    /** The corridor phase: planning (`turns`, `rounds`, ending in `last`),
        then the corridor floors and their walls. When it completes, all
        openings are in one region, room floors are intact, every corridor
        cell holds the hallway tile and is walled in, and an opening is
        walled off exactly when the last round left it a dead end and no
        corridor runs over it. */
    method GenerateHallways(fuel: nat) returns (done: bool, ghost turns: seq<Turn>, ghost rounds: seq<Round>,
                                                ghost last: WeedState)
      requires Valid() && RoomsIntact() && CorridorsClear()
      modifies world, allRooms, this`hallwayFloors, this`deadEnds
      ensures Valid()
      ensures done <==> AllConnected(hallwayStarts)
      ensures old(Pass(hallwayStarts, Weeding(deadEnds), turns))
      ensures deadEnds == old(After(Weeding(deadEnds), turns)).dead
      ensures old(RoundsFrom(After(Weeding(deadEnds), turns), rounds))
      ensures last == old(EndOf(After(Weeding(deadEnds), turns), rounds))
      ensures hallwayFloors == last.floors && Regions() == last.regions
      ensures |rounds| <= fuel && (!done ==> |rounds| == fuel)
      ensures done ==> && FloorsIntact()
                       && (forall p :: p in hallwayFloors ==> world[p.x, p.y] == Hall)
                       && (forall p :: p in hallwayStarts ==> world[p.x, p.y] == Hall || world[p.x, p.y] == Wall)
                       && (forall p :: p in hallwayStarts ==>
                             world[p.x, p.y] == if p in last.dead && p !in hallwayFloors then Wall else Hall)
                       && CorridorsWalled()
    {
      done, turns, rounds, last := PlanCorridors(fuel);
      if done {
        LayCorridors();
      }
    }

    /** Lays the planned corridors: the hallway tile on every corridor
        cell, then walls around them. Room floors stay intact, and an
        opening keeps its wall only when no corridor runs over it. */
    method LayCorridors()
      requires Valid() && FloorsIntact() && CorridorsClear()
      requires forall p :: p in hallwayStarts ==> world[p.x, p.y] == Hall || world[p.x, p.y] == Wall
      modifies world
      ensures FloorsIntact() && CorridorsWalled()
      ensures forall p :: p in hallwayFloors ==> world[p.x, p.y] == Hall
      ensures forall p :: p in hallwayStarts ==>
                world[p.x, p.y] == if old(world[p.x, p.y]) == Wall && p !in hallwayFloors then Wall else Hall
    {
      CreateHallwayFloors();
      CreateHallwayWalls();
    }

    /** Builds a whole world on a fresh generator: every cell empty, then
        the rooms, then the corridors. */
    method InitializeWorld(fuel: nat) returns (outcome: Outcome, ghost record: seq<RoomTry>)
      requires Valid() && allRoomFloors == [] && hallwayStarts == {} && hallwayFloors == {} && deadEnds == {}
      modifies world, allRooms, random, this`allRoomFloors, this`hallwayStarts, this`hallwayFloors, this`deadEnds
      ensures Valid()
      ensures AttemptsBounded(record) && SitesDrawn(random.source, record) && Separated(record)
      ensures allRoomFloors == FloorsOf(record)
      ensures OpenableUpTo(record, |record| - 1)
      ensures outcome == NoOpeningCandidate <==> |record| > 0 && !Openable(record[|record| - 1])
      ensures outcome != NoOpeningCandidate ==> |record| == MIN_ROOMS + random.source(old(random.drawn)) % 9
      ensures outcome != NoOpeningCandidate ==> (outcome == Generated <==> AllConnected(hallwayStarts))
      ensures outcome == Generated ==>
                && FloorsIntact()
                && (forall p :: p in hallwayFloors ==> world[p.x, p.y] == Hall)
                && (forall p :: p in hallwayStarts ==> world[p.x, p.y] == Hall || world[p.x, p.y] == Wall)
                && CorridorsWalled()
    {
      FillWorldWithNothing();
      var ok, rooms;
      ok, rooms, record := GenerateRooms();
      assert allRoomFloors == FloorsOf(record);
      if !ok {
        return NoOpeningCandidate, record;
      }
      var done;
      ghost var turns, rounds, last;
      done, turns, rounds, last := GenerateHallways(fuel);
      if !done {
        return OutOfFuel, record;
      }
      return Generated, record;
    }

    /** Whether `list[i]` is in one region with every later entry of `list`. */
    method ConnectedToLater(list: seq<Point>, i: int) returns (joined: bool)
      requires allRooms.Valid() && 0 <= i < |list|
      modifies allRooms
      ensures allRooms.Valid()
      ensures forall q :: allRooms.RepOf(q) == old(allRooms.RepOf(q))
      ensures joined <==> forall b :: i < b < |list| ==> allRooms.RepOf(list[i]) == allRooms.RepOf(list[b])
    {
      var j := i + 1;
      while j < |list|
        invariant i + 1 <= j <= |list|
        invariant allRooms.Valid()
        invariant forall q :: allRooms.RepOf(q) == old(allRooms.RepOf(q))
        invariant forall b :: i < b < j ==> allRooms.RepOf(list[i]) == allRooms.RepOf(list[b])
      {
        var c := allRooms.Connected(list[i], list[j]);
        if !c {
          return false;
        }
        j := j + 1;
      }
      return true;
    }

    /** Pairwise connection of a list's entries connects every pair of the
        set it lists. */
    lemma PairsConnectAll(list: seq<Point>, s: set<Point>)
      requires allRooms.Valid()
      requires forall p :: p in list <==> p in s
      requires forall a, b :: 0 <= a < b < |list| ==> allRooms.RepOf(list[a]) == allRooms.RepOf(list[b])
      ensures AllConnected(s)
    {
      forall p, q | p in s && q in s ensures allRooms.RepOf(p) == allRooms.RepOf(q) {
        var a :| 0 <= a < |list| && list[a] == p;
        var b :| 0 <= b < |list| && list[b] == q;
        if b < a {
          assert allRooms.RepOf(list[b]) == allRooms.RepOf(list[a]);
        }
      }
    }
  }

  /** `p` lies in the 3 x 3 block around some cell of `cells`. */
  ghost predicate NearAny(p: Point, cells: set<Point>)
  {
    exists t :: t in cells && Near(p, t)
  }

  /** The elements of a set as a list without repeats, in any order. */
  method ListOf(s: set<Point>) returns (list: seq<Point>)
    ensures forall p :: p in list <==> p in s
    ensures |list| == |s|
  {
    list := [];
    var rest := s;
    while rest != {}
      invariant rest <= s
      invariant forall p :: p in list <==> p in s - rest
      invariant |list| == |s - rest|
      decreases |rest|
    {
      var p :| p in rest;
      assert s - (rest - {p}) == (s - rest) + {p};
      list := list + [p];
      rest := rest - {p};
    }
  }

  /** `q` is a neighbour of `curr` one step nearer `target` (in Manhattan
      distance). */
  predicate Approaches(q: Point, curr: Point, target: Point)
  {
    || (q == Point(curr.x + 1, curr.y) && curr.x < target.x)
    || (q == Point(curr.x - 1, curr.y) && curr.x > target.x)
    || (q == Point(curr.x, curr.y + 1) && curr.y < target.y)
    || (q == Point(curr.x, curr.y - 1) && curr.y > target.y)
  }

  /** `q` is a step from `curr` across the remaining direction: vertical
      while the x coordinates still differ, horizontal once they agree. */
  predicate Sideways(q: Point, curr: Point, target: Point)
  {
    Adjacent4(q, curr) && (if curr.x != target.x then q.x == curr.x else q.y == curr.y)
  }

  /** The corridor planner's direct step, given the cells `open` to
      corridors: the first of the +x, -x, +y, -y neighbours of `curr` that
      approaches the target, is open and is not yet planned. */
  function Towards(open: set<Point>, curr: Point, target: Point, plan: set<Point>): (r: Option<Point>)
    ensures r.Some? ==> Approaches(r.value, curr, target) && r.value in open && r.value !in plan
    ensures r.None? <==> forall q :: Approaches(q, curr, target) ==> q !in open || q in plan
  {
    if curr.x < target.x && Point(curr.x + 1, curr.y) in open && Point(curr.x + 1, curr.y) !in plan then
      Some(Point(curr.x + 1, curr.y))
    else if curr.x > target.x && Point(curr.x - 1, curr.y) in open && Point(curr.x - 1, curr.y) !in plan then
      Some(Point(curr.x - 1, curr.y))
    else if curr.y < target.y && Point(curr.x, curr.y + 1) in open && Point(curr.x, curr.y + 1) !in plan then
      Some(Point(curr.x, curr.y + 1))
    else if curr.y > target.y && Point(curr.x, curr.y - 1) in open && Point(curr.x, curr.y - 1) !in plan then
      Some(Point(curr.x, curr.y - 1))
    else
      None
  }

  /** The sideways step taken when no direct step is open: vertical while
      the x coordinates differ, horizontal once they agree, +1 before -1;
      none at the target. */
  function TurnOrAdvance(open: set<Point>, curr: Point, target: Point, plan: set<Point>): (r: Option<Point>)
    ensures r.Some? ==> Sideways(r.value, curr, target) && r.value in open && r.value !in plan
    ensures r.None? <==> curr == target || forall q :: Sideways(q, curr, target) ==> q !in open || q in plan
  {
    if curr.x != target.x then
      if Point(curr.x, curr.y + 1) in open && Point(curr.x, curr.y + 1) !in plan then Some(Point(curr.x, curr.y + 1))
      else if Point(curr.x, curr.y - 1) in open && Point(curr.x, curr.y - 1) !in plan then Some(Point(curr.x, curr.y - 1))
      else None
    else if curr.y != target.y then
      if Point(curr.x + 1, curr.y) in open && Point(curr.x + 1, curr.y) !in plan then Some(Point(curr.x + 1, curr.y))
      else if Point(curr.x - 1, curr.y) in open && Point(curr.x - 1, curr.y) !in plan then Some(Point(curr.x - 1, curr.y))
      else None
    else None
  }

  /** The walk standing at `curr` ends here: it has reached the target, or
      no open cell outside `plan` is left among the steps towards the target
      and the sideways steps. */
  predicate StuckIn(open: set<Point>, curr: Point, target: Point, plan: set<Point>)
  {
    curr == target ||
    forall q :: Approaches(q, curr, target) || Sideways(q, curr, target) ==> q !in open || q in plan
  }

  /** The planner's stepping rule: the direct step when one is open, else
      the sideways step. A step goes to an open, unplanned 4-neighbour; a
      sideways step is taken only when no direct step is open; and away from
      the target there is no step exactly when the walk is stuck. */
  function Step(open: set<Point>, curr: Point, target: Point, plan: set<Point>): (r: Option<Point>)
    ensures r.Some? ==> Adjacent4(curr, r.value) && r.value in open && r.value !in plan
    ensures r.Some? && !Approaches(r.value, curr, target) ==>
              forall q :: Approaches(q, curr, target) ==> q !in open || q in plan
    ensures curr != target ==> (r.None? <==> StuckIn(open, curr, target, plan))
  {
    var a := Towards(open, curr, target, plan);
    if a.Some? then a else TurnOrAdvance(open, curr, target, plan)
  }

  /** The planner's walk once it has taken `path` from `start`: further
      steps as `Step` picks them from where the walk stands, given the cells
      planned so far, until it stands on the target or no step is left. */
  function Walk(open: set<Point>, start: Point, target: Point, path: seq<Point>): seq<Point>
    decreases |open - SetOf(path)|
  {
    var curr := Last(start, path);
    if curr == target then path
    else match Step(open, curr, target, SetOf(path))
      case None => path
      case Some(x) =>
        Shrink(open, SetOf(path), x);
        assert SetOf(path + [x]) == SetOf(path) + {x};
        Walk(open, start, target, path + [x])
  }

  /** Where a step is open, the walk takes it. */
  lemma WalkAdvances(open: set<Point>, start: Point, target: Point, path: seq<Point>)
    requires Last(start, path) != target && Step(open, Last(start, path), target, SetOf(path)).Some?
    ensures var x := Step(open, Last(start, path), target, SetOf(path)).value;
            Walk(open, start, target, path) == Walk(open, start, target, path + [x])
  {
  }

  /** At the target, or where no step is open, the walk ends. */
  lemma WalkStops(open: set<Point>, start: Point, target: Point, path: seq<Point>)
    requires Last(start, path) == target || Step(open, Last(start, path), target, SetOf(path)).None?
    ensures Walk(open, start, target, path) == path
  {
  }

  /** Continuing a trail of open cells, the walk stays a trail of open
      cells, extends `path`, and ends at the target or where it is stuck. */
  lemma {:induction false} WalkKeeps(open: set<Point>, start: Point, target: Point, path: seq<Point>)
    requires Trail(start, path, SetOf(path)) && SetOf(path) <= open
    ensures var w := Walk(open, start, target, path);
            && path <= w
            && Trail(start, w, SetOf(w)) && SetOf(w) <= open
            && StuckIn(open, Last(start, w), target, SetOf(w))
    decreases |open - SetOf(path)|
  {
    var curr := Last(start, path);
    if curr != target {
      match Step(open, curr, target, SetOf(path))
      case None =>
      case Some(x) =>
        Shrink(open, SetOf(path), x);
        assert SetOf(path + [x]) == SetOf(path) + {x};
        ExtendTrail(start, path, SetOf(path), x);
        WalkKeeps(open, start, target, path + [x]);
    }
  }

  /** The cells of a sequence, as a set. */
  function SetOf(s: seq<Point>): set<Point>
  {
    set q | q in s
  }

  /** Where a walk from `start` along `path` stands. */
  function Last(start: Point, path: seq<Point>): Point
  {
    if |path| == 0 then start else path[|path| - 1]
  }

  /** Each cell of `path` is a 4-neighbour of the one before it, the first
      one of `start`. */
  ghost predicate WalkFrom(start: Point, path: seq<Point>)
    decreases |path|
  {
    |path| == 0 ||
    (WalkFrom(start, path[..|path| - 1]) && Adjacent4(Last(start, path[..|path| - 1]), path[|path| - 1]))
  }

  /** `plan` holds exactly the cells of the walk `path` from `start`, one
      per step. */
  ghost predicate Trail(start: Point, path: seq<Point>, plan: set<Point>)
  {
    && (forall p :: p in plan <==> p in path)
    && |plan| == |path|
    && WalkFrom(start, path)
  }

  /** A step to a new neighbour of the walk's end extends the trail. */
  lemma ExtendTrail(start: Point, path: seq<Point>, plan: set<Point>, x: Point)
    requires Trail(start, path, plan) && Adjacent4(Last(start, path), x) && x !in plan
    ensures Trail(start, path + [x], plan + {x})
  {
    assert (path + [x])[..|path|] == path;
  }

  /** Unfolded, a walk is a chain of 4-neighbours starting next to `start`. */
  lemma {:induction false} WalkSteps(start: Point, path: seq<Point>)
    requires WalkFrom(start, path)
    ensures |path| > 0 ==> Adjacent4(start, path[0])
    ensures forall i :: 0 < i < |path| ==> Adjacent4(path[i - 1], path[i])
    decreases |path|
  {
    if |path| > 0 {
      var prefix := path[..|path| - 1];
      WalkSteps(start, prefix);
      assert forall i :: 0 <= i < |prefix| ==> path[i] == prefix[i];
    }
  }

  /** A set holding exactly the cells of a sequence has at most as many
      elements, and exactly as many only when the sequence repeats no cell. */
  lemma {:induction false} CountedCellsDistinct(s: seq<Point>, t: set<Point>)
    requires forall p :: p in t <==> p in s
    ensures |t| <= |s|
    ensures |t| == |s| ==> forall i, j :: 0 <= i < j < |s| ==> s[i] != s[j]
  {
    if |s| > 0 {
      var s', x := s[..|s| - 1], s[|s| - 1];
      assert s == s' + [x];
      var t' := if x in s' then t else t - {x};
      CountedCellsDistinct(s', t');
      if |t| == |s| {
        assert x !in s';
        forall i, j | 0 <= i < j < |s| ensures s[i] != s[j] {
          if j == |s| - 1 {
            assert s[i] in s';
          } else {
            assert s[i] == s'[i] && s[j] == s'[j];
          }
        }
      }
    }
  }

  /** Membership in a list prefix one longer. */
  lemma PrefixStep(s: seq<Point>, i: int)
    requires 0 <= i < |s|
    ensures forall p :: p in s[..i + 1] <==> p in s[..i] || p == s[i]
  {
    assert s[..i + 1] == s[..i] + [s[i]];
  }

  /** The cells of `keep` in column `x` from row `lo` up to, not including,
      row `end`, bottom to top. */
  function ColumnScan(keep: set<Point>, x: int, lo: int, end: int): seq<Point>
    decreases end - lo
  {
    if end <= lo then [] else ColumnScan(keep, x, lo, end - 1) + (if Point(x, end - 1) in keep then [Point(x, end - 1)] else [])
  }

  /** A column scan one row longer appends that row's cell when it is kept. */
  lemma ColumnScanNext(keep: set<Point>, x: int, lo: int, end: int)
    requires lo <= end
    ensures ColumnScan(keep, x, lo, end + 1) == ColumnScan(keep, x, lo, end) + (if Point(x, end) in keep then [Point(x, end)] else [])
  {
  }

  /** A column scan lists exactly the column's cells of `keep`, strictly
      upwards. */
  lemma {:induction false} ColumnScanLists(keep: set<Point>, x: int, lo: int, end: int)
    ensures var r := ColumnScan(keep, x, lo, end);
            && (forall p :: p in r <==> p in keep && p.x == x && lo <= p.y < end)
            && forall i, j :: 0 <= i < j < |r| ==> r[i].x == x && r[i].y < r[j].y
    decreases end - lo
  {
    if lo < end {
      ColumnScanLists(keep, x, lo, end - 1);
    }
  }

  /** The cells of `keep` in the box of columns `lo` up to `end` and rows
      `bottom` up to `top` (the upper bounds excluded), column by column
      from the left, each column bottom to top: the order in which a room's
      ring is scanned. */
  function Scan(keep: set<Point>, lo: int, end: int, bottom: int, top: int): seq<Point>
    decreases end - lo
  {
    if end <= lo then [] else Scan(keep, lo, end - 1, bottom, top) + ColumnScan(keep, end - 1, bottom, top)
  }

  /** A scan one column wider appends that column's scan. */
  lemma ScanNext(keep: set<Point>, lo: int, end: int, bottom: int, top: int)
    requires lo <= end
    ensures Scan(keep, lo, end + 1, bottom, top) == Scan(keep, lo, end, bottom, top) + ColumnScan(keep, end, bottom, top)
  {
  }

  /** A scan lists exactly the box's cells of `keep`, column by column
      from the left and each column upwards, so every cell once. */
  lemma {:induction false} ScanLists(keep: set<Point>, lo: int, end: int, bottom: int, top: int)
    ensures var r := Scan(keep, lo, end, bottom, top);
            && (forall p :: p in r <==> p in keep && lo <= p.x < end && bottom <= p.y < top)
            && forall i, j :: 0 <= i < j < |r| ==> r[i].x < r[j].x || (r[i].x == r[j].x && r[i].y < r[j].y)
    decreases end - lo
  {
    if lo < end {
      ScanLists(keep, lo, end - 1, bottom, top);
      ColumnScanLists(keep, end - 1, bottom, top);
    }
  }

  /** The openings a room's candidate list yields; none without a candidate. */
  function RoomOpenings(source: nat -> nat, start: nat, tiles: seq<Point>): seq<Point>
  {
    if |tiles| == 0 then [] else Openings(source, start, tiles)
  }

  /** The draws a room's opening search consumes; none without a candidate. */
  function RoomDraws(source: nat -> nat, start: nat, tiles: seq<Point>): nat
  {
    if |tiles| == 0 then 0 else OpeningDraws(source, start, tiles)
  }

  /** `e` differs from, and lies at a good distance from, every opening in
      `others`. */
  predicate FarFromAll(e: Point, others: seq<Point>)
  {
    forall i :: 0 <= i < |others| ==> others[i] != e && IsGoodDist(others[i], e)
  }

  /** The candidate picked by draw number `start + j`. */
  function Pick(source: nat -> nat, start: nat, j: int, tiles: seq<Point>): (p: Point)
    requires |tiles| > 0 && j >= 0
    ensures p in tiles
  {
    tiles[source(start + j) % |tiles|]
  }

  /** Of the draws `j`, `j + 1`, .. below 40, the first whose candidate is
      far enough from every opening in `others`, or none. */
  function FirstFar(source: nat -> nat, start: nat, tiles: seq<Point>, others: seq<Point>, j: nat): (r: Option<nat>)
    requires |tiles| > 0 && j <= MAX_FAILED_ATTEMPTS
    ensures r.Some? ==> j <= r.value < MAX_FAILED_ATTEMPTS && FarFromAll(Pick(source, start, r.value, tiles), others)
    decreases MAX_FAILED_ATTEMPTS - j
  {
    if j == MAX_FAILED_ATTEMPTS then None
    else if FarFromAll(Pick(source, start, j, tiles), others) then Some(j)
    else FirstFar(source, start, tiles, others, j + 1)
  }

  /** A draw whose candidate fails passes the search on to the next draw. */
  lemma FirstFarSkips(source: nat -> nat, start: nat, tiles: seq<Point>, others: seq<Point>, j: nat)
    requires |tiles| > 0 && j < MAX_FAILED_ATTEMPTS
    requires !FarFromAll(Pick(source, start, j, tiles), others)
    ensures FirstFar(source, start, tiles, others, j) == FirstFar(source, start, tiles, others, j + 1)
  {
  }

  /** The search finds the FIRST passing draw: every draw it skips fails,
      and when it finds none, every draw up to the 40th fails. */
  lemma {:induction false} FirstFarIsFirst(source: nat -> nat, start: nat, tiles: seq<Point>, others: seq<Point>, j: nat)
    requires |tiles| > 0 && j <= MAX_FAILED_ATTEMPTS
    ensures var r := FirstFar(source, start, tiles, others, j);
            && (r.Some? ==> forall k :: j <= k < r.value ==> !FarFromAll(Pick(source, start, k, tiles), others))
            && (r.None? ==> forall k :: j <= k < MAX_FAILED_ATTEMPTS ==> !FarFromAll(Pick(source, start, k, tiles), others))
    decreases MAX_FAILED_ATTEMPTS - j
  {
    if j < MAX_FAILED_ATTEMPTS && !FarFromAll(Pick(source, start, j, tiles), others) {
      FirstFarIsFirst(source, start, tiles, others, j + 1);
    }
  }

  /** How many draws a search for a far-enough candidate consumes. */
  function DrawsUsed(r: Option<nat>): nat
  {
    if r.Some? then r.value + 1 else MAX_FAILED_ATTEMPTS
  }

  /** The search for a room's second opening: the draws after the first,
      compared with the first opening. */
  function SecondSearch(source: nat -> nat, start: nat, tiles: seq<Point>): Option<nat>
    requires |tiles| > 0
  {
    FirstFar(source, start + 1, tiles, [Pick(source, start, 0, tiles)], 0)
  }

  /** The openings a room has after the search for the second one. */
  function FirstTwo(source: nat -> nat, start: nat, tiles: seq<Point>): seq<Point>
    requires |tiles| > 0
  {
    var second := SecondSearch(source, start, tiles);
    if second.Some? then [Pick(source, start, 0, tiles), Pick(source, start + 1, second.value, tiles)]
    else [Pick(source, start, 0, tiles)]
  }

  /** The draw the search for the third opening starts at. */
  function ThirdStart(source: nat -> nat, start: nat, tiles: seq<Point>): nat
    requires |tiles| > 0
  {
    start + 1 + DrawsUsed(SecondSearch(source, start, tiles))
  }

  /** The search for a room's third opening, compared with the openings so far. */
  function ThirdSearch(source: nat -> nat, start: nat, tiles: seq<Point>): Option<nat>
    requires |tiles| > 0
  {
    FirstFar(source, ThirdStart(source, start, tiles), tiles, FirstTwo(source, start, tiles), 0)
  }

  /** The openings a room gets from the draws starting at number `start`:
      the first draw, then the first of the next 40 draws far enough from
      it, then the first of the following 40 far enough from both. */
  function Openings(source: nat -> nat, start: nat, tiles: seq<Point>): seq<Point>
    requires |tiles| > 0
  {
    var third := ThirdSearch(source, start, tiles);
    if third.Some? then FirstTwo(source, start, tiles) + [Pick(source, ThirdStart(source, start, tiles), third.value, tiles)]
    else FirstTwo(source, start, tiles)
  }

  /** The number of draws `Openings` consumes. */
  function OpeningDraws(source: nat -> nat, start: nat, tiles: seq<Point>): nat
    requires |tiles| > 0
  {
    ThirdStart(source, start, tiles) - start + DrawsUsed(ThirdSearch(source, start, tiles))
  }

  /** The step-by-step account of one room's opening draws adds up to
      `Openings` and `OpeningDraws`. */
  lemma OpeningsUnfold(source: nat -> nat, start: nat, tiles: seq<Point>, r2: Option<nat>, two: seq<Point>,
                       next: nat, r3: Option<nat>, starts: seq<Point>, drawn: nat)
    requires |tiles| > 0
    requires r2 == FirstFar(source, start + 1, tiles, [Pick(source, start, 0, tiles)], 0)
    requires two == if r2.Some? then [Pick(source, start, 0, tiles), Pick(source, start + 1, r2.value, tiles)]
                    else [Pick(source, start, 0, tiles)]
    requires next == start + 1 + DrawsUsed(r2)
    requires r3 == FirstFar(source, next, tiles, two, 0)
    requires starts == if r3.Some? then two + [Pick(source, next, r3.value, tiles)] else two
    requires drawn == next + DrawsUsed(r3)
    ensures starts == Openings(source, start, tiles)
    ensures drawn == start + OpeningDraws(source, start, tiles)
  {
    assert r2 == SecondSearch(source, start, tiles);
    assert two == FirstTwo(source, start, tiles);
    assert next == ThirdStart(source, start, tiles);
    assert r3 == ThirdSearch(source, start, tiles);
  }

  /** A room gets one to three openings, the first from the first draw,
      each one of the candidates, and any two of them distinct and at a
      good distance from each other. */
  lemma OpeningsSpread(source: nat -> nat, start: nat, tiles: seq<Point>, starts: seq<Point>)
    requires |tiles| > 0 && starts == Openings(source, start, tiles)
    ensures && 1 <= |starts| <= 3
            && starts[0] == Pick(source, start, 0, tiles)
            && (forall i :: 0 <= i < |starts| ==> starts[i] in tiles)
            && forall i, j :: 0 <= i < j < |starts| ==> starts[i] != starts[j] && IsGoodDist(starts[i], starts[j])
  {
    var two := FirstTwo(source, start, tiles);
    var third := ThirdSearch(source, start, tiles);
    assert forall i, j :: 0 <= i < j < |two| ==> two[i] != two[j] && IsGoodDist(two[i], two[j]);
    if third.Some? {
      var p := Pick(source, ThirdStart(source, start, tiles), third.value, tiles);
      assert FarFromAll(p, two);
      assert Openings(source, start, tiles) == two + [p];
    }
  }
}
