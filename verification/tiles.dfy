/** The dungeon grid: tile kinds, coordinates, the fixed 25 x 18 level and
    the four movement directions (GameEngine.TileType and java.awt.Point). */
module Tiles {
  import opened Util

  datatype Tile = Wall | Floor | Stairs | WoodenChest | SapphireChest | RubyChest {
    predicate IsChest() {
      WoodenChest? || SapphireChest? || RubyChest?
    }
  }

  const Width: nat := 25
  const Height: nat := 18
  const MaxMonsters: nat := 40

  /** A grid coordinate; x grows to the right, y grows downwards. */
  datatype Point = Point(x: int, y: int)

  /** A level, indexed `g[x][y]` like the Java `tiles[x][y]` array. */
  type Grid = g: seq<seq<Tile>> | |g| == Width && forall x :: 0 <= x < |g| ==> |g[x]| == Height
    witness seq(Width, _ => seq(Height, _ => Wall))

  predicate InBounds(p: Point) {
    0 <= p.x < Width && 0 <= p.y < Height
  }

  predicate OnBorder(p: Point) {
    InBounds(p) && (p.x == 0 || p.x == Width - 1 || p.y == 0 || p.y == Height - 1)
  }

  /** Cells whose four orthogonal neighbours are all inside the grid. */
  predicate Interior(p: Point) {
    0 < p.x < Width - 1 && 0 < p.y < Height - 1
  }

  function TileAt(g: Grid, p: Point): Tile
    requires InBounds(p)
  {
    g[p.x][p.y]
  }

  /** The grid with one cell replaced; every other cell keeps its tile. */
  function SetTile(g: Grid, p: Point, t: Tile): (r: Grid)
    requires InBounds(p)
    ensures TileAt(r, p) == t
    ensures forall q :: InBounds(q) && q != p ==> TileAt(r, q) == TileAt(g, q)
  {
    g[p.x := g[p.x][p.y := t]]
  }

  /** The level's outer ring is wall. */
  ghost predicate BorderIsWall(g: Grid) {
    forall p :: OnBorder(p) ==> TileAt(g, p) == Wall
  }

  /** Walls sit exactly where they sat before (only non-wall tiles changed). */
  ghost predicate SameWalls(g: Grid, h: Grid) {
    forall p :: InBounds(p) ==> (TileAt(g, p) == Wall <==> TileAt(h, p) == Wall)
  }

  /** On a walled level, every cell that is not a wall is interior, so all its
      neighbours can be looked up. */
  lemma NonWallIsInterior(g: Grid, p: Point)
    requires BorderIsWall(g) && InBounds(p) && TileAt(g, p) != Wall
    ensures Interior(p)
  {
  }

  datatype Direction = Left | Right | Up | Down

  /** The cell one step from `p` in direction `d`. */
  function Step(p: Point, d: Direction): (q: Point)
    ensures Manhattan(p, q) == 1
    ensures Interior(p) ==> InBounds(q)
  {
    match d
    case Left => Point(p.x - 1, p.y)
    case Right => Point(p.x + 1, p.y)
    case Up => Point(p.x, p.y - 1)
    case Down => Point(p.x, p.y + 1)
  }

  /** The cell next to `p` in direction `d` exists and is not a wall. */
  predicate CanStep(g: Grid, p: Point, d: Direction) {
    InBounds(Step(p, d)) && TileAt(g, Step(p, d)) != Wall
  }

  function Manhattan(a: Point, b: Point): nat {
    Abs(a.x - b.x) + Abs(a.y - b.y)
  }

  /** `q` is `p` or one of its four orthogonal neighbours. */
  predicate WithinOneStep(p: Point, q: Point) {
    Manhattan(p, q) <= 1
  }
}
