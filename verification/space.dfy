/**
 The fixed battlefield dimensions, integer tile coordinates, world-space
 vectors, and the static coordinate helpers of the map system: the affine
 maps between tile space and world space and the squared tile distance.
 */
module Space {

  /** Grid width and height. Both are odd, so the centre is an exact tile. */
  const SizeX: int := 9
  const SizeY: int := 15

  /** A tile of the grid (the C# tuple `(int x, int y)`). */
  datatype Coord = Coord(x: int, y: int)

  /** A world-space position (the engine's `Vector3`), exact over the reals. */
  datatype Vec3 = Vec3(x: real, y: real, z: real)

  predicate InBounds(c: Coord) {
    0 <= c.x < SizeX && 0 <= c.y < SizeY
  }

  function Sq(n: int): int {
    n * n
  }

  /**
   Rounding to the nearest integer with halves going to the even neighbour,
   which is what the engine's `RoundToInt` does.
   */
  function RoundToInt(v: real): (r: int)
    ensures r as real - 0.5 <= v <= r as real + 0.5
    ensures (v == r as real - 0.5 || v == r as real + 0.5) ==> r % 2 == 0
  {
    var f := v.Floor;
    var frac := v - f as real;
    if frac < 0.5 then f
    else if frac > 0.5 then f + 1
    else if f % 2 == 0 then f
    else f + 1
  }

  /** A point strictly closer than one half to an integer rounds to that integer. */
  lemma RoundToNearest(v: real, k: int)
    requires k as real - 0.5 < v < k as real + 0.5
    ensures RoundToInt(v) == k
  {
  }

  /** World position to the tile that contains it; world height is ignored. */
  function WorldToTileSpace(w: Vec3): Coord {
    Coord(RoundToInt(w.x) + (SizeX - 1) / 2, RoundToInt(w.z) + (SizeY - 1) / 2)
  }

  /** Centre of a tile in world space, lifted to height `worldY`. */
  function TileToWorldSpace(t: Coord, worldY: real): Vec3 {
    Vec3(t.x as real - (SizeX - 1) as real / 2.0, worldY, t.y as real - (SizeY - 1) as real / 2.0)
  }

  /**
   Because both sizes are odd, every tile centre lies on integer world
   coordinates, and mapping it back yields the same tile.
   */
  lemma TileWorldRoundTrip(t: Coord, worldY: real)
    ensures WorldToTileSpace(TileToWorldSpace(t, worldY)) == t
  {
    var w := TileToWorldSpace(t, worldY);
    assert w.x == (t.x - (SizeX - 1) / 2) as real;
    assert w.z == (t.y - (SizeY - 1) / 2) as real;
    RoundToNearest(w.x, t.x - (SizeX - 1) / 2);
    RoundToNearest(w.z, t.y - (SizeY - 1) / 2);
  }

  /**
   Every world point closer than half a tile (in x and in z) to a tile's
   centre is mapped to that tile.
   */
  lemma WorldToTileSnaps(w: Vec3, t: Coord, worldY: real)
    requires -0.5 < w.x - TileToWorldSpace(t, worldY).x < 0.5
    requires -0.5 < w.z - TileToWorldSpace(t, worldY).z < 0.5
    ensures WorldToTileSpace(w) == t
  {
    RoundToNearest(w.x, t.x - (SizeX - 1) / 2);
    RoundToNearest(w.z, t.y - (SizeY - 1) / 2);
  }

  function DistanceSquared(a: Coord, b: Coord): (d: int)
    ensures d >= 0
    ensures d == 0 <==> a == b
  {
    SquareSign(a.x - b.x);
    SquareSign(a.y - b.y);
    Sq(a.x - b.x) + Sq(a.y - b.y)
  }

  lemma SquareSign(n: int)
    ensures Sq(n) >= 0
    ensures Sq(n) == 0 <==> n == 0
  {
    if n < 0 {
      assert Sq(n) == Sq(-n);
    }
    if n != 0 {
      var m := if n < 0 then -n else n;
      assert Sq(m) >= m;
    }
  }

  lemma DistanceSquaredSymmetric(a: Coord, b: Coord)
    ensures DistanceSquared(a, b) == DistanceSquared(b, a)
  {
    assert Sq(a.x - b.x) == Sq(b.x - a.x);
    assert Sq(a.y - b.y) == Sq(b.y - a.y);
  }
}
