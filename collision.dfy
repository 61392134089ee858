/** check_collision's result: a LEFT | RIGHT | BOTTOM bitmask over the cells of
    the falling block that lie inside the window at the anchor. */
module Collision {
  import opened Board

  /** enum Collisions. */
  const CollisionNone: bv32 := 0x00
  const CollisionLeft: bv32 := 0x01
  const CollisionRight: bv32 := 0x02
  const CollisionBottom: bv32 := 0x04

  datatype Side = Left | Right | Bottom

  function SideBit(s: Side): bv32 {
    match s
    case Left => CollisionLeft
    case Right => CollisionRight
    case Bottom => CollisionBottom
  }

  /** Whether flag s is set in the mask c (collision_state & FLAG). */
  predicate Has(c: bv32, s: Side) {
    c & SideBit(s) != 0
  }

  /** A cell check_collision inspects: a P cell inside both the window and the display. */
  ghost predicate IsPieceCell(g: Grid, pi: int, pj: int, i: int, j: int)
    requires WellFormed(g)
  {
    InGrid(i, j) && InWindow(pi, pj, i, j) && g[i][j] == Player
  }

  /** Whether the P cell at (i, j) is stopped on side s: by the floor or a wall,
      or by a frozen cell next to it. */
  ghost predicate Touches(g: Grid, s: Side, i: int, j: int)
    requires WellFormed(g) && InGrid(i, j)
  {
    match s
    case Bottom => i == Rows - 1 || g[i + 1][j] == On
    case Right => j == Cols - 1 || g[i][j + 1] == On
    case Left => j == 0 || g[i][j - 1] == On
  }

  /** Flag s is due: some inspected P cell is stopped on side s. */
  ghost predicate Hits(g: Grid, pi: int, pj: int, s: Side)
    requires WellFormed(g)
  {
    exists i, j :: IsPieceCell(g, pi, pj, i, j) && Touches(g, s, i, j)
  }

  /** The bitmask holding exactly the given flags. */
  function Mask(left: bool, right: bool, bottom: bool): (c: bv32)
    ensures Has(c, Left) == left && Has(c, Right) == right && Has(c, Bottom) == bottom
    ensures c & !(CollisionLeft | CollisionRight | CollisionBottom) == 0
  {
    (if left then CollisionLeft else CollisionNone)
    | (if right then CollisionRight else CollisionNone)
    | (if bottom then CollisionBottom else CollisionNone)
  }

  /** OR-ing a flag into a mask sets that flag and keeps the others. */
  lemma MaskSet()
    ensures forall l, r, b :: Mask(l, r, b) | CollisionLeft == Mask(true, r, b) &&
                              Mask(l, r, b) | CollisionRight == Mask(l, true, b) &&
                              Mask(l, r, b) | CollisionBottom == Mask(l, r, true)
  {
  }

  /** The rotation test of event_manager, collision_state & (LEFT | RIGHT),
      is the absence of both flags. */
  lemma RotationGate(c: bv32)
    ensures c & (CollisionLeft | CollisionRight) == 0 <==> !Has(c, Left) && !Has(c, Right)
  {
    assert Has(c, Left) == (c & CollisionLeft != 0);
    assert Has(c, Right) == (c & CollisionRight != 0);
    GateBits(c);
  }

  lemma GateBits(c: bv32)
    ensures c & (CollisionLeft | CollisionRight) == 0 <==> c & CollisionLeft == 0 && c & CollisionRight == 0
  {
  }

  /** What check_collision returns for the display g and the anchor (pi, pj). */
  ghost function CollisionOf(g: Grid, pi: int, pj: int): (c: bv32)
    requires WellFormed(g)
    ensures Has(c, Left) == Hits(g, pi, pj, Left) && Has(c, Right) == Hits(g, pi, pj, Right)
    ensures Has(c, Bottom) == Hits(g, pi, pj, Bottom)
    ensures c & !(CollisionLeft | CollisionRight | CollisionBottom) == 0
  {
    Mask(Hits(g, pi, pj, Left), Hits(g, pi, pj, Right), Hits(g, pi, pj, Bottom))
  }

  /** check_game_over (main.c:203-205): the block is still at the top row and
      cannot fall. */
  predicate IsGameOver(pi: int, c: bv32) {
    pi == 0 && Has(c, Bottom)
  }

  /** The flags a P cell in the window triggers, restricted to the cells check_collision
      has visited in row-major order before (ri, rj). Used by its loop invariant. */
  ghost predicate HitsBefore(g: Grid, pi: int, pj: int, s: Side, ri: int, rj: int)
    requires WellFormed(g)
  {
    exists i, j :: IsPieceCell(g, pi, pj, i, j) && (i < ri || (i == ri && j < rj)) && Touches(g, s, i, j)
  }

  ghost function MaskBefore(g: Grid, pi: int, pj: int, ri: int, rj: int): bv32
    requires WellFormed(g)
  {
    Mask(HitsBefore(g, pi, pj, Left, ri, rj), HitsBefore(g, pi, pj, Right, ri, rj),
         HitsBefore(g, pi, pj, Bottom, ri, rj))
  }

  /** Visiting cell (ri, rj) adds to the flags exactly what that cell triggers. */
  lemma HitsBeforeStep(g: Grid, pi: int, pj: int, s: Side, ri: int, rj: int)
    requires WellFormed(g)
    ensures HitsBefore(g, pi, pj, s, ri, rj + 1) ==
            (HitsBefore(g, pi, pj, s, ri, rj) || (IsPieceCell(g, pi, pj, ri, rj) && Touches(g, s, ri, rj)))
  {
    if HitsBefore(g, pi, pj, s, ri, rj + 1) {
      var i, j :| IsPieceCell(g, pi, pj, i, j) && (i < ri || (i == ri && j < rj + 1)) && Touches(g, s, i, j);
      if !(i == ri && j == rj) {
        assert HitsBefore(g, pi, pj, s, ri, rj);
      }
    }
  }

  /** Cells of the window left of column pj are not P cells, so a finished row
      of the window is the start of the next one. */
  lemma HitsBeforeNextRow(g: Grid, pi: int, pj: int, s: Side, ri: int)
    requires WellFormed(g)
    ensures HitsBefore(g, pi, pj, s, ri, pj + BlockSize) == HitsBefore(g, pi, pj, s, ri + 1, pj)
  {
  }

  /** Once every row of the window is visited, the flags are the whole answer. */
  lemma HitsBeforeAll(g: Grid, pi: int, pj: int, s: Side)
    requires WellFormed(g)
    ensures HitsBefore(g, pi, pj, s, pi + BlockSize, pj) == Hits(g, pi, pj, s)
  {
  }

  /** Nothing is visited before the top-left cell of the window. */
  lemma HitsBeforeNone(g: Grid, pi: int, pj: int, s: Side)
    requires WellFormed(g)
    ensures !HitsBefore(g, pi, pj, s, pi, pj)
  {
  }
}
