/**
 * Entities as the collision detector sees them, the X-axis projection used
 * by the broad phase, the two-axis box test used by the narrow phase, and the
 * scroll-range clamp of the game controller.
 *
 * Positions are single-precision floats in the game; they are only added,
 * subtracted and compared, so they are modelled as `real`.
 */
module Geometry {

  /** The tag a game object carries.  `DeadRaven` is the tag a raven receives
      once it has been hit by a fireball. */
  datatype Tag = Player | Raven | Fireball | DeadRaven

  /** A game object: its instance id, its tag and its world-space collider box. */
  datatype Entity = Entity(id: int, tag: Tag, minX: real, maxX: real, minY: real, maxY: real)

  /** A collider box has its minimum below its maximum on both axes. */
  predicate WellFormed(e: Entity) {
    e.minX <= e.maxX && e.minY <= e.maxY
  }

  /** The per-frame facts about the player that the detector consults:
      whether the Hack key went down this frame, the hack range, the
      controller's `lookDirection` (read by the broad phase) and the sprite's
      `flipX` (read by the narrow phase). */
  datatype Reach = Reach(hack: bool, hackRange: real, lookDirection: real, flipX: bool)

  /** A closed interval on the X axis. */
  datatype Interval = Interval(lo: real, hi: real)

  /** A box with both axes; used for the narrow phase. */
  datatype Box = Box(minX: real, maxX: real, minY: real, maxY: real)

  /** How far the player's box is stretched this frame: the hack range while
      Hack is down, nothing otherwise; never anything for another tag. */
  function Extension(e: Entity, r: Reach): (d: real)
    requires r.hackRange >= 0.0
    ensures d >= 0.0
    ensures e.tag == Player && r.hack ==> d == r.hackRange
    ensures e.tag != Player || !r.hack ==> d == 0.0
  {
    if e.tag == Player && r.hack then r.hackRange else 0.0
  }

  /** Broad-phase projection of an entity onto the X axis.  The player's
      interval is stretched on the side given by `lookDirection == 1`. */
  function ProjectX(e: Entity, r: Reach): (iv: Interval)
    requires r.hackRange >= 0.0
    // only the player, and only while Hack is down, differs from the raw box
    ensures e.tag != Player || !r.hack ==> iv == Interval(e.minX, e.maxX)
    // the interval only grows, by exactly the extension, on exactly one side
    ensures iv.lo <= e.minX && e.maxX <= iv.hi
    ensures iv.lo == e.minX || iv.hi == e.maxX
    ensures iv.hi - iv.lo == (e.maxX - e.minX) + Extension(e, r)
    // the grown side is the facing side
    ensures e.tag == Player && r.lookDirection == 1.0 ==> iv.lo == e.minX
    ensures e.tag == Player && r.lookDirection != 1.0 ==> iv.hi == e.maxX
  {
    var range := Extension(e, r);
    var lookingRight := e.tag == Player && r.lookDirection == 1.0;
    Interval(e.minX - (if !lookingRight then range else 0.0),
             e.maxX + (if lookingRight then range else 0.0))
  }

  /** An entity takes part in the sweep unless its projected interval is a
      single point. */
  predicate Included(e: Entity, r: Reach)
    requires r.hackRange >= 0.0
  {
    ProjectX(e, r).lo != ProjectX(e, r).hi
  }

  lemma IncludedIsProper(e: Entity, r: Reach)
    requires r.hackRange >= 0.0 && WellFormed(e) && Included(e, r)
    ensures ProjectX(e, r).lo < ProjectX(e, r).hi
  {
  }

  /** The collider box as it is. */
  function RawBox(e: Entity): Box {
    Box(e.minX, e.maxX, e.minY, e.maxY)
  }

  /** The player's box in the narrow phase: stretched by the hack range along
      X only, on the side the sprite faces (`!flipX` means facing right). */
  function HackBox(e: Entity, r: Reach): (b: Box)
    // the Y extent is kept
    ensures b.minY == e.minY && b.maxY == e.maxY
    // exactly one side moves, and the width grows by exactly the hack range
    ensures b.minX == e.minX || b.maxX == e.maxX
    ensures b.maxX - b.minX == (e.maxX - e.minX) + r.hackRange
    // the box only grows
    ensures r.hackRange >= 0.0 ==> b.minX <= e.minX && e.maxX <= b.maxX
    // the moving side is the facing side
    ensures !r.flipX ==> b.minX == e.minX
    ensures r.flipX ==> b.maxX == e.maxX
  {
    var lookingRight := !r.flipX;
    Box(e.minX - (if !lookingRight then r.hackRange else 0.0),
        e.maxX + (if lookingRight then r.hackRange else 0.0),
        e.minY, e.maxY)
  }

  /** Two boxes overlap unless they are strictly separated on X or on Y;
      touching edges count as overlap. */
  predicate Overlap(a: Box, b: Box) {
    var separatedX := a.maxX < b.minX || b.maxX < a.minX;
    var separatedY := a.maxY < b.minY || b.maxY < a.minY;
    !(separatedX || separatedY)
  }

  /** Narrow phase.  If the first object is the player and Hack is down, its
      box is stretched; otherwise, if the second is, the second's is; the
      other object always keeps its raw box. */
  function Intersects(a: Entity, b: Entity, r: Reach): (hit: bool)
    // the Y test always uses the raw boxes
    ensures hit ==> !(a.maxY < b.minY || b.maxY < a.minY)
    // without Hack the test is the raw closed-box test
    ensures !r.hack ==> (hit <==> Overlap(RawBox(a), RawBox(b)))
  {
    if a.tag == Player && r.hack then Overlap(HackBox(a, r), RawBox(b))
    else if b.tag == Player && r.hack then Overlap(RawBox(a), HackBox(b, r))
    else Overlap(RawBox(a), RawBox(b))
  }

  /** The hack's reach facing right: with Hack down and the sprite not
      flipped, the player hits another object, in either argument order,
      exactly when their Y extents overlap and the object lies between the
      player's left edge and the hack range past its right edge. */
  lemma HackReachFacingRight(a: Entity, b: Entity, r: Reach)
    requires a.tag == Player && b.tag != Player && r.hack && !r.flipX
    ensures var hit := !(a.maxY < b.minY || b.maxY < a.minY)
                       && a.minX <= b.maxX && b.minX <= a.maxX + r.hackRange;
      Intersects(a, b, r) == hit && Intersects(b, a, r) == hit
  {
  }

  /** The hack's reach facing left, the mirror image: the object must lie
      between the hack range before the player's left edge and its right
      edge. */
  lemma HackReachFacingLeft(a: Entity, b: Entity, r: Reach)
    requires a.tag == Player && b.tag != Player && r.hack && r.flipX
    ensures var hit := !(a.maxY < b.minY || b.maxY < a.minY)
                       && a.minX - r.hackRange <= b.maxX && b.minX <= a.maxX;
      Intersects(a, b, r) == hit && Intersects(b, a, r) == hit
  {
  }

  /** The hack never reaches behind the player: an object strictly behind
      the side the sprite faces is not hit, in either argument order. */
  lemma HackMissesBehind(a: Entity, b: Entity, r: Reach)
    requires a.tag == Player && b.tag != Player && r.hack
    requires (!r.flipX && b.maxX < a.minX) || (r.flipX && a.maxX < b.minX)
    ensures !Intersects(a, b, r) && !Intersects(b, a, r)
  {
  }

  /** The narrow phase does not depend on the order of its arguments unless
      both are tagged Player while Hack is down. */
  lemma IntersectsSymmetric(a: Entity, b: Entity, r: Reach)
    requires !r.hack || a.tag != Player || b.tag != Player
    ensures Intersects(a, b, r) == Intersects(b, a, r)
  {
  }

  /** Stretching never loses an overlap: boxes whose raw boxes overlap
      always intersect. */
  lemma RawOverlapIntersects(a: Entity, b: Entity, r: Reach)
    requires r.hackRange >= 0.0
    requires Overlap(RawBox(a), RawBox(b))
    ensures Intersects(a, b, r)
  {
  }

  /** Boxes strictly apart on X do not intersect unless one of them is the
      hacking player facing across the gap. */
  lemma SeparatedOnXNoHit(a: Entity, b: Entity, r: Reach)
    requires a.maxX < b.minX
    requires !r.hack || (a.tag != Player && b.tag != Player)
    ensures !Intersects(a, b, r) && !Intersects(b, a, r)
  {
  }

  /** The left and right scroll bounds: half the span of the background
      tiles, less half a tile and the padding, on each side of 0. The range
      is symmetric about 0, and it is non-empty exactly when the tiled
      background, less one tile, is at least twice the padding. */
  function ScrollBounds(numTiles: int, layerWidth: real, padding: real): (b: Interval)
    ensures b.lo == -b.hi
    ensures b.lo <= b.hi <==> (numTiles as real) * layerWidth - layerWidth >= 2.0 * padding
  {
    var halfLength := (numTiles as real) * layerWidth / 2.0;
    Interval(-(halfLength - layerWidth / 2.0 - padding), halfLength - layerWidth / 2.0 - padding)
  }

  /** Clamp a position to the interval [lo, hi], testing the left bound first. */
  function Clamp(pos: real, bounds: Interval): (c: real)
    ensures bounds.lo <= bounds.hi ==> bounds.lo <= c <= bounds.hi
    ensures bounds.lo <= pos <= bounds.hi ==> c == pos
    ensures pos < bounds.lo ==> c == bounds.lo
    ensures bounds.lo <= pos && bounds.hi < pos ==> c == bounds.hi
  {
    if pos < bounds.lo then bounds.lo
    else if pos > bounds.hi then bounds.hi
    else pos
  }

  lemma ClampIdempotent(pos: real, bounds: Interval)
    requires bounds.lo <= bounds.hi
    ensures Clamp(Clamp(pos, bounds), bounds) == Clamp(pos, bounds)
  {
  }
}
