/**
 * The player controller: how the wizard reacts to the frame's collisions,
 * the action timers and spell cooldown that gate its input, its move along
 * the scroll range, and the flags its animation state consumes.
 *
 * Time is the frame's `deltaTime`; whether the wizard stands on the ground
 * and where each collider lies relative to it are inputs of the frame.
 */
module Player {
  import opened Wrappers
  import opened Geometry
  import opened SweepPrune
  import opened Game

  /** The attack animations. */
  datatype ActionType = CastAction | HackAction

  /** How long the hack and the cast animations lock the wizard in place. */
  const HackDuration: real := 0.66
  const CastDuration: real := 0.66

  // ---------------------------------------------------------------------
  // Collision reaction

  /** The sign test of the engine: zero counts as positive. */
  function Sign(f: real): (s: real)
    ensures s == 1.0 || s == -1.0
    ensures s > 0.0 <==> f >= 0.0
  {
    if f >= 0.0 then 1.0 else -1.0
  }

  /** The collision's other object, seen from the object `self`. */
  function Other(col: Collision, self: int): Entity {
    if col.go1.id != self then col.go1 else col.go2
  }

  predicate Involves(col: Collision, self: int) {
    col.go1.id == self || col.go2.id == self
  }

  /** A hack lands on a collider when Hack is down, the wizard stands still
      and faces the side the collider is on.  `offset` is the collider's X
      less the wizard's. */
  predicate HackLands(hack: bool, x: real, y: real, lookDirection: real, offset: real) {
    hack && x == 0.0 && y == 0.0 && (lookDirection == 1.0) == (Sign(offset) > 0.0)
  }

  /** The outcome of the collision reaction: whether the wizard is dead, and
      the raven it destroyed, if any. */
  datatype Reaction = Reaction(dead: bool, destroyed: Option<int>)

  /** The reaction to the collisions `cols`, in order: a collision that does
      not involve the wizard is skipped; a fireball kills it and ends the
      scan; a collider its hack lands on is destroyed and ends the scan; any
      other collider kills it and the scan goes on. */
  function React(cols: seq<Collision>, self: int, dead: bool, hack: bool, x: real, y: real,
                 lookDirection: real, offsetX: Entity -> real): Reaction
    decreases |cols|
  {
    if cols == [] then Reaction(dead, None)
    else if !Involves(cols[0], self) then React(cols[1..], self, dead, hack, x, y, lookDirection, offsetX)
    else
      var collider := Other(cols[0], self);
      if collider.tag == Fireball then Reaction(true, None)
      else if HackLands(hack, x, y, lookDirection, offsetX(collider)) then Reaction(dead, Some(collider.id))
      else React(cols[1..], self, true, hack, x, y, lookDirection, offsetX)
  }

  /** Collisions that do not involve the wizard change nothing. */
  lemma {:induction false} ReactIgnoresOthers(cols: seq<Collision>, self: int, dead: bool, hack: bool, x: real, y: real,
                                             lookDirection: real, offsetX: Entity -> real)
    requires forall c :: c in cols ==> !Involves(c, self)
    ensures React(cols, self, dead, hack, x, y, lookDirection, offsetX) == Reaction(dead, None)
    decreases |cols|
  {
    if cols != [] {
      assert cols[0] in cols;
      assert forall c :: c in cols[1..] ==> c in cols;
      ReactIgnoresOthers(cols[1..], self, dead, hack, x, y, lookDirection, offsetX);
    }
  }

  /** Death is sticky, and every collision with the wizard has a
      consequence: it ends dead or having destroyed a collider. */
  lemma {:induction false} ReactConsequence(cols: seq<Collision>, self: int, dead: bool, hack: bool, x: real, y: real,
                                            lookDirection: real, offsetX: Entity -> real)
    ensures var r := React(cols, self, dead, hack, x, y, lookDirection, offsetX);
      && (dead ==> r.dead)
      && ((exists c :: c in cols && Involves(c, self)) ==> r.dead || r.destroyed.Some?)
    decreases |cols|
  {
    if cols != [] {
      ReactConsequence(cols[1..], self, dead, hack, x, y, lookDirection, offsetX);
      ReactConsequence(cols[1..], self, true, hack, x, y, lookDirection, offsetX);
      if !Involves(cols[0], self) {
        forall c | c in cols && Involves(c, self) ensures c in cols[1..] {
          var i :| 0 <= i < |cols| && cols[i] == c;
          assert i != 0;
          assert cols[1..][i - 1] == c;
        }
      }
    }
  }

  /** A destroyed object is a non-fireball collider of a collision with the
      wizard that the hack lands on; in particular Hack is down and the
      wizard stands still. */
  lemma {:induction false} ReactDestroysOnlyWhenHackLands(cols: seq<Collision>, self: int, dead: bool, hack: bool,
                                                          x: real, y: real, lookDirection: real, offsetX: Entity -> real)
    requires React(cols, self, dead, hack, x, y, lookDirection, offsetX).destroyed.Some?
    ensures hack && x == 0.0 && y == 0.0
    ensures exists c :: (c in cols && Involves(c, self)
                         && Other(c, self).id == React(cols, self, dead, hack, x, y, lookDirection, offsetX).destroyed.value
                         && Other(c, self).tag != Fireball
                         && HackLands(hack, x, y, lookDirection, offsetX(Other(c, self))))
    decreases |cols|
  {
    var r := React(cols, self, dead, hack, x, y, lookDirection, offsetX);
    var rest := cols[1..];
    if !Involves(cols[0], self) || !HackLands(hack, x, y, lookDirection, offsetX(Other(cols[0], self))) {
      var d := if Involves(cols[0], self) then true else dead;
      ReactDestroysOnlyWhenHackLands(rest, self, d, hack, x, y, lookDirection, offsetX);
      var c :| c in rest && Involves(c, self) && Other(c, self).id == r.destroyed.value
        && Other(c, self).tag != Fireball && HackLands(hack, x, y, lookDirection, offsetX(Other(c, self)));
      assert c in cols;
    } else {
      assert cols[0] in cols;
    }
  }

  /** Without a landing hack, any collision with the wizard kills it and
      nothing is destroyed. */
  lemma ReactWithoutHack(cols: seq<Collision>, self: int, dead: bool, hack: bool, x: real, y: real,
                         lookDirection: real, offsetX: Entity -> real)
    requires !hack || x != 0.0 || y != 0.0
    requires exists c :: c in cols && Involves(c, self)
    ensures React(cols, self, dead, hack, x, y, lookDirection, offsetX) == Reaction(true, None)
  {
    var r := React(cols, self, dead, hack, x, y, lookDirection, offsetX);
    ReactConsequence(cols, self, dead, hack, x, y, lookDirection, offsetX);
    if r.destroyed.Some? {
      ReactDestroysOnlyWhenHackLands(cols, self, dead, hack, x, y, lookDirection, offsetX);
    }
  }

  // ---------------------------------------------------------------------
  // Timers

  /** A timer runs down by the frame time only while it is positive. */
  function Countdown(t: real, deltaTime: real): (next: real)
    requires deltaTime >= 0.0
    ensures next <= t
    ensures t <= 0.0 ==> next == t
  {
    if t > 0.0 then t - deltaTime else t
  }

  /** A timer run down over the frames `dts`, one after another. */
  function CountdownAll(t: real, dts: seq<real>): real
    requires forall k :: 0 <= k < |dts| ==> dts[k] >= 0.0
    decreases |dts|
  {
    if dts == [] then t else Countdown(CountdownAll(t, dts[..|dts| - 1]), dts[|dts| - 1])
  }

  function Sum(dts: seq<real>): real
    decreases |dts|
  {
    if dts == [] then 0.0 else Sum(dts[..|dts| - 1]) + dts[|dts| - 1]
  }

  /** The cooldown holds: a timer set to `t` is still positive, and so still
      blocks the action, until frames adding up to `t` have passed. */
  lemma {:induction false} CooldownHolds(t: real, dts: seq<real>)
    requires forall k :: 0 <= k < |dts| ==> dts[k] >= 0.0
    requires Sum(dts) < t
    ensures CountdownAll(t, dts) == t - Sum(dts)
    ensures CountdownAll(t, dts) > 0.0
    decreases |dts|
  {
    if dts != [] {
      var init := dts[..|dts| - 1];
      assert forall k :: 0 <= k < |init| ==> init[k] == dts[k];
      CooldownHolds(t, init);
    }
  }

  class PlayerController {
    /** The wizard's instance id. */
    const id: int
    const moveRate: real
    const hackRange: real
    const spellCooldown: real
    /** The game controller the wizard reads its input and collisions from. */
    const eventSystem: GameController

    /** The last horizontal move direction; 1 means right. */
    var lookDirection: real
    /** The sprite is drawn mirrored (facing left). */
    var flipX: bool
    var dead: bool
    var isJumping: bool
    var isHacking: bool
    var hackTimer: real
    var isCasting: bool
    var castTimer: real
    var timeUntilNextCast: real

    constructor (id: int, moveRate: real, hackRange: real, spellCooldown: real, eventSystem: GameController)
      ensures this.id == id && this.moveRate == moveRate && this.hackRange == hackRange
      ensures this.spellCooldown == spellCooldown && this.eventSystem == eventSystem
      ensures lookDirection == 1.0 && !flipX && !dead && !isJumping
      ensures !isHacking && hackTimer == 0.0 && !isCasting && castTimer == 0.0 && timeUntilNextCast == 0.0
    {
      this.id := id;
      this.moveRate := moveRate;
      this.hackRange := hackRange;
      this.spellCooldown := spellCooldown;
      this.eventSystem := eventSystem;
      lookDirection := 1.0;
      // the sprite starts unflipped: the controller never sets flipX at
      // start-up and relies on the sprite renderer's default
      flipX := false;
      dead := false;
      isJumping := false;
      isHacking := false;
      hackTimer := 0.0;
      isCasting := false;
      castTimer := 0.0;
      timeUntilNextCast := 0.0;
    }

    /** The flag logic of the animation state: the Die key, or being dead
        already, makes the wizard dead; a horizontal move turns the sprite;
        standing still plays a pending cast, else a pending hack, clearing
        only the flag it consumed. */
    method SetAnimState(x: real, y: real) returns (played: Option<ActionType>)
      modifies this`dead, this`flipX, this`isCasting, this`isHacking
      ensures dead == (old(dead) || eventSystem.GetInput(Die))
      ensures flipX == if x > 0.0 then false else if x < 0.0 then true else old(flipX)
      ensures played == if x == 0.0 && y == 0.0 && old(isCasting) then Some(CastAction)
                        else if x == 0.0 && y == 0.0 && old(isHacking) then Some(HackAction)
                        else None
      ensures isCasting == (old(isCasting) && played != Some(CastAction))
      ensures isHacking == (old(isHacking) && played != Some(HackAction))
    {
      var die := false;
      if !dead {
        die := eventSystem.GetInput(Die);
      } else {
        die := true;
      }
      if die {
        dead := true;
      }
      played := None;
      if x != 0.0 {
        if x > 0.0 {
          flipX := false;
        } else if x < 0.0 {
          flipX := true;
        }
      } else if x == 0.0 && y == 0.0 {
        if isCasting {
          played := Some(CastAction);
          isCasting := false;
        } else if isHacking {
          played := Some(HackAction);
          isHacking := false;
        }
      }
    }

    /** Move the wizard: the unclamped total grows by the move, the scroller
        follows it clamped to the scroll range, and the wizard looks the way
        it moved. */
    method Move(move: real, x: real)
      modifies this`lookDirection, eventSystem`playerMove, eventSystem`scrollerMove
      ensures eventSystem.playerMove == old(eventSystem.playerMove) + move
      ensures eventSystem.scrollerMove == eventSystem.ClampPos(eventSystem.playerMove)
      ensures lookDirection == x
    {
      var totalMove := eventSystem.playerMove + move;
      var clampMove := eventSystem.ClampPos(totalMove);
      eventSystem.scrollerMove := clampMove;
      eventSystem.playerMove := totalMove;
      lookDirection := x;
    }

    /** The collision reaction over the frame's collision list.  `offsetX`
        gives each collider's X less the wizard's. */
    method HandleCollisions(offsetX: Entity -> real) returns (destroyed: Option<int>)
      modifies this`dead
      ensures Reaction(dead, destroyed)
           == React(eventSystem.collisions, id, old(dead), eventSystem.GetInput(Hack),
                    eventSystem.GetAxis(X), eventSystem.GetAxis(Y), lookDirection, offsetX)
    {
      var cols := eventSystem.collisions;
      ghost var hack0, x0, y0 := eventSystem.GetInput(Hack), eventSystem.GetAxis(X), eventSystem.GetAxis(Y);
      var i := 0;
      destroyed := None;
      while i < |cols|
        invariant 0 <= i <= |cols|
        invariant React(cols, id, old(dead), hack0, x0, y0, lookDirection, offsetX)
               == React(cols[i..], id, dead, hack0, x0, y0, lookDirection, offsetX)
        modifies this`dead
      {
        var col := cols[i];
        assert cols[i..][0] == col && cols[i..][1..] == cols[i + 1..];
        if col.go1.id == id || col.go2.id == id {
          var collider := if col.go1.id != id then col.go1 else col.go2;
          if collider.tag == Fireball {
            dead := true;
            return;
          }
          var hack := eventSystem.GetInput(Hack);
          var x := eventSystem.GetAxis(X);
          var y := eventSystem.GetAxis(Y);
          var lookingRight := lookDirection == 1.0;
          var ravenRight := Sign(offsetX(collider)) > 0.0;
          var notRunning := x == 0.0 && y == 0.0;
          if hack && notRunning && lookingRight == ravenRight {
            destroyed := Some(collider.id);
            return;
          }
          dead := true;
        }
        i := i + 1;
      }
    }

    /** Start a cast: the cooldown restarts, the cast animation locks the
        wizard, and the cast is flagged for the animation state. */
    method CastSpell()
      modifies this`timeUntilNextCast, this`castTimer, this`isCasting
      ensures timeUntilNextCast == spellCooldown && castTimer == CastDuration && isCasting
    {
      timeUntilNextCast := spellCooldown;
      castTimer := CastDuration;
      isCasting := true;
    }

    /** The end of a frame: the jump starts on the ground, a hack restarts
        the hack timer, a cast starts once the cooldown has run out, and every
        timer runs down while positive. */
    method Tick(jump: bool, hack: bool, cast: bool, grounded: bool, deltaTime: real)
      requires deltaTime >= 0.0
      modifies this`isJumping, this`hackTimer, this`isHacking, this`castTimer, this`timeUntilNextCast, this`isCasting
      ensures isJumping == (old(isJumping) || (jump && grounded))
      ensures hackTimer == Countdown(if hack then HackDuration else old(hackTimer), deltaTime)
      ensures isHacking == (old(isHacking) || hack)
      ensures var start := cast && old(timeUntilNextCast) <= 0.0;
        && castTimer == Countdown(if start then CastDuration else old(castTimer), deltaTime)
        && timeUntilNextCast == Countdown(if start then spellCooldown else old(timeUntilNextCast), deltaTime)
        && isCasting == (old(isCasting) || start)
    {
      if jump && grounded {
        isJumping := true;
      }
      if hack {
        hackTimer := HackDuration;
        isHacking := true;
      }
      if hackTimer > 0.0 {
        hackTimer := hackTimer - deltaTime;
      }
      if cast && timeUntilNextCast <= 0.0 {
        CastSpell();
      }
      if castTimer > 0.0 {
        castTimer := castTimer - deltaTime;
      }
      if timeUntilNextCast > 0.0 {
        timeUntilNextCast := timeUntilNextCast - deltaTime;
      }
    }

    /** The middle of a frame, on the gated axes `x` and `y`: the animation
        flags, the move (only when it is not zero) and the collision reaction
        (only when there are collisions). */
    method MoveAndCollide(x: real, y: real, deltaTime: real, offsetX: Entity -> real) returns (destroyed: Option<int>)
      modifies this`dead, this`flipX, this`isCasting, this`isHacking, this`lookDirection
      modifies eventSystem`playerMove, eventSystem`scrollerMove
      ensures old(dead) ==> dead
      ensures var move := x * moveRate * deltaTime;
        && eventSystem.playerMove == old(eventSystem.playerMove) + move
        && (move != 0.0 ==> eventSystem.scrollerMove == eventSystem.ClampPos(eventSystem.playerMove))
        && (move == 0.0 ==> eventSystem.scrollerMove == old(eventSystem.scrollerMove))
        && lookDirection == (if move != 0.0 then x else old(lookDirection))
      ensures var deadBefore := old(dead) || eventSystem.GetInput(Die);
        Reaction(dead, destroyed)
          == if |eventSystem.collisions| == 0 then Reaction(deadBefore, None)
             else React(eventSystem.collisions, id, deadBefore, eventSystem.GetInput(Hack),
                        eventSystem.GetAxis(X), eventSystem.GetAxis(Y), lookDirection, offsetX)
      ensures destroyed.Some? ==> eventSystem.GetInput(Hack) && eventSystem.GetAxis(X) == 0.0
                                  && eventSystem.GetAxis(Y) == 0.0
      // the animation flags: the sprite turns with the move; standing still
      // consumes a pending cast, or else a pending hack
      ensures flipX == if x > 0.0 then false else if x < 0.0 then true else old(flipX)
      ensures var idle := x == 0.0 && y == 0.0;
        && isCasting == (old(isCasting) && !idle)
        && isHacking == (old(isHacking) && !(idle && !old(isCasting)))
    {
      var _ := SetAnimState(x, y);
      var move := x * moveRate * deltaTime;
      if move != 0.0 {
        Move(move, x);
      }
      destroyed := None;
      if |eventSystem.collisions| > 0 {
        destroyed := HandleCollisions(offsetX);
        ReactConsequence(eventSystem.collisions, id, old(dead) || eventSystem.GetInput(Die),
          eventSystem.GetInput(Hack), eventSystem.GetAxis(X), eventSystem.GetAxis(Y), lookDirection, offsetX);
        if destroyed.Some? {
          ReactDestroysOnlyWhenHackLands(eventSystem.collisions, id, old(dead) || eventSystem.GetInput(Die),
            eventSystem.GetInput(Hack), eventSystem.GetAxis(X), eventSystem.GetAxis(Y), lookDirection, offsetX);
        }
      }
    }

    /** One frame of the wizard.  A dead wizard reads no input; a wizard in
        the middle of a hack or cast reads no movement.  Then the animation
        flags, the move, the collision reaction, the jump, and the hack and
        cast timers. */
    method Update(deltaTime: real, grounded: bool, offsetX: Entity -> real) returns (destroyed: Option<int>)
      requires deltaTime >= 0.0
      modifies this, eventSystem`playerMove, eventSystem`scrollerMove
      // death is sticky
      ensures old(dead) ==> dead
      // input gating and the move
      ensures var live := !old(dead);
        var free := live && old(hackTimer) <= 0.0 && old(castTimer) <= 0.0;
        var x := if free then eventSystem.GetAxis(X) else 0.0;
        && eventSystem.playerMove == old(eventSystem.playerMove) + x * moveRate * deltaTime
        && (x * moveRate * deltaTime != 0.0 ==> eventSystem.scrollerMove == eventSystem.ClampPos(eventSystem.playerMove))
        && (x * moveRate * deltaTime == 0.0 ==> eventSystem.scrollerMove == old(eventSystem.scrollerMove))
        && lookDirection == (if x * moveRate * deltaTime != 0.0 then x else old(lookDirection))
      // the hack timer
      ensures var hack := !old(dead) && eventSystem.GetInput(Hack);
        hackTimer == Countdown(if hack then HackDuration else old(hackTimer), deltaTime)
      // the cast cooldown
      ensures var cast := !old(dead) && eventSystem.GetInput(Cast) && old(timeUntilNextCast) <= 0.0;
        && castTimer == Countdown(if cast then CastDuration else old(castTimer), deltaTime)
        && timeUntilNextCast == Countdown(if cast then spellCooldown else old(timeUntilNextCast), deltaTime)
        && (cast ==> isCasting)
      // the sprite turns with the gated move
      ensures var free := !old(dead) && old(hackTimer) <= 0.0 && old(castTimer) <= 0.0;
        var x := if free then eventSystem.GetAxis(X) else 0.0;
        flipX == if x > 0.0 then false else if x < 0.0 then true else old(flipX)
      // the action flags: standing still consumes a pending cast, or else a
      // pending hack; a new hack, and a cast the cooldown allows, set them
      ensures var free := !old(dead) && old(hackTimer) <= 0.0 && old(castTimer) <= 0.0;
        var idle := !free || (eventSystem.GetAxis(X) == 0.0 && eventSystem.GetAxis(Y) == 0.0);
        var hack := !old(dead) && eventSystem.GetInput(Hack);
        var cast := !old(dead) && eventSystem.GetInput(Cast) && old(timeUntilNextCast) <= 0.0;
        && isCasting == ((old(isCasting) && !idle) || cast)
        && isHacking == ((old(isHacking) && !(idle && !old(isCasting))) || hack)
      // the jump
      ensures isJumping == (old(isJumping) || (!old(dead) && eventSystem.GetInput(Jump) && grounded))
      // the collision reaction, on the flags after the animation state and the move
      ensures var deadBefore := old(dead) || eventSystem.GetInput(Die);
        Reaction(dead, destroyed)
          == if |eventSystem.collisions| == 0 then Reaction(deadBefore, None)
             else React(eventSystem.collisions, id, deadBefore, eventSystem.GetInput(Hack),
                        eventSystem.GetAxis(X), eventSystem.GetAxis(Y), lookDirection, offsetX)
      // so a destroyed collider was hit by a landing hack
      ensures destroyed.Some? ==> eventSystem.GetInput(Hack) && eventSystem.GetAxis(X) == 0.0
                                  && eventSystem.GetAxis(Y) == 0.0
    {
      var x, y := 0.0, 0.0;
      var jump, hack, cast := false, false, false;
      if !dead {
        if hackTimer <= 0.0 && castTimer <= 0.0 {
          x := eventSystem.GetAxis(X);
          y := eventSystem.GetAxis(Y);
        }
        jump := eventSystem.GetInput(Jump);
        hack := eventSystem.GetInput(Hack);
        cast := eventSystem.GetInput(Cast);
      }
      destroyed := MoveAndCollide(x, y, deltaTime, offsetX);
      Tick(jump, hack, cast, grounded, deltaTime);
    }
  }
}
