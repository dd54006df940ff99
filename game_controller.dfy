/**
 * The game controller: the per-frame input table, the scroll-range clamp and
 * the collision list filled by sweep-and-prune.  Its fields are updated in
 * place every frame, so it is a class; the sweep and the sort it runs are
 * proved equal to the functions of `SweepPrune` and `EndpointSort`.
 */
module Game {
  import opened Geometry
  import opened EndPoints
  import opened EndpointSort
  import opened SweepPrune
  import opened Detector

  datatype AxisType = X | Y

  datatype ControlType = Cast | Hack | Jump | Die | Quit

  /** Every control type, in declaration order. */
  const AllControls: seq<ControlType> := [Cast, Hack, Jump, Die, Quit]

  /** The scan over `AllControls` reaches every control type. */
  lemma ControlListed(t: ControlType)
    ensures t in AllControls
  {
    match t
    case Cast => assert AllControls[0] == t;
    case Hack => assert AllControls[1] == t;
    case Jump => assert AllControls[2] == t;
    case Die => assert AllControls[3] == t;
    case Quit => assert AllControls[4] == t;
  }

  /** A designer-set binding of a control type to a key code. */
  datatype InputMapping = InputMapping(kind: ControlType, key: int)

  /** The key bound to a control type and whether it went down this frame. */
  datatype InputStatus = InputStatus(key: int, status: bool)

  /** The key code a fresh status entry starts with (no key). */
  const NoKey: int := 0

  /** The input table built from the mappings, one mapping after another: a
      type seen for the first time gets a fresh entry, and every mapping
      (re)binds the key of its type. */
  function StatusTable(ms: seq<InputMapping>): map<ControlType, InputStatus>
    decreases |ms|
  {
    if ms == [] then map[]
    else
      var t := StatusTable(ms[..|ms| - 1]);
      var m := ms[|ms| - 1];
      var entry := if m.kind in t then t[m.kind] else InputStatus(NoKey, false);
      t[m.kind := entry.(key := m.key)]
  }

  /** The key of the last mapping of `kind` (no key when there is none):
      the reference for the key a type ends up bound to. */
  function LastKey(ms: seq<InputMapping>, kind: ControlType): int
    decreases |ms|
  {
    if ms == [] then NoKey
    else if ms[|ms| - 1].kind == kind then ms[|ms| - 1].key
    else LastKey(ms[..|ms| - 1], kind)
  }

  /** The table has an entry for exactly the mapped types, and no key is
      down yet. */
  lemma {:induction false} StatusTableEntries(ms: seq<InputMapping>)
    ensures StatusTable(ms).Keys == set m | m in ms :: m.kind
    ensures forall t :: t in StatusTable(ms) ==> !StatusTable(ms)[t].status
    decreases |ms|
  {
    if ms != [] {
      var init, m := ms[..|ms| - 1], ms[|ms| - 1];
      StatusTableEntries(init);
      assert ms == init + [m];
      assert (set x | x in ms :: x.kind) == (set x | x in init :: x.kind) + {m.kind};
    }
  }

  /** Each mapped type is bound to the key of its last mapping: a later
      mapping of the same type overrides an earlier one. */
  lemma {:induction false} StatusTableBindsLastKey(ms: seq<InputMapping>, kind: ControlType)
    requires kind in StatusTable(ms)
    ensures StatusTable(ms)[kind].key == LastKey(ms, kind)
    decreases |ms|
  {
    var init, m := ms[..|ms| - 1], ms[|ms| - 1];
    if m.kind != kind {
      StatusTableBindsLastKey(init, kind);
    }
  }

  /** The table after a frame's key scan: every entry keeps its key, and its
      status says whether that key went down this frame. */
  function Refreshed(table: map<ControlType, InputStatus>, keysDown: set<int>): map<ControlType, InputStatus> {
    map t | t in table :: table[t].(status := table[t].key in keysDown)
  }

  /** The controller's input as a function of the table: an unmapped type is
      never down. */
  function InputOf(table: map<ControlType, InputStatus>, kind: ControlType): (down: bool)
    ensures kind !in table ==> !down
    ensures kind in table ==> down == table[kind].status
  {
    if kind in table then table[kind].status else false
  }

  /** After the key scan, a control is down exactly when it is mapped and its
      key went down this frame; the set of mapped controls is unchanged. */
  lemma RefreshedInput(table: map<ControlType, InputStatus>, keysDown: set<int>, kind: ControlType)
    ensures Refreshed(table, keysDown).Keys == table.Keys
    ensures InputOf(Refreshed(table, keysDown), kind) <==> kind in table && table[kind].key in keysDown
  {
  }

  /** `RemoveById` on a list whose head has the id: the second entry is kept
      unexamined. */
  lemma RemoveHeadMatch(tail: seq<EndPoint>, id: int)
    requires |tail| >= 2 && tail[0].ent.id == id
    ensures RemoveById(tail, id) == [tail[1]] + RemoveById(tail[2..], id)
  {
  }

  /** Removing the entry at `j`: the entry that slides into its place is
      skipped, exactly as `RemoveById` skips it. */
  lemma RemoveStepMatch(rest: seq<EndPoint>, j: int, id: int)
    requires 0 <= j < |rest| && rest[j].ent.id == id
    ensures var next := rest[..j] + rest[j + 1..];
      rest[..j] + RemoveById(rest[j..], id)
        == if j + 1 <= |next| then next[..j + 1] + RemoveById(next[j + 1..], id) else next
  {
    var next := rest[..j] + rest[j + 1..];
    if j + 1 < |rest| {
      RemoveHeadMatch(rest[j..], id);
      assert rest[j..][1] == rest[j + 1] && rest[j..][2..] == rest[j + 2..];
      assert next[..j + 1] == rest[..j] + [rest[j + 1]];
      assert next[j + 1..] == rest[j + 2..];
    } else {
      assert rest[j..] == [rest[j]];
      assert next == rest[..j];
    }
  }

  /** Keeping the entry at `j`. */
  lemma RemoveStepKeep(rest: seq<EndPoint>, j: int, id: int)
    requires 0 <= j < |rest| && rest[j].ent.id != id
    ensures rest[..j] + RemoveById(rest[j..], id) == rest[..j + 1] + RemoveById(rest[j + 1..], id)
  {
    var r := RemoveById(rest[j + 1..], id);
    assert RemoveById(rest[j..], id) == [rest[j]] + r by {
      var tail := rest[j..];
      assert tail[0] == rest[j] && tail[1..] == rest[j + 1..];
    }
    assert rest[..j + 1] == rest[..j] + [rest[j]];
    assert rest[..j] + ([rest[j]] + r) == (rest[..j] + [rest[j]]) + r;
  }

  /** Partway through the removal loop at index `j`: the entries before
      `j` are settled and `RemoveById` of the rest gives the final list; an
      index past the end means a skip ran off the end. */
  predicate RemovalAt(whole: seq<EndPoint>, rest: seq<EndPoint>, j: int, id: int) {
    && 0 <= j <= |rest| + 1
    && (j <= |rest| ==> RemoveById(whole, id) == rest[..j] + RemoveById(rest[j..], id))
    && (j == |rest| + 1 ==> RemoveById(whole, id) == rest)
  }

  /** One pass of the removal loop keeps `RemovalAt`. */
  lemma RemoveStep(whole: seq<EndPoint>, rest: seq<EndPoint>, j: int, id: int)
    requires 0 <= j < |rest| && RemovalAt(whole, rest, j, id)
    ensures rest[j].ent.id == id ==> RemovalAt(whole, rest[..j] + rest[j + 1..], j + 1, id)
    ensures rest[j].ent.id != id ==> RemovalAt(whole, rest, j + 1, id)
  {
    if rest[j].ent.id == id {
      RemoveStepMatch(rest, j, id);
    } else {
      RemoveStepKeep(rest, j, id);
    }
  }

  /** The loop that removes the closing entity from the active list: an
      entry with the closing id is removed and the index still advances, so
      the entry that slides into its place is not examined. */
  method RemoveClosing(activeList: seq<EndPoint>, id: int) returns (rest: seq<EndPoint>)
    ensures rest == RemoveById(activeList, id)
  {
    rest := activeList;
    var j := 0;
    assert rest[..0] == [] && rest[0..] == rest;
    while j < |rest|
      invariant RemovalAt(activeList, rest, j, id)
    {
      RemoveStep(activeList, rest, j, id);
      if id == rest[j].ent.id {
        rest := rest[..j] + rest[j + 1..];
      }
      j := j + 1;
    }
    if j == |rest| {
      assert rest[..j] == rest && rest[j..] == [];
    }
  }

  /** A sweep state whose collision list follows earlier collisions. */
  function Offset(start: seq<Collision>, st: SweepState): SweepState {
    SweepState(st.active, start + st.found)
  }

  /** A step of the sweep does not look at the collisions found before. */
  lemma StepOffset(start: seq<Collision>, st: SweepState, item: EndPoint, r: Reach)
    ensures Step(Offset(start, st), item, r) == Offset(start, Step(st, item, r))
  {
    if !item.isMin {
      var hits := Tests(item, RemoveById(st.active, item.ent.id), r);
      assert (start + st.found) + hits == start + (st.found + hits);
    }
  }

  class GameController {
    /** The collisions found this frame, closing entity first. */
    var collisions: seq<Collision>
    /** Horizontal tiles of background. */
    const numTiles: int
    /** Boundary padding where the background does not match the camera. */
    const padding: real
    /** Width of one foreground tile. */
    const layerWidth: real
    /** X of the background scroll position, clamped. */
    var scrollerMove: real
    /** X of the player's accumulated move, unclamped. */
    var playerMove: real
    /** The raw horizontal and vertical input axes of this frame. */
    var inputX: real
    var inputY: real
    /** Key binding and key-down status per mapped control type. */
    var inputStatus: map<ControlType, InputStatus>

    /** Start: the input table from the designer's mappings, no motion, no
        collisions. */
    constructor (numTiles: int, padding: real, layerWidth: real, mappings: seq<InputMapping>)
      ensures this.numTiles == numTiles && this.padding == padding && this.layerWidth == layerWidth
      ensures inputStatus == StatusTable(mappings)
      ensures collisions == [] && scrollerMove == 0.0 && playerMove == 0.0
      ensures inputX == 0.0 && inputY == 0.0
    {
      this.numTiles := numTiles;
      this.padding := padding;
      this.layerWidth := layerWidth;
      scrollerMove := 0.0;
      playerMove := 0.0;
      inputX, inputY := 0.0, 0.0;
      var table: map<ControlType, InputStatus> := map[];
      var n := 0;
      while n < |mappings|
        invariant 0 <= n <= |mappings|
        invariant table == StatusTable(mappings[..n])
      {
        var mapping := mappings[n];
        if mapping.kind !in table {
          table := table[mapping.kind := InputStatus(NoKey, false)];
        }
        table := table[mapping.kind := table[mapping.kind].(key := mapping.key)];
        assert mappings[..n + 1][..n] == mappings[..n];
        n := n + 1;
      }
      assert mappings[..n] == mappings;
      inputStatus := table;
      collisions := [];
    }

    /** The position clamped to the scroll range of the background. */
    function ClampPos(pos: real): (c: real)
      // a background of at least twice the padding beyond one tile keeps
      // every result within the scroll range
      ensures var b := ScrollBounds(numTiles, layerWidth, padding);
        && ((numTiles as real) * layerWidth - layerWidth >= 2.0 * padding ==> b.lo <= c <= b.hi)
        && (b.lo <= pos <= b.hi ==> c == pos)
    {
      Clamp(pos, ScrollBounds(numTiles, layerWidth, padding))
    }

    /** Every field but the collision list is as given. */
    predicate Unmoved(table: map<ControlType, InputStatus>, x: real, y: real, player: real, scroller: real)
      reads this
    {
      inputStatus == table && inputX == x && inputY == y && playerMove == player && scrollerMove == scroller
    }

    function GetAxis(axis: AxisType): real
      reads this`inputX, this`inputY
    {
      match axis
      case X => inputX
      case Y => inputY
    }

    /** Whether a control went down this frame; false when it is not mapped. */
    function GetInput(kind: ControlType): bool
      reads this`inputStatus
    {
      InputOf(inputStatus, kind)
    }

    /** The input scan of a frame: the raw axes, then every mapped control's
        key-down status. */
    method UpdateInput(horizontal: real, vertical: real, keysDown: set<int>)
      modifies this`inputX, this`inputY, this`inputStatus
      ensures inputX == horizontal && inputY == vertical
      ensures inputStatus == Refreshed(old(inputStatus), keysDown)
    {
      inputX, inputY := horizontal, vertical;
      var table := inputStatus;
      var n := 0;
      while n < |AllControls|
        invariant 0 <= n <= |AllControls|
        invariant table.Keys == inputStatus.Keys
        invariant forall t :: t in table && t in AllControls[..n] ==> table[t] == Refreshed(inputStatus, keysDown)[t]
        invariant forall t :: t in table && t !in AllControls[..n] ==> table[t] == inputStatus[t]
      {
        var kind := AllControls[n];
        if kind in table {
          table := table[kind := table[kind].(status := table[kind].key in keysDown)];
        }
        assert AllControls[..n + 1] == AllControls[..n] + [kind];
        n := n + 1;
      }
      assert AllControls[..n] == AllControls;
      forall t: ControlType ensures t in AllControls {
        ControlListed(t);
      }
      inputStatus := table;
    }

    /** The narrow-phase tests against the active list when `item` closes,
        each hit appended to the collision list. */
    method TestActive(item: EndPoint, activeList: seq<EndPoint>, reach: Reach)
      modifies this
      ensures collisions == old(collisions) + Tests(item, activeList, reach)
      ensures Unmoved(old(inputStatus), old(inputX), old(inputY), old(playerMove), old(scrollerMove))
    {
      var k := 0;
      while k < |activeList|
        invariant 0 <= k <= |activeList|
        invariant collisions == old(collisions) + Tests(item, activeList[..k], reach)
        invariant Unmoved(old(inputStatus), old(inputX), old(inputY), old(playerMove), old(scrollerMove))
      {
        var activeItem := activeList[k];
        assert activeList[..k + 1][..k] == activeList[..k];
        if Intersects(item.ent, activeItem.ent, reach) {
          collisions := collisions + [Collision(item.ent, activeItem.ent)];
        }
        k := k + 1;
      }
      assert activeList[..k] == activeList;
    }

    /** One iteration of the sweep loop, on the active list and the
        collision list. */
    method Visit(activeList: seq<EndPoint>, item: EndPoint, reach: Reach) returns (activeAfter: seq<EndPoint>)
      modifies this
      ensures SweepState(activeAfter, collisions) == Step(SweepState(activeList, old(collisions)), item, reach)
      ensures Unmoved(old(inputStatus), old(inputX), old(inputY), old(playerMove), old(scrollerMove))
    {
      if item.isMin {
        activeAfter := activeList + [item];
      } else {
        activeAfter := RemoveClosing(activeList, item.ent.id);
        TestActive(item, activeAfter, reach);
      }
    }

    /** The sweep over the sorted endpoints: a minimum joins the active
        list; a maximum leaves it and is tested against what remains. */
    method Sweep(sortedX: seq<EndPoint>, reach: Reach)
      modifies this
      ensures collisions == old(collisions) + Run(sortedX, reach).found
      ensures Unmoved(old(inputStatus), old(inputX), old(inputY), old(playerMove), old(scrollerMove))
    {
      var activeList: seq<EndPoint> := [];
      ghost var start := collisions;
      var i := 0;
      while i < |sortedX|
        invariant 0 <= i <= |sortedX|
        invariant SweepState(activeList, collisions) == Offset(start, Run(sortedX[..i], reach))
        invariant Unmoved(old(inputStatus), old(inputX), old(inputY), old(playerMove), old(scrollerMove))
      {
        ghost var st := Run(sortedX[..i], reach);
        RunPrefixStep(sortedX, i, reach);
        StepOffset(start, st, sortedX[i], reach);
        activeList := Visit(activeList, sortedX[i], reach);
        i := i + 1;
      }
      assert sortedX[..i] == sortedX;
    }

    /** Sweep and prune over the frame's objects: build the endpoints, sort
        them, then sweep, appending every collision found.  The player's
        hack range, `lookDirection` and sprite `flipX` are its controller's
        fields. */
    method SweepAndPrune(gameObjects: seq<Entity>, hackRange: real, lookDirection: real, flipX: bool)
      requires hackRange >= 0.0
      modifies this
      ensures collisions == old(collisions)
        + Detect(gameObjects, Reach(old(GetInput(Hack)), hackRange, lookDirection, flipX))
      ensures Unmoved(old(inputStatus), old(inputX), old(inputY), old(playerMove), old(scrollerMove))
    {
      var hack := GetInput(Hack);
      var reach := Reach(hack, hackRange, lookDirection, flipX);
      var unsortedXList := BuildEndpoints(gameObjects, reach);
      var sortedX := SortValues(unsortedXList);
      Sweep(sortedX, reach);
    }

    /** One frame: scan the input, report whether Quit went down, gather the
        player, then the ravens, then the fireballs, clear the collision
        list and run sweep and prune. */
    method Update(horizontal: real, vertical: real, keysDown: set<int>,
                  player: Entity, ravens: seq<Entity>, fireballs: seq<Entity>,
                  hackRange: real, lookDirection: real, flipX: bool) returns (quit: bool)
      requires hackRange >= 0.0
      modifies this
      ensures inputStatus == Refreshed(old(inputStatus), keysDown)
      ensures inputX == horizontal && inputY == vertical
      ensures quit <==> Quit in inputStatus && inputStatus[Quit].key in keysDown
      ensures collisions == Detect([player] + ravens + fireballs,
        Reach(Hack in inputStatus && inputStatus[Hack].key in keysDown, hackRange, lookDirection, flipX))
      ensures playerMove == old(playerMove) && scrollerMove == old(scrollerMove)
    {
      UpdateInput(horizontal, vertical, keysDown);
      RefreshedInput(old(inputStatus), keysDown, Quit);
      RefreshedInput(old(inputStatus), keysDown, Hack);
      quit := GetInput(Quit);
      var gameObjects := [player] + ravens + fireballs;
      collisions := [];
      SweepAndPrune(gameObjects, hackRange, lookDirection, flipX);
    }
  }
}
