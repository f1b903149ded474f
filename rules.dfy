/**
 * The arithmetic rules of src/rooms/MyRoom.ts: board size, how many
 * secrets and tree clusters a board gets, the move step and the dig step.
 */
module Rules {
  import opened Wrappers
  import opened Grid
  import opened Schema

  const DefaultSize := 10
  const MinSize := 3
  const MaxSize := 50
  const MaxDepth := 50
  const MaxIncrement := 10

  /**
   * `onCreate`: a requested width or height (10 when absent), pulled into
   * [3, 50].
   */
  function Dimension(requested: Option<int>): (d: int)
    ensures MinSize <= d <= MaxSize
    ensures requested == None ==> d == DefaultSize
    ensures requested.Some? && MinSize <= requested.value <= MaxSize ==> d == requested.value
    ensures requested.Some? && requested.value < MinSize ==> d == MinSize
    ensures requested.Some? && requested.value > MaxSize ==> d == MaxSize
  {
    Clamp(MinSize, MaxSize, requested.GetOr(DefaultSize))
  }

  /**
   * `Math.max(1, Math.floor(total * rate / 100))`: at least one, otherwise
   * the whole part of `rate` percent of `total`.
   */
  function Quota(total: nat, rate: nat): (n: nat)
    ensures n >= 1
    ensures rate * total >= 100 ==> n * 100 <= rate * total < (n + 1) * 100
    ensures rate * total < 100 ==> n == 1
  {
    Max(1, rate * total / 100)
  }

  /** Gold secrets on a board of `total` cells: 7 percent. */
  function GoldCount(total: nat): nat {
    Quota(total, 7)
  }

  /** Gas secrets on a board of `total` cells: 5 percent. */
  function GasCount(total: nat): nat {
    Quota(total, 5)
  }

  /** Tree clusters on a board of `cells` cells: 5 percent. */
  function ClusterCount(cells: nat): nat {
    Quota(cells, 5)
  }

  /**
   * Every board has more cells than secrets, so the retry loop that looks
   * for a free cell for each secret always has one to find.
   */
  lemma SecretsFit(width: int, height: int)
    requires MinSize <= width <= MaxSize && MinSize <= height <= MaxSize
    ensures GoldCount(width * height) + GasCount(width * height) < width * height
  {
    var total := width * height;
    assert total >= 3 * height >= 9 by {
      assert width * height >= 3 * height;
    }
    assert 7 * total / 100 + 5 * total / 100 <= 12 * total / 100;
  }

  /**
   * Every board has more cells than four times its tree clusters, so the
   * trees, at most four per cluster, never cover it.
   */
  lemma TreesFit(width: int, height: int)
    requires MinSize <= width <= MaxSize && MinSize <= height <= MaxSize
    ensures 4 * ClusterCount(width * height) < width * height
  {
    var total := width * height;
    assert total >= 3 * height >= 9 by {
      assert width * height >= 3 * height;
    }
  }

  /** The payload of a "move" message. */
  datatype MoveData =
    | Text(s: string)          // a key press: "w", "a", "s" or "d"
    | Numbers(dx: int, dy: int) // an object whose `dx` and `dy` are both numbers
    | Other                    // anything else

  /**
   * The step a move message asks for: one cell along one axis for the four
   * keys, the sign of each component for a numeric pair, nothing otherwise.
   */
  function MoveDelta(data: MoveData): (d: (int, int))
    ensures -1 <= d.0 <= 1 && -1 <= d.1 <= 1
    ensures data.Text? ==>
      && (d == (0, -1) <==> data.s == "w")
      && (d == (0, 1) <==> data.s == "s")
      && (d == (-1, 0) <==> data.s == "a")
      && (d == (1, 0) <==> data.s == "d")
      && (d == (0, 0) <==> data.s !in {"w", "s", "a", "d"})
    ensures data.Numbers? ==>
      && (d.0 > 0 <==> data.dx > 0) && (d.0 < 0 <==> data.dx < 0)
      && (d.1 > 0 <==> data.dy > 0) && (d.1 < 0 <==> data.dy < 0)
    ensures data.Other? ==> d == (0, 0)
  {
    match data
    case Text(s) =>
      if s == "w" then (0, -1)
      else if s == "s" then (0, 1)
      else if s == "a" then (-1, 0)
      else if s == "d" then (1, 0)
      else (0, 0)
    case Numbers(dx, dy) => (Sign(dx), Sign(dy))
    case Other => (0, 0)
  }

  /**
   * The cell a step leads to, clamped to the board: always on the board, the
   * stepped cell itself when that is on the board, and never further from a
   * cell on the board than the step.
   */
  function MoveTarget(width: int, height: int, x: int, y: int, d: (int, int)): (t: (int, int))
    requires width >= 1 && height >= 1
    ensures InBounds(width, height, t.0, t.1)
    ensures InBounds(width, height, x + d.0, y + d.1) ==> t == (x + d.0, y + d.1)
    ensures InBounds(width, height, x, y) ==> Abs(t.0 - x) <= Abs(d.0) && Abs(t.1 - y) <= Abs(d.1)
  {
    (Clamp(0, width - 1, x + d.0), Clamp(0, height - 1, y + d.1))
  }

  /**
   * `handleMove` for a player at (x, y): the new cell, or `None` when the
   * clamped target is the current cell or holds a tree.
   */
  function Moved(trees: map<Cell, int>, width: int, height: int, x: int, y: int, data: MoveData): (r: Option<(int, int)>)
    requires width >= 1 && height >= 1
    ensures r.None? <==> MoveTarget(width, height, x, y, MoveDelta(data)) == (x, y)
                         || HasTree(trees, MoveTarget(width, height, x, y, MoveDelta(data)).0,
                                    MoveTarget(width, height, x, y, MoveDelta(data)).1)
    ensures r.Some? ==>
      && InBounds(width, height, r.value.0, r.value.1)
      && !HasTree(trees, r.value.0, r.value.1)
      && r.value != (x, y)
      && (InBounds(width, height, x, y) ==> Chebyshev(x, y, r.value.0, r.value.1) <= 1)
  {
    var t := MoveTarget(width, height, x, y, MoveDelta(data));
    if t == (x, y) || HasTree(trees, t.0, t.1) then None else Some(t)
  }

  /** The payload of a "dig" message. */
  datatype DigData =
    | NoPayload        // `undefined` or `null`
    | Amount(n: int)   // a number
    | Field(d: int)    // an object whose `d` is a number

  /** The amount a dig message asks for, before clamping. */
  function Requested(data: DigData): int {
    match data
    case NoPayload => 1
    case Amount(n) => n
    case Field(d) => d
  }

  /**
   * The depth one dig adds: the requested amount pulled into [1, 10], so a
   * missing payload or a zero digs 1.
   */
  function DigIncrement(data: DigData): (inc: int)
    ensures 1 <= inc <= MaxIncrement
    ensures 1 <= Requested(data) <= MaxIncrement ==> inc == Requested(data)
    ensures Requested(data) < 1 ==> inc == 1
    ensures Requested(data) > MaxIncrement ==> inc == MaxIncrement
    ensures data == NoPayload ==> inc == 1
  {
    Clamp(1, MaxIncrement, Requested(data))
  }

  /**
   * The new depth of a pit: the sum, capped at 50.  Digging a pit that is
   * not deeper than 50 never makes it shallower and never takes it past 50.
   */
  function NextDepth(current: int, inc: int): (r: int)
    ensures r <= MaxDepth
    ensures current + inc <= MaxDepth ==> r == current + inc
    ensures current + inc > MaxDepth ==> r == MaxDepth
    ensures current <= MaxDepth && inc >= 0 ==> current <= r
  {
    Min(MaxDepth, current + inc)
  }

  function Sum(s: seq<int>): int {
    if |s| == 0 then 0 else s[0] + Sum(s[1..])
  }

  predicate Increments(incs: seq<int>) {
    forall i :: 0 <= i < |incs| ==> 1 <= incs[i] <= MaxIncrement
  }

  /** The depth of a pit after digs of the given increments, in order. */
  function DigAll(depth: int, incs: seq<int>): int
    decreases |incs|
  {
    if |incs| == 0 then depth else DigAll(NextDepth(depth, incs[0]), incs[1..])
  }

  /**
   * However the digs are split, a pit ends at the total dug, capped at 50:
   * the cap is reached once and for all, never overshot.
   */
  lemma {:induction false} DigAllCapped(depth: int, incs: seq<int>)
    requires 0 <= depth <= MaxDepth && Increments(incs)
    ensures DigAll(depth, incs) == Min(MaxDepth, depth + Sum(incs))
    decreases |incs|
  {
    if |incs| > 0 {
      DigAllCapped(NextDepth(depth, incs[0]), incs[1..]);
      SumNonNegative(incs[1..]);
    }
  }

  /** Depth never decreases from one dig to the next. */
  lemma {:induction false} DigAllMonotone(depth: int, incs: seq<int>, k: nat)
    requires 0 <= depth <= MaxDepth && Increments(incs) && k <= |incs|
    ensures depth <= DigAll(depth, incs[..k]) <= DigAll(depth, incs) <= MaxDepth
  {
    DigAllCapped(depth, incs[..k]);
    DigAllCapped(depth, incs);
    SumPrefix(incs, k);
  }

  lemma {:induction false} SumPrefix(incs: seq<int>, k: nat)
    requires Increments(incs) && k <= |incs|
    ensures 0 <= Sum(incs[..k]) <= Sum(incs)
    decreases k
  {
    if k == 0 {
      SumNonNegative(incs);
    } else {
      assert incs[..k][1..] == incs[1..][..k - 1];
      SumPrefix(incs[1..], k - 1);
    }
  }

  lemma {:induction false} SumNonNegative(incs: seq<int>)
    requires Increments(incs)
    ensures Sum(incs) >= 0
    decreases |incs|
  {
    if |incs| > 0 {
      SumNonNegative(incs[1..]);
    }
  }

  /** A secret fires when it is still unconsumed and the pit has reached its depth. */
  predicate Fires(s: Option<Secret>, depth: int) {
    s.Some? && !s.value.consumed && depth >= s.value.depth
  }

  /** The outcome of one dig at a player's cell. */
  datatype DigResult = DigResult(depth: int, secret: Option<Secret>, player: Player, found: Option<Found>)

  /**
   * `handleDig` for player `p` on a pit of depth `current` holding `secret`:
   * the pit deepens; an unconsumed secret the pit has reached is consumed
   * and gives exactly one gold or sets poisoned, and is announced; otherwise
   * nothing else changes.
   */
  function Dig(p: Player, current: int, secret: Option<Secret>, data: DigData): (r: DigResult)
    ensures r.depth == NextDepth(current, DigIncrement(data))
    ensures r.found.Some? <==> Fires(secret, r.depth)
    ensures !Fires(secret, r.depth) ==> r.player == p && r.secret == secret
    ensures Fires(secret, r.depth) ==>
      && r.secret == Some(secret.value.(consumed := true))
      && r.player.(gold := p.gold, poisoned := p.poisoned) == p
    ensures Fires(secret, r.depth) && secret.value.kind == Gold ==>
      && r.player.gold == p.gold + 1 && r.player.poisoned == p.poisoned
      && r.found == Some(Found(Gold, p.x, p.y, secret.value.depth, p.name, Some(p.gold + 1)))
    ensures Fires(secret, r.depth) && secret.value.kind == Gas ==>
      && r.player.gold == p.gold && r.player.poisoned
      && r.found == Some(Found(Gas, p.x, p.y, secret.value.depth, p.name, None))
  {
    var depth := NextDepth(current, DigIncrement(data));
    if Fires(secret, depth) then
      var s := secret.value;
      match s.kind
      case Gold =>
        var q := p.(gold := p.gold + 1);
        DigResult(depth, Some(s.(consumed := true)), q, Some(Found(Gold, p.x, p.y, s.depth, p.name, Some(q.gold))))
      case Gas =>
        DigResult(depth, Some(s.(consumed := true)), p.(poisoned := true), Some(Found(Gas, p.x, p.y, s.depth, p.name, None)))
    else
      DigResult(depth, secret, p, None)
  }

  /** How many times a secret fires while its pit is dug with the given increments, in order. */
  function FireCount(s: Secret, depth: int, incs: seq<int>): nat
    decreases |incs|
  {
    if |incs| == 0 then 0
    else
      var next := NextDepth(depth, incs[0]);
      var fired := Fires(Some(s), next);
      (if fired then 1 else 0) + FireCount(if fired then s.(consumed := true) else s, next, incs[1..])
  }

  /**
   * A secret fires at most once over any sequence of digs, and it fires
   * exactly when it was unconsumed, at least one dig happens and the pit
   * ends at least as deep as the secret.
   */
  lemma {:induction false} FiresAtMostOnce(s: Secret, depth: int, incs: seq<int>)
    requires 0 <= depth <= MaxDepth && Increments(incs)
    ensures FireCount(s, depth, incs) <= 1
    ensures FireCount(s, depth, incs) == 1 <==> !s.consumed && |incs| > 0 && s.depth <= DigAll(depth, incs)
    decreases |incs|
  {
    if |incs| > 0 {
      var next := NextDepth(depth, incs[0]);
      if Fires(Some(s), next) {
        NeverAgain(s.(consumed := true), next, incs[1..]);
        DigAllGrows(next, incs[1..]);
      } else {
        FiresAtMostOnce(s, next, incs[1..]);
      }
    }
  }

  lemma {:induction false} NeverAgain(s: Secret, depth: int, incs: seq<int>)
    requires s.consumed
    ensures FireCount(s, depth, incs) == 0
    decreases |incs|
  {
    if |incs| > 0 {
      NeverAgain(s, NextDepth(depth, incs[0]), incs[1..]);
    }
  }

  lemma {:induction false} DigAllGrows(depth: int, incs: seq<int>)
    requires depth <= MaxDepth && Increments(incs)
    ensures depth <= DigAll(depth, incs) <= MaxDepth
    decreases |incs|
  {
    if |incs| > 0 {
      DigAllGrows(NextDepth(depth, incs[0]), incs[1..]);
    }
  }

  /** The amounts a series of dig messages digs, in order. */
  function Amounts(digs: seq<DigData>): (incs: seq<int>)
    ensures |incs| == |digs| && Increments(incs)
    ensures forall i :: 0 <= i < |digs| ==> incs[i] == DigIncrement(digs[i])
  {
    if |digs| == 0 then [] else [DigIncrement(digs[0])] + Amounts(digs[1..])
  }

  /**
   * The "found" broadcasts of a series of dig messages by one player on one
   * pit, each `handleDig` starting from the outcome of the one before.
   */
  function Announcements(p: Player, depth: int, secret: Option<Secret>, digs: seq<DigData>): nat
    decreases |digs|
  {
    if |digs| == 0 then 0
    else
      var r := Dig(p, depth, secret, digs[0]);
      (if r.found.Some? then 1 else 0) + Announcements(r.player, r.depth, r.secret, digs[1..])
  }

  /** Repeated `Dig`s announce a secret as often as `FireCount` counts for their amounts. */
  lemma {:induction false} AnnouncementsCounted(p: Player, depth: int, s: Secret, digs: seq<DigData>)
    ensures Announcements(p, depth, Some(s), digs) == FireCount(s, depth, Amounts(digs))
    decreases |digs|
  {
    if |digs| > 0 {
      var r := Dig(p, depth, Some(s), digs[0]);
      assert Amounts(digs)[0] == DigIncrement(digs[0]);
      assert Amounts(digs)[1..] == Amounts(digs[1..]);
      AnnouncementsCounted(r.player, r.depth, r.secret.value, digs[1..]);
    }
  }

  /**
   * However a player digs a pit, its secret is announced at most once, and
   * exactly when it was unconsumed, the player dug at least once and the pit
   * reached the secret's depth.
   */
  lemma AnnouncedAtMostOnce(p: Player, depth: int, s: Secret, digs: seq<DigData>)
    requires 0 <= depth <= MaxDepth
    ensures Announcements(p, depth, Some(s), digs) <= 1
    ensures Announcements(p, depth, Some(s), digs) == 1 <==>
      !s.consumed && |digs| > 0 && s.depth <= DigAll(depth, Amounts(digs))
  {
    AnnouncementsCounted(p, depth, s, digs);
    FiresAtMostOnce(s, depth, Amounts(digs));
  }
}
