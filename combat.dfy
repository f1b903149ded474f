/**
 * Combat resolution in src/rooms/MyRoom.ts (`resolveCombatAround`,
 * `findNearestAlive` and the gold transfer of `killPlayer`), on the
 * players map seen as its insertion order of session ids plus the record
 * under each id.
 */
module Combat {
  import opened Wrappers
  import opened Grid
  import opened JsString
  import opened Schema
  import opened Sight

  /** The players map: `order` lists its session ids once each, in insertion order. */
  predicate Registry(order: seq<string>, players: map<string, Player>) {
    && Distinct(order)
    && (forall sid :: sid in players ==> sid in order)
    && (forall i :: 0 <= i < |order| ==> order[i] in players)
  }

  /** No session id is listed twice. */
  predicate Distinct(order: seq<string>) {
    forall i, j :: 0 <= i < j < |order| ==> order[i] != order[j]
  }

  /** Every id of `order` has a record. */
  predicate Listed(order: seq<string>, players: map<string, Player>) {
    forall i :: 0 <= i < |order| ==> order[i] in players
  }

  /** `other` is an opponent of `mover` that `mover` can see. */
  predicate Threatens(trees: map<Cell, int>, moverSid: string, mover: Player, sid: string, other: Player) {
    && sid != moverSid
    && other.tribe != mover.tribe
    && Visible(trees, mover.x, mover.y, other.x, other.y)
  }

  /** An entry of the `threats` list. */
  datatype Threat = Threat(sid: string, dist: nat)

  /** The `threats` list of a movement: the visible opponents of the mover, in map order, with their Chebyshev distance. */
  function Threats(order: seq<string>, players: map<string, Player>, trees: map<Cell, int>, moverSid: string, mover: Player): seq<Threat>
    requires Listed(order, players)
  {
    if |order| == 0 then []
    else
      var init := order[..|order| - 1];
      var sid := order[|order| - 1];
      var other := players[sid];
      var rest := Threats(init, players, trees, moverSid, mover);
      if Threatens(trees, moverSid, mover, sid, other)
      then rest + [Threat(sid, Chebyshev(mover.x, mover.y, other.x, other.y))]
      else rest
  }

  /**
   * The list holds exactly the visible opponents: each entry is one, at its
   * distance, and every visible opponent has an entry.
   */
  lemma {:induction false} ThreatsExact(order: seq<string>, players: map<string, Player>, trees: map<Cell, int>, moverSid: string, mover: Player, ts: seq<Threat>)
    requires Listed(order, players)
    requires ts == Threats(order, players, trees, moverSid, mover)
    ensures
      && (forall k :: 0 <= k < |ts| ==>
            ts[k].sid in order && ts[k].sid in players
            && Threatens(trees, moverSid, mover, ts[k].sid, players[ts[k].sid])
            && ts[k].dist == Chebyshev(mover.x, mover.y, players[ts[k].sid].x, players[ts[k].sid].y))
      && (forall i :: 0 <= i < |order| && Threatens(trees, moverSid, mover, order[i], players[order[i]]) ==>
            exists k :: 0 <= k < |ts| && ts[k].sid == order[i])
  {
    if |order| > 0 {
      var n := |order| - 1;
      var init := order[..n];
      assert forall i :: 0 <= i < n ==> init[i] == order[i];
      var rest := Threats(init, players, trees, moverSid, mover);
      ThreatsExact(init, players, trees, moverSid, mover, rest);
      assert forall k :: 0 <= k < |rest| ==> ts[k] == rest[k] && rest[k].sid in init;
      forall i | 0 <= i < |order| && Threatens(trees, moverSid, mover, order[i], players[order[i]])
        ensures exists k :: 0 <= k < |ts| && ts[k].sid == order[i]
      {
        if i == n {
          assert ts[|ts| - 1].sid == order[i];
        } else {
          assert init[i] == order[i];
          var k :| 0 <= k < |rest| && rest[k].sid == init[i];
          assert ts[k].sid == order[i];
        }
      }
    }
  }

  /** The loop of `resolveCombatAround` that collects the threats to the mover. */
  method CollectThreats(order: seq<string>, players: map<string, Player>, trees: map<Cell, int>, moverSid: string, mover: Player)
    returns (threats: seq<Threat>)
    requires Listed(order, players)
    ensures threats == Threats(order, players, trees, moverSid, mover)
  {
    threats := [];
    var i := 0;
    while i < |order|
      invariant 0 <= i <= |order|
      invariant threats == Threats(order[..i], players, trees, moverSid, mover)
    {
      var sid := order[i];
      var other := players[sid];
      assert order[..i + 1][..i] == order[..i];
      if sid != moverSid && other.tribe != mover.tribe {
        var seen := InLineOfSight(trees, mover.x, mover.y, other.x, other.y);
        if seen {
          threats := threats + [Threat(sid, Chebyshev(mover.x, mover.y, other.x, other.y))];
        }
      }
      i := i + 1;
    }
    assert order[..i] == order;
  }

  /**
   * `threats.sort((a, b) => a.dist - b.dist)[0]`: the sort is stable, so
   * this is the first entry of least distance.
   */
  function FirstClosest(ts: seq<Threat>): (i: nat)
    requires |ts| > 0
    ensures i < |ts|
    ensures forall j :: 0 <= j < |ts| ==> ts[i].dist <= ts[j].dist
    ensures forall j :: 0 <= j < i ==> ts[i].dist < ts[j].dist
  {
    if |ts| == 1 then 0
    else
      var k := FirstClosest(ts[..|ts| - 1]);
      if ts[|ts| - 1].dist < ts[k].dist then |ts| - 1 else k
  }

  /** The ambient scan visits (sidA, sidB) and fires when sidA < sidB, the tribes differ and A sees B. */
  predicate Eligible(order: seq<string>, players: map<string, Player>, trees: map<Cell, int>, i: int, j: int)
    requires Listed(order, players)
    requires 0 <= i < |order| && 0 <= j < |order|
  {
    var a, b := players[order[i]], players[order[j]];
    && StrLt(order[i], order[j])
    && a.tribe != b.tribe
    && Visible(trees, a.x, a.y, b.x, b.y)
  }

  /** (i, j) comes no later than (k, l) in the scan order: row by row, then column by column. */
  predicate NotAfter(i: int, j: int, k: int, l: int) {
    i < k || (i == k && j <= l)
  }

  /**
   * The nested loops of the ambient scan, resumed at row `i`, column `j`:
   * the first eligible pair at or after (i, j), if any.
   */
  function ScanFrom(order: seq<string>, players: map<string, Player>, trees: map<Cell, int>, i: nat, j: nat): (r: Option<(nat, nat)>)
    requires Listed(order, players)
    requires i <= |order| && j <= |order|
    ensures r.Some? ==> r.value.0 < |order| && r.value.1 < |order|
    decreases |order| - i, |order| - j
  {
    if i == |order| then None
    else if j == |order| then ScanFrom(order, players, trees, i + 1, 0)
    else if Eligible(order, players, trees, i, j) then Some((i, j))
    else ScanFrom(order, players, trees, i, j + 1)
  }

  /**
   * The scan from (i, j) finds an eligible pair no earlier than (i, j), and
   * no pair from (i, j) up to the one found (or to the end, when none is
   * found) is eligible.
   */
  lemma {:induction false} ScanFromFirst(order: seq<string>, players: map<string, Player>, trees: map<Cell, int>, i: nat, j: nat)
    requires Listed(order, players)
    requires i <= |order| && j <= |order|
    ensures var r := ScanFrom(order, players, trees, i, j);
      && (r.Some? ==> Eligible(order, players, trees, r.value.0, r.value.1) && NotAfter(i, j, r.value.0, r.value.1))
      && (forall k, l ::
            (0 <= k < |order| && 0 <= l < |order| && NotAfter(i, j, k, l)
             && (r.None? || (NotAfter(k, l, r.value.0, r.value.1) && (k, l) != r.value)))
            ==> !Eligible(order, players, trees, k, l))
    decreases |order| - i, |order| - j
  {
    if i == |order| {
    } else if j == |order| {
      ScanFromFirst(order, players, trees, i + 1, 0);
    } else if !Eligible(order, players, trees, i, j) {
      ScanFromFirst(order, players, trees, i, j + 1);
    }
  }

  /** The ambient scan of `resolveCombatAround`: the first eligible pair, in map order. */
  method FirstVisiblePair(order: seq<string>, players: map<string, Player>, trees: map<Cell, int>) returns (r: Option<(nat, nat)>)
    requires Listed(order, players)
    ensures r == ScanFrom(order, players, trees, 0, 0)
  {
    var i := 0;
    while i < |order|
      invariant 0 <= i <= |order|
      invariant ScanFrom(order, players, trees, i, 0) == ScanFrom(order, players, trees, 0, 0)
    {
      var j := 0;
      while j < |order|
        invariant 0 <= j <= |order|
        invariant ScanFrom(order, players, trees, i, j) == ScanFrom(order, players, trees, 0, 0)
      {
        var sidA, sidB := order[i], order[j];
        var a, b := players[sidA], players[sidB];
        if StrLt(sidA, sidB) && a.tribe != b.tribe {
          var seen := InLineOfSight(trees, a.x, a.y, b.x, b.y);
          if seen {
            return Some((i, j));
          }
        }
        j := j + 1;
      }
      i := i + 1;
    }
    return None;
  }

  /** `joinedAt.get(sid) || 0`. */
  function JoinedOr0(joinedAt: map<string, int>, sid: string): int {
    if sid in joinedAt then joinedAt[sid] else 0
  }

  /** The result of one `resolveCombatAround`: nobody dies, or one victim is shot. */
  datatype Outcome = Peace | Kill(victim: string, shooter: string)

  /** A session id that JavaScript's `if (id)` accepts: present and not empty. */
  predicate Truthy(id: Option<string>) {
    id.Some? && id.value != ""
  }

  /** The ambient scan's verdict: the earlier joiner of the first eligible pair shoots the other. */
  function Ambient(order: seq<string>, players: map<string, Player>, joinedAt: map<string, int>, trees: map<Cell, int>): Outcome
    requires Listed(order, players)
  {
    match ScanFrom(order, players, trees, 0, 0)
    case None => Peace
    case Some((i, j)) =>
      var sidA, sidB := order[i], order[j];
      if JoinedOr0(joinedAt, sidA) <= JoinedOr0(joinedAt, sidB) then Kill(sidB, sidA) else Kill(sidA, sidB)
  }

  /**
   * `resolveCombatAround(_, movedBy)`: nothing with at most one player and
   * nothing when the mover is gone; after a move, the closest opponent the
   * mover sees shoots the mover; otherwise, and also after a move from which
   * the mover sees no opponent, the ambient scan decides.
   */
  function Resolve(order: seq<string>, players: map<string, Player>, joinedAt: map<string, int>, trees: map<Cell, int>, movedBy: Option<string>): Outcome
    requires Registry(order, players)
  {
    if |players| <= 1 then Peace
    else if Truthy(movedBy) && movedBy.value !in players then Peace
    else
      var ts := if Truthy(movedBy) then Threats(order, players, trees, movedBy.value, players[movedBy.value]) else [];
      if |ts| > 0 then Kill(movedBy.value, ts[FirstClosest(ts)].sid)
      else Ambient(order, players, joinedAt, trees)
  }

  /** With at most one player, or a mover that is no longer there, nobody is shot. */
  lemma QuietRoom(order: seq<string>, players: map<string, Player>, joinedAt: map<string, int>, trees: map<Cell, int>, movedBy: Option<string>)
    requires Registry(order, players)
    requires |players| <= 1 || (Truthy(movedBy) && movedBy.value !in players)
    ensures Resolve(order, players, joinedAt, trees, movedBy) == Peace
  {
  }

  /** A kill of the ambient scan is between two different players of different tribes. */
  lemma AmbientOpponents(order: seq<string>, players: map<string, Player>, joinedAt: map<string, int>, trees: map<Cell, int>)
    requires Listed(order, players)
    ensures match Ambient(order, players, joinedAt, trees)
      case Peace => true
      case Kill(v, s) => v in players && s in players && v != s && players[v].tribe != players[s].tribe
  {
    ScanFromFirst(order, players, trees, 0, 0);
    match ScanFrom(order, players, trees, 0, 0)
    case None =>
    case Some((i, j)) =>
      StrLtTrichotomy(order[i], order[j]);
  }

  /**
   * Every kill is between two different players of different tribes, both
   * still in the room.
   */
  lemma KillBetweenOpponents(order: seq<string>, players: map<string, Player>, joinedAt: map<string, int>, trees: map<Cell, int>, movedBy: Option<string>)
    requires Registry(order, players)
    ensures match Resolve(order, players, joinedAt, trees, movedBy)
      case Peace => true
      case Kill(v, s) => v in players && s in players && v != s && players[v].tribe != players[s].tribe
  {
    if |players| > 1 && !(Truthy(movedBy) && movedBy.value !in players) {
      AmbientOpponents(order, players, joinedAt, trees);
      if Truthy(movedBy) {
        var m := movedBy.value;
        var ts := Threats(order, players, trees, m, players[m]);
        ThreatsExact(order, players, trees, m, players[m], ts);
        if |ts| > 0 {
          var c := FirstClosest(ts);
          assert Threatens(trees, m, players[m], ts[c].sid, players[ts[c].sid]);
        }
      }
    }
  }

  /** After a move whose threat list is not empty, the resolution is the closest threat shooting the mover. */
  lemma SeenMoveResolves(order: seq<string>, players: map<string, Player>, joinedAt: map<string, int>, trees: map<Cell, int>, m: string, ts: seq<Threat>)
    requires Registry(order, players) && |players| > 1 && m != "" && m in players
    requires ts == Threats(order, players, trees, m, players[m]) && |ts| > 0
    ensures Resolve(order, players, joinedAt, trees, Some(m)) == Kill(m, ts[FirstClosest(ts)].sid)
  {
  }

  /**
   * After a move from which the mover sees some opponent, the mover is shot,
   * by an opponent it sees that is no further away than any other it sees.
   */
  lemma MoverShotByClosest(order: seq<string>, players: map<string, Player>, joinedAt: map<string, int>, trees: map<Cell, int>, m: string)
    requires Registry(order, players) && |players| > 1 && m != "" && m in players
    requires exists i :: 0 <= i < |order| && Threatens(trees, m, players[m], order[i], players[order[i]])
    ensures Resolve(order, players, joinedAt, trees, Some(m)).Kill?
    ensures var o := Resolve(order, players, joinedAt, trees, Some(m));
      && o.victim == m
      && o.shooter in players
      && Threatens(trees, m, players[m], o.shooter, players[o.shooter])
      && (forall i :: 0 <= i < |order| && Threatens(trees, m, players[m], order[i], players[order[i]]) ==>
            Chebyshev(players[m].x, players[m].y, players[o.shooter].x, players[o.shooter].y)
            <= Chebyshev(players[m].x, players[m].y, players[order[i]].x, players[order[i]].y))
  {
    var ts := Threats(order, players, trees, m, players[m]);
    ClosestThreat(order, players, trees, m, players[m], ts);
    SeenMoveResolves(order, players, joinedAt, trees, m, ts);
  }

  /** The first closest entry of the threat list is a visible opponent no further away than any other. */
  lemma ClosestThreat(order: seq<string>, players: map<string, Player>, trees: map<Cell, int>, m: string, mover: Player, ts: seq<Threat>)
    requires Listed(order, players) && ts == Threats(order, players, trees, m, mover)
    requires exists i :: 0 <= i < |order| && Threatens(trees, m, mover, order[i], players[order[i]])
    ensures |ts| > 0
    ensures var s := ts[FirstClosest(ts)].sid;
      && s in players && Threatens(trees, m, mover, s, players[s])
      && (forall i :: 0 <= i < |order| && Threatens(trees, m, mover, order[i], players[order[i]]) ==>
            Chebyshev(mover.x, mover.y, players[s].x, players[s].y)
            <= Chebyshev(mover.x, mover.y, players[order[i]].x, players[order[i]].y))
  {
    ThreatsExact(order, players, trees, m, mover, ts);
    var i0 :| 0 <= i0 < |order| && Threatens(trees, m, mover, order[i0], players[order[i0]]);
    var k0 :| 0 <= k0 < |ts| && ts[k0].sid == order[i0];
    var c := FirstClosest(ts);
    forall i | 0 <= i < |order| && Threatens(trees, m, mover, order[i], players[order[i]])
      ensures Chebyshev(mover.x, mover.y, players[ts[c].sid].x, players[ts[c].sid].y)
              <= Chebyshev(mover.x, mover.y, players[order[i]].x, players[order[i]].y)
    {
      var k :| 0 <= k < |ts| && ts[k].sid == order[i];
      assert ts[c].dist <= ts[k].dist;
    }
  }

  /**
   * A move from which the mover sees no opponent does not end the
   * resolution: it falls through to the ambient scan, exactly as a join does.
   */
  lemma UnseenMoveFallsThrough(order: seq<string>, players: map<string, Player>, joinedAt: map<string, int>, trees: map<Cell, int>, m: string)
    requires Registry(order, players) && m in players
    requires forall i :: 0 <= i < |order| ==> !Threatens(trees, m, players[m], order[i], players[order[i]])
    ensures Resolve(order, players, joinedAt, trees, Some(m)) == Resolve(order, players, joinedAt, trees, None)
  {
    ThreatsExact(order, players, trees, m, players[m], Threats(order, players, trees, m, players[m]));
  }

  /**
   * Without a move, the shooter is the earlier joiner (join time 0 when
   * unknown) of the first pair, in map order, whose smaller id sees the
   * larger one across tribes, the smaller id on equal join times; no
   * earlier pair qualifies.
   */
  lemma AmbientShooterJoinedFirst(order: seq<string>, players: map<string, Player>, joinedAt: map<string, int>, trees: map<Cell, int>)
    requires Registry(order, players)
    ensures match Resolve(order, players, joinedAt, trees, None)
      case Peace => |players| <= 1 || forall i, j :: 0 <= i < |order| && 0 <= j < |order| ==> !Eligible(order, players, trees, i, j)
      case Kill(v, s) =>
        exists i, j :: 0 <= i < |order| && 0 <= j < |order|
             && s == (if JoinedOr0(joinedAt, order[i]) <= JoinedOr0(joinedAt, order[j]) then order[i] else order[j])
             && v == (if s == order[i] then order[j] else order[i])
             && Eligible(order, players, trees, i, j)
             && forall k, l :: 0 <= k < |order| && 0 <= l < |order| && NotAfter(k, l, i, j) && (k, l) != (i, j)
                  ==> !Eligible(order, players, trees, k, l)
  {
    if |players| > 1 {
      ScanFromFirst(order, players, trees, 0, 0);
      match ScanFrom(order, players, trees, 0, 0)
      case None =>
      case Some((i, j)) =>
        assert Resolve(order, players, joinedAt, trees, None) == Ambient(order, players, joinedAt, trees);
    }
  }

  /** The Manhattan distance between two players. */
  function Apart(p: Player, q: Player): nat {
    Manhattan(p.x, p.y, q.x, q.y)
  }

  /**
   * `findNearestAlive`: the index of the first other player of least
   * Manhattan distance from `from`, or `None` when there is no other player.
   */
  function Nearest(order: seq<string>, players: map<string, Player>, fromSid: string, from: Player): (r: Option<nat>)
    requires Listed(order, players)
    ensures r.Some? ==> r.value < |order| && order[r.value] != fromSid
  {
    if |order| == 0 then None
    else
      var n := |order| - 1;
      var best := Nearest(order[..n], players, fromSid, from);
      if order[n] == fromSid then best
      else if best.None? || Apart(players[order[n]], from) < Apart(players[order[best.value]], from) then Some(n)
      else best
  }

  /**
   * The index found is of a player no further from `from` than any other
   * player and strictly nearer than every other player listed before it;
   * none is found exactly when no other player is listed.
   */
  lemma {:induction false} NearestIsNearest(order: seq<string>, players: map<string, Player>, fromSid: string, from: Player)
    requires Listed(order, players)
    ensures var r := Nearest(order, players, fromSid, from);
      && (r.Some? ==>
            && (forall j :: 0 <= j < |order| && order[j] != fromSid ==>
                  Apart(players[order[r.value]], from) <= Apart(players[order[j]], from))
            && (forall j :: 0 <= j < r.value && order[j] != fromSid ==>
                  Apart(players[order[r.value]], from) < Apart(players[order[j]], from)))
      && (r.None? <==> forall j :: 0 <= j < |order| ==> order[j] == fromSid)
  {
    if |order| > 0 {
      var n := |order| - 1;
      assert forall j :: 0 <= j < n ==> order[..n][j] == order[j];
      NearestIsNearest(order[..n], players, fromSid, from);
    }
  }

  /** The id `findNearestAlive(fromSid)` returns: another player of the map, if any. */
  function NearestId(order: seq<string>, players: map<string, Player>, fromSid: string): (r: Option<string>)
    requires Listed(order, players)
    ensures r.Some? ==> r.value in players && r.value != fromSid
    ensures r.None? <==> fromSid !in players || forall j :: 0 <= j < |order| ==> order[j] == fromSid
  {
    if fromSid !in players then None
    else
      NearestIsNearest(order, players, fromSid, players[fromSid]);
      match Nearest(order, players, fromSid, players[fromSid])
      case None => None
      case Some(i) => Some(order[i])
  }

  /** The loop of `findNearestAlive`, keeping the best candidate so far. */
  method FindNearestAlive(order: seq<string>, players: map<string, Player>, fromSid: string) returns (r: Option<string>)
    requires Listed(order, players)
    ensures r == NearestId(order, players, fromSid)
  {
    if fromSid !in players {
      return None;
    }
    var from := players[fromSid];
    var best: Option<(nat, nat)> := None;
    var i := 0;
    while i < |order|
      invariant 0 <= i <= |order|
      invariant Listed(order[..i], players)
      invariant match Nearest(order[..i], players, fromSid, from)
        case None => best == None
        case Some(k) => best == Some((k, Apart(players[order[k]], from))) && k < i
    {
      assert order[..i + 1][..i] == order[..i];
      var sid := order[i];
      if sid != fromSid {
        var p := players[sid];
        var d := Manhattan(p.x, p.y, from.x, from.y);
        if best.None? || d < best.value.1 {
          best := Some((i, d));
        }
      }
      i := i + 1;
    }
    assert order[..i] == order;
    if best.Some? {
      return Some(order[best.value.0]);
    }
    return None;
  }

  /** The insertion order of the players map after `delete(sid)`. */
  function Without(order: seq<string>, sid: string): (r: seq<string>)
    ensures |r| <= |order|
    ensures forall x :: x in r <==> x in order && x != sid
  {
    if |order| == 0 then []
    else if order[0] == sid then Without(order[1..], sid)
    else [order[0]] + Without(order[1..], sid)
  }

  /** Deleting from a concatenation deletes from each part. */
  lemma {:induction false} WithoutConcat(a: seq<string>, b: seq<string>, sid: string)
    ensures Without(a + b, sid) == Without(a, sid) + Without(b, sid)
  {
    if |a| == 0 {
      assert a + b == b;
    } else {
      var t := a[1..] + b;
      assert a + b == [a[0]] + t;
      WithoutConcat(a[1..], b, sid);
    }
  }

  /** Deleting an id keeps every other pair of ids in their relative order. */
  lemma WithoutKeepsOrder(order: seq<string>, sid: string, i: nat, j: nat)
    requires i < j < |order| && order[i] != sid && order[j] != sid
    ensures var r := Without(order, sid);
      exists k, l :: 0 <= k < l < |r| && r[k] == order[i] && r[l] == order[j]
  {
    var front, back := order[..j], order[j..];
    assert order == front + back;
    WithoutConcat(front, back, sid);
    var wf := Without(front, sid);
    assert front[i] == order[i] && order[i] in front;
    assert order[i] in wf;
    var k :| 0 <= k < |wf| && wf[k] == order[i];
    assert Without(back, sid) == [order[j]] + Without(back[1..], sid);
    var r := Without(order, sid);
    assert r[k] == order[i] && r[|wf|] == order[j];
  }

  /** The gold of the players listed in `order`. */
  function TotalGold(order: seq<string>, players: map<string, Player>): int
    requires Listed(order, players)
  {
    if |order| == 0 then 0 else players[order[0]].gold + TotalGold(order[1..], players)
  }

  /**
   * The player records after `killPlayer(victim, _)`: the receiver, when
   * there is one, gains the victim's gold; the victim is removed.
   */
  function AfterKill(players: map<string, Player>, victim: string, receiver: Option<string>): map<string, Player>
    requires victim in players
  {
    var gained :=
      if Truthy(receiver) && receiver.value in players
      then players[receiver.value := players[receiver.value].(gold := players[receiver.value].gold + players[victim].gold)]
      else players;
    gained - {victim}
  }

  /** Replacing one record changes the total by the change of that record's gold, when it is listed. */
  lemma {:induction false} GoldAfterUpdate(order: seq<string>, players: map<string, Player>, r: string, q: Player)
    requires Listed(order, players) && Distinct(order)
    ensures Listed(order, players[r := q])
    ensures TotalGold(order, players[r := q]) ==
      TotalGold(order, players) + (if r in order then q.gold - (if r in players then players[r].gold else 0) else 0)
  {
    if |order| > 0 {
      GoldAfterUpdate(order[1..], players, r, q);
      assert r in order[1..] ==> order[0] != r;
    }
  }

  /** Removing a listed id once removes exactly its gold from the total. */
  lemma {:induction false} GoldWithout(order: seq<string>, players: map<string, Player>, v: string)
    requires Listed(order, players) && Distinct(order)
    ensures Listed(Without(order, v), players - {v})
    ensures TotalGold(Without(order, v), players - {v}) ==
      TotalGold(order, players) - (if v in order then players[v].gold else 0)
  {
    if |order| > 0 {
      GoldWithout(order[1..], players, v);
      if order[0] == v {
        assert v !in order[1..];
        GoldUntouched(order[1..], players, v);
      }
    }
  }

  /** Removing an id that is not listed does not change the total. */
  lemma {:induction false} GoldUntouched(order: seq<string>, players: map<string, Player>, v: string)
    requires Listed(order, players) && v !in order
    ensures Without(order, v) == order
    ensures Listed(order, players - {v})
    ensures TotalGold(order, players - {v}) == TotalGold(order, players)
  {
    if |order| > 0 {
      GoldUntouched(order[1..], players, v);
    }
  }

  /**
   * A kill moves the victim's gold to the receiver: when there is one, the
   * room's total gold is unchanged; without one, the victim's gold is lost.
   */
  lemma KillMovesGold(order: seq<string>, players: map<string, Player>, victim: string, receiver: Option<string>)
    requires Registry(order, players) && victim in players
    requires receiver.Some? ==> receiver.value != victim
    ensures Listed(Without(order, victim), AfterKill(players, victim, receiver))
    ensures TotalGold(Without(order, victim), AfterKill(players, victim, receiver)) ==
      TotalGold(order, players) - (if Truthy(receiver) && receiver.value in players then 0 else players[victim].gold)
  {
    if Truthy(receiver) && receiver.value in players {
      var r := receiver.value;
      var q := players[r].(gold := players[r].gold + players[victim].gold);
      var updated := players[r := q];
      assert AfterKill(players, victim, receiver) == updated - {victim};
      GoldAfterUpdate(order, players, r, q);
      assert TotalGold(order, updated) == TotalGold(order, players) + players[victim].gold;
      GoldWithout(order, updated, victim);
      assert updated[victim] == players[victim];
    } else {
      assert AfterKill(players, victim, receiver) == players - {victim};
      GoldWithout(order, players, victim);
    }
  }

  /**
   * After a kill the victim is gone and every other player remains, listed
   * exactly once and changed at most in gold.
   */
  lemma KillKeepsRegistry(order: seq<string>, players: map<string, Player>, victim: string, receiver: Option<string>)
    requires Registry(order, players) && victim in players
    ensures Registry(Without(order, victim), AfterKill(players, victim, receiver))
    ensures AfterKill(players, victim, receiver).Keys == players.Keys - {victim}
    ensures forall sid :: sid in AfterKill(players, victim, receiver) ==>
      sid in players && AfterKill(players, victim, receiver)[sid] == players[sid].(gold := AfterKill(players, victim, receiver)[sid].gold)
  {
    WithoutDistinct(order, victim);
    var after := AfterKill(players, victim, receiver);
    assert after.Keys == players.Keys - {victim};
    var w := Without(order, victim);
    forall sid | sid in after ensures sid in w {
      assert sid in players && sid != victim;
    }
    forall i | 0 <= i < |w| ensures w[i] in after {
      assert w[i] in order && w[i] != victim;
    }
  }

  /** Removing an id keeps the other ids listed once each. */
  lemma {:induction false} WithoutDistinct(order: seq<string>, v: string)
    requires Distinct(order)
    ensures Distinct(Without(order, v))
  {
    if |order| > 0 {
      WithoutDistinct(order[1..], v);
      var w := Without(order[1..], v);
      if order[0] != v {
        assert order[0] !in w;
        var r := [order[0]] + w;
        forall i, j | 0 <= i < j < |r| ensures r[i] != r[j] {
          if i > 0 { assert r[i] == w[i - 1] && r[j] == w[j - 1]; }
          else { assert r[j] in w; }
        }
      }
    }
  }

  /** Removing an id that is not listed leaves the order as it was. */
  lemma {:induction false} WithoutAbsent(order: seq<string>, v: string)
    requires v !in order
    ensures Without(order, v) == order
  {
    if |order| > 0 {
      WithoutAbsent(order[1..], v);
    }
  }

  /** The per-player state a kill touches: the players map with its order, and the join times. */
  datatype Roster = Roster(order: seq<string>, players: map<string, Player>, joinedAt: map<string, int>)

  /**
   * `killPlayer(victim, _)`: nothing when the victim is gone; otherwise the
   * nearest other player receives the victim's gold and the victim leaves
   * the players map and the join times.
   */
  function Eliminate(r: Roster, victim: string): Roster
    requires Registry(r.order, r.players)
  {
    if victim !in r.players then r
    else Roster(Without(r.order, victim),
                AfterKill(r.players, victim, NearestId(r.order, r.players, victim)),
                r.joinedAt - {victim})
  }

  /** `resolveCombatAround(_, movedBy)` on the roster: the victim of the outcome, if any, is eliminated. */
  function Settle(r: Roster, trees: map<Cell, int>, movedBy: Option<string>): Roster
    requires Registry(r.order, r.players)
  {
    Apply(r, Resolve(r.order, r.players, r.joinedAt, trees, movedBy))
  }

  /** The roster after an outcome: the victim of a kill is eliminated. */
  function Apply(r: Roster, o: Outcome): Roster
    requires Registry(r.order, r.players)
  {
    match o
    case Peace => r
    case Kill(v, _) => Eliminate(r, v)
  }

  /** The receiver of a kill gains exactly the victim's gold; every other remaining record stays as it was. */
  lemma AfterKillGains(players: map<string, Player>, victim: string, receiver: Option<string>)
    requires victim in players && (receiver.Some? ==> receiver.value != victim)
    ensures var after := AfterKill(players, victim, receiver);
      && (Truthy(receiver) && receiver.value in players ==>
            receiver.value in after && after[receiver.value].gold == players[receiver.value].gold + players[victim].gold)
      && (forall sid :: sid in after && !(Truthy(receiver) && sid == receiver.value) ==> after[sid] == players[sid])
  {
  }

  /**
   * A kill removes the victim, and only the victim, from the players map and
   * the join times; it keeps the room's total gold when a player remains to
   * receive it, keeps the registry well formed, moves nobody and changes
   * only gold.
   */
  lemma EliminateKeeps(r: Roster, victim: string)
    requires Registry(r.order, r.players)
    ensures var e, rec := Eliminate(r, victim), NearestId(r.order, r.players, victim);
      && Registry(e.order, e.players)
      && victim !in e.players
      && (victim !in r.players ==> e == r)
      && e.players.Keys == r.players.Keys - {victim}
      && (victim in r.players ==> e.joinedAt == r.joinedAt - {victim})
      && (forall sid :: sid in e.players ==> sid in r.players && e.players[sid] == r.players[sid].(gold := e.players[sid].gold))
      && (victim in r.players && Truthy(rec) ==>
            && rec.value in e.players
            && e.players[rec.value].gold == r.players[rec.value].gold + r.players[victim].gold
            && TotalGold(e.order, e.players) == TotalGold(r.order, r.players))
      && (forall sid :: sid in e.players && !(Truthy(rec) && sid == rec.value) ==> e.players[sid] == r.players[sid])
  {
    if victim in r.players {
      var rec := NearestId(r.order, r.players, victim);
      KillKeepsRegistry(r.order, r.players, victim, rec);
      KillMovesGold(r.order, r.players, victim, rec);
      AfterKillGains(r.players, victim, rec);
    }
  }

}
