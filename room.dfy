/**
 * The room of src/rooms/MyRoom.ts as an object whose fields the message
 * handlers update: the board (`width`, `height`, `pits`, `trees`), the
 * hidden `secrets`, the players map with its insertion order, the join
 * times, the tribe counter and the "found" broadcasts sent so far.
 */
module Room {
  import opened Wrappers
  import opened Grid
  import opened Decimal
  import opened JsString
  import opened Schema
  import opened Sight
  import opened Rules
  import opened Placement
  import opened Combat

  /** The names `generateName` tries, in order. */
  const Letters: seq<string> := ["p", "q", "r", "s", "t", "u", "v", "w", "x", "y", "z"]

  /** Some player already carries `name`. */
  predicate NameTaken(players: map<string, Player>, name: string) {
    exists sid :: sid in players && players[sid].name == name
  }

  /** The first letter from index `i` on that nobody carries, or |Letters| when all are taken. */
  function FreeFrom(players: map<string, Player>, i: nat): (k: nat)
    requires i <= |Letters|
    ensures i <= k <= |Letters|
    ensures k < |Letters| ==> !NameTaken(players, Letters[k])
    ensures forall j :: i <= j < k ==> NameTaken(players, Letters[j])
    decreases |Letters| - i
  {
    if i == |Letters| || !NameTaken(players, Letters[i]) then i else FreeFrom(players, i + 1)
  }

  /** `generateName`, with `roll` standing for `Math.floor(Math.random() * 1000)`. */
  function GeneratedName(players: map<string, Player>, roll: nat): string {
    var k := FreeFrom(players, 0);
    if k < |Letters| then Letters[k] else "p" + NatToString(roll)
  }

  /**
   * The generated name is the first free letter when there is one; only when
   * all eleven letters are taken is it "p" followed by the roll's digits.
   */
  lemma GeneratedNameFirstFree(players: map<string, Player>, roll: nat)
    ensures (exists k :: 0 <= k < |Letters| && !NameTaken(players, Letters[k])) ==>
      exists k :: 0 <= k < |Letters| && GeneratedName(players, roll) == Letters[k]
        && !NameTaken(players, Letters[k])
        && forall j :: 0 <= j < k ==> NameTaken(players, Letters[j])
    ensures (forall k :: 0 <= k < |Letters| ==> NameTaken(players, Letters[k])) ==>
      GeneratedName(players, roll) == "p" + NatToString(roll)
  {
  }

  /** The name a joining player gets: the trimmed requested name, unless that is empty. */
  function JoinName(players: map<string, Player>, requested: Option<string>, roll: nat): (name: string)
    ensures name != []
    ensures requested.Some? && Trim(requested.value) != [] ==> name == Trim(requested.value)
    ensures (requested.None? || Trim(requested.value) == []) ==> name == GeneratedName(players, roll)
  {
    var provided := if requested.Some? then Trim(requested.value) else "";
    if provided != "" then provided else GeneratedName(players, roll)
  }

  /** The `some(p => p.name === l)` scan over the players map. */
  method AnyNamed(order: seq<string>, players: map<string, Player>, name: string) returns (taken: bool)
    requires Registry(order, players)
    ensures taken == NameTaken(players, name)
  {
    taken := false;
    var i := 0;
    while i < |order|
      invariant 0 <= i <= |order|
      invariant taken <==> exists j :: 0 <= j < i && players[order[j]].name == name
    {
      if players[order[i]].name == name {
        taken := true;
      }
      i := i + 1;
    }
    if NameTaken(players, name) {
      var sid :| sid in players && players[sid].name == name;
      var j :| 0 <= j < |order| && order[j] == sid;
    }
  }

  /** The loop of `generateName` over the letters. */
  method GenerateName(order: seq<string>, players: map<string, Player>, roll: nat) returns (name: string)
    requires Registry(order, players)
    ensures name == GeneratedName(players, roll)
  {
    var i := 0;
    while i < |Letters|
      invariant 0 <= i <= |Letters|
      invariant FreeFrom(players, i) == FreeFrom(players, 0)
    {
      var taken := AnyNamed(order, players, Letters[i]);
      if !taken {
        return Letters[i];
      }
      i := i + 1;
    }
    return "p" + NatToString(roll);
  }

  /** A player stands on a free cell of the board and belongs to one of the tribes. */
  predicate Placed(width: int, height: int, trees: map<Cell, int>, p: Player) {
    InBounds(width, height, p.x, p.y) && !HasTree(trees, p.x, p.y) && p.tribe in Tribes
  }

  /** Every player of the roster is placed. */
  predicate AllPlaced(width: int, height: int, trees: map<Cell, int>, players: map<string, Player>) {
    forall sid :: sid in players ==> Placed(width, height, trees, players[sid])
  }

  /**
   * Resolving combat kills at most one player: peace changes nothing, and a
   * kill removes its victim, and only its victim, from the players map and
   * the join times.  The registry stays well formed and every remaining
   * player placed.
   */
  lemma SettleKeeps(width: int, height: int, trees: map<Cell, int>, r: Roster, movedBy: Option<string>)
    requires Registry(r.order, r.players) && AllPlaced(width, height, trees, r.players)
    ensures var s := Settle(r, trees, movedBy);
      Registry(s.order, s.players) && AllPlaced(width, height, trees, s.players)
    ensures var s := Settle(r, trees, movedBy);
      match Resolve(r.order, r.players, r.joinedAt, trees, movedBy)
      case Peace => s == r
      case Kill(v, _) =>
        && v in r.players
        && s.players.Keys == r.players.Keys - {v}
        && s.joinedAt == r.joinedAt - {v}
  {
    match Resolve(r.order, r.players, r.joinedAt, trees, movedBy)
    case Peace =>
    case Kill(v, _) =>
      KillBetweenOpponents(r.order, r.players, r.joinedAt, trees, movedBy);
      EliminateKeeps(r, v);
  }

  /** The order of the players map after `set(sid, _)`: a new id goes last, a present one keeps its place. */
  function Listing(order: seq<string>, players: map<string, Player>, sid: string): seq<string> {
    if sid in players then order else order + [sid]
  }

  /** Setting a placed player keeps the registry well formed and every player placed. */
  lemma PutKeeps(width: int, height: int, trees: map<Cell, int>, order: seq<string>, players: map<string, Player>, sid: string, p: Player)
    requires Registry(order, players) && AllPlaced(width, height, trees, players)
    requires Placed(width, height, trees, p)
    ensures Registry(Listing(order, players, sid), players[sid := p])
    ensures AllPlaced(width, height, trees, players[sid := p])
  {
  }

  /**
   * A dig leaves the digger where it stands, in its tribe and under its
   * name, leaves the pit 1 to 50 deep and the secret at its depth.
   */
  lemma DigStaysPut(p: Player, current: int, secret: Option<Secret>, data: DigData)
    requires 0 <= current <= MaxDepth
    ensures var r := Dig(p, current, secret, data);
      && r.player.x == p.x && r.player.y == p.y && r.player.tribe == p.tribe && r.player.name == p.name
      && 1 <= r.depth <= MaxDepth
      && (r.found.Some? ==> secret.Some? && r.secret == Some(secret.value.(consumed := true)))
  {
  }

  /** The depth of the pit at a cell, 0 when nobody dug there. */
  function PitAt(pits: map<Cell, int>, c: Cell): int {
    if c in pits then pits[c] else 0
  }

  /** The secret under a cell, if any. */
  function SecretAt(secrets: map<Cell, Secret>, c: Cell): Option<Secret> {
    if c in secrets then Some(secrets[c]) else None
  }

  /** The "found" broadcasts of one dig: none, or the one message. */
  function Announced(found: Option<Found>): seq<Found> {
    if found.Some? then [found.value] else []
  }

  /**
   * `generateTrees` on a fresh room: each cluster's jittered cells that lie
   * on the board, then its centre.
   */
  method GenerateTrees(width: int, height: int, clusters: seq<Cluster>) returns (trees: map<Cell, int>)
    ensures trees == PlantAll(map[], width, height, clusters)
  {
    trees := map[];
    var i := 0;
    while i < |clusters|
      invariant 0 <= i <= |clusters|
      invariant trees == PlantAll(map[], width, height, clusters[..i])
    {
      var c := clusters[i];
      var before := trees;
      var j := 0;
      while j < |c.jitter|
        invariant 0 <= j <= |c.jitter|
        invariant trees == PlantJitter(before, width, height, c.cx, c.cy, c.jitter[..j])
      {
        var ox, oy := c.cx + c.jitter[j].0, c.cy + c.jitter[j].1;
        assert c.jitter[..j + 1][..j] == c.jitter[..j];
        if ox >= 0 && oy >= 0 && ox < width && oy < height {
          trees := trees[(ox, oy) := 1];
        }
        j := j + 1;
      }
      assert c.jitter[..j] == c.jitter;
      trees := trees[(c.cx, c.cy) := 1];
      assert clusters[..i + 1][..i] == clusters[..i];
      i := i + 1;
    }
    assert clusters[..i] == clusters;
  }

  /**
   * A board whose trees are fewer than its cells has a cell without a tree,
   * so the spawn loop of `onJoin` has a cell to find.
   */
  lemma SpawnExists(width: int, height: int, trees: map<Cell, int>)
    requires width >= 0 && height >= 0 && |trees| < width * height
    ensures exists x, y :: InBounds(width, height, x, y) && !HasTree(trees, x, y)
  {
    FreeCell(width, height, trees.Keys);
  }

  /** Pits and secrets lie on the board; pits are 1 to 50 deep and secrets 1 to 9. */
  predicate Diggings(width: int, height: int, pits: map<Cell, int>, secrets: map<Cell, Secret>) {
    && (forall c :: c in pits ==> InBounds(width, height, c.0, c.1) && 1 <= pits[c] <= MaxDepth)
    && (forall c :: c in secrets ==> InBounds(width, height, c.0, c.1) && 1 <= secrets[c].depth <= 9)
  }

  class MyRoom {
    const width: int
    const height: int
    const trees: map<Cell, int>
    /** A board cell without a tree, which shows that a joining player can always be placed. */
    ghost const spare: Cell
    var pits: map<Cell, int>
    var secrets: map<Cell, Secret>
    var order: seq<string>
    var players: map<string, Player>
    var joinedAt: map<string, int>
    var tribeIndex: nat
    var events: seq<Found>

    /** The board is 3 to 50 cells each way, every tree lies on it, and `spare` has none. */
    ghost predicate Layout() {
      && MinSize <= width <= MaxSize && MinSize <= height <= MaxSize
      && TreeMap(width, height, trees)
      && InBounds(width, height, spare.0, spare.1) && !HasTree(trees, spare.0, spare.1)
    }

    /** The board is well formed, every player stands on a free cell and the players map lists each session once. */
    ghost predicate Valid()
      reads this
    {
      Layout() && Diggings(width, height, pits, secrets) && Registry(order, players) && AllPlaced(width, height, trees, players)
    }

    /**
     * `onCreate`: the clamped board, the secrets under the accepted draws
     * `picks` and the tree clusters `clusters`; nobody has joined yet.
     */
    constructor (requestedWidth: Option<int>, requestedHeight: Option<int>, picks: seq<Pick>, clusters: seq<Cluster>)
      requires var w, h := Dimension(requestedWidth), Dimension(requestedHeight);
        && |picks| == GoldCount(w * h) + GasCount(w * h)
        && ValidPicks(w, h, picks)
        && |clusters| == ClusterCount(w * h)
        && forall i :: 0 <= i < |clusters| ==> ValidCluster(w, h, clusters[i])
      ensures Valid()
      ensures width == Dimension(requestedWidth) && height == Dimension(requestedHeight)
      ensures secrets == Secrets(picks, GoldCount(width * height))
      ensures trees == PlantAll(map[], width, height, clusters)
      ensures pits == map[] && order == [] && players == map[] && joinedAt == map[]
      ensures tribeIndex == 0 && events == []
    {
      var w, h := Dimension(requestedWidth), Dimension(requestedHeight);
      width, height := w, h;
      var s := GenerateSecrets(w, h, picks);
      secrets := s;
      SecretsOnBoard(w, h, picks, GoldCount(w * h));
      var t := GenerateTrees(w, h, clusters);
      trees := t;
      PlantAllKeeps(map[], w, h, clusters);
      RoomHasFreeCell(w, h, clusters);
      SpawnExists(w, h, t);
      var x, y :| InBounds(w, h, x, y) && !HasTree(t, x, y);
      spare := (x, y);
      pits, order, players, joinedAt := map[], [], map[], map[];
      tribeIndex, events := 0, [];
    }

    /**
     * `onJoin`: the next tribe in turn, the trimmed requested name or a
     * generated one, the accepted spawn cell, no gold, not poisoned; then
     * combat is resolved as though nobody moved.  A valid room always has a
     * spawn cell to offer: `spare` is one.
     */
    method Join(sid: string, requestedName: Option<string>, roll: nat, spawn: Cell, now: int)
      requires Valid()
      requires InBounds(width, height, spawn.0, spawn.1) && !HasTree(trees, spawn.0, spawn.1)
      modifies this`order, this`players, this`joinedAt, this`tribeIndex
      ensures Valid()
      ensures tribeIndex == old(tribeIndex) + 1
      ensures var p := Player(JoinName(old(players), requestedName, roll), Tribes[old(tribeIndex) % |Tribes|], spawn.0, spawn.1, 0, false);
        var listed := Listing(old(order), old(players), sid);
        Registry(listed, old(players)[sid := p])
        && Roster(order, players, joinedAt) == Settle(Roster(listed, old(players)[sid := p], old(joinedAt)[sid := now]), trees, None)
    {
      var tribe := Tribes[tribeIndex % |Tribes|];
      tribeIndex := tribeIndex + 1;
      var provided := if requestedName.Some? then Trim(requestedName.value) else "";
      var name := provided;
      if name == "" {
        name := GenerateName(order, players, roll);
      }
      var p := Player(name, tribe, spawn.0, spawn.1, 0, false);
      assert p == Player(JoinName(old(players), requestedName, roll), Tribes[old(tribeIndex) % |Tribes|], spawn.0, spawn.1, 0, false);
      Arrive(sid, p, now);
    }

    /** A placed player enters the players map at `now`; then combat is resolved as though nobody moved. */
    method Arrive(sid: string, p: Player, now: int)
      requires Valid() && Placed(width, height, trees, p)
      modifies this`order, this`players, this`joinedAt
      ensures Valid()
      ensures Registry(Listing(old(order), old(players), sid), old(players)[sid := p])
      ensures Roster(order, players, joinedAt) ==
        Settle(Roster(Listing(old(order), old(players), sid), old(players)[sid := p], old(joinedAt)[sid := now]), trees, None)
    {
      Put(sid, p, now);
      ResolveCombatAround(None);
    }

    /** `players.set(sid, p)` with `joinedAt.set(sid, now)`. */
    method Put(sid: string, p: Player, now: int)
      requires Registry(order, players) && AllPlaced(width, height, trees, players)
      requires Placed(width, height, trees, p)
      modifies this`order, this`players, this`joinedAt
      ensures Registry(order, players) && AllPlaced(width, height, trees, players)
      ensures order == Listing(old(order), old(players), sid)
      ensures players == old(players)[sid := p] && joinedAt == old(joinedAt)[sid := now]
    {
      PutKeeps(width, height, trees, order, players, sid, p);
      if sid !in players {
        order := order + [sid];
      }
      players := players[sid := p];
      joinedAt := joinedAt[sid := now];
    }

    /**
     * `onLeave`: the player leaves the players map when the client left on
     * purpose or did not reconnect in time; a reconnected client keeps it.
     */
    method Leave(sid: string, consented: bool, reconnected: bool)
      requires Valid()
      modifies this`order, this`players
      ensures Valid()
      ensures consented || !reconnected ==> players == old(players) - {sid} && order == Without(old(order), sid)
      ensures !consented && reconnected ==> players == old(players) && order == old(order)
    {
      if consented || !reconnected {
        if sid in players {
          KillKeepsRegistry(order, players, sid, None);
          players := players - {sid};
          order := Without(order, sid);
        } else {
          WithoutAbsent(order, sid);
        }
      }
    }

    /**
     * `handleMove`: a player moves to the cell `Moved` gives, if any, and
     * combat is then resolved with the mover's opponents shooting first.
     */
    method HandleMove(sid: string, data: MoveData)
      requires Valid()
      modifies this`order, this`players, this`joinedAt
      ensures Valid()
      ensures sid !in old(players) ==> Roster(order, players, joinedAt) == Roster(old(order), old(players), old(joinedAt))
      ensures sid in old(players) ==>
        var p := old(players)[sid];
        match Moved(trees, width, height, p.x, p.y, data)
        case None => Roster(order, players, joinedAt) == Roster(old(order), old(players), old(joinedAt))
        case Some(c) =>
          Registry(old(order), old(players)[sid := p.(x := c.0, y := c.1)])
          && Roster(order, players, joinedAt) == Settle(Roster(old(order), old(players)[sid := p.(x := c.0, y := c.1)], old(joinedAt)), trees, Some(sid))
    {
      if sid !in players {
        return;
      }
      var p := players[sid];
      var target := Moved(trees, width, height, p.x, p.y, data);
      if target.Some? {
        Relocate(sid, p.(x := target.value.0, y := target.value.1));
      }
    }

    /** A present player steps onto a free cell; then combat is resolved with `sid` as the mover. */
    method Relocate(sid: string, q: Player)
      requires Valid() && sid in players && Placed(width, height, trees, q)
      modifies this`order, this`players, this`joinedAt
      ensures Valid()
      ensures Registry(old(order), old(players)[sid := q])
      ensures Roster(order, players, joinedAt) == Settle(Roster(old(order), old(players)[sid := q], old(joinedAt)), trees, Some(sid))
    {
      Replace(sid, q);
      ResolveCombatAround(Some(sid));
    }

    /**
     * `handleDig`: the pit under the player deepens; a secret it reaches is
     * consumed, rewards the player and is announced.
     */
    method HandleDig(sid: string, data: DigData)
      requires Valid()
      modifies this`pits, this`secrets, this`players, this`events
      ensures Valid()
      ensures order == old(order)
      ensures sid !in old(players) ==>
        pits == old(pits) && secrets == old(secrets) && players == old(players) && events == old(events)
      ensures sid in old(players) ==>
        var p := old(players)[sid];
        var c := (p.x, p.y);
        var r := Dig(p, PitAt(old(pits), c), SecretAt(old(secrets), c), data);
        && pits == old(pits)[c := r.depth]
        && secrets == (if r.found.Some? then old(secrets)[c := r.secret.value] else old(secrets))
        && players == old(players)[sid := r.player]
        && events == old(events) + Announced(r.found)
    {
      if sid in players {
        DigUnder(sid, players[sid], data);
      }
    }

    /** The body of `handleDig` once the player `p` of session `sid` is found. */
    method DigUnder(sid: string, p: Player, data: DigData)
      requires Valid() && sid in players && players[sid] == p
      modifies this`pits, this`secrets, this`players, this`events
      ensures Valid()
      ensures var c := (p.x, p.y);
        var r := Dig(p, PitAt(old(pits), c), SecretAt(old(secrets), c), data);
        && pits == old(pits)[c := r.depth]
        && secrets == (if r.found.Some? then old(secrets)[c := r.secret.value] else old(secrets))
        && players == old(players)[sid := r.player]
        && events == old(events) + Announced(r.found)
    {
      var c := (p.x, p.y);
      var current := PitAt(pits, c);
      var secret := SecretAt(secrets, c);
      var r := Dig(p, current, secret, data);
      DigStaysPut(p, current, secret, data);
      SetPit(c, r.depth);
      Consume(c, r.secret, r.found);
      Replace(sid, r.player);
    }

    /** A secret that fired is stored consumed and its "found" message broadcast. */
    method Consume(c: Cell, secret: Option<Secret>, found: Option<Found>)
      requires Diggings(width, height, pits, secrets) && (found.Some? ==> secret.Some? && c in secrets && secret.value.depth == secrets[c].depth)
      modifies this`secrets, this`events
      ensures Diggings(width, height, pits, secrets)
      ensures secrets == (if found.Some? then old(secrets)[c := secret.value] else old(secrets))
      ensures events == old(events) + Announced(found)
    {
      if found.Some? {
        secrets := secrets[c := secret.value];
        events := events + [found.value];
      }
    }

    /** `pits.set(c, depth)`. */
    method SetPit(c: Cell, depth: int)
      requires Diggings(width, height, pits, secrets) && InBounds(width, height, c.0, c.1) && 1 <= depth <= MaxDepth
      modifies this`pits
      ensures Diggings(width, height, pits, secrets) && pits == old(pits)[c := depth]
    {
      pits := pits[c := depth];
    }

    /** A change to the record of a present player that leaves it placed. */
    method Replace(sid: string, p: Player)
      requires Registry(order, players) && AllPlaced(width, height, trees, players)
      requires sid in players && Placed(width, height, trees, p)
      modifies this`players
      ensures Registry(order, players) && AllPlaced(width, height, trees, players)
      ensures players == old(players)[sid := p]
    {
      PutKeeps(width, height, trees, order, players, sid, p);
      players := players[sid := p];
    }

    /**
     * `resolveCombatAround(_, movedBy)`: after a move, the closest opponent
     * the mover sees shoots it; otherwise the first pair (a, b) in map order
     * with a's id below b's, of different tribes, where a sees b, fires, the
     * earlier joiner shooting.
     */
    method ResolveCombatAround(movedBy: Option<string>)
      requires Registry(order, players) && AllPlaced(width, height, trees, players)
      modifies this`order, this`players, this`joinedAt
      ensures Registry(order, players) && AllPlaced(width, height, trees, players)
      ensures Roster(order, players, joinedAt) == Settle(Roster(old(order), old(players), old(joinedAt)), trees, movedBy)
    {
      SettleKeeps(width, height, trees, Roster(order, players, joinedAt), movedBy);
      if |players| <= 1 {
        return;
      }
      if Truthy(movedBy) {
        if movedBy.value !in players {
          return;
        }
        var threats := CollectThreats(order, players, trees, movedBy.value, players[movedBy.value]);
        if |threats| > 0 {
          var shooterSid := threats[FirstClosest(threats)].sid;
          KillPlayer(movedBy.value, shooterSid);
          return;
        }
      }
      ScanPairs();
    }

    /** The pair scan of `resolveCombatAround`, reached when there is no mover or the mover sees no opponent. */
    method ScanPairs()
      requires Registry(order, players)
      modifies this`order, this`players, this`joinedAt
      ensures Roster(order, players, joinedAt) ==
        Apply(Roster(old(order), old(players), old(joinedAt)), Ambient(old(order), old(players), old(joinedAt), trees))
    {
      var pair := FirstVisiblePair(order, players, trees);
      if pair.Some? {
        var sidA, sidB := order[pair.value.0], order[pair.value.1];
        StrLtTrichotomy(sidA, sidB);
        var ja, jb := JoinedOr0(joinedAt, sidA), JoinedOr0(joinedAt, sidB);
        var shooterSid := if ja <= jb then sidA else sidB;
        var targetSid := if shooterSid == sidA then sidB else sidA;
        KillPlayer(targetSid, shooterSid);
      }
    }

    /**
     * `killPlayer(target, _)`: the nearest other player receives the
     * victim's gold, and the victim leaves the players map and the join
     * times.  The shooter plays no part.
     */
    method KillPlayer(targetSid: string, shooterSid: string)
      requires Registry(order, players)
      modifies this`order, this`players, this`joinedAt
      ensures Roster(order, players, joinedAt) == Eliminate(Roster(old(order), old(players), old(joinedAt)), targetSid)
    {
      if targetSid !in players {
        return;
      }
      var victim := players[targetSid];
      var receiverSid := FindNearestAlive(order, players, targetSid);
      var gained := players;
      if receiverSid.Some? && receiverSid.value != "" {
        if receiverSid.value in players {
          var receiver := players[receiverSid.value];
          gained := players[receiverSid.value := receiver.(gold := receiver.gold + victim.gold)];
        }
      }
      assert gained - {targetSid} == AfterKill(players, targetSid, receiverSid);
      players := gained - {targetSid};
      order := Without(order, targetSid);
      joinedAt := joinedAt - {targetSid};
    }
  }
}
