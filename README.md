# Mining game room, modelled in Dafny

A small multiplayer game built on Colyseus. Players join a room that holds
a board of width × height cells, each side 3 to 50 cells long. Some cells hold trees. Under
some cells lie hidden rewards: gold, or poison gas. Players walk one cell
at a time and dig the pit under their feet. A reward is revealed when its
pit reaches its depth. Players of the three tribes shoot each other on
sight. A line of sight is at most 3 cells long (Chebyshev distance) and is
traced by Bresenham's algorithm; a tree on it blocks the shot. The victim's
gold goes to the nearest player left in the room.

The model covers:

- the server room (`src/rooms/MyRoom.ts`):
  - room creation: board size, secret placement and tree generation;
  - joining, name generation and leaving;
  - the move and dig handlers;
  - combat resolution, line of sight, Bresenham's walk, the kill and the
    nearest-player search;
- the client's flattening of the replicated state into a render model
  (`src/client/domain/selectors.ts`);
- the text renderer's grid and per-player summary line
  (`src/client/views/text/renderer.ts`).

Modules, from the bottom up:

| module | file | contents |
|---|---|---|
| `Wrappers` | wrappers.dfy | `Option` |
| `Decimal` | decimal.dfy | decimal digits and `String(n)` |
| `JsString` | jsstring.dfy | string `<` and `String.prototype.trim` |
| `Grid` | grid.dfy | cells, `Math.abs`/`min`/`max`/`sign`, the `"x,y"` key, distances, `hasTree` |
| `Sight` | sight.dfy | `bresenham` and `inLineOfSight` |
| `Schema` | schema.dfy | player, secret and "found" records |
| `Rules` | rules.dfy | board size, quotas, the move step and the dig step |
| `Placement` | placement.dfy | `generateSecrets` and the tree clusters |
| `Combat` | combat.dfy | `resolveCombatAround`, `findNearestAlive` and `killPlayer` on values |
| `Room` | room.dfy | the `MyRoom` class, whose methods update the room's fields |
| `Selectors` | selectors.dfy | `toRenderModel` |
| `TextView` | textview.dfy | the text grid and the summary line |

### How the model represents the room

- **Maps are keyed by cell.** The source keys its maps by the string
  `${x},${y}`. The model keys them by the pair `(x, y)` instead.
  `Grid.KeyInjective` proves that two cells get the same key exactly when
  they are the same cell, so the two choices behave alike.
- **The players map keeps its order.** A JavaScript `Map` iterates in
  insertion order. The model stores the players map as `order`, the session
  ids in insertion order, plus `players`, the record under each id.
  `Combat.Registry` says that the two agree and that no id appears twice.
- **Random draws are parameters.** Each random draw the source makes
  arrives as an argument:
  - a `Pick` per secret (its cell and its depth roll);
  - a `Cluster` per tree cluster (its centre and the offsets of its extra
    cells);
  - the spawn cell and the roll of `generateName`.

  Each `do … while` retry loop becomes a precondition that the supplied
  cell is one the loop would accept: free of a tree for a spawn, and not
  already taken for a secret. `Rules.SecretsFit` shows that while secrets
  are placed a free cell always remains, so each uniform retry loop ends
  with probability 1; how many draws it takes is not modelled. Likewise
  `Placement.RoomHasFreeCell` shows that the trees never cover the whole
  board, so a spawn cell always exists (`Room.SpawnExists`).
- **Percentages use integer arithmetic.** `Math.floor(total * 0.07)` is
  modelled as `7 * total / 100`, and likewise for 5 percent. The two
  agree for every board size here, by this argument (not proved):
  - the double nearest 0.07 is slightly larger than 0.07;
  - where the exact product is a whole number, that number can be
    represented exactly, so rounding cannot take the product below it;
  - elsewhere the fraction is at least 0.01, far more than the rounding
    error.
- **Combat is proved on values, then used by the class.** Resolution is
  specified by functions on values in `Combat`:
  - `Resolve` picks the outcome;
  - `Eliminate` applies a kill;
  - `Settle` combines the two.

  The methods of `Room.MyRoom` are proved to change their fields exactly
  as these functions say.

### Behaviour worth knowing

- **Line of sight is directional.** `inLineOfSight(ax, ay, bx, by)` traces
  Bresenham's line from (ax, ay) to (bx, by), and the cells between the
  ends depend on that direction. A move checks whether the mover sees each
  opponent (MyRoom.ts:210); the pair scan checks whether a sees b
  (MyRoom.ts:229). `Sight.SightIsDirectional` gives a board with one tree
  on which A cannot see B but B sees A.
- **An unseen move falls through to the pair scan.** When the mover sees
  no opponent, the pair scan still runs, just as after a join
  (`Combat.UnseenMoveFallsThrough`).
- **The pair-scan shooter is the earlier joiner.** The comments at
  MyRoom.ts:135 and MyRoom.ts:195 give the opponent of a mover the first
  shot ("defender's advantage"). In the pair scan the player with the
  earlier join time shoots instead; an unknown join time counts as 0.
- **Gold goes to the nearest player of any tribe.** It goes to the nearest
  remaining player by Manhattan distance, not by Chebyshev distance, and
  that player may be the shooter's opponent, the shooter, or anyone else.
  `killPlayer` never reads the shooter it is given.
- **`onLeave` keeps the join time.** It removes the player record but
  leaves the join time in `joinedAt`. A later join under the same session
  id overwrites it again.

## Model

| member | source | states |
|---|---|---|
| Grid.KeyInjective | src/rooms/MyRoom.ts:78 | two cells have the same `"x,y"` key exactly when they are the same cell |
| Grid.Key | src/rooms/MyRoom.ts:78 | the key `"x,y"` of a cell; no contract of its own, its meaning is `Grid.KeyRoundTrip` and `Grid.KeyInjective` |
| Grid.KeyRoundTrip | src/rooms/MyRoom.ts:78 | the key of a cell parses back to that cell |
| Decimal.IntToString | src/rooms/MyRoom.ts:78 | the `${n}` text of an integer: digits, with a leading minus sign for a negative number, ending in a digit; that it loses nothing is `Decimal.IntRoundTrip` and `Decimal.IntToStringInjective` (it is also the `${…}` of src/client/views/text/renderer.ts:39) |
| Decimal.IntRoundTrip | src/rooms/MyRoom.ts:78 | the decimal text of an integer parses back to the integer |
| Decimal.IntToStringInjective | src/rooms/MyRoom.ts:78 | different integers have different decimal text |
| Grid.Sign | src/rooms/MyRoom.ts:123-124 | `Math.sign` gives -1, 0 or 1, and multiplied by the absolute value gives the number back |
| Grid.Clamp | src/rooms/MyRoom.ts:127-128 | the clamped value lies in the range, equals the value when it is inside, and equals the nearer end otherwise |
| Grid.HasTree | src/rooms/MyRoom.ts:189-191 | whether a cell holds a tree (a positive entry, a missing one counting as 0); no contract of its own, used by `Rules.Moved`, `Sight.InLineOfSight` and the room's placement invariant |
| Grid.Chebyshev | src/rooms/MyRoom.ts:241-243 | the larger of the two coordinate distances; no contract of its own, used by `Sight.InLineOfSight` and `Combat.ThreatsExact` |
| Grid.Manhattan | src/rooms/MyRoom.ts:296 | the sum of the two coordinate distances; no contract of its own, used by `Combat.NearestIsNearest` |
| Grid.BoardMembers | src/rooms/MyRoom.ts:35-38 | the board set holds exactly the cells a spawn draw can produce: 0 ≤ x < width and 0 ≤ y < height |
| Grid.BoardSize | src/rooms/MyRoom.ts:90 | the board holds `Area(width, height)` cells |
| Grid.AreaIsProduct | src/rooms/MyRoom.ts:90 | `Area(width, height)` is `width * height`, the source's `total` |
| Grid.FreeCell | src/rooms/MyRoom.ts:96-101 | when fewer cells are taken than the board has, some board cell is not taken, so a uniform draw can land on one |
| JsString.Trim | src/rooms/MyRoom.ts:32 | trimming gives the empty string exactly when the input is all white space; otherwise it starts and ends with a non-space and is the input without its leading and trailing white space |
| JsString.StrLt | src/rooms/MyRoom.ts:227 | JavaScript string `<`: lexicographic by character, a proper prefix is smaller; no contract of its own, its order properties are `JsString.StrLtTrichotomy` |
| JsString.StrLtTrichotomy | src/rooms/MyRoom.ts:227 | string `<` never holds both ways; two strings are equal exactly when neither is below the other |
| Rules.Dimension | src/rooms/MyRoom.ts:16-19 | a side is 10 when not given; otherwise the given value pulled into [3, 50] |
| Rules.Quota | src/rooms/MyRoom.ts:91-92 | at least 1; otherwise the whole part of the percentage of the cells |
| Rules.GoldCount | src/rooms/MyRoom.ts:91 | the gold quota, 7 percent of the cells; no contract of its own, see `Rules.Quota` and `Rules.SecretsFit` |
| Rules.GasCount | src/rooms/MyRoom.ts:92 | the gas quota, 5 percent of the cells; no contract of its own, see `Rules.Quota` and `Rules.SecretsFit` |
| Rules.ClusterCount | src/rooms/MyRoom.ts:172 | the number of tree clusters, 5 percent of the cells; no contract of its own, see `Rules.Quota` and `Rules.TreesFit` |
| Rules.SecretsFit | src/rooms/MyRoom.ts:90-107 | on every board, the gold and gas secrets together are fewer than the cells, so every secret finds a free cell |
| Rules.TreesFit | src/rooms/MyRoom.ts:171-186 | on every board, four cells per cluster are fewer than the cells, so the clusters cannot cover the board |
| Rules.MoveDelta | src/rooms/MyRoom.ts:116-125 | the keys w/s/a/d step one cell up, down, left and right, any other text does not move; a numeric pair steps by the sign of each part; any other payload does not move |
| Rules.MoveTarget | src/rooms/MyRoom.ts:127-128 | the target is on the board; it is the stepped cell when that is on the board; it is no further from the player than the step |
| Rules.Moved | src/rooms/MyRoom.ts:127-138 | a move happens exactly when the clamped target differs from the current cell and holds no tree; the new cell is on the board, tree-free and a neighbour of the old one |
| Rules.Requested | src/rooms/MyRoom.ts:147 | the amount a dig payload asks for, `(data && data.d) ?? data ?? 1`, before clamping; no contract of its own, see `Rules.DigIncrement` |
| Rules.DigIncrement | src/rooms/MyRoom.ts:147 | the amount dug is the requested amount pulled into [1, 10], and 1 without a payload |
| Rules.NextDepth | src/rooms/MyRoom.ts:148-149 | the new depth is the sum capped at 50, and never shallower than before |
| Rules.Fires | src/rooms/MyRoom.ts:152-154 | a secret fires when there is one, it is unconsumed and the new depth reaches it; no contract of its own, see `Rules.Dig` and `Rules.FiresAtMostOnce` |
| Rules.Dig | src/rooms/MyRoom.ts:148-165 | a dig announces a find exactly when an unconsumed secret is reached; a find consumes the secret; gold adds exactly one coin and reports the new total; gas sets poisoned; nothing else changes |
| Rules.DigAllCapped | src/rooms/MyRoom.ts:147-150 | after any digs, a pit's depth is its start plus the increments, capped at 50 |
| Rules.DigAllMonotone | src/rooms/MyRoom.ts:147-150 | pits only grow with further digs and never pass 50 |
| Rules.DigAll | src/rooms/MyRoom.ts:147-150 | specification of repeated digging: the depth after a series of increments; no contract of its own, its properties are `Rules.DigAllCapped`, `Rules.DigAllMonotone` and `Rules.DigAllGrows` |
| Rules.DigAllGrows | src/rooms/MyRoom.ts:148-149 | a pit no deeper than 50 never gets shallower and never passes 50 |
| Rules.FireCount | src/rooms/MyRoom.ts:152-163 | specification of how often a secret is announced over a series of increments; no contract of its own, its properties are `Rules.FiresAtMostOnce` and `Rules.NeverAgain` |
| Rules.FiresAtMostOnce | src/rooms/MyRoom.ts:152-163 | over any series of digs a secret is announced at most once; it is announced exactly when it was unconsumed and the pit reaches its depth |
| Rules.NeverAgain | src/rooms/MyRoom.ts:153 | a consumed secret is never announced again |
| Rules.Amounts | src/rooms/MyRoom.ts:147 | the increments of a series of dig payloads, one per dig, each 1 to 10 |
| Rules.Announcements | src/rooms/MyRoom.ts:141-165 | specification: the number of "found" messages when one player digs the same cell again and again, each dig applied by `Rules.Dig` to the last one's outcome; no contract of its own |
| Rules.AnnouncementsCounted | src/rooms/MyRoom.ts:144-165 | repeating `Rules.Dig` announces exactly as many finds as `Rules.FireCount` counts on the increments |
| Rules.AnnouncedAtMostOnce | src/rooms/MyRoom.ts:152-163 | repeated digs at one cell announce its secret at most once, and exactly once when it was unconsumed, there was a dig, and the pit reached its depth |
| Placement.Place | src/rooms/MyRoom.ts:94-105 | `place` adds one unconsumed secret of its kind, at 1 + its roll, under each accepted draw; the taken set stays the set of secret cells |
| Placement.Stash | src/rooms/MyRoom.ts:94-105 | specification of `place`'s loop: one secret of the kind per draw; no contract of its own, its properties are `Placement.StashSize`, `Placement.SecretsCells` and `Placement.SecretsKinds` |
| Placement.StashSize | src/rooms/MyRoom.ts:96-104 | distinct draws on free cells give one new secret each |
| Placement.Secrets | src/rooms/MyRoom.ts:88-109 | specification of `generateSecrets`: gold under the first draws, gas under the rest; no contract of its own, its properties are the `Placement.Secrets…` lemmas |
| Placement.GenerateSecrets | src/rooms/MyRoom.ts:88-109 | the secrets are gold under the first 7-percent draws and gas under the rest |
| Placement.SecretsCells | src/rooms/MyRoom.ts:96-102 | there are secrets exactly under the drawn cells |
| Placement.SecretsCount | src/rooms/MyRoom.ts:91-107 | there is one secret per draw, none overwritten |
| Placement.SecretsKinds | src/rooms/MyRoom.ts:103-107 | the i-th draw holds gold when it is among the first gold-count draws, gas otherwise, at depth 1 + its roll |
| Placement.SecretsOnBoard | src/rooms/MyRoom.ts:98-103 | every secret lies on the board, at depth 1 to 9, unconsumed |
| Placement.PlantJitter | src/rooms/MyRoom.ts:176-182 | specification of the inner loop: each offset cell on the board gets a tree; no contract of its own, its exact tree set is `Placement.JitterMembers`, its other properties `Placement.PlantAllKeeps` and `Placement.PlantJitterSize` |
| Placement.PlantCluster | src/rooms/MyRoom.ts:173-185 | specification of one cluster: the offsets, then the centre; no contract of its own, see `Placement.CentresPlanted` |
| Placement.PlantAll | src/rooms/MyRoom.ts:169-187 | specification of `generateTrees`: the clusters in order; no contract of its own, its exact tree set is `Placement.PlantAllMembers`, its other properties `Placement.PlantAllKeeps` and `Placement.PlantAllSize` |
| Placement.PlantAllKeeps | src/rooms/MyRoom.ts:173-186 | planting the clusters keeps every tree on the board and removes none |
| Placement.CentresPlanted | src/rooms/MyRoom.ts:184-185 | the centre of every cluster holds a tree |
| Placement.JitterMembers | src/rooms/MyRoom.ts:176-182 | after the jitter, a cell holds a tree exactly when it did before or it is one of the jittered cells and lies on the board |
| Placement.PlantAllMembers | src/rooms/MyRoom.ts:173-186 | after the clusters, a cell holds a tree exactly when it did before, or it is some cluster's centre, or one of that cluster's jittered cells lying on the board |
| Placement.PlantJitterSize | src/rooms/MyRoom.ts:176-182 | the offsets of a cluster add at most one tree each |
| Placement.PlantAllSize | src/rooms/MyRoom.ts:169-187 | the clusters add at most four trees each: up to three offsets and the centre |
| Placement.RoomHasFreeCell | src/rooms/MyRoom.ts:169-187 | a new room's trees are fewer than its cells |
| Room.GenerateTrees | src/rooms/MyRoom.ts:169-187 | the nested loops plant each cluster's offsets that lie on the board, then its centre, giving `Placement.PlantAll`, whose exact tree set is `Placement.PlantAllMembers` |
| Sight.Bresenham | src/rooms/MyRoom.ts:257-273 | the loop returns the walk of Bresenham's line, the specification `Path` |
| Sight.Walk | src/rooms/MyRoom.ts:264-272 | specification of the loop from one of its states: the points emitted from there, starting with the current cell |
| Sight.Path | src/rooms/MyRoom.ts:257-273 | specification of `bresenham`; no contract of its own, its properties are `Sight.PathShape`, `Sight.PathAcross` and `Sight.PathBack` |
| Sight.PathShape | src/rooms/MyRoom.ts:257-273 | the walk starts at the first end, ends at the second, moves one cell at a time and stays in the rectangle the two ends span |
| Sight.Next | src/rooms/MyRoom.ts:268-270 | one loop iteration: `e2 = 2*err`, the x step when `e2 > -dy`, the y step when `e2 < dx`; no contract of its own, its properties are `Sight.StepCloser` |
| Sight.StepCloser | src/rooms/MyRoom.ts:265-271 | each step keeps the error term in step with the cells still to go and strictly reduces them, so the `while (true)` loop ends |
| Sight.WalkSteps | src/rooms/MyRoom.ts:265-271 | consecutive cells of the walk are neighbours |
| Sight.WalkEnds | src/rooms/MyRoom.ts:266-267 | the walk ends at the second end |
| Sight.WalkStays | src/rooms/MyRoom.ts:268-270 | the walk never leaves the rectangle between its ends |
| Sight.InLineOfSight | src/rooms/MyRoom.ts:245-255 | the result is true exactly when the target is at most 3 cells away and no cell strictly between the ends of the walk holds a tree |
| Sight.Visible | src/rooms/MyRoom.ts:245-255 | specification of `inLineOfSight`; no contract of its own, `Sight.InLineOfSight` states what it means |
| Sight.NeighboursVisible | src/rooms/MyRoom.ts:247-253 | a player always sees a neighbouring cell, trees or not |
| Sight.PathAcross | src/rooms/MyRoom.ts:257-273 | the walk from (x, y) to (x+2, y+1) passes through (x+1, y) |
| Sight.PathBack | src/rooms/MyRoom.ts:257-273 | the walk back passes through (x+1, y+1) instead |
| Sight.SightIsDirectional | src/rooms/MyRoom.ts:245-255 | one tree can block A's sight of B while B still sees A |
| Combat.CollectThreats | src/rooms/MyRoom.ts:206-214 | the loop builds the threat list `Threats` |
| Combat.Threatens | src/rooms/MyRoom.ts:207-212 | another player of a different tribe whom the mover sees; no contract of its own, its use is `Combat.ThreatsExact` |
| Combat.Threats | src/rooms/MyRoom.ts:206-214 | specification of the threat loop; no contract of its own, its meaning is `Combat.ThreatsExact` |
| Combat.ThreatsExact | src/rooms/MyRoom.ts:207-213 | every entry is an opponent the mover sees, at its Chebyshev distance, and every opponent the mover sees has an entry |
| Combat.FirstClosest | src/rooms/MyRoom.ts:217-218 | the stable sort's first entry is of least distance, and strictly closer than every entry before it |
| Combat.ClosestThreat | src/rooms/MyRoom.ts:215-218 | when the mover sees some opponent, the chosen shooter is an opponent the mover sees, no further away than any other such opponent |
| Combat.MoverShotByClosest | src/rooms/MyRoom.ts:202-221 | after a move in which the mover sees an opponent, the mover is the victim and the shooter is the closest such opponent |
| Combat.SeenMoveResolves | src/rooms/MyRoom.ts:215-220 | a non-empty threat list makes its first closest entry shoot the mover |
| Combat.UnseenMoveFallsThrough | src/rooms/MyRoom.ts:215-224 | a move after which the mover sees no opponent resolves exactly as a join does |
| Combat.QuietRoom | src/rooms/MyRoom.ts:199-204 | with at most one player, or a mover who is gone, nobody is shot |
| Combat.FirstVisiblePair | src/rooms/MyRoom.ts:225-238 | the nested loops return the first pair the scan `ScanFrom` accepts |
| Combat.Eligible | src/rooms/MyRoom.ts:226-229 | a pair the scan accepts: the first id below the second, tribes differ, the first sees the second; no contract of its own, see `Combat.ScanFromFirst` |
| Combat.JoinedOr0 | src/rooms/MyRoom.ts:230-231 | a player's join time, 0 when unknown; no contract of its own, see `Combat.AmbientShooterJoinedFirst` |
| Combat.Truthy | src/rooms/MyRoom.ts:202 | JavaScript truthiness of an optional id: present and not empty; no contract of its own, used by `Combat.Resolve` and `Combat.Eliminate` |
| Combat.ScanFrom | src/rooms/MyRoom.ts:224-238 | the nested scan from position (i, j) returns a pair of listed positions or nothing; which pair is `Combat.ScanFromFirst` |
| Combat.Ambient | src/rooms/MyRoom.ts:224-238 | specification of the pair scan's outcome; no contract of its own, see `Combat.AmbientOpponents` and `Combat.AmbientShooterJoinedFirst` |
| Combat.ScanFromFirst | src/rooms/MyRoom.ts:225-229 | the scan returns an eligible pair (smaller id first, tribes differ, first sees second), and no pair before it in scanning order is eligible; none is returned only when no pair is eligible |
| Combat.AmbientOpponents | src/rooms/MyRoom.ts:225-236 | an ambient kill is between two different players of different tribes |
| Combat.AmbientShooterJoinedFirst | src/rooms/MyRoom.ts:225-236 | without a move, the first eligible pair in scanning order fires, its earlier joiner shooting and, on equal join times, the first of the pair; there is peace only when no pair is eligible |
| Combat.Resolve | src/rooms/MyRoom.ts:194-239 | specification of who shoots whom; no contract of its own, see `Combat.KillBetweenOpponents`, `Combat.QuietRoom`, `Combat.MoverShotByClosest` and `Combat.UnseenMoveFallsThrough` |
| Combat.KillBetweenOpponents | src/rooms/MyRoom.ts:194-239 | every kill is between two different players, both present, of different tribes |
| Combat.FindNearestAlive | src/rooms/MyRoom.ts:290-300 | the loop returns `NearestId`: nothing when the player is gone, else the nearest other player |
| Combat.Nearest | src/rooms/MyRoom.ts:293-299 | the position found holds another listed player |
| Combat.NearestId | src/rooms/MyRoom.ts:290-300 | the id found is another player in the room; nobody is found exactly when the player is gone or nobody else is listed |
| Combat.NearestIsNearest | src/rooms/MyRoom.ts:294-299 | the player found is nearest by Manhattan distance and strictly nearer than everyone listed before it; nobody is found only when nobody else is listed |
| Combat.Without | src/rooms/MyRoom.ts:285 | deleting an id from the map order leaves exactly the other ids |
| Combat.WithoutDistinct | src/rooms/MyRoom.ts:285 | the deletion keeps every other id listed once |
| Combat.WithoutConcat | src/rooms/MyRoom.ts:285 | deleting an id from two orders joined deletes it from each |
| Combat.WithoutKeepsOrder | src/rooms/MyRoom.ts:285 | deleting an id keeps every two other ids in their relative order |
| Combat.GoldWithout | src/rooms/MyRoom.ts:285 | deleting a player removes exactly that player's gold from the total |
| Combat.GoldAfterUpdate | src/rooms/MyRoom.ts:282 | raising one player's gold raises the room's total by the same amount |
| Combat.AfterKill | src/rooms/MyRoom.ts:278-285 | specification of the player map after a kill; no contract of its own, see `Combat.AfterKillGains` |
| Combat.AfterKillGains | src/rooms/MyRoom.ts:278-285 | a present receiver other than the victim gains exactly the victim's gold; every other remaining record is unchanged |
| Combat.KillMovesGold | src/rooms/MyRoom.ts:278-285 | a kill keeps the room's total gold when there is a receiver, and loses the victim's gold when there is none |
| Combat.KillKeepsRegistry | src/rooms/MyRoom.ts:276-287 | after a kill exactly the players other than the victim remain, every one listed once and changed at most in gold |
| Combat.EliminateKeeps | src/rooms/MyRoom.ts:275-288 | `killPlayer` keeps the registry sound and changes nothing when the victim is gone; otherwise exactly the victim leaves the players map and the join times, the nearest player it finds gains exactly the victim's gold, the total gold is kept, and every other record stays as it was |
| Combat.Eliminate | src/rooms/MyRoom.ts:275-288 | specification of `killPlayer` on the roster; no contract of its own, its properties are `Combat.EliminateKeeps` |
| Combat.Settle | src/rooms/MyRoom.ts:194-239 | specification of `resolveCombatAround`: `Combat.Resolve`'s outcome applied; no contract of its own, see `Room.SettleKeeps` |
| Combat.Apply | src/rooms/MyRoom.ts:219-220 | specification of applying an outcome: peace changes nothing, a kill is `Combat.Eliminate`; no contract of its own |
| Room.FreeFrom | src/rooms/MyRoom.ts:82-84 | the letter found is untaken and every letter before it is taken |
| Room.GeneratedNameFirstFree | src/rooms/MyRoom.ts:80-86 | the generated name is the first untaken letter; only when all eleven are taken is it "p" and the roll |
| Room.AnyNamed | src/rooms/MyRoom.ts:83 | the scan reports a name as taken exactly when some player carries it |
| Room.NameTaken | src/rooms/MyRoom.ts:83 | some player carries the name; no contract of its own, see `Room.AnyNamed` and `Room.GeneratedNameFirstFree` |
| Room.GenerateName | src/rooms/MyRoom.ts:80-86 | the loop returns the generated name of the specification |
| Room.GeneratedName | src/rooms/MyRoom.ts:80-86 | specification of `generateName`; no contract of its own, its meaning is `Room.GeneratedNameFirstFree` |
| Room.JoinName | src/rooms/MyRoom.ts:32-33 | a joiner's name is never empty: the trimmed requested name when that is not empty, otherwise a generated name |
| Room.SettleKeeps | src/rooms/MyRoom.ts:194-239 | combat kills at most one player: peace changes nothing, and a kill removes its victim, a present player, and no one else from the players map and the join times; the registry stays sound and every remaining player stays on a free board cell |
| Room.PutKeeps | src/rooms/MyRoom.ts:44 | adding a placed player keeps the registry sound, with a new id listed last |
| Room.Listing | src/rooms/MyRoom.ts:44 | specification of the players map's order after `set`: a new id goes last, a known id keeps its place; no contract of its own, see `Room.PutKeeps` |
| Room.SpawnExists | src/rooms/MyRoom.ts:35-38 | on a board whose trees are fewer than its cells, some cell has no tree, so the spawn loop can succeed |
| Room.DigStaysPut | src/rooms/MyRoom.ts:144-165 | a dig never moves, renames or re-tribes the digger; the pit ends 1 to 50 deep |
| Room.PitAt | src/rooms/MyRoom.ts:148 | a pit's depth, 0 where nobody has dug; no contract of its own, see `Room.MyRoom.HandleDig` |
| Room.SecretAt | src/rooms/MyRoom.ts:152 | the secret under a cell, if any; no contract of its own, see `Room.MyRoom.HandleDig` |
| Room.Announced | src/rooms/MyRoom.ts:153-163 | the "found" broadcasts of one dig: none or the one message; no contract of its own, see `Room.MyRoom.HandleDig` |
| Room.MyRoom.constructor | src/rooms/MyRoom.ts:15-22 | a new room has the clamped size, the generated secrets and trees, no pits and no players |
| Room.MyRoom.Join | src/rooms/MyRoom.ts:28-50 | the joiner gets the next tribe, its name, the spawn cell, no gold and no poison, is listed, and combat is then settled as for no move |
| Room.MyRoom.Arrive | src/rooms/MyRoom.ts:44-49 | a placed player is set and stamped with its join time, then combat is settled |
| Room.MyRoom.Put | src/rooms/MyRoom.ts:44-47 | `players.set` and `joinedAt.set`, with a new id appended to the order |
| Room.MyRoom.Leave | src/rooms/MyRoom.ts:52-72 | the player is removed after a consented leave or a failed reconnection, and kept after a reconnection |
| Room.MyRoom.HandleMove | src/rooms/MyRoom.ts:111-139 | an unknown session or a blocked move changes nothing; otherwise the player steps to `Moved`'s cell and combat is settled with it as the mover |
| Room.MyRoom.Relocate | src/rooms/MyRoom.ts:131-137 | the player's new cell is stored, then combat is settled with it as the mover |
| Room.MyRoom.Replace | src/rooms/MyRoom.ts:132-133 | the player's record is replaced and the registry and every placement stay sound |
| Room.MyRoom.HandleDig | src/rooms/MyRoom.ts:141-166 | an unknown session changes nothing; otherwise pit, secret, player and broadcasts change exactly as `Dig` says, and the order stays |
| Room.MyRoom.DigUnder | src/rooms/MyRoom.ts:144-165 | the dig's depth, consumed secret, rewarded player and announcement are stored at the player's cell |
| Room.MyRoom.Consume | src/rooms/MyRoom.ts:153-163 | a secret that fired is stored consumed and its "found" message broadcast |
| Room.MyRoom.SetPit | src/rooms/MyRoom.ts:150 | the pit at the cell gets the new depth |
| Room.MyRoom.ResolveCombatAround | src/rooms/MyRoom.ts:194-239 | the roster becomes `Settle` of the old one, keeping the registry sound and every player placed |
| Room.MyRoom.ScanPairs | src/rooms/MyRoom.ts:225-238 | the pair scan applies the ambient outcome |
| Room.MyRoom.KillPlayer | src/rooms/MyRoom.ts:275-288 | the roster becomes `Eliminate` of the old one: the receiver gains the victim's gold, and the victim leaves the map and the join times |
| Selectors.ViewOf | src/client/domain/selectors.ts:24-31 | each missing field takes its default: name '?', x, y and gold 0, not poisoned; the tribe stays absent |
| Selectors.CopyPits | src/client/domain/selectors.ts:8-12 | the copied pits have the same cells and depths |
| Selectors.CollectTrees | src/client/domain/selectors.ts:14-18 | the tree set is exactly the tree map's cells |
| Selectors.ToRenderModel | src/client/domain/selectors.ts:4-36 | width and height default to 10; the pits are copied; the trees become their cells; the players keep count and order, with defaults filled in; a missing collection is empty |
| TextView.FirstAt | src/client/views/text/renderer.ts:22-23 | the first player listed at a cell, and none exactly when nobody stands there |
| TextView.NamesAt | src/client/views/text/renderer.ts:10-14 | the names at a cell, in list order, at most one per player; what they are is `TextView.NamesAtFirst` and `TextView.IndexPlayers` |
| TextView.IndexPlayers | src/client/views/text/renderer.ts:10-14 | `playerAt` holds exactly the occupied cells, each with its players' names in list order |
| TextView.NamesAtFirst | src/client/views/text/renderer.ts:10-14 | a cell's name list is empty exactly when nobody stands there, and otherwise starts with the first listed player's name |
| TextView.CellChar | src/client/views/text/renderer.ts:19-28 | a tree shows 'T'; else the initial of the first player there, '?' for an empty name; else the pit depth capped at 9 if positive; else '·' |
| TextView.Initial | src/client/views/text/renderer.ts:23 | specification of the initial shown for a player, `'?'` for an empty name; no contract of its own, its use is stated by `TextView.CellChar` |
| TextView.PitDigits | src/client/views/text/renderer.ts:27 | a pit always shows one digit from '1' to '9' |
| TextView.DepthAt | src/client/views/text/renderer.ts:26 | a pit's depth, 0 where there is none; no contract of its own, see `TextView.CellChar` |
| TextView.RenderGrid | src/client/views/text/renderer.ts:15-31 | `height` lines of `width` characters (none for a side that is not positive), each character being `CellChar` of its cell |
| TextView.SummaryLine | src/client/views/text/renderer.ts:39 | the line begins with "- " and the player's name; the tag, holdings and poison mark that follow are `TextView.SummaryShowsTribe`, `TextView.SummaryShowsHoldings` and `TextView.SummaryShowsPoison` |
| TextView.TribeTag | src/client/views/text/renderer.ts:38 | the tag is empty exactly when the tribe is absent or empty, and is otherwise the tribe's text in brackets |
| TextView.Holdings | src/client/views/text/renderer.ts:39 | the position and gold part starts with '(' and ends in a digit |
| TextView.ParseHoldings | src/client/views/text/renderer.ts:39 | reads a position and gold back from holdings text; the reference inverse used by `TextView.HoldingsRoundTrip`, no contract of its own |
| TextView.HoldingsRoundTrip | src/client/views/text/renderer.ts:39 | reading the holdings text back gives the player's x, y and gold, so the line shows them faithfully |
| TextView.SummaryShowsTribe | src/client/views/text/renderer.ts:38-39 | the character after the name is '[' exactly when the player has a non-empty tribe |
| TextView.SummaryShowsHoldings | src/client/views/text/renderer.ts:39 | the holdings text stands right after the name and the tribe tag |
| TextView.SummaryShowsPoison | src/client/views/text/renderer.ts:39 | the line ends in " poisoned" exactly when the player is poisoned |

## Left out

- Networking is not modelled: Colyseus rooms, clients, message
  registration (`onMessage`), state replication and `maxClients`. Each
  handler is a method called with the session id.
- `onDispose` and its console log are not modelled. Neither are the
  terminal clear, the header lines and the printing of `render`; only the
  grid lines and the summary line strings are modelled.
- `lastMoveAt` is not modelled. Its only effect is the `set(sid, 0)` in
  `onJoin` and the `delete` in `killPlayer`; no code reads it.
- `Math.random` and `Date.now` are parameters. An accepted draw is given
  directly, and a retry loop becomes a precondition that the given cell
  is acceptable. The distribution of the draws is not modelled.
- The roll of `generateName` is any natural number; the source's
  `Math.floor(Math.random() * 1000)` is one below 1000.
- `Number(...)` on strings, `NaN` and non-integer numbers are not
  modelled:
  - the size options and the dig amount are integers or absent;
  - a move payload is a key string, a pair of integers, or anything
    else;
  - a dig payload `{}` or `{ d: null }`, which gives `NaN` in the source,
    is not modelled.
  - a boolean dig payload is not modelled: `true` makes the amount 1
    (`true.d` is undefined, so `Number(true)` is taken) and `false`
    makes it 1 as well, through `Math.max(1, 0)`.
- The float quota `Math.floor(total * 0.07)` is replaced by integer
  arithmetic, as argued above.
- `onLeave`'s `await allowReconnection(client, 20)` becomes the boolean
  `reconnected`. The 20-second timer and the interleaving with other
  messages during the wait are not modelled.
- `resolveCombatAround`'s first argument is never read by the source and
  is left out.
- Records are values. The source mutates `Player` and secret objects in
  place; the model replaces them in their maps. The copy `new Map(entries)`
  in `resolveCombatAround` (MyRoom.ts:197-198) shares its `Player` objects
  with `state.players`, but the function returns right after its one kill,
  so no update is ever seen through the copy and values model it exactly.
- The client's keys are cells, as on the server. A pits or trees key that
  is not of the form `"x,y"` cannot come from the server and is not
  modelled.
- Strings are sequences of characters. JavaScript's UTF-16 code units,
  as seen by `name[0]` and string `<`, are not modelled.
- Integers are unbounded. JavaScript numbers are doubles, but gold counts,
  coordinates and depths stay far below 2^53.
- Combat.Nearest: its own contract only says that the index found is of
  another listed player. Its minimality is `Combat.NearestIsNearest`.
- Combat.ScanFrom: its own contract only bounds the pair found. What is
  found is stated by `Combat.ScanFromFirst`.
