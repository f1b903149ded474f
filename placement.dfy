/**
 * Board generation in src/rooms/MyRoom.ts: the hidden rewards
 * (`generateSecrets`) and the tree clusters (`generateTrees`).  The random
 * draws are parameters: each secret comes with the free cell its retry
 * loop settled on and its depth roll, each cluster with its centre and the
 * jitter of its one to three extra cells.
 */
module Placement {
  import opened Grid
  import opened Schema
  import opened Rules

  /** An accepted draw of the secret placement loop: a cell and the roll `Math.floor(Math.random() * 9)`. */
  datatype Pick = Pick(x: int, y: int, roll: int)

  /** No cell is picked twice. */
  predicate Distinct(picks: seq<Pick>) {
    forall i, j :: 0 <= i < j < |picks| ==> (picks[i].x, picks[i].y) != (picks[j].x, picks[j].y)
  }

  /** Draws the placement loop can have accepted: on the board, rolls in [0, 9), no cell twice. */
  predicate ValidPicks(width: int, height: int, picks: seq<Pick>) {
    && (forall i :: 0 <= i < |picks| ==> InBounds(width, height, picks[i].x, picks[i].y) && 0 <= picks[i].roll < 9)
    && Distinct(picks)
  }

  function CellsOf(picks: seq<Pick>): set<Cell> {
    set i | 0 <= i < |picks| :: (picks[i].x, picks[i].y)
  }

  /** `place(kind, |picks|)` into `m`: one secret of the given kind per accepted draw, in order. */
  function Stash(m: map<Cell, Secret>, kind: Reward, picks: seq<Pick>): map<Cell, Secret> {
    if |picks| == 0 then m
    else
      var p := picks[|picks| - 1];
      Stash(m, kind, picks[..|picks| - 1])[(p.x, p.y) := Secret(kind, 1 + p.roll, false)]
  }

  lemma {:induction false} StashKeys(m: map<Cell, Secret>, kind: Reward, picks: seq<Pick>)
    ensures Stash(m, kind, picks).Keys == m.Keys + CellsOf(picks)
  {
    if |picks| > 0 {
      var init := picks[..|picks| - 1];
      StashKeys(m, kind, init);
      assert CellsOf(picks) == CellsOf(init) + {(picks[|picks| - 1].x, picks[|picks| - 1].y)} by {
        forall k | k in CellsOf(picks) ensures k in CellsOf(init) + {(picks[|picks| - 1].x, picks[|picks| - 1].y)} {
          var i :| 0 <= i < |picks| && k == (picks[i].x, picks[i].y);
          if i < |picks| - 1 {
            assert init[i] == picks[i];
          }
        }
        forall k | k in CellsOf(init) ensures k in CellsOf(picks) {
          var i :| 0 <= i < |init| && k == (init[i].x, init[i].y);
          assert picks[i] == init[i];
        }
      }
    }
  }

  /** Each accepted draw holds a fresh secret of its kind at depth 1 + roll. */
  lemma {:induction false} StashAt(m: map<Cell, Secret>, kind: Reward, picks: seq<Pick>, i: int)
    requires Distinct(picks) && 0 <= i < |picks|
    ensures (picks[i].x, picks[i].y) in Stash(m, kind, picks)
    ensures Stash(m, kind, picks)[(picks[i].x, picks[i].y)] == Secret(kind, 1 + picks[i].roll, false)
  {
    var n := |picks| - 1;
    if i < n {
      var init := picks[..n];
      assert init[i] == picks[i];
      StashAt(m, kind, init, i);
    }
  }

  /** Cells no draw picked keep what `m` had there. */
  lemma {:induction false} StashElsewhere(m: map<Cell, Secret>, kind: Reward, picks: seq<Pick>, k: Cell)
    requires k !in CellsOf(picks)
    ensures k in Stash(m, kind, picks) <==> k in m
    ensures k in m ==> Stash(m, kind, picks)[k] == m[k]
  {
    if |picks| > 0 {
      var init := picks[..|picks| - 1];
      assert k != (picks[|picks| - 1].x, picks[|picks| - 1].y);
      assert CellsOf(init) <= CellsOf(picks) by {
        forall k' | k' in CellsOf(init) ensures k' in CellsOf(picks) {
          var i :| 0 <= i < |init| && k' == (init[i].x, init[i].y);
          assert picks[i] == init[i];
        }
      }
      StashElsewhere(m, kind, init, k);
    }
  }

  lemma CellsOfPrefix(picks: seq<Pick>, n: int)
    requires 0 <= n <= |picks|
    ensures CellsOf(picks[..n]) <= CellsOf(picks)
  {
    forall k | k in CellsOf(picks[..n]) ensures k in CellsOf(picks) {
      var i :| 0 <= i < n && k == (picks[..n][i].x, picks[..n][i].y);
      assert picks[..n][i] == picks[i];
    }
  }

  /** The cells of the first `g` draws and of the rest make up all drawn cells, and share none. */
  lemma CellsOfSplit(picks: seq<Pick>, g: int)
    requires 0 <= g <= |picks| && Distinct(picks)
    ensures CellsOf(picks) == CellsOf(picks[..g]) + CellsOf(picks[g..])
    ensures CellsOf(picks[..g]) !! CellsOf(picks[g..])
    ensures Distinct(picks[..g]) && Distinct(picks[g..])
  {
    forall k | k in CellsOf(picks) ensures k in CellsOf(picks[..g]) + CellsOf(picks[g..]) {
      var i :| 0 <= i < |picks| && k == (picks[i].x, picks[i].y);
      if i < g { assert picks[..g][i] == picks[i]; } else { assert picks[g..][i - g] == picks[i]; }
    }
    CellsOfPrefix(picks, g);
    forall k | k in CellsOf(picks[g..]) ensures k in CellsOf(picks) {
      var j :| 0 <= j < |picks| - g && k == (picks[g..][j].x, picks[g..][j].y);
      assert picks[g..][j] == picks[g + j];
    }
  }

  /** With no cell drawn twice, a draw's cell is not among the cells drawn before it. */
  lemma FreshCell(picks: seq<Pick>, i: int)
    requires Distinct(picks) && 0 <= i < |picks|
    ensures (picks[i].x, picks[i].y) !in CellsOf(picks[..i])
  {
  }

  /** With no cell picked twice and none already holding a secret, each draw adds exactly one secret. */
  lemma {:induction false} StashSize(m: map<Cell, Secret>, kind: Reward, picks: seq<Pick>)
    requires Distinct(picks) && CellsOf(picks) !! m.Keys
    ensures |Stash(m, kind, picks)| == |m| + |picks|
  {
    if |picks| > 0 {
      var n := |picks| - 1;
      var init := picks[..n];
      CellsOfPrefix(picks, n);
      StashSize(m, kind, init);
      StashKeys(m, kind, init);
      FreshCell(picks, n);
      assert (picks[n].x, picks[n].y) in CellsOf(picks);
    }
  }

  /** The secrets of a board: gold under the first `golds` draws, gas under the rest. */
  function Secrets(picks: seq<Pick>, golds: nat): map<Cell, Secret>
    requires golds <= |picks|
  {
    Stash(Stash(map[], Gold, picks[..golds]), Gas, picks[golds..])
  }

  /** The secrets sit exactly under the drawn cells. */
  lemma SecretsCells(picks: seq<Pick>, golds: nat)
    requires golds <= |picks| && Distinct(picks)
    ensures Secrets(picks, golds).Keys == CellsOf(picks)
  {
    var first := Stash(map[], Gold, picks[..golds]);
    CellsOfSplit(picks, golds);
    StashKeys(map[], Gold, picks[..golds]);
    StashKeys(first, Gas, picks[golds..]);
  }

  /** There is one secret per draw. */
  lemma SecretsCount(picks: seq<Pick>, golds: nat)
    requires golds <= |picks| && Distinct(picks)
    ensures |Secrets(picks, golds)| == |picks|
  {
    var first := Stash(map[], Gold, picks[..golds]);
    CellsOfSplit(picks, golds);
    StashKeys(map[], Gold, picks[..golds]);
    StashSize(map[], Gold, picks[..golds]);
    StashSize(first, Gas, picks[golds..]);
  }

  /**
   * Each draw's cell holds an unconsumed secret at depth 1 + roll: gold for
   * the first `golds` draws, gas for the others.
   */
  lemma SecretsKinds(picks: seq<Pick>, golds: nat, i: int)
    requires golds <= |picks| && Distinct(picks) && 0 <= i < |picks|
    ensures var s, c := Secrets(picks, golds), (picks[i].x, picks[i].y);
      c in s && s[c] == Secret(if i < golds then Gold else Gas, 1 + picks[i].roll, false)
  {
    var gold, gas := picks[..golds], picks[golds..];
    var first := Stash(map[], Gold, gold);
    CellsOfSplit(picks, golds);
    var c := (picks[i].x, picks[i].y);
    if i < golds {
      assert gold[i] == picks[i];
      StashAt(map[], Gold, gold, i);
      assert c in CellsOf(gold);
      StashElsewhere(first, Gas, gas, c);
    } else {
      assert gas[i - golds] == picks[i];
      StashAt(first, Gas, gas, i - golds);
    }
  }

  /** Every secret lies on the board and sits at a depth from 1 to 9, unconsumed. */
  lemma SecretsOnBoard(width: int, height: int, picks: seq<Pick>, golds: nat)
    requires golds <= |picks| && ValidPicks(width, height, picks)
    ensures forall c :: c in Secrets(picks, golds) ==>
      InBounds(width, height, c.0, c.1) && 1 <= Secrets(picks, golds)[c].depth <= 9 && !Secrets(picks, golds)[c].consumed
  {
    SecretsCells(picks, golds);
    forall c | c in Secrets(picks, golds)
      ensures InBounds(width, height, c.0, c.1) && 1 <= Secrets(picks, golds)[c].depth <= 9 && !Secrets(picks, golds)[c].consumed
    {
      var i :| 0 <= i < |picks| && c == (picks[i].x, picks[i].y);
      SecretsKinds(picks, golds, i);
    }
  }

  /**
   * `generateSecrets`: `place` gold under `GoldCount` accepted draws, then
   * gas under `GasCount` more, keeping the `taken` set of used cells.
   */
  method GenerateSecrets(width: nat, height: nat, picks: seq<Pick>) returns (secrets: map<Cell, Secret>)
    requires |picks| == GoldCount(width * height) + GasCount(width * height)
    requires ValidPicks(width, height, picks)
    ensures secrets == Secrets(picks, GoldCount(width * height))
  {
    var total := width * height;
    var goldCount := Quota(total, 7);
    var taken: set<Cell> := {};
    secrets := map[];
    CellsOfSplit(picks, goldCount);
    secrets, taken := Place(secrets, taken, Gold, picks[..goldCount]);
    secrets, taken := Place(secrets, taken, Gas, picks[goldCount..]);
  }

  /**
   * The `place` helper: for each accepted draw, mark its cell taken and
   * hide a secret of `kind` there.  The draws are free cells, which is what
   * the retry loop guarantees.
   */
  method Place(secrets: map<Cell, Secret>, taken: set<Cell>, kind: Reward, picks: seq<Pick>)
    returns (secrets': map<Cell, Secret>, taken': set<Cell>)
    requires taken == secrets.Keys
    requires Distinct(picks) && CellsOf(picks) !! taken
    ensures secrets' == Stash(secrets, kind, picks)
    ensures taken' == secrets'.Keys == taken + CellsOf(picks)
  {
    secrets', taken' := secrets, taken;
    var i := 0;
    while i < |picks|
      invariant 0 <= i <= |picks|
      invariant secrets' == Stash(secrets, kind, picks[..i])
      invariant taken' == secrets'.Keys
    {
      var p := picks[i];
      var k := (p.x, p.y);
      assert k !in taken' by {
        StashKeys(secrets, kind, picks[..i]);
        FreshCell(picks, i);
        assert k in CellsOf(picks);
      }
      taken' := taken' + {k};
      secrets' := secrets'[k := Secret(kind, 1 + p.roll, false)];
      assert picks[..i + 1][..i] == picks[..i];
      i := i + 1;
    }
    assert picks[..i] == picks;
    StashKeys(secrets, kind, picks);
  }

  /** An accepted cluster draw: a centre on the board and the jitter of its one to three cells. */
  datatype Cluster = Cluster(cx: int, cy: int, jitter: seq<(int, int)>)

  predicate ValidCluster(width: int, height: int, c: Cluster) {
    && InBounds(width, height, c.cx, c.cy)
    && 1 <= |c.jitter| <= 3
    && forall j :: 0 <= j < |c.jitter| ==> -1 <= c.jitter[j].0 <= 1 && -1 <= c.jitter[j].1 <= 1
  }

  /** A tree map of the board: every key a cell, every value 1. */
  predicate TreeMap(width: int, height: int, trees: map<Cell, int>) {
    forall k :: k in trees ==> InBounds(width, height, k.0, k.1) && trees[k] == 1
  }

  /** The jittered cells of a cluster that lie on the board, planted in order. */
  function PlantJitter(trees: map<Cell, int>, width: int, height: int, cx: int, cy: int, jitter: seq<(int, int)>): map<Cell, int> {
    if |jitter| == 0 then trees
    else
      var t := PlantJitter(trees, width, height, cx, cy, jitter[..|jitter| - 1]);
      var ox, oy := cx + jitter[|jitter| - 1].0, cy + jitter[|jitter| - 1].1;
      if 0 <= ox && 0 <= oy && ox < width && oy < height then t[(ox, oy) := 1] else t
  }

  /** One cluster: its jittered cells on the board, then its centre. */
  function PlantCluster(trees: map<Cell, int>, width: int, height: int, c: Cluster): map<Cell, int> {
    PlantJitter(trees, width, height, c.cx, c.cy, c.jitter)[(c.cx, c.cy) := 1]
  }

  /** `generateTrees`: the clusters, in order. */
  function PlantAll(trees: map<Cell, int>, width: int, height: int, clusters: seq<Cluster>): map<Cell, int> {
    if |clusters| == 0 then trees
    else PlantCluster(PlantAll(trees, width, height, clusters[..|clusters| - 1]), width, height, clusters[|clusters| - 1])
  }

  lemma {:induction false} PlantJitterKeeps(trees: map<Cell, int>, width: int, height: int, cx: int, cy: int, jitter: seq<(int, int)>)
    requires TreeMap(width, height, trees)
    ensures TreeMap(width, height, PlantJitter(trees, width, height, cx, cy, jitter))
    ensures trees.Keys <= PlantJitter(trees, width, height, cx, cy, jitter).Keys
  {
    if |jitter| > 0 {
      PlantJitterKeeps(trees, width, height, cx, cy, jitter[..|jitter| - 1]);
      var ox, oy := cx + jitter[|jitter| - 1].0, cy + jitter[|jitter| - 1].1;
    }
  }

  /**
   * Planting keeps every tree that was there and only plants cells of the
   * board, each with value 1.
   */
  lemma {:induction false} PlantAllKeeps(trees: map<Cell, int>, width: int, height: int, clusters: seq<Cluster>)
    requires TreeMap(width, height, trees)
    requires forall i :: 0 <= i < |clusters| ==> ValidCluster(width, height, clusters[i])
    ensures TreeMap(width, height, PlantAll(trees, width, height, clusters))
    ensures trees.Keys <= PlantAll(trees, width, height, clusters).Keys
  {
    if |clusters| > 0 {
      var init := clusters[..|clusters| - 1];
      var c := clusters[|clusters| - 1];
      assert forall i :: 0 <= i < |init| ==> init[i] == clusters[i];
      PlantAllKeeps(trees, width, height, init);
      var t := PlantAll(trees, width, height, init);
      PlantJitterKeeps(t, width, height, c.cx, c.cy, c.jitter);
    }
  }

  /** Every cluster's centre holds a tree afterwards. */
  lemma {:induction false} CentresPlanted(trees: map<Cell, int>, width: int, height: int, clusters: seq<Cluster>, i: int)
    requires TreeMap(width, height, trees)
    requires forall j :: 0 <= j < |clusters| ==> ValidCluster(width, height, clusters[j])
    requires 0 <= i < |clusters|
    ensures HasTree(PlantAll(trees, width, height, clusters), clusters[i].cx, clusters[i].cy)
    decreases |clusters|
  {
    var n := |clusters| - 1;
    var init := clusters[..n];
    var c := clusters[i];
    assert forall j :: 0 <= j < |init| ==> init[j] == clusters[j];
    PlantAllKeeps(trees, width, height, clusters);
    var final := PlantAll(trees, width, height, clusters);
    if i < n {
      PlantAllKeeps(trees, width, height, init);
      var t := PlantAll(trees, width, height, init);
      PlantJitterKeeps(t, width, height, clusters[n].cx, clusters[n].cy, clusters[n].jitter);
      CentresPlanted(trees, width, height, init, i);
      assert (c.cx, c.cy) in t;
      assert (c.cx, c.cy) in final;
    }
  }

  /** `c` is one of the jittered cells around (cx, cy) and lies on the board. */
  predicate JitterCell(width: int, height: int, cx: int, cy: int, jitter: seq<(int, int)>, c: Cell) {
    exists j :: 0 <= j < |jitter| && c == (cx + jitter[j].0, cy + jitter[j].1) && InBounds(width, height, c.0, c.1)
  }

  /** `c` is the centre of a cluster, or one of its jittered cells on the board. */
  predicate ClusterCell(width: int, height: int, clusters: seq<Cluster>, c: Cell) {
    exists i :: 0 <= i < |clusters|
      && (c == (clusters[i].cx, clusters[i].cy) || JitterCell(width, height, clusters[i].cx, clusters[i].cy, clusters[i].jitter, c))
  }

  /** The jitter plants exactly its cells that lie on the board. */
  lemma {:induction false} JitterMembers(trees: map<Cell, int>, width: int, height: int, cx: int, cy: int, jitter: seq<(int, int)>, c: Cell)
    ensures c in PlantJitter(trees, width, height, cx, cy, jitter) <==> c in trees || JitterCell(width, height, cx, cy, jitter, c)
  {
    if |jitter| > 0 {
      var n := |jitter| - 1;
      var init := jitter[..n];
      JitterMembers(trees, width, height, cx, cy, init, c);
      JitterCellLast(width, height, cx, cy, jitter, c);
      var t := PlantJitter(trees, width, height, cx, cy, init);
      var last := (cx + jitter[n].0, cy + jitter[n].1);
      assert PlantJitter(trees, width, height, cx, cy, jitter) == if InBounds(width, height, last.0, last.1) then t[last := 1] else t;
    }
  }

  /** A cell of the jitter is a cell of all but its last offset, or the last one's cell on the board. */
  lemma JitterCellLast(width: int, height: int, cx: int, cy: int, jitter: seq<(int, int)>, c: Cell)
    requires |jitter| > 0
    ensures var n := |jitter| - 1;
      JitterCell(width, height, cx, cy, jitter, c) <==>
        || JitterCell(width, height, cx, cy, jitter[..n], c)
        || (c == (cx + jitter[n].0, cy + jitter[n].1) && InBounds(width, height, c.0, c.1))
  {
    var n := |jitter| - 1;
    var init := jitter[..n];
    if JitterCell(width, height, cx, cy, jitter, c) {
      var j :| 0 <= j < |jitter| && c == (cx + jitter[j].0, cy + jitter[j].1) && InBounds(width, height, c.0, c.1);
      if j < n {
        assert init[j] == jitter[j];
      }
    }
    if JitterCell(width, height, cx, cy, init, c) {
      var j :| 0 <= j < |init| && c == (cx + init[j].0, cy + init[j].1) && InBounds(width, height, c.0, c.1);
      assert jitter[j] == init[j];
    }
  }

  /**
   * `generateTrees` plants exactly the centres of the clusters and their
   * jittered cells that lie on the board, and keeps every tree already there.
   */
  lemma {:induction false} PlantAllMembers(trees: map<Cell, int>, width: int, height: int, clusters: seq<Cluster>, c: Cell)
    ensures c in PlantAll(trees, width, height, clusters) <==> c in trees || ClusterCell(width, height, clusters, c)
  {
    if |clusters| > 0 {
      var n := |clusters| - 1;
      var init := clusters[..n];
      var k := clusters[n];
      PlantAllMembers(trees, width, height, init, c);
      JitterMembers(PlantAll(trees, width, height, init), width, height, k.cx, k.cy, k.jitter, c);
      if ClusterCell(width, height, clusters, c) {
        var i :| 0 <= i < |clusters|
          && (c == (clusters[i].cx, clusters[i].cy) || JitterCell(width, height, clusters[i].cx, clusters[i].cy, clusters[i].jitter, c));
        if i < n {
          assert init[i] == clusters[i];
        }
      }
      if ClusterCell(width, height, init, c) {
        var i :| 0 <= i < |init|
          && (c == (init[i].cx, init[i].cy) || JitterCell(width, height, init[i].cx, init[i].cy, init[i].jitter, c));
        assert clusters[i] == init[i];
      }
      if c == (k.cx, k.cy) || JitterCell(width, height, k.cx, k.cy, k.jitter, c) {
        assert ClusterCell(width, height, clusters, c);
      }
    }
  }

  /** Planting a cluster's jitter adds at most one tree per offset. */
  lemma {:induction false} PlantJitterSize(trees: map<Cell, int>, width: int, height: int, cx: int, cy: int, jitter: seq<(int, int)>)
    ensures |PlantJitter(trees, width, height, cx, cy, jitter)| <= |trees| + |jitter|
  {
    if |jitter| > 0 {
      PlantJitterSize(trees, width, height, cx, cy, jitter[..|jitter| - 1]);
    }
  }

  /** Each cluster adds at most four trees: three offsets and the centre. */
  lemma {:induction false} PlantAllSize(trees: map<Cell, int>, width: int, height: int, clusters: seq<Cluster>)
    requires forall i :: 0 <= i < |clusters| ==> ValidCluster(width, height, clusters[i])
    ensures |PlantAll(trees, width, height, clusters)| <= |trees| + 4 * |clusters|
  {
    if |clusters| > 0 {
      var init := clusters[..|clusters| - 1];
      var c := clusters[|clusters| - 1];
      PlantAllSize(trees, width, height, init);
      var before := PlantAll(trees, width, height, init);
      PlantJitterSize(before, width, height, c.cx, c.cy, c.jitter);
    }
  }

  /**
   * The trees of a new room leave a free cell: every cluster plants at most
   * four trees, and the clusters are too few to cover the board.
   */
  lemma RoomHasFreeCell(width: int, height: int, clusters: seq<Cluster>)
    requires MinSize <= width <= MaxSize && MinSize <= height <= MaxSize
    requires |clusters| == ClusterCount(width * height)
    requires forall i :: 0 <= i < |clusters| ==> ValidCluster(width, height, clusters[i])
    ensures |PlantAll(map[], width, height, clusters)| < width * height
  {
    PlantAllSize(map[], width, height, clusters);
    TreesFit(width, height);
  }
}
