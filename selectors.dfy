/**
 * `toRenderModel` (src/client/domain/selectors.ts): the replicated room
 * state, any part of which may be missing, flattened into the model the
 * renderers draw.  Cell keys are cells here, as on the server.
 */
module Selectors {
  import opened Wrappers
  import opened Grid

  /** A replicated player record; a field is `None` when it is null or undefined. */
  datatype PlayerSource = PlayerSource(
    name: Option<string>, tribe: Option<string>,
    x: Option<int>, y: Option<int>, gold: Option<int>, poisoned: Option<bool>)

  /** The replicated state; the players are listed in the order of the players map. */
  datatype StateSource = StateSource(
    width: Option<int>, height: Option<int>,
    pits: Option<map<Cell, int>>, trees: Option<map<Cell, int>>,
    players: Option<seq<PlayerSource>>)

  /** `PlayerVM`: the tribe stays absent when the record has none. */
  datatype PlayerView = PlayerView(name: string, tribe: Option<string>, x: int, y: int, gold: int, poisoned: bool)

  /** `RenderModel`: tree cells as a set, since the renderers only ask whether a cell has one. */
  datatype RenderModel = RenderModel(width: int, height: int, pits: map<Cell, int>, trees: set<Cell>, players: seq<PlayerView>)

  const DefaultSide := 10

  /** One player as the render model shows it: each missing field replaced by its default. */
  function ViewOf(p: PlayerSource): (v: PlayerView)
    ensures v.name == (if p.name.Some? then p.name.value else "?")
    ensures v.tribe == p.tribe
    ensures v.x == (if p.x.Some? then p.x.value else 0) && v.y == (if p.y.Some? then p.y.value else 0)
    ensures v.gold == (if p.gold.Some? then p.gold.value else 0)
    ensures v.poisoned <==> p.poisoned == Some(true)
  {
    PlayerView(p.name.GetOr("?"), p.tribe, p.x.GetOr(0), p.y.GetOr(0), p.gold.GetOr(0), p.poisoned.GetOr(false))
  }

  /** The `pits.forEach((v, k) => pits.set(k, v))` copy. */
  method CopyPits(src: map<Cell, int>) returns (pits: map<Cell, int>)
    ensures pits == src
  {
    pits := map[];
    var rest := src.Keys;
    while rest != {}
      invariant rest <= src.Keys
      invariant pits.Keys == src.Keys - rest
      invariant forall k :: k in pits ==> pits[k] == src[k]
      decreases |rest|
    {
      var k :| k in rest;
      pits := pits[k := src[k]];
      rest := rest - {k};
    }
  }

  /** The `trees.forEach((_v, k) => trees.add(k))` collection of keys. */
  method CollectTrees(src: map<Cell, int>) returns (trees: set<Cell>)
    ensures trees == src.Keys
  {
    trees := {};
    var rest := src.Keys;
    while rest != {}
      invariant rest <= src.Keys
      invariant trees == src.Keys - rest
      decreases |rest|
    {
      var k :| k in rest;
      trees := trees + {k};
      rest := rest - {k};
    }
  }

  /**
   * `toRenderModel`: width and height default to 10 and otherwise pass
   * through; pits are copied key for key; the tree set is the tree map's
   * key set; the players keep their count and order, each with its
   * defaults filled in.  A missing collection gives an empty one.
   */
  method ToRenderModel(s: StateSource) returns (m: RenderModel)
    ensures m.width == (if s.width.Some? then s.width.value else DefaultSide)
    ensures m.height == (if s.height.Some? then s.height.value else DefaultSide)
    ensures m.pits == (if s.pits.Some? then s.pits.value else map[])
    ensures m.trees == (if s.trees.Some? then s.trees.value.Keys else {})
    ensures |m.players| == (if s.players.Some? then |s.players.value| else 0)
    ensures forall i :: 0 <= i < |m.players| ==> m.players[i] == ViewOf(s.players.value[i])
  {
    var width := s.width.GetOr(DefaultSide);
    var height := s.height.GetOr(DefaultSide);
    var pits: map<Cell, int> := map[];
    if s.pits.Some? {
      pits := CopyPits(s.pits.value);
    }
    var trees: set<Cell> := {};
    if s.trees.Some? {
      trees := CollectTrees(s.trees.value);
    }
    var players: seq<PlayerView> := [];
    if s.players.Some? {
      var src := s.players.value;
      var i := 0;
      while i < |src|
        invariant 0 <= i <= |src|
        invariant |players| == i
        invariant forall j :: 0 <= j < i ==> players[j] == ViewOf(src[j])
      {
        players := players + [ViewOf(src[i])];
        i := i + 1;
      }
    }
    m := RenderModel(width, height, pits, trees, players);
  }
}
