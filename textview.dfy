/**
 * The text renderer (src/client/views/text/renderer.ts): the grid of one
 * character per cell and the summary line of each player.  Clearing the
 * terminal and printing are not part of this model.
 */
module TextView {
  import opened Wrappers
  import opened Grid
  import opened Decimal
  import opened Selectors

  const TreeChar := 'T'
  const EmptyChar := '·'
  const UnnamedChar := '?'

  /** The first player listed at (x, y), if any. */
  function FirstAt(players: seq<PlayerView>, x: int, y: int): (r: Option<nat>)
    ensures r.Some? ==> r.value < |players| && players[r.value].x == x && players[r.value].y == y
    ensures r.Some? ==> forall j :: 0 <= j < r.value ==> !(players[j].x == x && players[j].y == y)
    ensures r.None? <==> forall j :: 0 <= j < |players| ==> !(players[j].x == x && players[j].y == y)
  {
    if |players| == 0 then None
    else if players[0].x == x && players[0].y == y then Some(0)
    else match FirstAt(players[1..], x, y)
      case None => None
      case Some(k) => Some(k + 1)
  }

  /** The names of the players at each cell, in list order: `playerAt`. */
  function NamesAt(players: seq<PlayerView>, c: Cell): (names: seq<string>)
    ensures |names| <= |players|
  {
    if |players| == 0 then []
    else
      var rest := NamesAt(players[..|players| - 1], c);
      var p := players[|players| - 1];
      if (p.x, p.y) == c then rest + [p.name] else rest
  }

  /** A cell's list is empty exactly when nobody stands there, and otherwise begins with the first player's name. */
  lemma {:induction false} NamesAtFirst(players: seq<PlayerView>, c: Cell)
    ensures NamesAt(players, c) == [] <==> FirstAt(players, c.0, c.1).None?
    ensures NamesAt(players, c) != [] ==> NamesAt(players, c)[0] == players[FirstAt(players, c.0, c.1).value].name
  {
    if |players| > 0 {
      var n := |players| - 1;
      var init := players[..n];
      NamesAtFirst(init, c);
      FirstAtPrefix(players, c);
    }
  }

  /** The first player at a cell among all players is the first among all but the last, unless only the last stands there. */
  lemma FirstAtPrefix(players: seq<PlayerView>, c: Cell)
    requires |players| > 0
    ensures var init := players[..|players| - 1];
      && (FirstAt(init, c.0, c.1).Some? ==> FirstAt(players, c.0, c.1) == FirstAt(init, c.0, c.1))
      && (FirstAt(init, c.0, c.1).None? ==>
            FirstAt(players, c.0, c.1) == if (players[|players| - 1].x, players[|players| - 1].y) == c then Some(|players| - 1) else None)
  {
    var n := |players| - 1;
    var init := players[..n];
    var g := FirstAt(init, c.0, c.1);
    if g.Some? {
      assert forall j :: 0 <= j <= g.value ==> init[j] == players[j];
      FirstAtUnique(players, c.0, c.1, g.value);
    } else {
      assert forall j :: 0 <= j < n ==> !(players[j].x == c.0 && players[j].y == c.1) by {
        assert forall j :: 0 <= j < n ==> init[j] == players[j];
      }
      if (players[n].x, players[n].y) == c {
        FirstAtUnique(players, c.0, c.1, n);
      }
    }
  }

  /** A player at (x, y) with nobody there before it is the first one there. */
  lemma FirstAtUnique(players: seq<PlayerView>, x: int, y: int, k: nat)
    requires k < |players| && players[k].x == x && players[k].y == y
    requires forall j :: 0 <= j < k ==> !(players[j].x == x && players[j].y == y)
    ensures FirstAt(players, x, y) == Some(k)
  {
  }

  /** The loop that fills `playerAt`: each player's name pushed onto the list of its cell. */
  method IndexPlayers(players: seq<PlayerView>) returns (at: map<Cell, seq<string>>)
    ensures forall c :: c in at <==> NamesAt(players, c) != []
    ensures forall c :: c in at ==> at[c] == NamesAt(players, c)
  {
    at := map[];
    var i := 0;
    while i < |players|
      invariant 0 <= i <= |players|
      invariant forall c :: c in at <==> NamesAt(players[..i], c) != []
      invariant forall c :: c in at ==> at[c] == NamesAt(players[..i], c)
    {
      var p := players[i];
      var k := (p.x, p.y);
      var list := if k in at then at[k] else [];
      at := at[k := list + [p.name]];
      assert players[..i + 1][..i] == players[..i];
      i := i + 1;
    }
    assert players[..i] == players;
  }

  /** `name[0] || '?'`: the first character, or '?' for an empty name. */
  function Initial(name: string): char {
    if |name| > 0 then name[0] else UnnamedChar
  }

  /** `pits.get(k) || 0`. */
  function DepthAt(pits: map<Cell, int>, c: Cell): int {
    if c in pits then pits[c] else 0
  }

  /**
   * The character of cell (x, y): a tree wins over everything; otherwise
   * the initial of the first player listed there; otherwise the pit depth
   * capped at 9, when positive; otherwise '·'.
   */
  function CellChar(m: RenderModel, x: int, y: int): (ch: char)
    ensures (x, y) in m.trees ==> ch == TreeChar
    ensures (x, y) !in m.trees && FirstAt(m.players, x, y).Some? ==>
      ch == Initial(m.players[FirstAt(m.players, x, y).value].name)
    ensures (x, y) !in m.trees && FirstAt(m.players, x, y).None? && DepthAt(m.pits, (x, y)) > 0 ==>
      ch == DigitChar(Min(DepthAt(m.pits, (x, y)), 9))
    ensures (x, y) !in m.trees && FirstAt(m.players, x, y).None? && DepthAt(m.pits, (x, y)) <= 0 ==>
      ch == EmptyChar
  {
    if (x, y) in m.trees then TreeChar
    else if FirstAt(m.players, x, y).Some? then Initial(m.players[FirstAt(m.players, x, y).value].name)
    else
      var depth := DepthAt(m.pits, (x, y));
      if depth > 0 then DigitChar(Min(depth, 9)) else EmptyChar
  }

  /** A pit digit is one of '1' to '9': never the tree or empty mark. */
  lemma PitDigits(d: int)
    requires d > 0
    ensures '1' <= DigitChar(Min(d, 9)) <= '9'
  {
  }

  /**
   * The grid of `render`: `height` lines of `width` characters (none when
   * a side is not positive), character x of line y being `CellChar`.
   */
  method RenderGrid(m: RenderModel) returns (lines: seq<string>)
    ensures |lines| == Max(0, m.height)
    ensures forall y :: 0 <= y < |lines| ==> |lines[y]| == Max(0, m.width)
    ensures forall y, x :: 0 <= y < |lines| && 0 <= x < |lines[y]| ==> lines[y][x] == CellChar(m, x, y)
  {
    var playerAt := IndexPlayers(m.players);
    lines := [];
    var y := 0;
    while y < m.height
      invariant 0 <= y && |lines| == y
      invariant y <= Max(0, m.height)
      invariant forall j :: 0 <= j < y ==> |lines[j]| == Max(0, m.width)
      invariant forall j, x :: 0 <= j < y && 0 <= x < |lines[j]| ==> lines[j][x] == CellChar(m, x, j)
    {
      var line := "";
      var x := 0;
      while x < m.width
        invariant 0 <= x && |line| == x
        invariant x <= Max(0, m.width)
        invariant forall i :: 0 <= i < x ==> line[i] == CellChar(m, i, y)
      {
        var k := (x, y);
        var ch: char;
        if k in m.trees {
          ch := TreeChar;
        } else if k in playerAt && |playerAt[k]| > 0 {
          NamesAtFirst(m.players, k);
          ch := Initial(playerAt[k][0]);
        } else {
          NamesAtFirst(m.players, k);
          var depth := if k in m.pits then m.pits[k] else 0;
          ch := if depth > 0 then DigitChar(Min(depth, 9)) else EmptyChar;
        }
        line := line + [ch];
        x := x + 1;
      }
      lines := lines + [line];
      y := y + 1;
    }
  }

  /** `p.tribe ? "[tribe]" : ""`: shown only for a present, non-empty tribe. */
  function TribeTag(tribe: Option<string>): (tag: string)
    ensures tag == "" <==> tribe.None? || tribe.value == ""
    ensures tag != "" ==> tag[0] == '[' && tag[|tag| - 1] == ']' && tag[1..|tag| - 1] == tribe.value
  {
    if tribe.Some? && tribe.value != "" then "[" + tribe.value + "]" else ""
  }

  /** What separates the position from the gold in a summary line. */
  const GoldLabel := ") gold="

  /** `(x,y) gold=G`: the position, written as the cell's key, and the gold. */
  function Holdings(p: PlayerView): (part: string)
    ensures |part| > 0 && part[0] == '(' && IsDigit(part[|part| - 1])
  {
    "(" + Key(p.x, p.y) + GoldLabel + IntToString(p.gold)
  }

  /** Reads the holdings text back; the reference inverse of `Holdings`. */
  function ParseHoldings(s: string): Option<(int, int, int)> {
    if |s| == 0 || s[0] != '(' then None else ParseInside(s[1..])
  }

  /** Reads the key up to the first ')', then the gold after the label. */
  function ParseInside(t: string): Option<(int, int, int)> {
    var i := IndexOf(t, ')');
    if i + |GoldLabel| <= |t| && t[i..i + |GoldLabel|] == GoldLabel then
      match ParseKey(t[..i])
      case Some((x, y)) => Some((x, y, ParseInt(t[i + |GoldLabel|..])))
      case None => None
    else None
  }

  /** A cell's key holds digits, minus signs and a comma, never a ')'. */
  lemma NoCloseInKey(x: int, y: int)
    ensures forall j :: 0 <= j < |Key(x, y)| ==> Key(x, y)[j] != ')'
  {
    var sx, sy := IntToString(x), IntToString(y);
    var k := Key(x, y);
    forall j | 0 <= j < |k| ensures k[j] != ')' {
      if j < |sx| {
        assert k[j] == sx[j];
      } else if j > |sx| {
        assert k[j] == sy[j - |sx| - 1];
      }
    }
  }

  /** The first ')' after a key is the one that follows it. */
  lemma CloseAfterKey(x: int, y: int, rest: string)
    requires |rest| > 0 && rest[0] == ')'
    ensures IndexOf(Key(x, y) + rest, ')') == |Key(x, y)|
  {
    var k := Key(x, y);
    var t := k + rest;
    NoCloseInKey(x, y);
    assert t[|k|] == ')';
    assert forall j :: 0 <= j < |k| ==> t[j] == k[j];
  }

  /** The summary shows the holdings faithfully: reading them back gives the position and the gold. */
  lemma HoldingsRoundTrip(p: PlayerView)
    ensures ParseHoldings(Holdings(p)) == Some((p.x, p.y, p.gold))
  {
    var g := IntToString(p.gold);
    var t := Key(p.x, p.y) + (GoldLabel + g);
    HoldingsText(p);
    KeyThenLabel(p.x, p.y, g);
    IntRoundTrip(p.gold);
    ParseInsideOf(t, |Key(p.x, p.y)|, (p.x, p.y));
    assert Holdings(p)[1..] == t;
  }

  /** Text made of a key, the gold label and `g` splits back into the cell and `g`. */
  lemma KeyThenLabel(x: int, y: int, g: string)
    ensures var k := Key(x, y); var t := k + (GoldLabel + g);
      && |k| + |GoldLabel| <= |t| && IndexOf(t, ')') == |k|
      && t[|k|..|k| + |GoldLabel|] == GoldLabel && ParseKey(t[..|k|]) == Some((x, y))
      && t[|k| + |GoldLabel|..] == g
  {
    LabelledParts(Key(x, y), g);
    CloseAfterKey(x, y, GoldLabel + g);
    KeyRoundTrip(x, y);
  }

  /** The holdings text is "(", the key, the gold label and the gold. */
  lemma HoldingsText(p: PlayerView)
    ensures Holdings(p) == "(" + (Key(p.x, p.y) + (GoldLabel + IntToString(p.gold)))
  {
  }

  /** The three parts of a key, the gold label and a number, cut back apart. */
  lemma LabelledParts(k: string, g: string)
    ensures var t := k + (GoldLabel + g);
      && |k| + |GoldLabel| <= |t|
      && t[..|k|] == k
      && t[|k|..|k| + |GoldLabel|] == GoldLabel
      && t[|k| + |GoldLabel|..] == g
  {
  }

  /** What `ParseInside` reads from t once the parts of t are known. */
  lemma ParseInsideOf(t: string, i: nat, c: Cell)
    requires i + |GoldLabel| <= |t| && IndexOf(t, ')') == i
    requires t[i..i + |GoldLabel|] == GoldLabel && ParseKey(t[..i]) == Some(c)
    ensures ParseInside(t) == Some((c.0, c.1, ParseInt(t[i + |GoldLabel|..])))
  {
  }

  /** `- name[tribe](x,y) gold=G`, followed by ` poisoned` for a poisoned player. */
  function SummaryLine(p: PlayerView): (line: string)
    ensures |line| >= 2 + |p.name| + 1
    ensures line[..2 + |p.name|] == "- " + p.name
  {
    "- " + p.name + TribeTag(p.tribe) + Holdings(p) + (if p.poisoned then " poisoned" else "")
  }

  /** The character after the name opens the tribe tag exactly when there is a tribe to show. */
  lemma SummaryShowsTribe(p: PlayerView)
    ensures SummaryLine(p)[2 + |p.name|] == '[' <==> p.tribe.Some? && p.tribe.value != ""
  {
    var tail := Holdings(p) + (if p.poisoned then " poisoned" else "");
    assert SummaryLine(p) == ("- " + p.name) + TribeTag(p.tribe) + tail;
    CharAfter("- " + p.name, TribeTag(p.tribe), tail);
  }

  /** The holdings text follows the name and the tribe tag, so the line shows the position and the gold. */
  lemma SummaryShowsHoldings(p: PlayerView)
    ensures var line, at := SummaryLine(p), 2 + |p.name| + |TribeTag(p.tribe)|;
      at + |Holdings(p)| <= |line| && line[at..at + |Holdings(p)|] == Holdings(p)
  {
    var head := "- " + p.name + TribeTag(p.tribe);
    var tail := if p.poisoned then " poisoned" else "";
    assert SummaryLine(p) == head + Holdings(p) + tail;
    Middle(head, Holdings(p), tail);
  }

  /** The middle part of `head + mid + tail` cut back out. */
  lemma Middle(head: string, mid: string, tail: string)
    ensures (head + mid + tail)[|head|..|head| + |mid|] == mid
  {
  }

  /** The character right after `head` in `head + mid + tail`. */
  lemma CharAfter(head: string, mid: string, tail: string)
    requires |tail| > 0
    ensures (head + mid + tail)[|head|] == if mid == "" then tail[0] else mid[0]
  {
  }

  /** The line ends in " poisoned" exactly when the player is poisoned: otherwise it ends in a digit of the gold. */
  lemma SummaryShowsPoison(p: PlayerView)
    ensures var line := SummaryLine(p);
      |line| >= 9 && (line[|line| - 9..] == " poisoned" <==> p.poisoned)
  {
    var line := SummaryLine(p);
    var front := "- " + p.name + TribeTag(p.tribe) + Holdings(p);
    if p.poisoned {
      assert line == front + " poisoned";
    } else {
      assert line == front;
      assert line[|line| - 1] == Holdings(p)[|Holdings(p)| - 1];
    }
  }

}
