/**
 * The board: cell keys, distances, clamping and the tree lookup of
 * src/rooms/MyRoom.ts.  The room keys its maps by the text `"x,y"` that
 * `key` builds; `KeyRoundTrip` shows the text gives the cell back, so the
 * model keys those maps by the cell itself.
 */
module Grid {
  import opened Wrappers
  import opened Decimal

  /** A board cell (x, y); the room's maps are keyed by it through `Key`. */
  type Cell = (int, int)

  function Abs(n: int): nat {
    if n < 0 then -n else n
  }

  function Max(a: int, b: int): int {
    if a < b then b else a
  }

  function Min(a: int, b: int): int {
    if a < b then a else b
  }

  /** `Math.max(lo, Math.min(hi, v))`: `v` pulled into `[lo, hi]`. */
  function Clamp(lo: int, hi: int, v: int): (r: int)
    requires lo <= hi
    ensures lo <= r <= hi
    ensures lo <= v <= hi ==> r == v
    ensures v < lo ==> r == lo
    ensures hi < v ==> r == hi
  {
    Max(lo, Min(hi, v))
  }

  /** `Math.sign` on a whole number. */
  function Sign(n: int): (r: int)
    ensures r == -1 || r == 0 || r == 1
    ensures r * Abs(n) == n
  {
    if n > 0 then 1 else if n < 0 then -1 else 0
  }

  /** The map key of cell (x, y): `${x},${y}`. */
  function Key(x: int, y: int): string {
    IntToString(x) + "," + IntToString(y)
  }

  /** Index of the first `c` in `s`, or |s| when there is none. */
  function IndexOf(s: string, c: char): (i: nat)
    ensures i <= |s|
    ensures i < |s| ==> s[i] == c
    ensures forall j :: 0 <= j < i ==> s[j] != c
  {
    if |s| == 0 then 0 else if s[0] == c then 0 else 1 + IndexOf(s[1..], c)
  }

  /** Reads a key back; the reference inverse of `Key`. */
  function ParseKey(s: string): Option<(int, int)> {
    var i := IndexOf(s, ',');
    if i < |s| then Some((ParseInt(s[..i]), ParseInt(s[i + 1..]))) else None
  }

  lemma {:induction false} CommaAfterNumber(n: int, rest: string)
    ensures IndexOf(IntToString(n) + "," + rest, ',') == |IntToString(n)|
  {
    var s := IntToString(n);
    var t := s + "," + rest;
    assert t[|s|] == ',';

  }

  /** Reading a key back gives the cell it was made from. */
  lemma KeyRoundTrip(x: int, y: int)
    ensures ParseKey(Key(x, y)) == Some((x, y))
  {
    var sx := IntToString(x);
    var k := Key(x, y);
    CommaAfterNumber(x, IntToString(y));
    assert k[..|sx|] == sx;
    assert k[|sx| + 1..] == IntToString(y);
    IntRoundTrip(x);
    IntRoundTrip(y);
  }

  /** Distinct cells have distinct keys, so a key map holds one entry per cell. */
  lemma KeyInjective(x1: int, y1: int, x2: int, y2: int)
    ensures Key(x1, y1) == Key(x2, y2) <==> x1 == x2 && y1 == y2
  {
    KeyRoundTrip(x1, y1);
    KeyRoundTrip(x2, y2);
  }

  predicate InBounds(width: int, height: int, x: int, y: int) {
    0 <= x < width && 0 <= y < height
  }

  function Chebyshev(x1: int, y1: int, x2: int, y2: int): nat {
    Max(Abs(x1 - x2), Abs(y1 - y2))
  }

  function Manhattan(x1: int, y1: int, x2: int, y2: int): nat {
    Abs(x1 - x2) + Abs(y1 - y2)
  }

  /** `(trees.get(key(x, y)) ?? 0) > 0`. */
  predicate HasTree(trees: map<Cell, int>, x: int, y: int) {
    (x, y) in trees && trees[(x, y)] > 0
  }

  /** The cells of row `y` left of column `w`. */
  function Row(w: int, y: int): set<Cell>
    decreases w
  {
    if w <= 0 then {} else Row(w - 1, y) + {(w - 1, y)}
  }

  /** Row `y` holds the cells of that row left of column `w`. */
  lemma {:induction false} RowMembers(w: int, y: int)
    ensures forall c :: c in Row(w, y) <==> 0 <= c.0 < w && c.1 == y
    decreases w
  {
    if w > 0 {
      RowMembers(w - 1, y);
    }
  }

  /** Row `y` has `w` cells left of column `w`. */
  lemma {:induction false} RowSize(w: int, y: int)
    requires w >= 0
    ensures |Row(w, y)| == w
    decreases w
  {
    if w > 0 {
      RowSize(w - 1, y);
      RowMembers(w - 1, y);
      assert (w - 1, y) !in Row(w - 1, y);
    }
  }

  /** The cells of a `w` by `h` board. */
  function Board(w: int, h: int): set<Cell>
    decreases h
  {
    if h <= 0 then {} else Board(w, h - 1) + Row(w, h - 1)
  }

  /** The board holds exactly the cells in bounds. */
  lemma {:induction false} BoardMembers(w: int, h: int)
    ensures forall c :: c in Board(w, h) <==> InBounds(w, h, c.0, c.1)
    decreases h
  {
    if h > 0 {
      BoardMembers(w, h - 1);
      RowMembers(w, h - 1);
    }
  }

  /** `w * h`, one row at a time. */
  function Area(w: int, h: int): int
    decreases h
  {
    if h <= 0 then 0 else Area(w, h - 1) + w
  }

  /** Adding up `h` rows of `w` cells gives `w * h`. */
  lemma {:induction false} AreaIsProduct(w: int, h: int)
    requires h >= 0
    ensures Area(w, h) == w * h
    decreases h
  {
    if h > 0 {
      AreaIsProduct(w, h - 1);
      assert w * (h - 1) + w == w * h;
    }
  }

  /** A `w` by `h` board has `w * h` cells. */
  lemma {:induction false} BoardSize(w: int, h: int)
    requires w >= 0 && h >= 0
    ensures |Board(w, h)| == Area(w, h)
    decreases h
  {
    if h > 0 {
      BoardSize(w, h - 1);
      RowSize(w, h - 1);
      RowApart(w, h);
      DisjointSize(Board(w, h - 1), Row(w, h - 1));
    }
  }

  /** The top row of a board is not part of the rows below it. */
  lemma RowApart(w: int, h: int)
    requires w >= 0 && h > 0
    ensures Board(w, h - 1) !! Row(w, h - 1)
  {
    BoardMembers(w, h - 1);
    RowMembers(w, h - 1);
    var rest, row := Board(w, h - 1), Row(w, h - 1);
    forall c | c in row ensures c !in rest {
      assert c.1 == h - 1;
    }
  }

  /** A board with fewer occupied cells than cells has a free one. */
  lemma {:induction false} FreeCell(w: int, h: int, taken: set<Cell>)
    requires w >= 0 && h >= 0 && |taken| < w * h
    ensures exists x, y :: InBounds(w, h, x, y) && (x, y) !in taken
  {
    var b := Board(w, h);
    BoardMembers(w, h);
    BoardSize(w, h);
    AreaIsProduct(w, h);
    if b <= taken {
      SubsetSize(b, taken);
    }
    var c :| c in b && c !in taken;
    assert InBounds(w, h, c.0, c.1) && (c.0, c.1) !in taken;
  }

  /** Disjoint sets add up. */
  lemma DisjointSize<T>(a: set<T>, b: set<T>)
    requires a !! b
    ensures |a + b| == |a| + |b|
  {
  }

  /** A subset is no larger than its superset. */
  lemma {:induction false} SubsetSize<T>(a: set<T>, b: set<T>)
    requires a <= b
    ensures |a| <= |b|
  {
    assert b == a + (b - a);
  }
}
