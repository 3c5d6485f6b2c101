/** `OrderBy(g => g.GameDate)` and `OrderByDescending(g => g.GameDate)` over a sequence of
    game rows, and `Where` over the same rows. */
module Ordering {
  import opened Models

  datatype Direction = Ascending | Descending

  /** `a` may stand before `b` in a sequence ordered by game date in direction `dir`. */
  predicate InOrder(dir: Direction, a: Game, b: Game) {
    match dir
    case Ascending => a.gameDate <= b.gameDate
    case Descending => a.gameDate >= b.gameDate
  }

  predicate SortedBy(dir: Direction, s: seq<Game>) {
    forall i, j :: 0 <= i < j < |s| ==> InOrder(dir, s[i], s[j])
  }

  /** A row that may precede every row of a sorted sequence may be put in front of it. */
  lemma ConsSorted(dir: Direction, x: Game, s: seq<Game>)
    requires SortedBy(dir, s)
    requires forall y :: y in s ==> InOrder(dir, x, y)
    ensures SortedBy(dir, [x] + s)
  {
  }

  /** A row that may precede the head of a sorted sequence may precede all of it. */
  lemma PrecedesAll(dir: Direction, g: Game, s: seq<Game>)
    requires SortedBy(dir, s) && s != [] && InOrder(dir, g, s[0])
    ensures forall y :: y in s ==> InOrder(dir, g, y)
  {
  }

  /** The head of a sorted sequence may precede each row of what `rest` holds besides `g`. */
  lemma HeadPrecedesRest(dir: Direction, g: Game, s: seq<Game>, rest: seq<Game>)
    requires SortedBy(dir, s) && s != [] && !InOrder(dir, g, s[0])
    requires multiset(rest) == multiset(s[1..]) + multiset{g}
    ensures forall y :: y in rest ==> InOrder(dir, s[0], y)
  {
    forall y | y in rest ensures InOrder(dir, s[0], y) {
      assert y in multiset(rest);
      if y != g {
        assert y in multiset(s[1..]);
        var j :| 0 <= j < |s[1..]| && s[1..][j] == y;
        assert s[j + 1] == y;
      }
    }
  }

  /** Puts `g` in front of the first row it may precede. */
  function Insert(dir: Direction, g: Game, s: seq<Game>): (r: seq<Game>)
    ensures multiset(r) == multiset(s) + multiset{g}
    ensures SortedBy(dir, s) ==> SortedBy(dir, r)
  {
    if s == [] then [g]
    else if InOrder(dir, g, s[0]) then
      if SortedBy(dir, s) then PrecedesAll(dir, g, s); ConsSorted(dir, g, s); [g] + s
      else [g] + s
    else
      var rest := Insert(dir, g, s[1..]);
      assert s == [s[0]] + s[1..];
      if SortedBy(dir, s) then
        HeadPrecedesRest(dir, g, s, rest);
        ConsSorted(dir, s[0], rest);
        [s[0]] + rest
      else [s[0]] + rest
  }

  /** A stable insertion sort on game date: the rows of `s`, each once, in direction `dir`. */
  function SortBy(dir: Direction, s: seq<Game>): (r: seq<Game>)
    ensures multiset(r) == multiset(s)
    ensures SortedBy(dir, r)
  {
    if s == [] then []
    else
      assert s == [s[0]] + s[1..];
      Insert(dir, s[0], SortBy(dir, s[1..]))
  }

  /** `Where(keep)`: the rows that satisfy `keep`, each as often as it is stored. */
  function Where(s: seq<Game>, keep: Game -> bool): (r: seq<Game>)
    ensures forall g :: multiset(r)[g] == if keep(g) then multiset(s)[g] else 0
  {
    if s == [] then []
    else
      assert s == [s[0]] + s[1..];
      var rest := Where(s[1..], keep);
      if keep(s[0]) then [s[0]] + rest else rest
  }
}
