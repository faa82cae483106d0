/** aoc_9: the marble game. Marbles are placed into a circle kept as a
    vector with a current index; every 23rd marble is instead scored together
    with the marble seven places counter-clockwise, which is removed. */
module MarbleGame {
  import opened Seqs
  import Arith

  class MarbleCircle {
    var marbles: seq<nat>
    var current: nat

    /** The current marble is one of the circle's. */
    predicate Valid()
      reads this
    {
      current < |marbles|
    }

    /** `MarbleCircle::new`: the circle holds marble 0 alone. */
    constructor ()
      ensures marbles == [0] && current == 0
      ensures Valid()
    {
      marbles := [0];
      current := 0;
    }

    /** `insert`: the marble goes between the marbles one and two places
        clockwise of the current one, and becomes current. The other
        marbles keep their order. */
    method Insert(marble: nat)
      requires Valid()
      modifies this
      ensures Valid()
      ensures |marbles| == |old(marbles)| + 1
      ensures 1 <= current <= |old(marbles)|
      ensures current == InsertionIndex(old(current), |old(marbles)|)
      ensures marbles == old(marbles)[..current] + [marble] + old(marbles)[current..]
    {
      var position := (current + 1) % |marbles| + 1;
      marbles := marbles[..position] + [marble] + marbles[position..];
      current := position;
    }

    /** `remove`: takes out the marble seven places counter-clockwise of the
        current one; the marble after it becomes current. The usize
        subtraction in the source underflows unless `current + len >= 7`,
        and the final `%` divides by zero when the last marble is removed. */
    method Remove() returns (removed: nat)
      requires Valid()
      requires |marbles| >= 2 && current + |marbles| >= 7
      modifies this
      ensures Valid()
      ensures |marbles| == |old(marbles)| - 1
      ensures var position := RemovalIndex(old(current), |old(marbles)|);
        removed == old(marbles)[position]
        && marbles == old(marbles)[..position] + old(marbles)[position + 1..]
        && current == Wrap(position, |marbles|)
    {
      var n := |marbles|;
      var position := if current >= 7 then current - 7 else current + n - 7;
      if current >= 7 {
        Arith.DivModUnique(current - 7, 0, position, n);
      } else {
        Arith.DivModUnique(current - 7, -1, position, n);
      }
      removed := marbles[position];
      marbles := marbles[..position] + marbles[position + 1..];
      current := Wrap(position, |marbles|);
    }
  }

  /** The index between the marbles one and two places clockwise of
      `current` in a circle of `n` marbles. */
  function InsertionIndex(current: nat, n: nat): (i: nat)
    requires n > 0
    ensures 1 <= i <= n
  {
    (current + 1) % n + 1
  }

  /** The index seven places counter-clockwise of `current` in a circle
      of `n` marbles. */
  function RemovalIndex(current: nat, n: nat): (i: nat)
    requires n > 0
    ensures i < n
  {
    (current - 7) % n
  }

  lemma SumInsert(s: seq<nat>, p: nat, x: nat)
    requires p <= |s|
    ensures Sum(s[..p] + [x] + s[p..]) == Sum(s) + x
  {
    SumAppend(s[..p] + [x], s[p..]);
    SumAppend(s[..p], [x]);
    SumSingle(x);
    SumAppend(s[..p], s[p..]);
    assert s[..p] + s[p..] == s;
  }

  lemma SumRemove(s: seq<nat>, p: nat)
    requires p < |s|
    ensures Sum(s[..p] + s[p + 1..]) == Sum(s) - s[p]
  {
    SumAppend(s[..p], s[p + 1..]);
    SumSplit(s, p);
  }

  /** The circle grows by one per placed marble and shrinks by one per
      scoring marble: after `k` marbles it holds `k + 1 - 2 * (k / 23)`. */
  lemma LengthStep(k: nat)
    ensures (k + 1) % 23 == 0 ==> (k + 1) / 23 == k / 23 + 1
    ensures (k + 1) % 23 != 0 ==> (k + 1) / 23 == k / 23
  {
    Arith.DivModUnique(k, k / 23, k % 23, 23);
    if k % 23 == 22 {
      Arith.DivModUnique(k + 1, k / 23 + 1, 0, 23);
    } else {
      Arith.DivModUnique(k + 1, k / 23, k % 23 + 1, 23);
    }
  }

  /** The size of the circle after `k` marbles: one per marble placed, one
      less for each scoring marble and the marble it takes. */
  function CircleSize(k: nat): int
  {
    k + 1 - 2 * (k / 23)
  }

  /** After marble `m` the circle is one marble longer, or one shorter
      when `m` scores. */
  lemma CircleLength(m: nat)
    requires m >= 1
    ensures m % 23 == 0 ==> CircleSize(m - 1) >= 23 && CircleSize(m) == CircleSize(m - 1) - 1
    ensures m % 23 != 0 ==> CircleSize(m) == CircleSize(m - 1) + 1
  {
    LengthStep(m - 1);
    if m % 23 == 0 {
      ScoringCircleSize(m);
    }
  }

  /** `1 + 2 + ... + n`. */
  function Triangle(n: nat): nat
  {
    if n == 0 then 0 else Triangle(n - 1) + n
  }

  lemma {:induction false} TriangleClosed(n: nat)
    ensures 2 * Triangle(n) == n * (n + 1)
  {
    if n > 0 {
      TriangleClosed(n - 1);
      assert n * (n + 1) == (n - 1) * n + 2 * n;
    }
  }

  /** When marble `m` is a multiple of 23 the circle holds at least 23
      marbles, so `remove` neither underflows nor empties the circle. */
  lemma ScoringCircleSize(m: nat)
    requires m >= 1 && m % 23 == 0
    ensures m - 2 * ((m - 1) / 23) >= 23
  {
    var q := (m - 1) / 23;
    Arith.DivModUnique(m, q + 1, 0, 23);
    Arith.DivModUnique(m - 1, q, 22, 23);
  }

  /** A scoring turn moves the marble played and the marble removed from
      the circle to the player's score: the total stays `1 + ... + m`. */
  lemma ScoreStep(scores: seq<nat>, player: nat, circle: seq<nat>, position: nat, m: nat)
    requires player < |scores| && position < |circle| && m >= 1
    requires Sum(scores) + Sum(circle) == Triangle(m - 1)
    ensures Sum(scores[player := scores[player] + m + circle[position]])
      + Sum(circle[..position] + circle[position + 1..]) == Triangle(m)
  {
    SumRemove(circle, position);
    SumUpdate(scores, player, scores[player] + m + circle[position]);
  }

  /** A placing turn moves the marble played into the circle: the total
      stays `1 + ... + m`. */
  lemma PlaceStep(scores: seq<nat>, circle: seq<nat>, position: nat, m: nat)
    requires position <= |circle| && m >= 1
    requires Sum(scores) + Sum(circle) == Triangle(m - 1)
    ensures Sum(scores) + Sum(circle[..position] + [m] + circle[position..]) == Triangle(m)
  {
    SumInsert(circle, position, m);
  }

  /** The game after a number of marbles: each player's score, the
      circle, the index of the current marble and the player who placed the
      last marble. */
  datatype State = State(scores: seq<nat>, marbles: seq<nat>, current: nat, player: nat)

  /** The game of `numPlayers` players after marbles `1..=k`, played by
      the rules of `main`: the turn passes to the next player, a multiple
      of 23 is scored together with the marble seven places
      counter-clockwise, which leaves the circle, and any other marble is
      inserted one place past the marble clockwise of the current one. */
  ghost function Game(numPlayers: nat, k: nat): (s: State)
    requires numPlayers > 0
    ensures |s.scores| == numPlayers && s.player < numPlayers
    ensures |s.marbles| == CircleSize(k) && s.current < |s.marbles|
  {
    if k == 0 then State(seq(numPlayers, _ => 0), [0], 0, 0)
    else Turn(numPlayers, Game(numPlayers, k - 1), k)
  }

  /** The player whose turn follows `player`'s among `n`. */
  function NextPlayer(player: nat, n: nat): (r: nat)
    requires n > 0
    ensures r < n
  {
    (player + 1) % n
  }

  /** `i` wrapped into a circle of `n` marbles. */
  function Wrap(i: nat, n: nat): (r: nat)
    requires n > 0
    ensures r < n
  {
    i % n
  }

  /** The turn of marble `k` from the game `prev` after marble `k - 1`. */
  ghost function Turn(numPlayers: nat, prev: State, k: nat): (s: State)
    requires numPlayers > 0 && k >= 1
    requires |prev.scores| == numPlayers && prev.player < numPlayers
    requires |prev.marbles| == CircleSize(k - 1) && prev.current < |prev.marbles|
    ensures |s.scores| == numPlayers && s.player < numPlayers
    ensures |s.marbles| == CircleSize(k) && s.current < |s.marbles|
  {
    CircleLength(k);
    var player := NextPlayer(prev.player, numPlayers);
    if k % 23 == 0 then
      var position := RemovalIndex(prev.current, |prev.marbles|);
      var marbles := prev.marbles[..position] + prev.marbles[position + 1..];
      State(prev.scores[player := prev.scores[player] + k + prev.marbles[position]], marbles, Wrap(position, |marbles|), player)
    else
      var position := InsertionIndex(prev.current, |prev.marbles|);
      State(prev.scores, prev.marbles[..position] + [k] + prev.marbles[position..], position, player)
  }

  /** Marble `k` is placed by player `k % numPlayers`. */
  lemma GameTurn(numPlayers: nat, k: nat)
    requires numPlayers > 0
    ensures Game(numPlayers, k).player == k % numPlayers
  {
    Arith.DivModUnique(0, 0, 0, numPlayers);
    var j := 0;
    while j < k
      invariant j <= k
      invariant Game(numPlayers, j).player == j % numPlayers
    {
      GamePlayer(numPlayers, j + 1);
      Arith.ModSucc(j, numPlayers);
      j := j + 1;
    }
  }

  /** Each turn passes to the next player. */
  lemma GamePlayer(numPlayers: nat, k: nat)
    requires numPlayers > 0 && k >= 1
    ensures Game(numPlayers, k).player == (Game(numPlayers, k - 1).player + 1) % numPlayers
  {
    assert Game(numPlayers, k) == Turn(numPlayers, Game(numPlayers, k - 1), k);
  }

  /** Who scores what: with marble `k` only player `k % numPlayers`
      scores, only when `k` is a multiple of 23, and then gains `k` plus
      the marble seven places counter-clockwise of the current one. */
  lemma GameScores(numPlayers: nat, k: nat, p: nat)
    requires numPlayers > 0 && k >= 1 && p < numPlayers
    ensures var prev := Game(numPlayers, k - 1);
      Game(numPlayers, k).scores[p] == prev.scores[p]
        + if k % 23 == 0 && p == k % numPlayers
          then k + prev.marbles[RemovalIndex(prev.current, |prev.marbles|)]
          else 0
  {
    GameTurn(numPlayers, k);
  }

  /** No player has scored before marble 23. */
  lemma GameNoEarlyScore(numPlayers: nat, k: nat)
    requires numPlayers > 0 && k < 23
    ensures forall p :: 0 <= p < numPlayers ==> Game(numPlayers, k).scores[p] == 0
  {
    var j := 0;
    while j < k
      invariant j <= k
      invariant forall p :: 0 <= p < numPlayers ==> Game(numPlayers, j).scores[p] == 0
    {
      GamePlace(numPlayers, j + 1);
      j := j + 1;
    }
  }

  /** A marble that does not score leaves every score as it was. */
  lemma GamePlace(numPlayers: nat, k: nat)
    requires numPlayers > 0 && k >= 1 && k % 23 != 0
    ensures Game(numPlayers, k).scores == Game(numPlayers, k - 1).scores
  {
    assert Game(numPlayers, k) == Turn(numPlayers, Game(numPlayers, k - 1), k);
  }

  /** Scores gained plus marbles left in the circle add up to
      `1 + ... + k`: no marble is lost or counted twice. */
  lemma GameTotal(numPlayers: nat, k: nat)
    requires numPlayers > 0
    ensures Sum(Game(numPlayers, k).scores) + Sum(Game(numPlayers, k).marbles) == Triangle(k)
  {
    GameTotalStart(numPlayers);
    for j := 1 to k + 1
      invariant Sum(Game(numPlayers, j - 1).scores) + Sum(Game(numPlayers, j - 1).marbles) == Triangle(j - 1)
    {
      GameTotalStep(numPlayers, j);
    }
  }

  /** ... starting from no score and marble 0 alone, ... */
  lemma GameTotalStart(numPlayers: nat)
    requires numPlayers > 0
    ensures Sum(Game(numPlayers, 0).scores) + Sum(Game(numPlayers, 0).marbles) == Triangle(0)
  {
    SumZeroes(numPlayers);
    SumSingle(0);
  }

  /** ... one marble at a time. */
  lemma GameTotalStep(numPlayers: nat, k: nat)
    requires numPlayers > 0 && k >= 1
    requires Sum(Game(numPlayers, k - 1).scores) + Sum(Game(numPlayers, k - 1).marbles) == Triangle(k - 1)
    ensures Sum(Game(numPlayers, k).scores) + Sum(Game(numPlayers, k).marbles) == Triangle(k)
  {
    var prev := Game(numPlayers, k - 1);
    assert Game(numPlayers, k) == Turn(numPlayers, prev, k);
    TurnTotal(numPlayers, prev, k);
  }

  /** A turn moves marble `k` into the circle or into a score, and a
      scored marble out of the circle into the same score. */
  lemma TurnTotal(numPlayers: nat, prev: State, k: nat)
    requires numPlayers > 0 && k >= 1
    requires |prev.scores| == numPlayers && prev.player < numPlayers
    requires |prev.marbles| == CircleSize(k - 1) && prev.current < |prev.marbles|
    requires Sum(prev.scores) + Sum(prev.marbles) == Triangle(k - 1)
    ensures Sum(Turn(numPlayers, prev, k).scores) + Sum(Turn(numPlayers, prev, k).marbles) == Triangle(k)
  {
    if k % 23 == 0 {
      ScoreTurnTotal(numPlayers, prev, k);
    } else {
      PlaceTurnTotal(numPlayers, prev, k);
    }
  }

  /** ... the scoring case ... */
  lemma ScoreTurnTotal(numPlayers: nat, prev: State, k: nat)
    requires numPlayers > 0 && k >= 1 && k % 23 == 0
    requires |prev.scores| == numPlayers && prev.player < numPlayers
    requires |prev.marbles| == CircleSize(k - 1) && prev.current < |prev.marbles|
    requires Sum(prev.scores) + Sum(prev.marbles) == Triangle(k - 1)
    ensures Sum(Turn(numPlayers, prev, k).scores) + Sum(Turn(numPlayers, prev, k).marbles) == Triangle(k)
  {
    var player := NextPlayer(prev.player, numPlayers);
    var position := RemovalIndex(prev.current, |prev.marbles|);
    ScoreTurn(numPlayers, prev, k);
    ScoreStep(prev.scores, player, prev.marbles, position, k);
  }

  /** The scoring turn, written out. */
  lemma ScoreTurn(numPlayers: nat, prev: State, k: nat)
    requires numPlayers > 0 && k >= 1 && k % 23 == 0
    requires |prev.scores| == numPlayers && prev.player < numPlayers
    requires |prev.marbles| == CircleSize(k - 1) && prev.current < |prev.marbles|
    ensures var player, position := NextPlayer(prev.player, numPlayers), RemovalIndex(prev.current, |prev.marbles|);
      Turn(numPlayers, prev, k).scores == prev.scores[player := prev.scores[player] + k + prev.marbles[position]]
      && Turn(numPlayers, prev, k).marbles == prev.marbles[..position] + prev.marbles[position + 1..]
  {
  }

  /** ... and the placing case. */
  lemma PlaceTurnTotal(numPlayers: nat, prev: State, k: nat)
    requires numPlayers > 0 && k >= 1 && k % 23 != 0
    requires |prev.scores| == numPlayers && prev.player < numPlayers
    requires |prev.marbles| == CircleSize(k - 1) && prev.current < |prev.marbles|
    requires Sum(prev.scores) + Sum(prev.marbles) == Triangle(k - 1)
    ensures Sum(Turn(numPlayers, prev, k).scores) + Sum(Turn(numPlayers, prev, k).marbles) == Triangle(k)
  {
    PlaceStep(prev.scores, prev.marbles, InsertionIndex(prev.current, |prev.marbles|), k);
  }

  /** The game loop of `main` for `numPlayers` players and marbles
      `1..=lastMarble`: the scores and the circle are those of `Game`. */
  method Play(numPlayers: nat, lastMarble: nat) returns (scores: seq<nat>, circle: seq<nat>)
    requires numPlayers > 0
    ensures scores == Game(numPlayers, lastMarble).scores
    ensures circle == Game(numPlayers, lastMarble).marbles
  {
    scores := seq(numPlayers, _ => 0);
    var c := new MarbleCircle();
    var currentPlayer: nat := 0;
    for marble := 1 to lastMarble + 1
      invariant c.Valid()
      invariant Game(numPlayers, marble - 1) == State(scores, c.marbles, c.current, currentPlayer)
    {
      scores, currentPlayer := PlayTurn(numPlayers, c, scores, currentPlayer, marble);
    }
    circle := c.marbles;
  }

  /** One pass of the loop of `main`: the turn of `marble`, on the circle
      object. */
  method PlayTurn(numPlayers: nat, c: MarbleCircle, scores: seq<nat>, player: nat, marble: nat)
    returns (scores': seq<nat>, player': nat)
    requires numPlayers > 0 && marble >= 1 && c.Valid()
    requires |scores| == numPlayers && player < numPlayers && |c.marbles| == CircleSize(marble - 1)
    modifies c
    ensures c.Valid()
    ensures State(scores', c.marbles, c.current, player')
      == Turn(numPlayers, State(scores, old(c.marbles), old(c.current), player), marble)
  {
    CircleLength(marble);
    player' := NextPlayer(player, numPlayers);
    if marble % 23 == 0 {
      var removed := c.Remove();
      scores' := scores[player' := scores[player'] + marble + removed];
    } else {
      c.Insert(marble);
      scores' := scores;
    }
  }

  lemma {:induction false} SumZeroes(n: nat)
    ensures Sum(seq(n, _ => 0)) == 0
  {
    if n > 0 {
      assert seq(n, _ => 0)[..n - 1] == seq(n - 1, _ => 0);
      SumZeroes(n - 1);
    }
  }
}
