/** The circular win/lose/draw rule of the game (class GameRule of index.js).

    The moves are the command-line arguments in the order given. They stand on a
    circle; the user beats the half of the circle that follows their own move and
    loses to the half that precedes it. GameRule keeps the whole move list, but
    getResult only ever looks at its length, so the model takes that length `n`. */
module GameRule {

  /** The result of one round, seen from the user's side. */
  datatype Outcome = Win | Lose | Draw

  /** The word the game prints after "You " and puts into the cells of the help table. */
  function Text(o: Outcome): string
  {
    match o
    case Win => "win"
    case Lose => "lose"
    case Draw => "draw"
  }

  /** The same round seen from the other player's side. */
  function Flip(o: Outcome): Outcome
  {
    match o
    case Win => Lose
    case Lose => Win
    case Draw => Draw
  }

  /** Math.sign, on the integers it is given here. */
  function Sign(x: int): (s: int)
    ensures -1 <= s <= 1
    ensures s < 0 <==> x < 0
    ensures s == 0 <==> x == 0
  {
    if x < 0 then -1 else if x == 0 then 0 else 1
  }

  /** JavaScript's `%`: the remainder takes the sign of the dividend (Dafny's `%`
      is Euclidean and never negative). */
  function JsRem(x: int, n: int): (r: int)
    requires n > 0
    ensures -n < r < n
    ensures r == 0 || (r < 0 <==> x < 0)
    ensures (x - r) % n == 0
  {
    if x >= 0 then
      ModUnique(x - x % n, x / n, 0, n);
      x % n
    else
      ModUnique(x + (-x) % n, -((-x) / n), 0, n);
      -((-x) % n)
  }

  /** getResult(user_selection, computer_selection) for a move list of length `n`:
      the sign of the circular distance from the user's move to the computer's,
      normalised into [-n/2, n/2], decides the round. */
  function GetResult(n: nat, user: int, computer: int): (r: Outcome)
    requires 0 <= user < n && 0 <= computer < n
    ensures r == ArcOutcome(n, Offset(n, user, computer))
  {
    SignedDistance(n, user, computer);
    var a := computer;
    var b := user;
    var p := n / 2;
    var result := Sign(JsRem(a - b + p + n, n) - p);
    if result < 0 then Lose else if result == 0 then Draw else Win
  }

  // ---------------------------------------------------------------------------
  // The rule as the menu words it, written without any remainder

  /** How many places the computer's move lies after the user's, going round the list. */
  function Offset(n: nat, user: int, computer: int): (k: nat)
    requires 0 <= user < n && 0 <= computer < n
    ensures k < n
    ensures (user + k) % n == computer
    ensures k == 0 <==> user == computer
  {
    if user <= computer then computer - user else computer - user + n
  }

  /** The menu's wording: a move `k` places ahead of the user's is beaten when
      `k` is at most half the list ahead, and beats the user otherwise. */
  function ArcOutcome(n: nat, k: nat): Outcome
  {
    if k == 0 then Draw else if k + n / 2 < n then Win else Lose
  }

  // ---------------------------------------------------------------------------
  // Remainder facts

  lemma MulAtLeast(a: int, n: int)
    requires a >= 1 && n > 0
    ensures a * n >= n
  {}

  /** `d * n + r` leaves remainder `r` whenever `r` is in [0, n). */
  lemma ModUnique(y: int, d: int, r: int, n: int)
    requires n > 0 && 0 <= r < n && y == d * n + r
    ensures y % n == r
  {
    var d', r' := y / n, y % n;
    assert y == d' * n + r';
    assert (d - d') * n == r' - r;
    if d - d' >= 1 {
      MulAtLeast(d - d', n);
    } else if d' - d >= 1 {
      MulAtLeast(d' - d, n);
    }
  }

  /** Adding a multiple of `n` does not change the remainder. */
  lemma ModShift(x: int, m: int, n: int)
    requires n > 0
    ensures (x + m * n) % n == x % n
  {
    assert x == (x / n) * n + x % n;
    assert x + m * n == (x / n + m) * n + x % n;
    ModUnique(x + m * n, x / n + m, x % n, n);
  }

  /** The offset is the Euclidean remainder of the index difference. */
  lemma OffsetIsMod(n: nat, user: int, computer: int)
    requires 0 <= user < n && 0 <= computer < n
    ensures Offset(n, user, computer) == (computer - user) % n
  {
    var k := Offset(n, user, computer);
    if user <= computer {
      ModUnique(computer - user, 0, k, n);
    } else {
      ModUnique(computer - user, -1, k, n);
    }
  }

  // ---------------------------------------------------------------------------
  // Properties of getResult

  /** The operand of JavaScript's `%` in getResult is positive for in-range
      indices, so its remainder is the Euclidean one, and the signed distance
      lies in [-n/2, n/2]. */
  lemma SignedDistanceRange(n: nat, user: int, computer: int)
    requires 0 <= user < n && 0 <= computer < n
    ensures computer - user + n / 2 + n >= n / 2 + 1
    ensures JsRem(computer - user + n / 2 + n, n) == (computer - user + n / 2 + n) % n
    ensures -(n / 2) <= JsRem(computer - user + n / 2 + n, n) - n / 2 <= n / 2
  {}

  /** The signed distance getResult takes the sign of is the offset `k` of the
      computer's move when `k` lies in the front half of the circle, and `k - n`
      otherwise; so getResult agrees with the menu's wording of the rule, for
      every list length. */
  lemma SignedDistance(n: nat, user: int, computer: int)
    requires 0 <= user < n && 0 <= computer < n
    ensures var k := Offset(n, user, computer);
            JsRem(computer - user + n / 2 + n, n) - n / 2 == if k + n / 2 < n then k else k - n
  {
    var p := n / 2;
    var k := Offset(n, user, computer);
    var x := computer - user + p + n;
    // x is k + p, plus n when the computer's index is not below the user's
    var extra := if user <= computer then 1 else 0;
    assert x == extra * n + k + p;
    if k + p < n {
      ModUnique(x, extra, k + p, n);
    } else {
      ModUnique(x, extra + 1, k + p - n, n);
    }
  }

  /** A round is a draw exactly when both players chose the same move. */
  lemma DrawIffSameMove(n: nat, user: int, computer: int)
    requires 0 <= user < n && 0 <= computer < n
    ensures GetResult(n, user, computer) == Draw <==> user == computer
  {}

  /** For an odd number of moves, swapping the players swaps win and lose:
      the two sides are never both won, never both lost, and draw together. */
  lemma AntiSymmetric(n: nat, user: int, computer: int)
    requires n % 2 == 1
    requires 0 <= user < n && 0 <= computer < n
    ensures GetResult(n, computer, user) == Flip(GetResult(n, user, computer))
  {
    if user != computer {
      assert Offset(n, computer, user) == n - Offset(n, user, computer);
    }
  }

  /** For an odd number of moves the user beats exactly the n/2 moves that follow
      theirs round the list and loses to the other n/2. */
  lemma WinArc(n: nat, user: int, k: int)
    requires n % 2 == 1
    requires 0 <= user < n && 1 <= k < n
    ensures 0 <= (user + k) % n < n
    ensures GetResult(n, user, (user + k) % n) == if k <= n / 2 then Win else Lose
  {
    var computer := (user + k) % n;
    if user + k < n {
      ModUnique(user + k, 0, user + k, n);
    } else {
      ModUnique(user + k, 1, user + k - n, n);
    }
    assert Offset(n, user, computer) == k;
  }

  /** Turning the circle by any number of places changes no outcome. */
  lemma RotationInvariant(n: nat, user: int, computer: int, shift: int)
    requires 0 <= user < n && 0 <= computer < n
    ensures 0 <= (user + shift) % n < n && 0 <= (computer + shift) % n < n
    ensures GetResult(n, (user + shift) % n, (computer + shift) % n) == GetResult(n, user, computer)
  {
    var u', c' := (user + shift) % n, (computer + shift) % n;
    var qu, qc := (user + shift) / n, (computer + shift) / n;
    assert user + shift == qu * n + u';
    assert computer + shift == qc * n + c';
    assert c' - u' == (computer - user) + (qu - qc) * n;
    ModShift(computer - user, qu - qc, n);
    OffsetIsMod(n, user, computer);
    OffsetIsMod(n, u', c');
  }

  /** With the three moves given as Rock, Paper, Scissors, the rule has Rock
      beat Paper and lose to Scissors: each move beats the one listed after it. */
  lemma ThreeMoves()
    ensures GetResult(3, 0, 1) == Win
    ensures GetResult(3, 0, 2) == Lose
    ensures GetResult(3, 1, 1) == Draw
    ensures GetResult(3, 2, 0) == Win
  {}

  /** Why the game refuses an even number of moves: with four, the two moves
      facing each other across the circle both count as a loss for the user. */
  lemma EvenCountBreaksAntiSymmetry()
    ensures GetResult(4, 0, 2) == Lose && GetResult(4, 2, 0) == Lose
  {}
}
