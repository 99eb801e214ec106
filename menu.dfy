/** The session menu (class Menu and function main of index.js): how one line typed
    by the user is classified, what the game answers, and the loop that keeps
    asking until the user exits. Reading lines, clearing the screen and printing
    are not modelled; a line arrives already classified as a Token. */
module Menu {
  import opened GameRule

  /** What a Menu object is built with: the move list, the HMAC key and the HMAC
      tag (both hex text), and the index of the computer's move. */
  datatype Session = Session(moves: seq<string>, hmacKey: string, hmac: string, computerSelection: nat)

  /** A session the program can build: the computer's move is one of the moves. */
  predicate ValidSession(s: Session)
  {
    s.computerSelection < |s.moves|
  }

  /** The user's line after trim(), as Number() and the comparison with "?" see it. */
  datatype Token =
    | Blank               // empty after trimming; replaced by "null", which Number() maps to NaN
    | Question            // exactly "?"; Number() maps it to NaN
    | Numeric(value: int) // a line Number() maps to this integer
    | Other               // any other line; Number() maps it to NaN

  /** Which branch of selectMenuOption a line takes. */
  datatype Choice = Exit | Help | Pick(user: nat) | Invalid

  /** What the game does with a line; only Quit makes selectMenuOption return true. */
  datatype Response =
    | Quit
    | ShowTable
    | Played(yourMove: string, computerMove: string, outcome: Outcome, key: string)
    | Rejected

  /** The branch cascade of selectMenuOption exactly as written: a move is taken
      only for 0 < value <= moves.length - 1. */
  function ClassifyAsWritten(n: nat, t: Token): (c: Choice)
    ensures c == Exit <==> t == Numeric(0)
    ensures c == Help <==> t == Question
    ensures c.Pick? <==> t.Numeric? && 1 <= t.value <= n - 1
    ensures c.Pick? ==> c.user + 1 < n && c.user == t.value - 1
  {
    match t
    case Numeric(v) =>
      if v == 0 then Exit
      else if v <= n - 1 && v > 0 then Pick(v - 1)
      else Invalid
    case Question => Help
    case Blank => Invalid
    case Other => Invalid
  }

  /** The cascade as the menu advertises it: every listed number 1..n picks its move. */
  function Classify(n: nat, t: Token): (c: Choice)
    ensures c == Exit <==> t == Numeric(0)
    ensures c == Help <==> t == Question
    ensures c.Pick? <==> t.Numeric? && 1 <= t.value <= n
    ensures c.Pick? ==> c.user < n && c.user == t.value - 1
  {
    match t
    case Numeric(v) =>
      if v == 0 then Exit
      else if v <= n && v > 0 then Pick(v - 1)
      else Invalid
    case Question => Help
    case Blank => Invalid
    case Other => Invalid
  }

  /** What the game answers for a branch: a played round names both moves, the
      user's outcome, and discloses the HMAC key. */
  function Respond(s: Session, c: Choice): (r: Response)
    requires ValidSession(s)
    requires c.Pick? ==> c.user < |s.moves|
    ensures r == Quit <==> c == Exit
    ensures r == ShowTable <==> c == Help
    ensures r == Rejected <==> c == Invalid
    ensures r.Played? <==> c.Pick?
    ensures r.Played? ==>
              && r.yourMove == s.moves[c.user]
              && r.computerMove == s.moves[s.computerSelection]
              && r.outcome == GetResult(|s.moves|, c.user, s.computerSelection)
              && r.key == s.hmacKey
  {
    match c
    case Exit => Quit
    case Help => ShowTable
    case Pick(u) =>
      Played(s.moves[u], s.moves[s.computerSelection], GetResult(|s.moves|, u, s.computerSelection), s.hmacKey)
    case Invalid => Rejected
  }

  /** selectMenuOption as written. */
  function SelectMenuOptionAsWritten(s: Session, t: Token): (r: Response)
    requires ValidSession(s)
    ensures r == Quit <==> t == Numeric(0)
    ensures r == ShowTable <==> t == Question
    ensures r.Played? <==> t.Numeric? && 1 <= t.value < |s.moves|
    ensures r.Played? ==>
              && r.yourMove == s.moves[t.value - 1]
              && r.computerMove == s.moves[s.computerSelection]
              && r.outcome == GetResult(|s.moves|, t.value - 1, s.computerSelection)
              && r.key == s.hmacKey
  {
    Respond(s, ClassifyAsWritten(|s.moves|, t))
  }

  /** selectMenuOption with every listed move selectable. */
  function SelectMenuOption(s: Session, t: Token): (r: Response)
    requires ValidSession(s)
    ensures r == Quit <==> t == Numeric(0)
    ensures r == ShowTable <==> t == Question
    ensures r.Played? <==> t.Numeric? && 1 <= t.value <= |s.moves|
    ensures r.Played? ==>
              && r.yourMove == s.moves[t.value - 1]
              && r.computerMove == s.moves[s.computerSelection]
              && r.outcome == GetResult(|s.moves|, t.value - 1, s.computerSelection)
              && r.key == s.hmacKey
  {
    Respond(s, Classify(|s.moves|, t))
  }

  /** The line the menu offers for the last move, `n`, is refused as invalid
      by the cascade as written. */
  lemma LastListedMoveRejected(n: nat)
    requires n >= 1
    ensures ClassifyAsWritten(n, Numeric(n)) == Invalid
    ensures Classify(n, Numeric(n)) == Pick(n - 1)
  {}

  /** As written, no line at all selects the last move of the list. */
  lemma LastMoveUnreachableAsWritten(n: nat, t: Token)
    requires n >= 1
    ensures ClassifyAsWritten(n, t) != Pick(n - 1)
  {}

  /** The two cascades differ only on the line naming the last move. */
  lemma ClassifyDiffersOnlyOnLast(n: nat, t: Token)
    requires t != Numeric(n)
    ensures ClassifyAsWritten(n, t) == Classify(n, t)
  {}

  /** Every move the menu lists, numbered 1..n, is picked by its own number and
      by no other line. */
  lemma EveryListedMoveSelectable(n: nat, u: nat, t: Token)
    requires u < n
    ensures Classify(n, Numeric(u + 1)) == Pick(u)
    ensures Classify(n, t) == Pick(u) ==> t == Numeric(u + 1)
  {}

  /** main: show the menu, read a line, answer it, and stop once the answer is
      Quit. The lines the user types are given as `lines`; `answers` are the
      answers given, one per line read, by selectMenuOption as written. */
  method RunMenu(s: Session, lines: seq<Token>) returns (answers: seq<Response>, exited: bool)
    requires ValidSession(s)
    ensures exited <==> Numeric(0) in lines
    ensures |answers| <= |lines|
    ensures forall i :: 0 <= i < |answers| ==> answers[i] == SelectMenuOptionAsWritten(s, lines[i])
    ensures forall i :: 0 <= i < |answers| - 1 ==> answers[i] != Quit
    ensures exited ==> |answers| > 0 && answers[|answers| - 1] == Quit
    ensures !exited ==> |answers| == |lines|
  {
    answers := [];
    exited := false;
    var k := 0;
    while !exited && k < |lines|
      invariant 0 <= k <= |lines| && |answers| == k
      invariant forall i :: 0 <= i < k ==> answers[i] == SelectMenuOptionAsWritten(s, lines[i])
      invariant forall i :: 0 <= i < k - 1 ==> lines[i] != Numeric(0)
      invariant forall i :: 0 <= i < k - 1 ==> answers[i] != Quit
      invariant exited <==> k > 0 && lines[k - 1] == Numeric(0)
    {
      var answer := SelectMenuOptionAsWritten(s, lines[k]);
      answers := answers + [answer];
      exited := answer == Quit;
      k := k + 1;
    }
  }
}
