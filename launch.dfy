/** Start-up at the top level of index.js: the computer's move is drawn, an HMAC
    key is made and the move committed to, the move list is checked for
    duplicates, and the list is either refused with a message or the menu starts.
    Randomness and HMAC-SHA3-256 are not modelled: the drawn index, the key and
    the MAC function arrive as parameters. */
module Launch {
  import opened Menu

  /** Array.prototype.indexOf on the move list: the first position holding `x`,
      or -1 when there is none. */
  function IndexOf(s: seq<string>, x: string): (r: int)
    ensures -1 <= r < |s|
    ensures r == -1 <==> x !in s
    ensures r >= 0 ==> s[r] == x && x !in s[..r]
  {
    if |s| == 0 then -1
    else if s[0] == x then 0
    else
      var r := IndexOf(s[1..], x);
      assert s[1..][..r + 1] == s[1..r + 2] by { assert r + 1 <= |s[1..]|; }
      if r == -1 then -1 else r + 1
  }

  /** Some move appears twice in the list. */
  ghost predicate HasDuplicate(s: seq<string>)
  {
    exists i, j :: 0 <= i < j < |s| && s[i] == s[j]
  }

  /** The forEach loop that sets `repeated` when a move is found earlier in the list. */
  method FindRepeated(moves: seq<string>) returns (repeated: bool)
    ensures repeated <==> HasDuplicate(moves)
  {
    repeated := false;
    for index := 0 to |moves|
      invariant repeated <==> exists i, j :: 0 <= i < j < index && moves[i] == moves[j]
    {
      var first := IndexOf(moves, moves[index]);
      if first != index {
        assert first < index && moves[first] == moves[index];
        repeated := true;
      } else {
        forall i | 0 <= i < index
          ensures moves[i] != moves[index]
        {
          assert moves[i] in moves[..first];
        }
      }
    }
  }

  /** The checks on the move list, in the order the program makes them. */
  datatype Verdict = TooFew | EvenCount | Repeated | Accepted

  /** The if/else-if cascade over the list's length and the `repeated` flag. */
  function Judge(count: nat, repeated: bool): (v: Verdict)
    ensures v == Accepted <==> count >= 3 && count % 2 == 1 && !repeated
    ensures v == TooFew <==> count < 3
    ensures v == EvenCount <==> count >= 3 && count % 2 == 0
    ensures v == Repeated <==> count >= 3 && count % 2 == 1 && repeated
  {
    if count < 3 then TooFew
    else if count % 2 == 0 then EvenCount
    else if repeated then Repeated
    else Accepted
  }

  /** The message printed when a list is refused. */
  function Message(v: Verdict): (m: string)
    ensures m == "" <==> v == Accepted
  {
    match v
    case TooFew => "Please put more at least 3 options..."
    case EvenCount => "Please put an odd number of options..."
    case Repeated => "Please don't repeat options..."
    case Accepted => ""
  }

  /** Each refusal has a message of its own. */
  lemma MessagesDistinct(v: Verdict, w: Verdict)
    ensures Message(v) == Message(w) <==> v == w
  {}

  /** How the program ends up after start-up: it throws, it prints a refusal and
      does nothing else, or it runs the menu on a session. */
  datatype Launched = Crashed | Refused(message: string) | Started(session: Session)

  /** Math.floor(Math.random() * moves.length) lies below the length, and is 0
      for an empty list. */
  predicate ValidPick(moves: seq<string>, pick: nat)
  {
    pick < |moves| || pick == 0
  }

  /** Start-up as written: the tag is computed over moves[computer_selection]
      before the list is checked. With no moves that element is undefined and
      the HMAC update throws. */
  ghost function LaunchAsWritten(moves: seq<string>, pick: nat, key: string, mac: (string, string) -> string): (l: Launched)
    requires ValidPick(moves, pick)
    ensures l == Crashed <==> |moves| == 0
    ensures l.Refused? <==> |moves| > 0 && Judge(|moves|, HasDuplicate(moves)) != Accepted
    ensures l.Started? ==> l.session == Session(moves, key, mac(moves[pick], key), pick) && ValidSession(l.session)
  {
    if pick >= |moves| then Crashed
    else
      var tag := mac(moves[pick], key);
      var v := Judge(|moves|, HasDuplicate(moves));
      if v != Accepted then Refused(Message(v)) else Started(Session(moves, key, tag, pick))
  }

  /** Start-up with the list checked first; the commitment is only made for a
      list that is accepted. */
  ghost function LaunchChecked(moves: seq<string>, pick: nat, key: string, mac: (string, string) -> string): (l: Launched)
    requires ValidPick(moves, pick)
    ensures !l.Crashed?
    ensures l.Refused? <==> Judge(|moves|, HasDuplicate(moves)) != Accepted
    ensures l.Started? ==> l.session == Session(moves, key, mac(moves[pick], key), pick) && ValidSession(l.session)
  {
    var v := Judge(|moves|, HasDuplicate(moves));
    if v != Accepted then Refused(Message(v))
    else Started(Session(moves, key, mac(moves[pick], key), pick))
  }

  method StartAsWritten(moves: seq<string>, pick: nat, key: string, mac: (string, string) -> string)
    returns (l: Launched)
    requires ValidPick(moves, pick)
    ensures l == LaunchAsWritten(moves, pick, key, mac)
  {
    if pick >= |moves| {
      return Crashed;
    }
    var tag := mac(moves[pick], key);
    var repeated := FindRepeated(moves);
    var v := Judge(|moves|, repeated);
    if v != Accepted {
      l := Refused(Message(v));
    } else {
      l := Started(Session(moves, key, tag, pick));
    }
  }

  method Start(moves: seq<string>, pick: nat, key: string, mac: (string, string) -> string)
    returns (l: Launched)
    requires ValidPick(moves, pick)
    ensures l == LaunchChecked(moves, pick, key, mac)
  {
    var repeated := FindRepeated(moves);
    var v := Judge(|moves|, repeated);
    if v != Accepted {
      l := Refused(Message(v));
    } else {
      l := Started(Session(moves, key, mac(moves[pick], key), pick));
    }
  }

  /** With no arguments at all the program as written throws instead of
      printing the message for fewer than three moves. */
  lemma NoMovesCrashAsWritten(key: string, mac: (string, string) -> string)
    ensures LaunchAsWritten([], 0, key, mac) == Crashed
    ensures LaunchChecked([], 0, key, mac) == Refused("Please put more at least 3 options...")
  {}

  /** The empty list is the only input on which the two start-ups differ. */
  lemma StartUpsAgreeOnNonEmptyLists(moves: seq<string>, pick: nat, key: string, mac: (string, string) -> string)
    requires ValidPick(moves, pick) && |moves| > 0
    ensures LaunchAsWritten(moves, pick, key, mac) == LaunchChecked(moves, pick, key, mac)
  {}

  /** The menu starts exactly for lists of at least three moves, of odd length,
      without duplicates; it then holds a valid session for that list. Every
      other list is refused with the message of the first check it fails. */
  lemma StartsOnlyOnValidLists(moves: seq<string>, pick: nat, key: string, mac: (string, string) -> string)
    requires ValidPick(moves, pick)
    ensures LaunchChecked(moves, pick, key, mac).Started?
            <==> |moves| >= 3 && |moves| % 2 == 1 && !HasDuplicate(moves)
    ensures !LaunchChecked(moves, pick, key, mac).Crashed?
    ensures |moves| < 3 ==> LaunchChecked(moves, pick, key, mac) == Refused("Please put more at least 3 options...")
    ensures |moves| >= 3 && |moves| % 2 == 0 ==>
              LaunchChecked(moves, pick, key, mac) == Refused("Please put an odd number of options...")
    ensures |moves| >= 3 && |moves| % 2 == 1 && HasDuplicate(moves) ==>
              LaunchChecked(moves, pick, key, mac) == Refused("Please don't repeat options...")
    ensures LaunchChecked(moves, pick, key, mac).Started? ==>
              var s := LaunchChecked(moves, pick, key, mac).session;
              ValidSession(s) && s.moves == moves && s.computerSelection == pick
  {}

  /** The commitment holds: once a round is played, the key it discloses and the
      computer's move it names reproduce the HMAC tag that was shown before the
      user chose. */
  lemma DisclosedKeyOpensTag(moves: seq<string>, pick: nat, key: string, mac: (string, string) -> string, t: Token)
    requires ValidPick(moves, pick)
    requires LaunchChecked(moves, pick, key, mac).Started?
    ensures var s := LaunchChecked(moves, pick, key, mac).session;
            var r := SelectMenuOption(s, t);
            r.Played? ==> mac(r.computerMove, r.key) == s.hmac
  {}
}
