/**
 * The console rock-paper-scissors game: what a typed line becomes, how one round
 * is judged against the computer's pick, and how the first-to-five loop keeps score.
 */
module RockPaperScissors {
  import opened Wrappers
  import opened PyInt

  /** A line after `process_input`: the integer when `int()` accepts it, otherwise the line itself. */
  datatype Entry = Num(n: int) | Text(s: string)

  datatype Choice = Rock | Paper | Scissors

  datatype Verdict = Draw | UserWins | CompWins | Error

  datatype Score = Score(user: nat, comp: nat)

  datatype Turn = Turn(typed: string, pick: Choice)

  /** The loop's state when it stops: the score and how many typed lines it read. */
  datatype Game = Game(score: Score, consumed: nat)

  datatype Winner = UserWon | CompWon

  const WINNING_SCORE: nat := 5

  const Var1: Entry := Text("rock")
  const Var2: Entry := Text("paper")
  const Var3: Entry := Text("scissors")
  const Var4: Entry := Num(0)
  const Var5: Entry := Num(1)
  const Var6: Entry := Num(2)

  function ProcessInput(value: string): (e: Entry)
    ensures e.Num? <==> ParseInt(value).Some?
    ensures e.Num? ==> e.n == ParseInt(value).value
    ensures e.Text? ==> e.s == value
  {
    match ParseInt(value)
    case Some(n) => Num(n)
    case None => Text(value)
  }

  /** The computer's pick is one of the three word constants. */
  function Name(c: Choice): Entry {
    match c
    case Rock => Var1
    case Paper => Var2
    case Scissors => Var3
  }

  predicate Accepted(e: Entry) {
    e in [Var1, Var2, Var3, Var4, Var5, Var6]
  }

  predicate DrawCond(e: Entry, c: Choice) {
    || (Name(c) == Var1 && (e == Var1 || e == Var4))
    || (Name(c) == Var2 && (e == Var2 || e == Var5))
    || (Name(c) == Var3 && (e == Var3 || e == Var6))
  }

  predicate UserWinCond(e: Entry, c: Choice) {
    || (Name(c) == Var1 && (e == Var2 || e == Var5))
    || (Name(c) == Var2 && (e == Var3 || e == Var6))
    || (Name(c) == Var3 && (e == Var1 || e == Var4))
  }

  predicate CompWinCond(e: Entry, c: Choice) {
    || (Name(c) == Var1 && (e == Var3 || e == Var6))
    || (Name(c) == Var2 && (e == Var1 || e == Var4))
    || (Name(c) == Var3 && (e == Var2 || e == Var5))
  }

  /** The round's three-way test in its source order, with the final ERROR branch. */
  function Decide(e: Entry, c: Choice): Verdict {
    if DrawCond(e, c) then Draw
    else if UserWinCond(e, c) then UserWins
    else if CompWinCond(e, c) then CompWins
    else Error
  }

  /** Position of a pick in the cycle rock, paper, scissors. */
  function Index(c: Choice): (i: nat)
    ensures i < 3
  {
    match c
    case Rock => 0
    case Paper => 1
    case Scissors => 2
  }

  /** The choice an accepted entry stands for, by word or by number. */
  function Meaning(e: Entry): (c: Choice)
    requires Accepted(e)
    ensures Name(c) == e || Num(Index(c)) == e
  {
    if e == Var1 || e == Var4 then Rock
    else if e == Var2 || e == Var5 then Paper
    else Scissors
  }

  /** Every accepted line stands for exactly one choice, spelled as its word or its index. */
  lemma AcceptedIff(e: Entry)
    ensures Accepted(e) <==> exists c :: Name(c) == e || Num(Index(c)) == e
  {
    if Accepted(e) {
      assert Name(Meaning(e)) == e || Num(Index(Meaning(e))) == e;
    }
  }

  /**
   * The source's condition chains agree with the usual rule: equal picks draw,
   * the pick one step ahead in the cycle wins, and ERROR is never printed.
   */
  lemma DecideByCycle(e: Entry, c: Choice)
    requires Accepted(e)
    ensures Decide(e, c) != Error
    ensures Decide(e, c) == Draw <==> Meaning(e) == c
    ensures Decide(e, c) == UserWins <==> (Index(Meaning(e)) - Index(c)) % 3 == 1
    ensures Decide(e, c) == CompWins <==> (Index(Meaning(e)) - Index(c)) % 3 == 2
  {
  }

  /** For an accepted line exactly one of the three conditions holds, so the chain's order does not matter. */
  lemma ConditionsExclusive(e: Entry, c: Choice)
    requires Accepted(e)
    ensures DrawCond(e, c) || UserWinCond(e, c) || CompWinCond(e, c)
    ensures !(DrawCond(e, c) && UserWinCond(e, c))
    ensures !(DrawCond(e, c) && CompWinCond(e, c))
    ensures !(UserWinCond(e, c) && CompWinCond(e, c))
  {
  }

  /** Swapping the roles of user and computer swaps the verdict. */
  lemma DecideAntisymmetric(a: Choice, b: Choice)
    ensures Decide(Name(a), b) == UserWins <==> Decide(Name(b), a) == CompWins
    ensures Decide(Name(a), b) == Draw <==> a == b
  {
  }

  /** One pass of the loop body on an already processed entry. */
  function Round(s: Score, e: Entry, c: Choice): (r: Score)
    ensures !Accepted(e) ==> r == s
    ensures r == s || r == s.(user := s.user + 1) || r == s.(comp := s.comp + 1)
  {
    if !Accepted(e) then s
    else
      match Decide(e, c)
      case Draw => s
      case UserWins => s.(user := s.user + 1)
      case CompWins => s.(comp := s.comp + 1)
      case Error => s
  }

  /** A round on an accepted line moves the score exactly as its verdict says. */
  lemma RoundByVerdict(s: Score, e: Entry, c: Choice)
    requires Accepted(e)
    ensures Round(s, e, c).user == s.user + (if Meaning(e) != c && (Index(Meaning(e)) - Index(c)) % 3 == 1 then 1 else 0)
    ensures Round(s, e, c).comp == s.comp + (if Meaning(e) != c && (Index(Meaning(e)) - Index(c)) % 3 == 2 then 1 else 0)
  {
    DecideByCycle(e, c);
  }

  predicate Finished(s: Score) {
    s.user >= WINNING_SCORE || s.comp >= WINNING_SCORE
  }

  /** Scores the loop can hold: neither above five, and not both at five. */
  predicate Reachable(s: Score) {
    s.user <= WINNING_SCORE && s.comp <= WINNING_SCORE && !(s.user == WINNING_SCORE && s.comp == WINNING_SCORE)
  }

  /** The `while comp < 5 and user < 5` loop, reading one typed line and one computer pick per pass; it also stops when the lines run out. */
  function Play(s: Score, turns: seq<Turn>): (g: Game)
    ensures g.consumed <= |turns|
    ensures Finished(s) ==> g == Game(s, 0)
    ensures g.consumed < |turns| ==> Finished(g.score)
    decreases |turns|
  {
    if Finished(s) || |turns| == 0 then Game(s, 0)
    else
      var g := Play(Next(s, turns[0]), turns[1..]);
      Game(g.score, g.consumed + 1)
  }

  /** One pass of the loop: the typed line goes through `process_input` and is scored against the computer's pick. */
  function Next(s: Score, t: Turn): Score {
    Round(s, ProcessInput(t.typed), t.pick)
  }

  /** The first-to-five loop for any way of scoring a line; Play is this loop with Next. */
  function Loop(next: (Score, Turn) -> Score, s: Score, turns: seq<Turn>): (g: Game)
    ensures g.consumed <= |turns|
    decreases |turns|
  {
    if Finished(s) || |turns| == 0 then Game(s, 0)
    else
      var g := Loop(next, next(s, turns[0]), turns[1..]);
      Game(g.score, g.consumed + 1)
  }

  lemma {:induction false} PlayIsLoop(s: Score, turns: seq<Turn>)
    ensures Play(s, turns) == Loop(Next, s, turns)
    decreases |turns|
  {
    if !Finished(s) && |turns| > 0 {
      PlayIsLoop(Next(s, turns[0]), turns[1..]);
    }
  }

  lemma LoopCons(next: (Score, Turn) -> Score, s: Score, t: Turn, rest: seq<Turn>)
    requires !Finished(s)
    ensures var g := Loop(next, next(s, t), rest);
      Loop(next, s, [t] + rest) == Game(g.score, g.consumed + 1)
  {
    assert ([t] + rest)[0] == t && ([t] + rest)[1..] == rest;
  }

  lemma {:induction false} LoopStopsAtFive(next: (Score, Turn) -> Score, s: Score, turns: seq<Turn>)
    ensures forall k :: 0 <= k < Loop(next, s, turns).consumed ==> !Finished(Loop(next, s, turns[..k]).score)
    decreases |turns|
  {
    if !Finished(s) && |turns| > 0 {
      var t, rest := turns[0], turns[1..];
      LoopStopsAtFive(next, next(s, t), rest);
      LoopCons(next, s, t, rest);
      assert turns == [t] + rest;
      forall k | 0 <= k < Loop(next, s, turns).consumed
        ensures !Finished(Loop(next, s, turns[..k]).score)
      {
        if k > 0 {
          assert turns[..k] == [t] + rest[..k - 1];
          LoopCons(next, s, t, rest[..k - 1]);
        }
      }
    }
  }

  lemma {:induction false} LoopReadsOnlyConsumed(next: (Score, Turn) -> Score, s: Score, turns: seq<Turn>)
    ensures Loop(next, s, turns[..Loop(next, s, turns).consumed]) == Loop(next, s, turns)
    decreases |turns|
  {
    if !Finished(s) && |turns| > 0 {
      var t, rest := turns[0], turns[1..];
      var r := next(s, t);
      LoopReadsOnlyConsumed(next, r, rest);
      var g := Loop(next, r, rest);
      var pre := rest[..g.consumed];
      LoopCons(next, s, t, rest);
      LoopCons(next, s, t, pre);
      assert turns == [t] + rest;
      assert turns[..g.consumed + 1] == [t] + pre;
    }
  }

  /**
   * The loop stops reading as soon as a score reaches five: before each line it
   * reads, the game on the lines read so far is still running.
   */
  lemma PlayStopsAtFive(s: Score, turns: seq<Turn>)
    ensures forall k :: 0 <= k < Play(s, turns).consumed ==> !Finished(Play(s, turns[..k]).score)
  {
    PlayIsLoop(s, turns);
    LoopStopsAtFive(Next, s, turns);
    forall k | 0 <= k < Play(s, turns).consumed
      ensures !Finished(Play(s, turns[..k]).score)
    {
      PlayIsLoop(s, turns[..k]);
    }
  }

  /** The lines the loop reads decide the whole game: the lines after them are never looked at. */
  lemma PlayReadsOnlyConsumed(s: Score, turns: seq<Turn>)
    ensures Play(s, turns[..Play(s, turns).consumed]) == Play(s, turns)
  {
    PlayIsLoop(s, turns);
    LoopReadsOnlyConsumed(Next, s, turns);
    PlayIsLoop(s, turns[..Play(s, turns).consumed]);
  }

  /** Every round the loop reads happens before anyone has five points, so the score never passes five on either side. */
  lemma {:induction false} PlayReachable(s: Score, turns: seq<Turn>)
    requires Reachable(s)
    ensures Reachable(Play(s, turns).score)
    ensures Play(s, turns).score.user >= s.user && Play(s, turns).score.comp >= s.comp
    decreases |turns|
  {
    if !Finished(s) && |turns| > 0 {
      var r := Round(s, ProcessInput(turns[0].typed), turns[0].pick);
      PlayReachable(r, turns[1..]);
    }
  }

  /** Points scored equal the rounds somebody won; lines that were rejected or drawn add nothing. */
  function Decisive(s: Score, turns: seq<Turn>): nat
    decreases |turns|
  {
    if Finished(s) || |turns| == 0 then 0
    else
      var r := Round(s, ProcessInput(turns[0].typed), turns[0].pick);
      (if r == s then 0 else 1) + Decisive(r, turns[1..])
  }

  lemma {:induction false} PlayCountsDecisive(s: Score, turns: seq<Turn>)
    ensures Play(s, turns).score.user + Play(s, turns).score.comp == s.user + s.comp + Decisive(s, turns)
    ensures Decisive(s, turns) <= Play(s, turns).consumed
    decreases |turns|
  {
    if !Finished(s) && |turns| > 0 {
      var r := Round(s, ProcessInput(turns[0].typed), turns[0].pick);
      PlayCountsDecisive(r, turns[1..]);
    }
  }

  /** The closing message: the user is congratulated exactly when they reached five. */
  function Announce(s: Score): (w: Winner)
    ensures w == UserWon <==> s.user == WINNING_SCORE
  {
    if s.user == WINNING_SCORE then UserWon else CompWon
  }

  /** From a fresh game, a finished game has exactly one side at five, that side is announced, and between five and nine rounds were decisive. */
  lemma GameOutcome(turns: seq<Turn>)
    requires Finished(Play(Score(0, 0), turns).score)
    ensures var s := Play(Score(0, 0), turns).score;
      && (s.user == WINNING_SCORE) != (s.comp == WINNING_SCORE)
      && (Announce(s) == UserWon <==> s.comp < WINNING_SCORE)
      && WINNING_SCORE <= Decisive(Score(0, 0), turns) <= 2 * WINNING_SCORE - 1
  {
    PlayReachable(Score(0, 0), turns);
    PlayCountsDecisive(Score(0, 0), turns);
  }

  /**
   * A typed integer comes back as that integer, as long as its spelling stays
   * within the digit cap of `int()`; a longer spelling comes back as the line itself.
   */
  lemma ProcessInputShow(n: int)
    ensures |ShowNat(if n < 0 then -n else n)| <= MAX_STR_DIGITS ==> ProcessInput(Show(n)) == Num(n)
    ensures |ShowNat(if n < 0 then -n else n)| > MAX_STR_DIGITS ==> ProcessInput(Show(n)) == Text(Show(n))
  {
    ParseShow(n);
  }

  /** A word that starts with neither a digit nor a sign is kept as typed, for the name lookup. */
  lemma ProcessInputWord(w: string)
    requires |w| > 0 && !IsSpace(w[0]) && !IsSpace(w[|w| - 1])
    requires !IsDigit(w[0]) && w[0] != '+' && w[0] != '-'
    ensures ProcessInput(w) == Text(w)
  {
    ParseWord(w);
  }

  /** A typed number picks the same choice as its word: "1" plays paper just like "paper". */
  lemma NumbersAndWordsAgree(c: Choice)
    ensures Accepted(ProcessInput(Show(Index(c))))
    ensures Meaning(ProcessInput(Show(Index(c)))) == c
    ensures Meaning(ProcessInput(Show(Index(c)))) == Meaning(Name(c))
  {
    ParseDigit(Index(c));
  }

  /** A digit after a file separator 0x1c stays text, is rejected and leaves the score alone. */
  lemma SeparatorLineRejected(s: Score, c: Choice)
    ensures ProcessInput([28 as char, '1']) == Text([28 as char, '1'])
    ensures Round(s, ProcessInput([28 as char, '1']), c) == s
  {
    ParseSeparatorKept();
    var e := ProcessInput([28 as char, '1']);
    assert e == Text([28 as char, '1']);
    assert !Accepted(e) by {
      assert e.s[0] == 28 as char;
    }
  }

  /** Words are matched as typed: a capitalised "Rock" is rejected and leaves the score alone. */
  lemma CapitalisedWordRejected(s: Score, c: Choice)
    ensures ProcessInput("Rock") == Text("Rock")
    ensures Round(s, ProcessInput("Rock"), c) == s
  {
    ParseWord("Rock");
  }
}
