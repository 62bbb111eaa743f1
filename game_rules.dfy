/** The state of the `Game` component and what each event does to it, as
    pure functions. The `Game` class in module MemoryGame performs the same
    updates field by field and is proved to agree with these functions. */
module GameRules {
  import opened Deck
  import opened IndexSets

  /** Seconds on the clock at the start of a round. */
  const InitialTime: int := 180
  /** The score at which the click handler declares the game won. */
  const WinScore: nat := 30
  const MatchMessage: string := "It's a match!"

  /** The page the component renders: the start page, the board, or one of
      the two end pages. */
  datatype Phase = Start | Playing | Won | Lost

  /** The component's state variables. `pendingClears` counts the scheduled
      "turn the flipped cards back" callbacks that have not fired yet, and
      `confettiBursts` counts the celebration effect's invocations. */
  datatype State = State(
    cards: seq<Symbol>,
    flippedCards: seq<nat>,
    matchedCards: seq<nat>,
    gameStarted: bool,
    gameOver: bool,
    gameWon: bool,
    score: nat,
    timeLeft: int,
    message: string,
    messageJump: bool,
    pendingClears: nat,
    confettiBursts: nat)

  /** The render's choice of page: start page unless started, then the won
      page, then the game-over page, else the board. */
  function PhaseOf(s: State): Phase
  {
    if !s.gameStarted then Start
    else if s.gameWon then Won
    else if s.gameOver then Lost
    else Playing
  }

  /** What holds in every state the component can reach. */
  predicate Inv(s: State)
  {
    (s.cards == [] || IsDeck(s.cards))
    && (s.gameStarted ==> s.cards != [])
    && |s.flippedCards| <= 2 && Distinct(s.flippedCards) && Below(s.flippedCards, |s.cards|)
    && Distinct(s.matchedCards) && Below(s.matchedCards, |s.cards|)
    && (|s.flippedCards| < 2 ==> forall k :: k in s.flippedCards ==> k !in s.matchedCards)
    && |s.matchedCards| % 2 == 0 && s.score % 2 == 0 && s.score <= |s.matchedCards|
    && (s.gameWon <==> s.score == WinScore)
    && 0 <= s.timeLeft <= InitialTime
    && (s.gameOver <==> s.timeLeft == 0)
    && (s.gameWon ==> !s.gameOver)
    && (!s.gameStarted ==> s.timeLeft == InitialTime && !s.gameWon)
    && (|s.flippedCards| == 2 ==> s.pendingClears > 0)
  }

  /** Within a round begun by a reset, every point is one matched card. */
  predicate Balanced(s: State)
  {
    s.score == |s.matchedCards|
  }

  /** The values `useState` starts with. */
  function Initial(): (s: State)
    ensures Inv(s) && PhaseOf(s) == Start && Balanced(s)
  {
    State([], [], [], false, false, false, 0, InitialTime, "", false, 0, 0)
  }

  /** Start button: the three phase flags, then the effect on `gameStarted`
      deals a fresh deck. Nothing else is reset. */
  function StartGame(s: State, swaps: seq<Exchange>): (t: State)
    requires Inv(s) && PhaseOf(s) == Start && InRange(swaps, DeckSize)
    ensures Inv(t) && PhaseOf(t) == Playing
    ensures IsDeck(t.cards) && t.cards == Deal(swaps)
    ensures t.flippedCards == s.flippedCards && t.matchedCards == s.matchedCards
    ensures t.score == s.score && t.timeLeft == InitialTime
  {
    s.(gameStarted := true, gameOver := false, gameWon := false, cards := Deal(swaps))
  }

  /** The state a start produces, field by field. */
  lemma StartGameResult(s: State, swaps: seq<Exchange>)
    requires Inv(s) && PhaseOf(s) == Start && InRange(swaps, DeckSize)
    ensures StartGame(s, swaps) == State(Deal(swaps), s.flippedCards, s.matchedCards, true, false, false,
                                         s.score, s.timeLeft, s.message, s.messageJump,
                                         s.pendingClears, s.confettiBursts)
  {
  }

  /** Reset button: a fresh deck and a fresh round. `messageJump`, the
      pending callbacks and the confetti count are left as they are. */
  function Reset(s: State, swaps: seq<Exchange>): (t: State)
    requires Inv(s) && PhaseOf(s) == Playing && InRange(swaps, DeckSize)
    ensures Inv(t) && PhaseOf(t) == Playing && Balanced(t)
    ensures IsDeck(t.cards) && t.cards == Deal(swaps)
    ensures t.flippedCards == [] && t.matchedCards == [] && t.score == 0
    ensures t.message == "" && t.timeLeft == InitialTime
    ensures t.messageJump == s.messageJump && t.pendingClears == s.pendingClears
    ensures t.confettiBursts == s.confettiBursts
  {
    s.(cards := Deal(swaps), flippedCards := [], matchedCards := [], score := 0,
       message := "", timeLeft := InitialTime,
       gameOver := false, gameStarted := true, gameWon := false)
  }

  /** The state a reset produces, field by field. */
  lemma ResetResult(s: State, swaps: seq<Exchange>)
    requires Inv(s) && PhaseOf(s) == Playing && InRange(swaps, DeckSize)
    ensures Reset(s, swaps) == State(Deal(swaps), [], [], true, false, false, 0, InitialTime,
                                     "", s.messageJump, s.pendingClears, s.confettiBursts)
  {
  }

  /** Go-to-home button: back to the start page with score and clock reset;
      the deck, the flipped cards and the matched cards are kept. */
  function GoHome(s: State): (t: State)
    requires Inv(s) && (PhaseOf(s) == Won || PhaseOf(s) == Lost)
    ensures Inv(t) && PhaseOf(t) == Start
    ensures t.score == 0 && t.timeLeft == InitialTime
    ensures t.cards == s.cards && t.flippedCards == s.flippedCards
    ensures t.matchedCards == s.matchedCards && t.pendingClears == s.pendingClears
    ensures Balanced(t) <==> s.matchedCards == []
  {
    s.(gameStarted := false, gameOver := false, gameWon := false, score := 0,
       timeLeft := InitialTime)
  }

  /** The guard of the click handler: two cards already up, or this card
      already up or matched. */
  predicate Rejected(s: State, index: nat)
  {
    |s.flippedCards| == 2 || index in s.flippedCards || index in s.matchedCards
  }

  /** The click turns up the second card of a pair. */
  predicate SecondCard(s: State, index: nat)
  {
    !Rejected(s, index) && |s.flippedCards| == 1
  }

  /** The click turns up the second card of a pair and it shows the same
      symbol as the first. */
  predicate Matches(s: State, index: nat)
    requires index < |s.cards| && Below(s.flippedCards, |s.cards|)
  {
    SecondCard(s, index) && s.cards[s.flippedCards[0]] == s.cards[index]
  }

  /** Click on the card at `index`. Turning the pair back is deferred: the
      click only schedules it (`pendingClears`), `ClearFlipped` performs it. */
  function Click(s: State, index: nat): (t: State)
    requires Inv(s) && PhaseOf(s) == Playing && index < |s.cards|
    ensures Inv(t) && (PhaseOf(t) == Playing || PhaseOf(t) == Won)
    ensures t == s <==> Rejected(s, index)
    ensures !Rejected(s, index) ==> t.flippedCards == s.flippedCards + [index]
    ensures Matches(s, index) ==>
              t.matchedCards == s.matchedCards + [s.flippedCards[0], index]
              && t.score == s.score + 2 && t.message == MatchMessage && t.messageJump
    ensures !Matches(s, index) ==> t.matchedCards == s.matchedCards && t.score == s.score
    ensures t.gameWon <==> Matches(s, index) && s.score + 2 == WinScore
    ensures t.confettiBursts == if t.gameWon then s.confettiBursts + 1 else s.confettiBursts
    ensures t.pendingClears == if SecondCard(s, index) then s.pendingClears + 1 else s.pendingClears
    ensures !Matches(s, index) ==> t.message == s.message && t.messageJump == s.messageJump
    ensures t.cards == s.cards && t.timeLeft == s.timeLeft
    ensures t.gameStarted == s.gameStarted && t.gameOver == s.gameOver
    ensures |t.matchedCards| - t.score == |s.matchedCards| - s.score
  {
    if Rejected(s, index) then s
    else
      var newlyFlipped := s.flippedCards + [index];
      if |newlyFlipped| == 2 then
        var first, second := newlyFlipped[0], newlyFlipped[1];
        if s.cards[first] == s.cards[second] then
          var won := s.score + 2 == WinScore;
          assert first in s.flippedCards;
          DistinctAppendPair(s.matchedCards, first, second);
          s.(flippedCards := newlyFlipped,
             matchedCards := s.matchedCards + [first, second],
             score := s.score + 2,
             message := MatchMessage,
             messageJump := true,
             gameWon := if won then true else s.gameWon,
             confettiBursts := if won then s.confettiBursts + 1 else s.confettiBursts,
             pendingClears := s.pendingClears + 1)
        else
          s.(flippedCards := newlyFlipped, pendingClears := s.pendingClears + 1)
      else
        s.(flippedCards := newlyFlipped)
  }

  /** The deferred callback of a second flip: turn every flipped card back.
      It carries no round token, so it clears whatever is flipped when it fires. */
  function ClearFlipped(s: State): (t: State)
    requires Inv(s) && s.pendingClears > 0
    ensures Inv(t) && PhaseOf(t) == PhaseOf(s)
    ensures t == s.(flippedCards := [], pendingClears := s.pendingClears - 1)
  {
    s.(flippedCards := [], pendingClears := s.pendingClears - 1)
  }

  /** The condition under which the countdown effect runs an interval. */
  predicate Running(s: State)
  {
    s.gameStarted && s.timeLeft > 0 && !s.gameOver && !s.gameWon
  }

  /** The effect's other branch: at zero the round is over. */
  function Settle(s: State): State
  {
    if !Running(s) && s.timeLeft == 0 then s.(gameOver := true) else s
  }

  /** The effect re-runs after every change of its dependencies, but in a
      reachable state its zero branch has nothing left to do: only a tick
      can bring the clock to zero. */
  lemma SettleIdleOnReachableStates(s: State)
    requires Inv(s)
    ensures Settle(s) == s
  {
  }

  /** One firing of the interval, and the effect re-run it causes. Without a
      running interval nothing fires. */
  function Tick(s: State): (t: State)
    requires Inv(s)
    ensures Inv(t)
    ensures Running(s) <==> PhaseOf(s) == Playing
    ensures Running(s) ==> t == s.(timeLeft := s.timeLeft - 1, gameOver := s.timeLeft == 1)
    ensures !Running(s) ==> t == s
  {
    if Running(s) then Settle(s.(timeLeft := s.timeLeft - 1)) else s
  }

  /** `k` seconds of the countdown with no other event. */
  function Ticks(s: State, k: nat): (t: State)
    requires Inv(s)
    ensures Inv(t)
    decreases k
  {
    if k == 0 then s else Ticks(Tick(s), k - 1)
  }

  // ---------------------------------------------------------------------
  // Properties of the rules

  /** Score and matched cards never exceed the board. */
  lemma ScoreBounded(s: State)
    requires Inv(s)
    ensures s.score <= |s.matchedCards| <= |s.cards| <= DeckSize
  {
    Pigeonhole(s.matchedCards, |s.cards|);
  }

  /** In a balanced round a click wins exactly when it leaves every card of
      the board matched: the threshold of 30 is the whole doubled alphabet. */
  lemma WinIffBoardCleared(s: State, index: nat)
    requires Inv(s) && PhaseOf(s) == Playing && index < |s.cards| && Balanced(s)
    ensures Click(s, index).gameWon <==>
              forall k: nat :: k < |s.cards| ==> k in Click(s, index).matchedCards
  {
    var t := Click(s, index);
    assert |t.cards| == DeckSize == WinScore;
    Pigeonhole(t.matchedCards, |t.cards|);
  }

  /** Matched cards left over from an earlier round, with the score reset to
      zero, make the round unwinnable: no click can reach the win score. */
  lemma StaleMatchesPreventWin(s: State, index: nat)
    requires Inv(s) && PhaseOf(s) == Playing && index < |s.cards|
    requires s.score < |s.matchedCards|
    ensures !Click(s, index).gameWon
  {
    var t := Click(s, index);
    ScoreBounded(t);
    assert t.score < |t.matchedCards| <= WinScore;
  }

  /** Winning, going home and starting again yields a board whose every card
      is already matched, with score 0: each click is rejected, so the round
      can only run out of time. */
  lemma WinHomeStartIsUnwinnable(s: State, swaps: seq<Exchange>)
    requires Inv(s) && PhaseOf(s) == Won && InRange(swaps, DeckSize)
    ensures var u := StartGame(GoHome(s), swaps);
            PhaseOf(u) == Playing && u.score == 0 && |u.cards| == DeckSize
            && forall k: nat :: k < |u.cards| ==> k in u.matchedCards && Click(u, k) == u
  {
    var u := StartGame(GoHome(s), swaps);
    assert |s.cards| == DeckSize;
    ScoreBounded(s);
    Pigeonhole(s.matchedCards, |s.cards|);
    forall k: nat | k < |u.cards| ensures k in u.matchedCards && Click(u, k) == u {
      assert Rejected(u, k);
    }
  }

  /** From the board, the countdown alone takes `k` seconds off the clock and
      ends the round exactly when it reaches zero, changing nothing else. */
  lemma {:induction false} TicksFromPlaying(s: State, k: nat)
    requires Inv(s) && PhaseOf(s) == Playing && k <= s.timeLeft
    ensures Ticks(s, k) == s.(timeLeft := s.timeLeft - k, gameOver := k == s.timeLeft)
    decreases k
  {
    if k > 0 {
      var s1 := Tick(s);
      if s.timeLeft > 1 {
        TicksFromPlaying(s1, k - 1);
      } else {
        assert Ticks(s1, 0) == s1;
      }
    }
  }

  /** The clock never goes below zero: once the round is lost, further
      seconds change nothing. */
  lemma {:induction false} LostIsFrozen(s: State, k: nat)
    requires Inv(s) && PhaseOf(s) == Lost
    ensures Ticks(s, k) == s
    decreases k
  {
    if k > 0 {
      LostIsFrozen(Tick(s), k - 1);
    }
  }

  /** A callback scheduled before a reset still fires afterwards and turns
      back a card flipped in the new round. */
  lemma StaleClearAfterReset(s: State, swaps: seq<Exchange>, index: nat)
    requires Inv(s) && PhaseOf(s) == Playing && |s.flippedCards| == 2
    requires InRange(swaps, DeckSize) && index < DeckSize
    ensures var c := Click(Reset(s, swaps), index);
            c.flippedCards == [index] && c.pendingClears > 0
            && ClearFlipped(c).flippedCards == []
  {
  }
}
