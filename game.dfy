/** The `Game` component as an object: its state variables are fields, and
    each event handler is a method that assigns them the way the handler's
    setter calls do. Each method is proved to produce exactly the state that
    the corresponding function of GameRules describes. */
module MemoryGame {
  import opened Deck
  import opened GameRules

  class Game {
    var cards: seq<Symbol>
    var flippedCards: seq<nat>
    var matchedCards: seq<nat>
    var gameStarted: bool
    var gameOver: bool
    var gameWon: bool
    var score: nat
    var timeLeft: int
    var message: string
    var messageJump: bool
    /** Scheduled clears of `flippedCards` that have not fired yet. */
    var pendingClears: nat
    /** Invocations of the celebration effect so far. */
    var confettiBursts: nat

    /** The fields as one value of the rules' state type. */
    function Snapshot(): State
      reads this
    {
      State(cards, flippedCards, matchedCards, gameStarted, gameOver, gameWon,
            score, timeLeft, message, messageJump, pendingClears, confettiBursts)
    }

    ghost predicate Valid()
      reads this
    {
      Inv(Snapshot())
    }

    /** The component's first render: the `useState` defaults. */
    constructor ()
      ensures Snapshot() == Initial()
      ensures Valid()
    {
      cards, flippedCards, matchedCards := [], [], [];
      gameStarted, gameOver, gameWon := false, false, false;
      score, timeLeft := 0, InitialTime;
      message, messageJump := "", false;
      pendingClears, confettiBursts := 0, 0;
    }

    /** Start button on the start page; the deck effect follows, since
        `gameStarted` turns true. */
    method HandleStartGame(swaps: seq<Exchange>)
      requires Valid() && PhaseOf(Snapshot()) == Start && InRange(swaps, DeckSize)
      modifies this
      ensures Snapshot() == StartGame(old(Snapshot()), swaps)
      ensures Valid()
    {
      ghost var before := Snapshot();
      StartGameResult(before, swaps);
      gameStarted := true;
      gameOver := false;
      gameWon := false;
      cards := Deal(swaps);
      assert Snapshot() == StartGame(before, swaps);
      assert Inv(StartGame(before, swaps));
    }

    /** Reset button on the board. */
    method HandleReset(swaps: seq<Exchange>)
      requires Valid() && PhaseOf(Snapshot()) == Playing && InRange(swaps, DeckSize)
      modifies this
      ensures Snapshot() == Reset(old(Snapshot()), swaps)
      ensures Valid()
    {
      ghost var before := Snapshot();
      ResetResult(before, swaps);
      cards := Deal(swaps);
      flippedCards, matchedCards, score, message := [], [], 0, "";
      timeLeft, gameOver, gameStarted, gameWon := InitialTime, false, true, false;
      assert Snapshot() == Reset(before, swaps);
      assert Inv(Reset(before, swaps));
    }

    /** Go-to-home button on either end page. */
    method HandleGoToHome()
      requires Valid() && (PhaseOf(Snapshot()) == Won || PhaseOf(Snapshot()) == Lost)
      modifies this
      ensures Snapshot() == GoHome(old(Snapshot()))
      ensures Valid()
    {
      ghost var before := Snapshot();
      gameStarted := false;
      gameOver := false;
      gameWon := false;
      score := 0;
      timeLeft := InitialTime;
      assert Snapshot() == GoHome(before);
      assert Inv(GoHome(before));
    }

    /** A click on the card at `index` of the board. The handler's setters
        all read the state of the render it runs in, and React applies their
        updates together, so the new values are computed first and committed
        at the end. */
    method HandleCardClick(index: nat)
      requires Valid() && PhaseOf(Snapshot()) == Playing && index < |cards|
      modifies this
      ensures Snapshot() == Click(old(Snapshot()), index)
      ensures Valid()
    {
      if |flippedCards| == 2 || index in flippedCards || index in matchedCards {
        return;
      }
      var newlyFlipped := flippedCards + [index];
      var matched, points, text, jump := matchedCards, score, message, messageJump;
      var won, bursts, pending := gameWon, confettiBursts, pendingClears;
      if |newlyFlipped| == 2 {
        var first, second := newlyFlipped[0], newlyFlipped[1];
        if cards[first] == cards[second] {
          matched, points, text, jump := matchedCards + [first, second], score + 2, MatchMessage, true;
          if score + 2 == WinScore {
            won, bursts := true, confettiBursts + 1;
          }
        }
        pending := pendingClears + 1;
      }
      flippedCards, matchedCards, score, message, messageJump := newlyFlipped, matched, points, text, jump;
      gameWon, confettiBursts, pendingClears := won, bursts, pending;
    }

    /** One firing of the countdown interval, then the effect's re-run on the
        new `timeLeft`. */
    method Tick()
      requires Valid()
      modifies this
      ensures Snapshot() == GameRules.Tick(old(Snapshot()))
      ensures Valid()
    {
      ghost var before := Snapshot();
      if gameStarted && timeLeft > 0 && !gameOver && !gameWon {
        timeLeft := timeLeft - 1;
        if !(gameStarted && timeLeft > 0 && !gameOver && !gameWon) && timeLeft == 0 {
          gameOver := true;
        }
      }
      assert Snapshot() == GameRules.Tick(before);
      assert Inv(GameRules.Tick(before));
    }

    /** The deferred callback scheduled by a second flip. */
    method ClearFlipped()
      requires Valid() && pendingClears > 0
      modifies this
      ensures Snapshot() == GameRules.ClearFlipped(old(Snapshot()))
      ensures Valid()
    {
      ghost var before := Snapshot();
      flippedCards := [];
      pendingClears := pendingClears - 1;
      assert Snapshot() == GameRules.ClearFlipped(before);
      assert Inv(GameRules.ClearFlipped(before));
    }
  }

  /** On the deck dealt without exchanges (the alphabet twice, in order),
      the cards at 0 and 15 form a pair: turning both scores 2. */
  method FirstPairMatches() returns (g: Game)
    ensures fresh(g)
    ensures g.Valid() && PhaseOf(g.Snapshot()) == Playing
    ensures g.cards == CardValues + CardValues
    ensures g.matchedCards == [0, 15] && g.score == 2 && g.flippedCards == [0, 15]
  {
    g := new Game();
    g.HandleStartGame([]);
    assert g.cards == CardValues + CardValues;
    assert g.cards[0] == g.cards[15] == Sunflower;
    g.HandleCardClick(0);
    g.HandleCardClick(15);
  }

  /** After the pair is turned back, the cards at 1 and 2 differ: turning
      both changes neither the matched cards nor the score, and the deferred
      clear turns them face down again. */
  method SecondPairMisses()
  {
    var g := FirstPairMatches();
    var deck := g.cards;
    assert deck[1] == Fire && deck[2] == Banana;
    g.ClearFlipped();
    g.HandleCardClick(1);
    g.HandleCardClick(2);
    assert g.cards == deck;
    assert g.flippedCards == [1, 2] && g.matchedCards == [0, 15] && g.score == 2;
    g.ClearFlipped();
    assert g.flippedCards == [] && !g.gameWon;
  }
}
