# Memory game: a verified model of the `Game` component

This project models the logic of the browser memory game in `src/App.js`.
The game deals 30 cards, two of each of 15 symbols, in a shuffled order.
The player turns up two cards at a time. A pair with equal symbols stays
matched and scores 2 points. Reaching 30 points wins. A 180-second countdown
ends the round as lost when it reaches zero.

The model has five modules:

- `Deck` (deck.dfy): the 15 card values and the doubled deck. `shuffle`
  sorts with a random comparator; the random outcome becomes a parameter,
  the list of exchanges the sort performed. Two lemmas pin this down: the
  result is always a permutation, and every permutation is a possible result.
- `Countdown` (countdown.dfy): the `m:ss` readout, using JavaScript's
  floor division and truncating `%`, and the timer colour.
- `IndexSets` (index_sets.dfy): helpers about lists of card positions,
  including a pigeonhole lemma.
- `GameRules` (game_rules.dfy): the component's state variables as one
  `State` value. It has one pure function per event: start, reset, go home,
  card click, countdown tick, and the deferred "turn the flipped cards back"
  callback. It also holds the invariant of reachable states and the
  properties proved about the rules.
- `MemoryGame` (game.dfy): class `Game`. Its fields are the component's
  state variables, and each event handler is a method that assigns them the
  way the handler's setters do. Each method is proved to produce exactly the
  state given by the matching `GameRules` function. A two-method client plays
  one matching pair and one non-matching pair.

Timers become explicit events. `Tick` is one firing of the one-second
interval. It also covers the effect's re-run, which sets `gameOver` once the
clock reads 0. `ClearFlipped` is the 1200 ms callback scheduled by a second
flip. `pendingClears` counts the scheduled callbacks, and `ClearFlipped` may
fire only while one is pending. The callback carries no round token, as in
the code. `confettiBursts` counts the calls of the celebration effect.

The model follows the code where a cleaner design would differ:

- Start game does not clear the flipped cards, the matched cards or the score.
- Go home keeps the deck, the flipped cards and the matched cards.
- Deferred callbacks have no generation guard.
- The shuffle is the comparator sort, not Fisher–Yates.
- The phase lives in three flags. `PhaseOf` reads them the way the render does.

Go home keeping the matched cards has a visible effect, which the model
proves (`WinHomeStartIsUnwinnable`). Win, go home, then start: every card of
the new board is already matched and the score is 0. Every click is
rejected, so the round can only run out of time. More generally, a round
that starts with stale matched cards can never reach the win score
(`StaleMatchesPreventWin`). Only the reset button restores
`score == |matchedCards|`.

The handlers' preconditions follow the page that shows each control:

- The start button is only on the start page.
- The board and its reset button are only on the playing page.
- The go-home button is only on the two end pages.
- A card index is always a position of the rendered `cards`.

## Model

| member | source | states |
|---|---|---|
| Deck.GlyphInjective | src/App.js:61-63 | distinct card values are distinct strings, so `===` on two cards compares their symbols |
| Deck.CardValuesOnce | src/App.js:61-63 | the alphabet has 15 values and lists each symbol exactly once |
| Deck.DoubledAlphabetTwice | src/App.js:77 | `[...cardValues, ...cardValues]` has 30 cards and every symbol occurs exactly twice |
| Deck.Shuffle | src/App.js:14-16 | shuffling keeps the array's length, whatever exchanges the random sort makes |
| Deck.ShufflePermutes | src/App.js:14-16 | the shuffled array is a permutation of its input (same multiset) |
| Deck.ShuffleReachesEveryPermutation | src/App.js:14-16 | conversely, every permutation of the input is a possible shuffle result |
| Deck.Deal | src/App.js:77 | a dealt deck has 30 cards with each of the 15 symbols exactly twice |
| Deck.EveryDeckCanBeDealt | src/App.js:94 | every deck with each symbol exactly twice can be dealt by start or reset |
| Countdown.TimerColor | src/App.js:65 | the timer is red exactly when `timeLeft <= 10`, black otherwise |
| Countdown.RedExactlyFromTenSeconds | src/App.js:65 | the timer is red exactly when the readout shows at most ten seconds left |
| Countdown.FloorDiv | src/App.js:169 | `Math.floor(t / 60)` is the unique q with 60q <= t < 60q + 60 |
| Countdown.JsRem | src/App.js:169 | JavaScript `%` is the remainder of truncating division, with the sign of the dividend |
| Countdown.Last2 | src/App.js:169 | `slice(-2)` is the suffix of length two, or the whole of a shorter string |
| Countdown.NatToStringValue | src/App.js:169 | the decimal numeral of a number reads back as that number |
| Countdown.PaddedSeconds | src/App.js:169 | `('0' + s).slice(-2)` is exactly two digits whose value is s, for 0 <= s < 60 |
| Countdown.FormatTimeRoundTrip | src/App.js:169 | for every t >= 0, the `m:ss` readout parses back as minutes and seconds giving t |
| GameRules.Initial | src/App.js:48-59 | the initial state is on the start page, satisfies the invariant and has score equal to matched cards |
| GameRules.StartGame | src/App.js:108-112 | start reaches the board with a fresh deal and 180 s, and leaves flipped cards, matched cards and score unchanged |
| GameRules.Reset | src/App.js:93-106 | reset deals a fresh deck and empties flipped and matched cards, with score 0, message '', 180 s and the board shown |
| GameRules.GoHome | src/App.js:114-120 | go-home shows the start page with score 0 and 180 s, and keeps cards, flipped and matched cards; score equals matched cards afterwards only if no card was matched |
| GameRules.Click | src/App.js:122-152 | a click is a no-op exactly when two cards are up or the card is up or matched. Otherwise it appends the index. A matching pair appends both indices and adds 2 to the score. The game is won exactly on a match reaching 30, with exactly one confetti call then. The message and its jump change only on a match. The deck, the clock and the start and game-over flags never change. The invariant (at most 2 distinct flipped cards, no repeated matched card) is kept, and `|matchedCards| - score` does not change |
| GameRules.ClearFlipped | src/App.js:148-150 | the deferred callback empties the flipped cards, uses up one pending callback, and changes nothing else |
| GameRules.SettleIdleOnReachableStates | src/App.js:88-90 | in every reachable state the effect's zero branch changes nothing |
| GameRules.Tick | src/App.js:82-91 | a tick takes exactly one second off only while the board is shown, and sets `gameOver` exactly when the clock reaches 0. Otherwise it changes nothing. The invariant (0 <= timeLeft <= 180) is kept |
| GameRules.TicksFromPlaying | src/App.js:82-91 | from the board, k ticks take k seconds off, and the round is lost exactly when the clock reaches 0 |
| GameRules.LostIsFrozen | src/App.js:83 | once lost, further ticks change nothing, so the clock never goes below 0 and the score is frozen |
| GameRules.ScoreBounded | src/App.js:134-135 | score <= number of matched cards <= number of cards <= 30 |
| GameRules.WinIffBoardCleared | src/App.js:142-145 | in a round where score equals matched cards, a click wins exactly when it leaves every card matched |
| GameRules.StaleMatchesPreventWin | src/App.js:114-120 | with matched cards left from an earlier round (score < matched), no click can win |
| GameRules.WinHomeStartIsUnwinnable | src/App.js:114-120 | after win, go home and start, every card is matched, the score is 0 and every click is a no-op |
| GameRules.StaleClearAfterReset | src/App.js:148-150 | a clear scheduled before a reset still fires after it and turns back a card flipped in the new round |
| MemoryGame.Game.constructor | src/App.js:48-59 | the fields start at the `useState` defaults |
| MemoryGame.Game.HandleStartGame | src/App.js:108-112 | setting the three flags and the deal by the `gameStarted` effect yields exactly `StartGame` of the old state |
| MemoryGame.Game.HandleReset | src/App.js:93-106 | the handler's assignments yield exactly `Reset` of the old state and keep the invariant |
| MemoryGame.Game.HandleGoToHome | src/App.js:114-120 | the handler's assignments yield exactly `GoHome` of the old state and keep the invariant |
| MemoryGame.Game.HandleCardClick | src/App.js:122-152 | the guard, append, match check, score bump and win check yield exactly `Click` of the old state |
| MemoryGame.Game.Tick | src/App.js:82-91 | the interval callback and the effect's re-run yield exactly `Tick` of the old state |
| MemoryGame.Game.ClearFlipped | src/App.js:148-150 | the deferred callback yields exactly `ClearFlipped` of the old state |
| MemoryGame.FirstPairMatches | src/App.js:130-135 | on the deck dealt without exchanges, turning cards 0 and 15 matches them and scores 2 |

## Left out

- Rendering (`Card`, `StartPage`, `GameOverPage`, `GameWonPage` and the JSX of `Game`), styling and the `disabled` attribute of flipped cards: pure presentation.
- The confetti library call: a foreign call, recorded only as the counter `confettiBursts`.
- The distribution of `Math.random` and whether the comparator sort is uniform: randomness is a parameter (the exchanges performed), and only the set of possible results is modelled.
- Real time: the 1000 ms interval, the 800, 1200 and 1700 ms delays, effect scheduling and cleanup become the events `Tick` and `ClearFlipped`.
- The delayed clears of `message` and `messageJump`: cosmetic. The fields are set on a match and on reset only.
- React's batching and stale closures: each event handler runs to completion on the current state.
- Countdown.FormatTime: its round trip is proved for t >= 0 only, the only times the clock shows. For negative t the function still follows JavaScript's operators.
