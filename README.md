# Texas Hold'em table server — a Dafny model

This project models the game logic of the poker server in `server.js`. The server keeps
one global game state: the seated players, the deck, the pot, the table's current bet,
the dealer and current-player indices, and the game phase. Three socket handlers change
that state: join, player action and disconnect. The model covers these pieces:

- **Cards** (`cards.dfy`, module `Cards`): the 4 x 13 deck built suit by suit, and the
  Fisher-Yates shuffle. Each random draw `Math.floor(Math.random() * (i + 1))` becomes
  an index `js[i] <= i` chosen by the caller. Proved: every shuffle is a permutation, and
  every fresh deck holds each of the 52 cards exactly once.
- **Seats** (`seats.dfy`, module `Seats`): the seats as a sequence of player values.
  This module holds:
  - the `findIndex` lookup by connection id;
  - the chip accounting;
  - the effect of fold, call and raise on the acting seat, the pot and the table's bet;
  - the deal, which pops two cards per seat from the end of the deck;
  - the payout to the last seat standing;
  - the circular search for the next unfolded seat.
- **Table** (`table.dfy`, module `Poker`): the game state object as a class with the
  source's fields. Its methods are the handlers and the functions they call:
  `dealCards`, `startNewHand`, `endHand`, the delayed callback `endHand` schedules,
  join, action and disconnect. Every method states its whole new state. The
  betting-related ones also state that the chips in the stacks plus the pot stay the same.

How the code differs from a full Hold'em description, as modelled:

- There are at most 8 seats and a single table.
- There are no blinds, no all-in and no side pots.
- The dealer index is set to 0 by the first join and is never moved, so `Valid()`
  includes `dealer == 0`.
- The phase only moves between `Waiting` and `Preflop`. No community card is ever dealt,
  and no hand is ever compared: a hand ends only when a single seat is left unfolded.
- The action handler checks neither whose turn it is nor the phase. Any seated
  connection may act at any time, and the turn then passes on from the current seat.
- The raise amount is not validated. A negative raise, or a call after someone's raise
  lowered the table's bet (`Seats.CallBelowOwnBetRefunds`), moves chips from the pot back
  to a stack. So neither the pot nor a stack is kept non-negative. What is kept is the
  total of the stacks plus the pot.
- `startNewHand` sets the pot to 0 without paying it out. After a hand ends, the phase
  stays `Preflop` for the 3-second delay, so a player who joins then is seated without
  starting a hand. If that newcomer raises, two seats are unfolded (the winner and the
  newcomer), so the pot is not paid out. The delayed `startNewHand` then drops those
  chips. The model states this: `StartNewHand` keeps the stacks' total and leaves the
  pot at 0.
- Ids are not assumed unique. The same connection may join twice, and lookups find its
  first seat.

## Model

| member | source | states |
|---|---|---|
| Cards.OrderedDeckIsFull | server.js:29-38 | the deck built from the four suits and thirteen ranks has 52 pairwise distinct cards, and every card occurs in it exactly once |
| Cards.BuildOrderedDeck | server.js:30-38 | the nested suit/rank loops push exactly the ordered deck, suit by suit and rank by rank within a suit |
| Cards.ShuffleDeck | server.js:44-51 | the in-place swap loop on a copy, running i from the last index down to 1 and swapping position i with draw js[i] <= i, returns the shuffle the draws define, and that result is a permutation of the input |
| Cards.ShuffleFromPermutes | server.js:46-49 | each run of the swap loop from position i down to 1 keeps the length and the multiset of cards |
| Cards.ShuffledPermutes | server.js:44-51 | the shuffled deck is a permutation of the deck it was given |
| Cards.InitializeDeck | server.js:29-41 | the fresh deck is the shuffle, by the given draws, of the ordered 52-card deck |
| Cards.FreshDeckIsFull | server.js:29-51 | whatever the draws, a fresh deck holds each of the 52 cards exactly once |
| Seats.IndexOf | server.js:112 | `findIndex` by id: -1 exactly when no seat has the id; otherwise a seat with the id, and no earlier seat has it |
| Seats.ActiveFrom | server.js:146 | the `filter(p => !p.folded)`: a seat is listed exactly when it is not folded, in increasing seat order |
| Seats.SoleActiveSeat | server.js:146-149 | when exactly one seat is left after the filter, it is unfolded and every other seat is folded, so it is the last player standing |
| Seats.ApplyAction | server.js:117-138 | an action changes only the acting seat; it keeps that seat's id and hand, and the seat is folded afterwards exactly when it was folded before or the action is a fold |
| Seats.ActionConservesChips | server.js:121-137 | fold, call, raise and any unrecognised action all leave the stacks plus the pot unchanged |
| Seats.ActionEffect | server.js:118-137 | a fold sets the flag and nothing else; an affordable call moves the difference between the table's bet and the seat's bet from the stack into the seat's bet and the pot, so the seat's bet equals the table's bet; an affordable raise moves the amount from the stack into the seat's bet and the pot, and makes the seat's new bet the table's bet; an unaffordable call or raise and an unrecognised action change nothing; a stack that was non-negative stays non-negative |
| Seats.CallBelowOwnBetRefunds | server.js:122-126 | when the table's bet is below the seat's own bet, a call gives the difference back from the pot to the stack and lowers the seat's bet to the table's bet |
| Seats.AwardPot | server.js:216-218 | the winner's stack grows by the pot and nothing else of the winner changes; every other seat and every fold flag is unchanged; the stacks' total grows by exactly the pot |
| Seats.Deal | server.js:54-61 | dealing keeps the number of seats and takes exactly two cards per seat off the end of the deck |
| Seats.DealToSeats | server.js:56-60 | the `forEach` loop, popping two cards per seat in seat order, produces exactly the seats and remaining deck of `Deal` |
| Seats.DealResetsSeats | server.js:56-60 | after the deal each seat has a two-card hand, bet 0 and is not folded; its id, name, chips and dealer flag are unchanged |
| Seats.DealtHands | server.js:57 | seat k holds the (2k+1)-th and (2k+2)-th cards from the end of the deck, in pop order |
| Seats.DealKeepsChips | server.js:56-60 | dealing does not change the stacks' total |
| Seats.DealConservesCards | server.js:55-57 | the hands together with the rest of the deck are a rearrangement of the deck dealt from: no card is created or lost |
| Seats.FreshDealPlacesEveryCardOnce | server.js:29-61 | after a deal of at most 8 seats from a fresh deck, each of the 52 cards is in exactly one place (one hand or the remaining deck), and 52 - 2n cards remain |
| Seats.NextActiveSeat | server.js:141-143 | the do-while moves the turn to the first unfolded seat strictly after the current one in circular order; every seat it passes over is folded |
| Seats.LastFoldLeavesNoActiveSeat | server.js:118-119 | a lone unfolded seat that folds leaves no unfolded seat, so the guard of the turn-passing do-while holds on every seat |
| Seats.FindNextActive | server.js:141-143 | the turn search bounded by one round: -1 exactly when every seat is folded, otherwise the first unfolded seat strictly after the current one in circular order |
| Seats.NextActiveIsUnique | server.js:141-143 | that first unfolded seat after the current one is unique |
| Poker.Table.constructor | server.js:15-26 | the initial state: no players, empty deck and board, pot and bet 0, dealer and current player 0, phase waiting |
| Poker.Table.DealCards | server.js:54-61 | the deck is replaced by a fresh shuffle; the seats and the remaining deck are the deal from it; the stacks' total and every other field are unchanged |
| Poker.Table.StartNewHand | server.js:191-198 | pot and bet 0, empty board, phase preflop, the turn goes to the seat after the dealer, then a fresh deal; the stacks' total is unchanged |
| Poker.Table.EndHand | server.js:216-218 | the winner's stack takes the whole pot, the pot becomes 0, and stacks plus pot are unchanged |
| Poker.Table.OnHandEndTimer | server.js:236-242 | with at least two seats a new hand is started; otherwise the phase returns to waiting and nothing else changes |
| Poker.Table.Join | server.js:68-107 | a full table (8 seats) changes nothing; otherwise a seat with 1000 chips is appended; the first seat is the dealer; a hand starts exactly when at least two are seated and the table was waiting; the stacks' total grows by 1000 |
| Poker.Table.ApplyBet | server.js:115-138 | the switch on the action type updates the seats, pot and table bet exactly as `ApplyAction` describes, and nothing else |
| Poker.Table.PassTurn | server.js:140-149 | the turn moves to the next unfolded seat (and stays put when every seat is folded, where the source hangs); the hand ends exactly when a single seat is left unfolded, and that seat then takes the pot; stacks plus pot are unchanged |
| Poker.Table.Act | server.js:111-149 | an id holding no seat changes nothing; otherwise the action's effect is applied to the id's first seat and the turn passes on as `PassTurn` states; stacks plus pot are unchanged |
| Poker.Table.Disconnect | server.js:171-175 | the first seat held by the id is spliced out, and nothing else changes; an unseated id changes nothing; the stacks' total drops by the departing stack |

## Left out

- Transport: the HTTP server, static files, socket rooms, the emitted snapshots and the
  console logging are not modelled. Each handler is a method, and the connection id is a
  parameter.
- Randomness: `Math.random` is replaced by the caller's draws `js`, with `js[i] <= i`.
  Whether the shuffle is uniform is not modelled.
- Timing: the 3-second delay before the callback `endHand` schedules is not modelled.
  `Poker.Table.OnHandEndTimer` is that callback's body, to be called at any later point.
  Interleaving with other handlers is expressed only by calling the methods in any order.
- Poker.Table.Act: when the action leaves every seat folded, the source's turn-passing
  loop never exits (see "## Findings"). The model passes the turn with the bounded
  search `Seats.FindNextActive` instead: the turn stays where it was and the hand does
  not end. The source's non-terminating behaviour is not modelled.
- Seats.ActionConservesChips: chips, bets, the pot and the raise amount are integers
  without bound. In the source they are JavaScript doubles, and the raise amount is
  unchecked client input. The source keeps stacks plus pot only while the values stay
  exactly representable (below 2^53 in magnitude). For example, a raise of -1e300 on a
  1000-chip stack rounds the stack to 1e300 and the pot to -1e300, and 1000 chips
  vanish. The same applies to the `Total()` clauses of `Poker.Table.Act`,
  `Poker.Table.PassTurn` and `Poker.Table.EndHand`.
- Action payloads: an action type other than fold, call or raise is `Unrecognized`.
  Non-integer and missing raise amounts are not modelled.
- Object identity: the players are values in a sequence. The source updates shared
  objects in place (`player.folded = true`, `winner.chips += ...`); the model updates
  the sequence at the seat's index. The winner passed to `endHand` is identified by its
  seat index.
- `script.js` and `config.js` are not part of this model.

## Findings

| source | as written | input that shows it | evidently intended | confidence | as-written member | corrected member |
|---|---|---|---|---|---|---|
| server.js:141-143 | the do-while advances `currentPlayer` until it reaches an unfolded seat, with no bound | a player who is alone at the table folds, or the last unfolded seat folds during the 3-second delay after a hand; no seat is unfolded, so the loop never exits and the server stops handling events | stop after one round of the table and leave the turn in place when every seat is folded | high, by reading; not executed | Seats.LastFoldLeavesNoActiveSeat | Seats.FindNextActive |

`Seats.NextActiveSeat` is the loop as written: it needs an unfolded seat, and
`Seats.LastFoldLeavesNoActiveSeat` shows that a single fold can leave none. The
corrected search `Seats.FindNextActive` is the one `Poker.Table.PassTurn` uses.
