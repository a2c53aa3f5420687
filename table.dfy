/** The table: the server's single global game state and the effects of
    the join, action and disconnect handlers on it. */
module Poker {
  import opened Cards
  import opened Seats

  datatype Phase = Waiting | Preflop | Flop | Turn | River | Showdown

  /** The game state object. `communityCards` is only ever emptied and the
      phase only moves between Waiting and Preflop. */
  class Table {
    var players: seq<Player>      // seat order is turn order
    var deck: seq<Card>           // cards are popped from the end
    var communityCards: seq<Card>
    var pot: int
    var currentBet: int
    var dealer: int
    var currentPlayer: nat        // may point past the last seat after a disconnect
    var gamePhase: Phase

    /** At most eight seats; the dealer index is never moved off seat 0. */
    ghost predicate Valid()
      reads this
    {
      |players| <= MaxPlayers && dealer == 0
    }

    /** Chips in the stacks plus chips in the pot. */
    ghost function Total(): int
      reads this
    {
      ChipsSum(players) + pot
    }

    /** The state right after a new hand is started for the seats `ps`. */
    ghost predicate FreshHandFrom(ps: seq<Player>, js: seq<nat>)
      reads this
    {
      && 2 * |ps| <= 52 && ValidDraws(52, js) && |players| > 0
      && pot == 0 && currentBet == 0 && communityCards == [] && gamePhase == Preflop
      && currentPlayer == (dealer + 1) % |players|
      && (players, deck) == Deal(ps, Shuffled(OrderedDeck(), js))
    }

    constructor ()
      ensures Valid()
      ensures players == [] && deck == [] && communityCards == []
      ensures pot == 0 && currentBet == 0 && dealer == 0 && currentPlayer == 0
      ensures gamePhase == Waiting
    {
      players, deck, communityCards := [], [], [];
      pot, currentBet, dealer, currentPlayer := 0, 0, 0, 0;
      gamePhase := Waiting;
    }

    /** A fresh shuffled deck, then two cards popped from its end for each
        seat in order; bets and fold flags are cleared, stacks untouched. */
    method DealCards(js: seq<nat>)
      requires Valid() && ValidDraws(52, js)
      modifies this
      ensures Valid()
      ensures (players, deck) == Deal(old(players), Shuffled(OrderedDeck(), js))
      ensures ChipsSum(players) == old(ChipsSum(players))
      ensures communityCards == old(communityCards) && pot == old(pot)
      ensures currentBet == old(currentBet) && dealer == old(dealer)
      ensures currentPlayer == old(currentPlayer) && gamePhase == old(gamePhase)
    {
      deck := InitializeDeck(js);
      ghost var ps0 := players;
      players, deck := DealToSeats(players, deck);
      DealKeepsChips(ps0, Shuffled(OrderedDeck(), js));
    }

    method StartNewHand(js: seq<nat>)
      requires Valid() && |players| > 0 && ValidDraws(52, js)
      modifies this
      ensures Valid() && dealer == old(dealer)
      ensures FreshHandFrom(old(players), js)
      ensures ChipsSum(players) == old(ChipsSum(players))
    {
      pot := 0;
      currentBet := 0;
      communityCards := [];
      gamePhase := Preflop;
      currentPlayer := (dealer + 1) % |players|;
      DealCards(js);
    }

    /** The winner's stack takes the whole pot. */
    method EndHand(winner: nat)
      requires Valid() && winner < |players|
      modifies this
      ensures Valid()
      ensures players == AwardPot(old(players), winner, old(pot)) && pot == 0
      ensures Total() == old(Total())
      ensures deck == old(deck) && communityCards == old(communityCards)
      ensures currentBet == old(currentBet) && dealer == old(dealer)
      ensures currentPlayer == old(currentPlayer) && gamePhase == old(gamePhase)
    {
      players := players[winner := players[winner].(chips := players[winner].chips + pot)];
      pot := 0;
    }

    /** The body of the delayed callback scheduled by a hand's end. */
    method OnHandEndTimer(js: seq<nat>)
      requires Valid() && ValidDraws(52, js)
      modifies this
      ensures Valid() && dealer == old(dealer)
      ensures old(|players|) >= MinPlayers ==> FreshHandFrom(old(players), js)
      ensures old(|players|) < MinPlayers ==>
        && gamePhase == Waiting && players == old(players) && deck == old(deck)
        && communityCards == old(communityCards) && pot == old(pot)
        && currentBet == old(currentBet) && currentPlayer == old(currentPlayer)
    {
      if |players| >= MinPlayers {
        StartNewHand(js);
      } else {
        gamePhase := Waiting;
      }
    }

    /** The join handler: seat a new player unless all eight seats are
        taken, and start a hand once two are seated while waiting. */
    method Join(id: PlayerId, name: string, js: seq<nat>) returns (joined: bool, started: bool)
      requires Valid() && ValidDraws(52, js)
      modifies this
      ensures Valid() && dealer == old(dealer)
      ensures joined == (old(|players|) < MaxPlayers)
      ensures !joined ==> !started && unchanged(this)
      ensures joined ==> started == (old(|players|) + 1 >= MinPlayers && old(gamePhase) == Waiting)
      ensures joined && !started ==>
        && players == old(players) + [NewSeat(id, name, old(|players|) == 0)]
        && deck == old(deck) && communityCards == old(communityCards)
        && pot == old(pot) && currentBet == old(currentBet)
        && currentPlayer == old(currentPlayer) && gamePhase == old(gamePhase)
      ensures started ==> FreshHandFrom(old(players) + [NewSeat(id, name, old(|players|) == 0)], js)
      ensures joined ==> ChipsSum(players) == old(ChipsSum(players)) + StartingChips
    {
      if |players| >= MaxPlayers {
        return false, false;
      }
      ghost var ps0 := players;
      players := players + [NewSeat(id, name, false)];
      if |players| == 1 {
        players := players[0 := players[0].(isDealer := true)];
        dealer := 0;
      }
      assert players == ps0 + [NewSeat(id, name, |ps0| == 0)];
      ChipsSumAppend(ps0, NewSeat(id, name, |ps0| == 0));
      joined, started := true, false;
      if |players| >= MinPlayers && gamePhase == Waiting {
        StartNewHand(js);
        started := true;
      }
    }

    /** What passing the turn on from `cur0` did to the stakes `st`: the
        turn moved to the next unfolded seat (it stays put when every seat
        is folded), and when only one seat was left unfolded it took the
        whole pot. */
    ghost predicate TurnPassed(st: Stakes, cur0: nat, ended: bool)
      reads this
    {
      && currentBet == st.currentBet
      && (if HasActive(st.players) then IsNextActive(st.players, cur0, currentPlayer)
          else currentPlayer == cur0)
      && ended == (|ActiveSeats(st.players)| == 1)
      && if ended then
           && ActiveSeats(st.players)[0] < |st.players|
           && players == AwardPot(st.players, ActiveSeats(st.players)[0], st.pot) && pot == 0
         else players == st.players && pot == st.pot
    }

    /** The effect of seat i's action `a` on the stakes `st0`, followed by
        the turn passing on from `cur0`. */
    ghost predicate ActedOn(st0: Stakes, cur0: nat, i: nat, a: Action, ended: bool)
      requires i < |st0.players|
      reads this
    {
      TurnPassed(ApplyAction(st0, i, a), cur0, ended)
    }

    /** The `switch` on the action type for seat i. */
    method ApplyBet(i: nat, action: Action)
      requires Valid() && i < |players|
      modifies this
      ensures Valid()
      ensures Stakes(players, pot, currentBet) == ApplyAction(old(Stakes(players, pot, currentBet)), i, action)
      ensures deck == old(deck) && communityCards == old(communityCards) && dealer == old(dealer)
      ensures currentPlayer == old(currentPlayer) && gamePhase == old(gamePhase)
    {
      var player := players[i];
      match action {
        case Fold =>
          players := players[i := player.(folded := true)];
        case Call =>
          var callAmount := currentBet - player.bet;
          if player.chips >= callAmount {
            players := players[i := player.(chips := player.chips - callAmount, bet := player.bet + callAmount)];
            pot := pot + callAmount;
          }
        case Raise(amount) =>
          if player.chips >= amount {
            players := players[i := player.(chips := player.chips - amount, bet := player.bet + amount)];
            pot := pot + amount;
            currentBet := player.bet + amount;
          }
        case Unrecognized =>
      }
    }

    /** After any action: pass the turn to the next unfolded seat, and pay
        the pot out if only one seat is left unfolded. */
    method PassTurn() returns (handEnded: bool)
      requires Valid()
      modifies this
      ensures Valid()
      ensures TurnPassed(old(Stakes(players, pot, currentBet)), old(currentPlayer), handEnded)
      ensures Total() == old(Total())
      ensures deck == old(deck) && communityCards == old(communityCards)
      ensures dealer == old(dealer) && gamePhase == old(gamePhase)
    {
      var next := FindNextActive(players, currentPlayer);
      if next != -1 {
        currentPlayer := next;
      }
      var active := ActiveSeats(players);
      if |active| == 1 {
        assert active[0] in active;
        EndHand(active[0]);
        handEnded := true;
      } else {
        handEnded := false;
      }
    }

    /** The action handler. Whoever acts, the turn passes on from the
        current seat; the return value says whether the hand ended (and the
        delayed callback was scheduled). */
    method Act(id: PlayerId, action: Action) returns (handEnded: bool)
      requires Valid()
      modifies this
      ensures Valid()
      ensures Total() == old(Total())
      ensures IndexOf(old(players), id) == -1 ==> !handEnded && unchanged(this)
      ensures IndexOf(old(players), id) >= 0 ==>
        ActedOn(old(Stakes(players, pot, currentBet)), old(currentPlayer), IndexOf(old(players), id), action, handEnded)
      ensures deck == old(deck) && communityCards == old(communityCards)
      ensures dealer == old(dealer) && gamePhase == old(gamePhase)
    {
      var i := IndexOf(players, id);
      if i == -1 {
        return false;
      }
      ghost var st0 := Stakes(players, pot, currentBet);
      ghost var st := ApplyAction(st0, i, action);
      ActionConservesChips(st0, i, action);
      ApplyBet(i, action);
      assert Stakes(players, pot, currentBet) == st;
      handEnded := PassTurn();
    }

    /** The disconnect handler: drop the first seat held by `id`. */
    method Disconnect(id: PlayerId) returns (removed: bool)
      requires Valid()
      modifies this
      ensures Valid()
      ensures removed == (IndexOf(old(players), id) >= 0)
      ensures !removed ==> unchanged(this)
      ensures removed ==>
        var i := IndexOf(old(players), id);
        && players == old(players)[..i] + old(players)[i + 1..]
        && ChipsSum(players) == old(ChipsSum(players)) - old(players)[i].chips
      ensures deck == old(deck) && communityCards == old(communityCards)
      ensures pot == old(pot) && currentBet == old(currentBet) && dealer == old(dealer)
      ensures currentPlayer == old(currentPlayer) && gamePhase == old(gamePhase)
    {
      var i := IndexOf(players, id);
      removed := i != -1;
      if removed {
        ChipsSumRemove(players, i);
        players := players[..i] + players[i + 1..];
      }
    }
  }
}
