/** The seats of the table as values: player records, seat lookup, chip
    accounting, the effect of one betting action, the deal and the circular
    search for the next player still in the hand. */
module Seats {
  import opened Cards

  /** The connection id of a seated player. Ids are not assumed unique: the
      same connection may take two seats, and lookups find the first. */
  type PlayerId = string

  datatype Player = Player(
    id: PlayerId,
    name: string,
    chips: int,
    hand: seq<Card>,
    bet: int,
    folded: bool,
    isDealer: bool)

  const StartingChips: int := 1000
  const MinPlayers: nat := 2
  const MaxPlayers: nat := 8

  /** The record a join appends. */
  function NewSeat(id: PlayerId, name: string, isDealer: bool): Player
  {
    Player(id, name, StartingChips, [], 0, false, isDealer)
  }

  /** The first seat held by `id`, or -1 when it holds none. */
  function IndexOf(ps: seq<Player>, id: PlayerId): (r: int)
    ensures -1 <= r < |ps|
    ensures r == -1 <==> forall k :: 0 <= k < |ps| ==> ps[k].id != id
    ensures 0 <= r ==> ps[r].id == id && forall k :: 0 <= k < r ==> ps[k].id != id
  {
    if |ps| == 0 then -1
    else if ps[0].id == id then 0
    else
      var r := IndexOf(ps[1..], id);
      if r == -1 then -1 else r + 1
  }

  /** The chips held in the players' stacks. */
  function ChipsSum(ps: seq<Player>): int
  {
    if ps == [] then 0 else ps[0].chips + ChipsSum(ps[1..])
  }

  lemma {:induction false} ChipsSumAppend(ps: seq<Player>, p: Player)
    ensures ChipsSum(ps + [p]) == ChipsSum(ps) + p.chips
  {
    if ps != [] {
      assert (ps + [p])[1..] == ps[1..] + [p];
      ChipsSumAppend(ps[1..], p);
    }
  }

  lemma {:induction false} ChipsSumUpdate(ps: seq<Player>, i: nat, p: Player)
    requires i < |ps|
    ensures ChipsSum(ps[i := p]) == ChipsSum(ps) - ps[i].chips + p.chips
  {
    if i > 0 {
      assert ps[i := p][1..] == ps[1..][i - 1 := p];
      ChipsSumUpdate(ps[1..], i - 1, p);
    }
  }

  lemma {:induction false} ChipsSumRemove(ps: seq<Player>, i: nat)
    requires i < |ps|
    ensures ChipsSum(ps[..i] + ps[i + 1..]) == ChipsSum(ps) - ps[i].chips
  {
    if i == 0 {
      assert ps[..0] + ps[1..] == ps[1..];
    } else {
      assert (ps[..i] + ps[i + 1..])[1..] == ps[1..][..i - 1] + ps[1..][i..];
      ChipsSumRemove(ps[1..], i - 1);
    }
  }

  /** The seats still in the hand, in seat order (the source's filter on
      `!folded`, kept as seat indices). */
  function ActiveFrom(ps: seq<Player>, k: nat): (r: seq<nat>)
    requires k <= |ps|
    ensures forall x: nat :: x in r <==> k <= x < |ps| && !ps[x].folded
    ensures forall j :: 0 <= j < |r| ==> k <= r[j]
    ensures forall a, b :: 0 <= a < b < |r| ==> r[a] < r[b]
    decreases |ps| - k
  {
    if k == |ps| then []
    else if ps[k].folded then ActiveFrom(ps, k + 1)
    else [k] + ActiveFrom(ps, k + 1)
  }

  function ActiveSeats(ps: seq<Player>): seq<nat>
  {
    ActiveFrom(ps, 0)
  }

  /** When exactly one seat is still in the hand, it is the only unfolded one. */
  lemma SoleActiveSeat(ps: seq<Player>)
    requires |ActiveSeats(ps)| == 1
    ensures ActiveSeats(ps)[0] < |ps| && !ps[ActiveSeats(ps)[0]].folded
    ensures forall k :: 0 <= k < |ps| && k != ActiveSeats(ps)[0] ==> ps[k].folded
  {
    var w := ActiveSeats(ps)[0];
    assert w in ActiveSeats(ps);
  }

  // ---------------------------------------------------------------------
  // Betting actions

  datatype Action = Fold | Call | Raise(amount: int) | Unrecognized

  /** The part of the table one action can change. */
  datatype Stakes = Stakes(players: seq<Player>, pot: int, currentBet: int)

  /** Moves `amount` from seat i's stack into its bet and into the pot. */
  function Commit(st: Stakes, i: nat, amount: int): Stakes
    requires i < |st.players|
  {
    var p := st.players[i];
    st.(players := st.players[i := p.(chips := p.chips - amount, bet := p.bet + amount)],
        pot := st.pot + amount)
  }

  /** The effect of seat i's action, before the turn moves on. A call or
      raise the stack cannot cover changes nothing. */
  function ApplyAction(st: Stakes, i: nat, a: Action): (r: Stakes)
    requires i < |st.players|
    ensures |r.players| == |st.players|
    ensures forall k :: 0 <= k < |st.players| && k != i ==> r.players[k] == st.players[k]
    ensures r.players[i].id == st.players[i].id && r.players[i].hand == st.players[i].hand
    ensures r.players[i].folded == (st.players[i].folded || a.Fold?)
  {
    var p := st.players[i];
    match a
    case Fold => st.(players := st.players[i := p.(folded := true)])
    case Call =>
      var callAmount := st.currentBet - p.bet;
      if p.chips >= callAmount then Commit(st, i, callAmount) else st
    case Raise(amount) =>
      if p.chips >= amount then
        var c := Commit(st, i, amount);
        c.(currentBet := c.players[i].bet)
      else st
    case Unrecognized => st
  }

  /** Chips are conserved between the stacks and the pot by every action. */
  lemma ActionConservesChips(st: Stakes, i: nat, a: Action)
    requires i < |st.players|
    ensures ChipsSum(ApplyAction(st, i, a).players) + ApplyAction(st, i, a).pot
            == ChipsSum(st.players) + st.pot
  {
    var p := st.players[i];
    var r := ApplyAction(st, i, a);
    ChipsSumUpdate(st.players, i, r.players[i]);
    assert r.players == st.players[i := r.players[i]];
  }

  /** What each action does to the acting seat and the table's bet. */
  lemma ActionEffect(st: Stakes, i: nat, a: Action)
    requires i < |st.players|
    ensures var p, r := st.players[i], ApplyAction(st, i, a);
      && (a.Fold? ==> r.players[i] == p.(folded := true) && r.pot == st.pot && r.currentBet == st.currentBet)
      && (a.Call? && p.chips >= st.currentBet - p.bet ==>
            && r.players[i] == p.(chips := p.chips - (st.currentBet - p.bet), bet := st.currentBet)
            && r.pot == st.pot + (st.currentBet - p.bet) && r.currentBet == st.currentBet)
      && (a.Raise? && p.chips >= a.amount ==>
            && r.players[i] == p.(chips := p.chips - a.amount, bet := p.bet + a.amount)
            && r.pot == st.pot + a.amount && r.currentBet == p.bet + a.amount)
      && (a.Call? && p.chips < st.currentBet - p.bet ==> r == st)
      && (a.Raise? && p.chips < a.amount ==> r == st)
      && (a.Unrecognized? ==> r == st)
      && r.players[i].chips >= (if p.chips < 0 then p.chips else 0)
  {
  }

  /** When a raise has lowered the table's bet below a seat's own bet, that
      seat's call has a negative amount: the difference goes back from the
      pot to its stack, and its bet drops to the table's bet. */
  lemma CallBelowOwnBetRefunds(st: Stakes, i: nat)
    requires i < |st.players| && st.players[i].chips >= 0
    requires st.currentBet < st.players[i].bet
    ensures var p, r := st.players[i], ApplyAction(st, i, Call);
      && r.players[i].chips == p.chips + (p.bet - st.currentBet) > p.chips
      && r.players[i].bet == st.currentBet
      && r.pot == st.pot - (p.bet - st.currentBet) < st.pot
  {
  }

  /** The hand-end payout: the winner's stack grows by the whole pot. */
  function AwardPot(ps: seq<Player>, w: nat, pot: int): (r: seq<Player>)
    requires w < |ps|
    ensures |r| == |ps| && r[w] == ps[w].(chips := ps[w].chips + pot)
    ensures forall k :: 0 <= k < |ps| && k != w ==> r[k] == ps[k]
    ensures forall k :: 0 <= k < |ps| ==> r[k].folded == ps[k].folded
    ensures ChipsSum(r) == ChipsSum(ps) + pot
  {
    var p := ps[w].(chips := ps[w].chips + pot);
    ChipsSumUpdate(ps, w, p);
    ps[w := p]
  }

  // ---------------------------------------------------------------------
  // Dealing

  /** Deals two cards popped from the end of `d` to each seat in order, and
      clears each seat's bet and fold flag. Result: the seats and the rest
      of the deck. */
  function Deal(ps: seq<Player>, d: seq<Card>): (r: (seq<Player>, seq<Card>))
    requires 2 * |ps| <= |d|
    ensures |r.0| == |ps| && r.1 == d[..|d| - 2 * |ps|]
    decreases |ps|
  {
    if ps == [] then ([], d)
    else
      var rest := Deal(ps[1..], d[..|d| - 2]);
      ([ps[0].(hand := [d[|d| - 1], d[|d| - 2]], bet := 0, folded := false)] + rest.0, rest.1)
  }

  lemma DealStep(ps: seq<Player>, d: seq<Card>)
    requires 2 * |ps| <= |d| && ps != []
    ensures Deal(ps, d).0 == [ps[0].(hand := [d[|d| - 1], d[|d| - 2]], bet := 0, folded := false)]
                             + Deal(ps[1..], d[..|d| - 2]).0
    ensures Deal(ps, d).1 == Deal(ps[1..], d[..|d| - 2]).1
  {
  }

  /** The state of the deal loop after i seats: `ps` and `d` are the seats
      and deck so far, `goal` the outcome of dealing `ps0` from the start. */
  ghost predicate DealInProgress(ps0: seq<Player>, goal: (seq<Player>, seq<Card>), i: nat,
                                 ps: seq<Player>, d: seq<Card>)
  {
    && i <= |ps| == |ps0| && 2 * (|ps0| - i) <= |d|
    && ps[i..] == ps0[i..]
    && ps[..i] + Deal(ps0[i..], d).0 == goal.0
    && Deal(ps0[i..], d).1 == goal.1
  }

  lemma DealInProgressStart(ps0: seq<Player>, d: seq<Card>)
    requires 2 * |ps0| <= |d|
    ensures DealInProgress(ps0, Deal(ps0, d), 0, ps0, d)
  {
    assert ps0[0..] == ps0 && ps0[..0] == [];
  }

  /** One round of the deal loop keeps DealInProgress. */
  lemma DealInProgressStep(ps0: seq<Player>, goal: (seq<Player>, seq<Card>), i: nat,
                           ps: seq<Player>, d: seq<Card>)
    requires DealInProgress(ps0, goal, i, ps, d) && i < |ps|
    ensures DealInProgress(ps0, goal, i + 1,
      ps[i := ps[i].(hand := [d[|d| - 1], d[|d| - 2]], bet := 0, folded := false)], d[..|d| - 2])
  {
    var dealt := ps[i].(hand := [d[|d| - 1], d[|d| - 2]], bet := 0, folded := false);
    var ps' := ps[i := dealt];
    assert ps[i] == ps0[i] by { assert ps[i..][0] == ps0[i..][0]; }
    assert ps0[i..][0] == ps0[i] && ps0[i..][1..] == ps0[i + 1..];
    DealStep(ps0[i..], d);
    assert ps'[..i + 1] == ps[..i] + [dealt];
    assert ps'[i + 1..] == ps[i + 1..] == ps0[i + 1..];
  }

  lemma DealInProgressDone(ps0: seq<Player>, goal: (seq<Player>, seq<Card>),
                           ps: seq<Player>, d: seq<Card>)
    requires DealInProgress(ps0, goal, |ps|, ps, d)
    ensures (ps, d) == goal
  {
    assert ps0[|ps|..] == [] && ps[..|ps|] == ps;
    DealEmpty(ps0[|ps|..], d);
    assert ps + [] == ps;
    assert ps == goal.0 && d == goal.1;
  }

  lemma DealEmpty(ps: seq<Player>, d: seq<Card>)
    requires ps == []
    ensures Deal(ps, d) == ([], d)
  {
  }

  /** The `forEach` of the deal: each seat in order takes two cards popped
      from the end of the deck. */
  method DealToSeats(ps: seq<Player>, d: seq<Card>) returns (dealt: seq<Player>, rest: seq<Card>)
    requires 2 * |ps| <= |d|
    ensures (dealt, rest) == Deal(ps, d)
  {
    DealInProgressStart(ps, d);
    dealt, rest := ps, d;
    var i := 0;
    while i < |dealt|
      invariant DealInProgress(ps, Deal(ps, d), i, dealt, rest)
    {
      ghost var before := rest;
      DealInProgressStep(ps, Deal(ps, d), i, dealt, rest);
      var player := dealt[i];
      var first := rest[|rest| - 1];
      rest := rest[..|rest| - 1];
      var second := rest[|rest| - 1];
      rest := rest[..|rest| - 1];
      assert rest == before[..|before| - 2];
      dealt := dealt[i := player.(hand := [first, second], bet := 0, folded := false)];
      i := i + 1;
    }
    DealInProgressDone(ps, Deal(ps, d), dealt, rest);
  }

  /** Dealing does not touch any stack. */
  lemma {:induction false} DealKeepsChips(ps: seq<Player>, d: seq<Card>)
    requires 2 * |ps| <= |d|
    ensures ChipsSum(Deal(ps, d).0) == ChipsSum(ps)
    decreases |ps|
  {
    if ps != [] {
      DealKeepsChips(ps[1..], d[..|d| - 2]);
      assert Deal(ps, d).0[1..] == Deal(ps[1..], d[..|d| - 2]).0;
    }
  }

  /** The cards in the players' hands, seat by seat. */
  function HandCards(ps: seq<Player>): seq<Card>
  {
    if ps == [] then [] else ps[0].hand + HandCards(ps[1..])
  }

  /** Dealing gives each seat two cards and clears its bet and fold flag;
      nothing else of the seat (id, name, chips, dealer flag) changes. */
  lemma {:induction false} DealResetsSeats(ps: seq<Player>, d: seq<Card>, k: nat)
    requires 2 * |ps| <= |d| && k < |ps|
    ensures var p := Deal(ps, d).0[k];
      p == ps[k].(hand := p.hand, bet := 0, folded := false) && |p.hand| == 2
    decreases k
  {
    if k > 0 {
      DealResetsSeats(ps[1..], d[..|d| - 2], k - 1);
    }
  }

  /** Seat k holds the (2k+1)-th and (2k+2)-th cards from the end of the deck. */
  lemma {:induction false} DealtHands(ps: seq<Player>, d: seq<Card>, k: nat)
    requires 2 * |ps| <= |d| && k < |ps|
    ensures Deal(ps, d).0[k].hand == [d[|d| - 1 - 2 * k], d[|d| - 2 - 2 * k]]
    decreases k
  {
    if k > 0 {
      DealtHands(ps[1..], d[..|d| - 2], k - 1);
    }
  }

  /** Dealing neither creates nor loses a card: the hands and what is left
      of the deck are a rearrangement of the deck dealt from. */
  lemma {:induction false} DealConservesCards(ps: seq<Player>, d: seq<Card>)
    requires 2 * |ps| <= |d|
    ensures multiset(HandCards(Deal(ps, d).0)) + multiset(Deal(ps, d).1) == multiset(d)
    decreases |ps|
  {
    if ps != [] {
      var d' := d[..|d| - 2];
      var rest := Deal(ps[1..], d');
      DealConservesCards(ps[1..], d');
      DealStep(ps, d);
      HandCardsCons(Deal(ps, d).0, [d[|d| - 1], d[|d| - 2]], rest.0);
      PopTwo(d);
    }
  }

  lemma HandCardsCons(ps: seq<Player>, hand: seq<Card>, rest: seq<Player>)
    requires ps != [] && ps[0].hand == hand && ps[1..] == rest
    ensures multiset(HandCards(ps)) == multiset(hand) + multiset(HandCards(rest))
  {
  }

  lemma PopTwo(d: seq<Card>)
    requires |d| >= 2
    ensures multiset(d) == multiset(d[..|d| - 2]) + multiset([d[|d| - 1], d[|d| - 2]])
  {
    assert d == d[..|d| - 2] + [d[|d| - 2], d[|d| - 1]];
  }

  /** After a deal from a fresh shuffled deck, each of the 52 cards is in
      exactly one place: one player's hand or the rest of the deck. */
  lemma FreshDealPlacesEveryCardOnce(ps: seq<Player>, js: seq<nat>)
    requires |ps| <= MaxPlayers && ValidDraws(52, js)
    ensures var d := Shuffled(OrderedDeck(), js);
      && |d| == 52
      && |Deal(ps, d).1| == 52 - 2 * |ps|
      && forall c: Card :: multiset(HandCards(Deal(ps, d).0))[c] + multiset(Deal(ps, d).1)[c] == 1
  {
    var d := Shuffled(OrderedDeck(), js);
    FreshDeckIsFull(js);
    DealConservesCards(ps, d);
    var hands, rest := multiset(HandCards(Deal(ps, d).0)), multiset(Deal(ps, d).1);
    forall c: Card ensures hands[c] + rest[c] == 1 {
      assert (hands + rest)[c] == multiset(d)[c];
    }
  }

  // ---------------------------------------------------------------------
  // Turn order

  /** The number of one-seat steps from `cur` forward to seat k, counted
      circularly and strictly after `cur`: the first step lands on
      (cur + 1) % n, and seat k is reached after StepsTo(cur, k, n) steps. */
  function StepsTo(cur: nat, k: nat, n: nat): (t: nat)
    requires 0 < n && k < n
    ensures 1 <= t <= n
  {
    var first := (cur + 1) % n;
    if k >= first then k - first + 1 else k - first + 1 + n
  }

  /** r is the first unfolded seat strictly after `cur`, in circular order. */
  ghost predicate IsNextActive(ps: seq<Player>, cur: nat, r: int)
  {
    && 0 <= r < |ps|
    && !ps[r].folded
    && forall k :: 0 <= k < |ps| && StepsTo(cur, k, |ps|) < StepsTo(cur, r, |ps|) ==> ps[k].folded
  }

  predicate HasActive(ps: seq<Player>)
  {
    exists k :: 0 <= k < |ps| && !ps[k].folded
  }

  /** A seat that is alone at the table, or the last one still unfolded,
      and folds leaves no unfolded seat: the guard of the turn-passing
      do-while in `NextActiveSeat` then holds on every seat, so it never exits. */
  lemma LastFoldLeavesNoActiveSeat(p: Player, pot: int, bet: int)
    requires !p.folded
    ensures HasActive([p])
    ensures var after := ApplyAction(Stakes([p], pot, bet), 0, Fold).players;
      |after| == 1 && after[0].folded && !HasActive(after)
  {
    assert !([p][0].folded);
  }

  lemma StepsToNext(cur: nat, k: nat, n: nat)
    requires 0 < n && k < n && StepsTo(cur, k, n) < n
    ensures StepsTo(cur, (k + 1) % n, n) == StepsTo(cur, k, n) + 1
  {
    if k + 1 < n {
      assert (k + 1) % n == k + 1;
    } else {
      assert (k + 1) % n == 0;
    }
  }

  lemma StepsToInjective(cur: nat, k1: nat, k2: nat, n: nat)
    requires 0 < n && k1 < n && k2 < n
    requires StepsTo(cur, k1, n) == StepsTo(cur, k2, n)
    ensures k1 == k2
  {
  }

  /** The first unfolded seat is unique. */
  lemma NextActiveIsUnique(ps: seq<Player>, cur: nat, r1: int, r2: int)
    requires IsNextActive(ps, cur, r1) && IsNextActive(ps, cur, r2)
    ensures r1 == r2
  {
    var n := |ps|;
    if StepsTo(cur, r1, n) == StepsTo(cur, r2, n) {
      StepsToInjective(cur, r1, r2, n);
    }
  }

  /** The `do { cur = (cur + 1) % n } while (players[cur].folded)` loop that
      passes the turn on, as written. It terminates only if some seat is
      unfolded. */
  method NextActiveSeat(ps: seq<Player>, cur: nat) returns (r: nat)
    requires HasActive(ps)
    ensures IsNextActive(ps, cur, r)
  {
    var n := |ps|;
    ghost var w :| 0 <= w < n && !ps[w].folded;
    r := (cur + 1) % n;
    while ps[r].folded
      invariant r < n
      invariant StepsTo(cur, r, n) <= StepsTo(cur, w, n)
      invariant forall k :: 0 <= k < n && StepsTo(cur, k, n) < StepsTo(cur, r, n) ==> ps[k].folded
      decreases StepsTo(cur, w, n) - StepsTo(cur, r, n)
    {
      if StepsTo(cur, r, n) == StepsTo(cur, w, n) {
        StepsToInjective(cur, r, w, n);
      }
      StepsToNext(cur, r, n);
      forall k | 0 <= k < n && StepsTo(cur, k, n) == StepsTo(cur, r, n)
        ensures ps[k].folded
      {
        StepsToInjective(cur, k, r, n);
      }
      r := (r + 1) % n;
    }
  }

  /** The turn search with the loop bounded by one round of the table: the
      first unfolded seat strictly after `cur`, or -1 when every seat is
      folded (where the source's loop never exits). */
  method FindNextActive(ps: seq<Player>, cur: nat) returns (r: int)
    ensures r == -1 <==> !HasActive(ps)
    ensures r != -1 ==> IsNextActive(ps, cur, r)
  {
    var n := |ps|;
    if n == 0 {
      return -1;
    }
    var k: nat := (cur + 1) % n;
    var steps := 1;
    while ps[k].folded && steps < n
      invariant k < n && 1 <= steps <= n
      invariant StepsTo(cur, k, n) == steps
      invariant forall j :: 0 <= j < n && StepsTo(cur, j, n) < steps ==> ps[j].folded
      decreases n - steps
    {
      StepsToNext(cur, k, n);
      forall j | 0 <= j < n && StepsTo(cur, j, n) == steps
        ensures ps[j].folded
      {
        StepsToInjective(cur, j, k, n);
      }
      k := (k + 1) % n;
      steps := steps + 1;
    }
    if ps[k].folded {
      forall j | 0 <= j < n
        ensures ps[j].folded
      {
        if StepsTo(cur, j, n) == n {
          StepsToInjective(cur, j, k, n);
        }
      }
      return -1;
    }
    r := k;
  }
}
