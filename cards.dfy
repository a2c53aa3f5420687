/** Cards and the deck: building the 52-card deck and the Fisher-Yates
    shuffle, with the random source replaced by draws chosen by the caller. */
module Cards {

  datatype Suit = Hearts | Diamonds | Clubs | Spades

  datatype Rank = Two | Three | Four | Five | Six | Seven | Eight | Nine | Ten
                | Jack | Queen | King | Ace

  datatype Card = Card(suit: Suit, rank: Rank)

  /** The suits and ranks in the order the deck builder walks them. */
  const Suits: seq<Suit> := [Hearts, Diamonds, Clubs, Spades]
  const Ranks: seq<Rank> :=
    [Two, Three, Four, Five, Six, Seven, Eight, Nine, Ten, Jack, Queen, King, Ace]

  function SuitIndex(s: Suit): (i: nat)
    ensures i < |Suits| && Suits[i] == s
  {
    match s
    case Hearts => 0
    case Diamonds => 1
    case Clubs => 2
    case Spades => 3
  }

  function RankIndex(r: Rank): (i: nat)
    ensures i < |Ranks| && Ranks[i] == r
  {
    match r
    case Two => 0
    case Three => 1
    case Four => 2
    case Five => 3
    case Six => 4
    case Seven => 5
    case Eight => 6
    case Nine => 7
    case Ten => 8
    case Jack => 9
    case Queen => 10
    case King => 11
    case Ace => 12
  }

  /** The unshuffled deck: suit by suit, and within a suit rank by rank. */
  function OrderedDeck(): (d: seq<Card>)
    ensures |d| == |Suits| * |Ranks|
  {
    seq(52, k requires 0 <= k < 52 => Card(Suits[k / 13], Ranks[k % 13]))
  }

  ghost predicate Distinct(s: seq<Card>)
  {
    forall i, j :: 0 <= i < j < |s| ==> s[i] != s[j]
  }

  /** Every one of the 52 cards occurs exactly once. */
  ghost predicate IsFullDeck(d: seq<Card>)
  {
    forall c: Card :: multiset(d)[c] == 1
  }

  lemma {:induction false} DistinctCountsAtMostOne(s: seq<Card>)
    requires Distinct(s)
    ensures forall c: Card :: multiset(s)[c] <= 1
  {
    if s != [] {
      assert s == [s[0]] + s[1..];
      assert Distinct(s[1..]) by {
        forall i, j | 0 <= i < j < |s[1..]| ensures s[1..][i] != s[1..][j] {
          assert s[1..][i] == s[i + 1] && s[1..][j] == s[j + 1];
        }
      }
      DistinctCountsAtMostOne(s[1..]);
      assert s[0] !in s[1..] by {
        forall k | 0 <= k < |s[1..]| ensures s[1..][k] != s[0] {
          assert s[1..][k] == s[k + 1];
        }
      }
      forall c: Card ensures multiset(s)[c] <= 1 {
        assert multiset(s) == multiset{s[0]} + multiset(s[1..]);
      }
    }
  }

  /** The deck builder's output holds each of the 4 x 13 cards exactly once. */
  lemma OrderedDeckIsFull()
    ensures |OrderedDeck()| == 52 && Distinct(OrderedDeck()) && IsFullDeck(OrderedDeck())
  {
    var d := OrderedDeck();
    forall k | 0 <= k < 52
      ensures SuitIndex(d[k].suit) == k / 13 && RankIndex(d[k].rank) == k % 13
    {
    }
    forall i, j | 0 <= i < j < 52 ensures d[i] != d[j] {
      assert i / 13 != j / 13 || i % 13 != j % 13;
    }
    DistinctCountsAtMostOne(d);
    forall c: Card ensures multiset(d)[c] == 1 {
      var k := 13 * SuitIndex(c.suit) + RankIndex(c.rank);
      assert k / 13 == SuitIndex(c.suit) && k % 13 == RankIndex(c.rank);
      assert d[k] == c;
    }
  }

  /** The deck the nested suit/rank loops produce, before shuffling. */
  method BuildOrderedDeck() returns (deck: seq<Card>)
    ensures deck == OrderedDeck()
  {
    deck := [];
    for si := 0 to |Suits|
      invariant |deck| == 13 * si
      invariant forall k :: 0 <= k < |deck| ==> deck[k] == OrderedDeck()[k]
    {
      for ri := 0 to |Ranks|
        invariant |deck| == 13 * si + ri
        invariant forall k :: 0 <= k < |deck| ==> deck[k] == OrderedDeck()[k]
      {
        assert (13 * si + ri) / 13 == si && (13 * si + ri) % 13 == ri;
        deck := deck + [Card(Suits[si], Ranks[ri])];
      }
    }
  }

  /** Draws for a shuffle of n cards: the swap partner js[i] of position i
      lies in [0, i]; js[0] is never used. */
  predicate ValidDraws(n: nat, js: seq<nat>)
  {
    |js| == n && forall i :: 0 <= i < n ==> js[i] <= i
  }

  function Swap(s: seq<Card>, i: nat, j: nat): (r: seq<Card>)
    requires i < |s| && j < |s|
    ensures |r| == |s| && r[i] == s[j] && r[j] == s[i]
    ensures forall k :: 0 <= k < |s| && k != i && k != j ==> r[k] == s[k]
  {
    s[i := s[j]][j := s[i]]
  }

  /** The swaps of positions i, i-1, ..., 1 of the Fisher-Yates loop. */
  function ShuffleFrom(s: seq<Card>, js: seq<nat>, i: nat): (r: seq<Card>)
    requires ValidDraws(|s|, js) && i < |s|
    ensures |r| == |s|
    decreases i
  {
    if i == 0 then s else ShuffleFrom(Swap(s, i, js[i]), js, i - 1)
  }

  /** The deck the shuffle returns for the given draws. */
  function Shuffled(s: seq<Card>, js: seq<nat>): (r: seq<Card>)
    requires ValidDraws(|s|, js)
    ensures |r| == |s|
  {
    if |s| == 0 then s else ShuffleFrom(s, js, |s| - 1)
  }

  lemma SwapPermutes(s: seq<Card>, i: nat, j: nat)
    requires i < |s| && j < |s|
    ensures multiset(Swap(s, i, j)) == multiset(s)
  {
  }

  lemma {:induction false} ShuffleFromPermutes(s: seq<Card>, js: seq<nat>, i: nat)
    requires ValidDraws(|s|, js) && i < |s|
    ensures |ShuffleFrom(s, js, i)| == |s|
    ensures multiset(ShuffleFrom(s, js, i)) == multiset(s)
    decreases i
  {
    if i > 0 {
      SwapPermutes(s, i, js[i]);
      ShuffleFromPermutes(Swap(s, i, js[i]), js, i - 1);
    }
  }

  /** A shuffle is a permutation of its argument. */
  lemma ShuffledPermutes(s: seq<Card>, js: seq<nat>)
    requires ValidDraws(|s|, js)
    ensures |Shuffled(s, js)| == |s| && multiset(Shuffled(s, js)) == multiset(s)
  {
    if |s| > 0 {
      ShuffleFromPermutes(s, js, |s| - 1);
    }
  }

  /** Fisher-Yates on a copy of the argument; the argument is a value and is
      therefore left as it was. */
  method ShuffleDeck(deck: seq<Card>, js: seq<nat>) returns (shuffled: seq<Card>)
    requires ValidDraws(|deck|, js)
    ensures shuffled == Shuffled(deck, js)
    ensures multiset(shuffled) == multiset(deck)
  {
    var a := new Card[|deck|](k requires 0 <= k < |deck| => deck[k]);
    assert a[..] == deck;
    var i := a.Length - 1;
    while i > 0
      invariant a.Length == |deck|
      invariant -1 <= i < a.Length
      invariant i == -1 ==> a.Length == 0
      invariant 0 <= i ==> ValidDraws(a.Length, js) && ShuffleFrom(a[..], js, i) == Shuffled(deck, js)
    {
      var j := js[i];
      a[i], a[j] := a[j], a[i];
      i := i - 1;
    }
    shuffled := a[..];
    ShuffledPermutes(deck, js);
  }

  /** A fresh shuffled deck of all 52 cards. */
  method InitializeDeck(js: seq<nat>) returns (deck: seq<Card>)
    requires ValidDraws(52, js)
    ensures deck == Shuffled(OrderedDeck(), js) && |deck| == 52
  {
    var ordered := BuildOrderedDeck();
    deck := ShuffleDeck(ordered, js);
  }

  /** Every shuffle of the fresh deck holds each of the 52 cards once. */
  lemma FreshDeckIsFull(js: seq<nat>)
    requires ValidDraws(52, js)
    ensures |Shuffled(OrderedDeck(), js)| == 52 && IsFullDeck(Shuffled(OrderedDeck(), js))
  {
    OrderedDeckIsFull();
    ShuffledPermutes(OrderedDeck(), js);
  }
}
