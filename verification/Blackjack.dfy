// The card game (fs/user/blackjack.um): the deck, the worth of a hand, the dealer's turn.
module Blackjack {
  import opened Common
  import opened Permutations
  import Powers

  datatype Suit = Hearts | Diamonds | Clubs | Spades
  datatype Value = Ace | Two | Three | Four | Five | Six | Seven | Eight | Nine | Ten | Jack | Queen | King
  datatype Card = Card(suit: Suit, value: Value)

  const SUITS: seq<Suit> := [Hearts, Diamonds, Clubs, Spades]
  const VALUES: seq<Value> := [Ace, Two, Three, Four, Five, Six, Seven, Eight, Nine, Ten, Jack, Queen, King]

  // ---------- the deck ----------

  /** The new deck: suit by suit, from ace to king. */
  function DeckCard(k: nat): Card
    requires k < 52
  {
    Card(SUITS[k / 13], VALUES[k % 13])
  }

  function Deck(): (d: seq<Card>)
    ensures |d| == 52
  {
    seq(52, k requires 0 <= k < 52 => DeckCard(k))
  }

  function SuitIndex(s: Suit): (i: nat)
    ensures i < 4 && SUITS[i] == s
  {
    match s case Hearts => 0 case Diamonds => 1 case Clubs => 2 case Spades => 3
  }

  function ValueIndex(v: Value): (i: nat)
    ensures i < 13 && VALUES[i] == v
  {
    match v
    case Ace => 0 case Two => 1 case Three => 2 case Four => 3 case Five => 4 case Six => 5 case Seven => 6
    case Eight => 7 case Nine => 8 case Ten => 9 case Jack => 10 case Queen => 11 case King => 12
  }

  /** Every card is in the deck, in exactly one place. */
  lemma DeckHasEachCardOnce(c: Card, k: nat)
    requires k < 52
    ensures Deck()[k] == c <==> k == 13 * SuitIndex(c.suit) + ValueIndex(c.value)
  {
    var i, j := k / 13, k % 13;
    assert k == 13 * i + j;
    assert SuitIndex(SUITS[i]) == i by { SuitIndexOf(i); }
    assert ValueIndex(VALUES[j]) == j by { ValueIndexOf(j); }
  }

  lemma SuitIndexOf(i: nat)
    requires i < 4
    ensures SuitIndex(SUITS[i]) == i
  {
  }

  lemma ValueIndexOf(j: nat)
    requires j < 13
    ensures ValueIndex(VALUES[j]) == j
  {
  }

  method GenerateDeck() returns (deck: array<Card>)
    ensures fresh(deck) && deck[..] == Deck()
    ensures forall k | 0 <= k < 52 ::
      && deck[k].suit == [Hearts, Diamonds, Clubs, Spades][k / 13]
      && deck[k].value == [Ace, Two, Three, Four, Five, Six, Seven, Eight, Nine, Ten, Jack, Queen, King][k % 13]
  {
    deck := new Card[52](_ => Card(Hearts, Ace));
    var index := 0;
    for i := 0 to |SUITS|
      invariant index == 13 * i && forall k | 0 <= k < index :: deck[k] == DeckCard(k)
    {
      for j := 0 to |VALUES|
        invariant index == 13 * i + j && forall k | 0 <= k < index :: deck[k] == DeckCard(k)
      {
        deck[index] := Card(SUITS[i], VALUES[j]);
        assert index / 13 == i && index % 13 == j;
        index := index + 1;
      }
    }
  }

  // ---------- the worth of a hand ----------

  /** What a card counts before the aces are looked at. */
  function Points(v: Value): (p: nat)
    ensures p == 0 || 2 <= p <= 10
  {
    match v
    case Ace => 0 case Two => 2 case Three => 3 case Four => 4 case Five => 5 case Six => 6
    case Seven => 7 case Eight => 8 case Nine => 9 case Ten => 10 case Jack => 10 case Queen => 10 case King => 10
  }

  /** Number cards count their number, pictures ten. */
  lemma PointsArePips(v: Value)
    ensures Points(v) == if v == Ace then 0 else Min(ValueIndex(v) + 1, 10)
  {
  }

  function PointSum(cards: seq<Card>): nat {
    if cards == [] then 0 else PointSum(cards[..|cards|-1]) + Points(cards[|cards|-1].value)
  }

  function Aces(cards: seq<Card>): nat {
    if cards == [] then 0 else Aces(cards[..|cards|-1]) + if cards[|cards|-1].value == Ace then 1 else 0
  }

  /** What one more ace counts. */
  function AceWorth(sum: nat): (w: nat)
    ensures w >= 1
  {
    if sum == 10 then 11 else if sum + 10 <= 21 then 10 else 1
  }

  function WithAces(sum: nat, aces: nat): nat {
    if aces == 0 then sum
    else WithAces(sum, aces - 1) + AceWorth(WithAces(sum, aces - 1))
  }

  /** The worth of a hand. */
  function Total(cards: seq<Card>): nat {
    WithAces(PointSum(cards), Aces(cards))
  }

  /** The same without recursion over the aces: they come after the other cards, and all but one or
      two of them count 1. */
  lemma {:induction false} TotalInClosedForm(sum: nat, aces: nat)
    requires sum != 1
    ensures WithAces(sum, aces) ==
            if aces == 0 then sum
            else if sum == 0 then (if aces == 1 then 10 else 19 + aces)
            else if sum == 10 then 20 + aces
            else if sum <= 11 then sum + 9 + aces
            else sum + aces
  {
    if aces > 0 { TotalInClosedForm(sum, aces - 1); }
  }

  lemma {:induction false} PointSumIsNotOne(cards: seq<Card>)
    ensures PointSum(cards) != 1
  {
    if cards != [] { PointSumIsNotOne(cards[..|cards|-1]); }
  }

  /** Every card counts at least 1. */
  lemma {:induction false} EveryCardCounts(cards: seq<Card>)
    ensures |cards| <= PointSum(cards) + Aces(cards)
  {
    if cards != [] { EveryCardCounts(cards[..|cards|-1]); }
  }

  lemma {:induction false} AcesCount(sum: nat, aces: nat)
    ensures WithAces(sum, aces) >= sum + aces
  {
    if aces > 0 { AcesCount(sum, aces - 1); }
  }

  lemma TotalAtLeastSize(cards: seq<Card>)
    ensures Total(cards) >= |cards|
  {
    EveryCardCounts(cards);
    AcesCount(PointSum(cards), Aces(cards));
  }

  lemma OneMoreCard(cards: seq<Card>, c: Card)
    ensures PointSum(cards + [c]) == PointSum(cards) + Points(c.value)
    ensures Aces(cards + [c]) == Aces(cards) + if c.value == Ace then 1 else 0
  {
    assert (cards + [c])[..|cards|] == cards;
  }

  /** A further card makes a hand worth less exactly if it takes an ace down to 1 and does not make up
      for that: never an ace, and one of three cases for the other cards held. */
  lemma TotalDropsExactly(cards: seq<Card>, c: Card)
    ensures Total(cards + [c]) < Total(cards) <==>
            var s, n, p := PointSum(cards), Aces(cards), Points(c.value);
            c.value != Ace && n > 0 &&
            if s == 0 then n >= 2 && p < 10
            else if s == 10 then p < 10
            else s <= 11 && s + p >= 12 && p < 9
  {
    OneMoreCard(cards, c);
    PointSumIsNotOne(cards);
    PointSumIsNotOne(cards + [c]);
    TotalInClosedForm(PointSum(cards), Aces(cards));
    TotalInClosedForm(PointSum(cards + [c]), Aces(cards + [c]));
  }

  /** An ace and a five are worth 15; with an eight, 14. */
  lemma DroppingHand(s: Suit)
    ensures Total([Card(s, Ace), Card(s, Five)]) == 15
    ensures Total([Card(s, Ace), Card(s, Five), Card(s, Eight)]) == 14
  {
    var a, f, e := Card(s, Ace), Card(s, Five), Card(s, Eight);
    assert [] + [a] == [a] && [a] + [f] == [a, f] && [a, f] + [e] == [a, f, e];
    OneMoreCard([], a);
    OneMoreCard([a], f);
    OneMoreCard([a, f], e);
    TotalInClosedForm(5, 1);
    TotalInClosedForm(13, 1);
  }

  function Sum(values: seq<nat>): nat {
    if values == [] then 0 else Sum(values[..|values|-1]) + values[|values|-1]
  }

  lemma {:induction false} SumUpdated(values: seq<nat>, i: nat, w: nat)
    requires i < |values|
    ensures Sum(values[i := w]) + values[i] == Sum(values) + w
  {
    var init := values[..|values|-1];
    if i == |values| - 1 {
      assert values[i := w][..|values|-1] == init;
    } else {
      SumUpdated(init, i, w);
      assert values[i := w][..|values|-1] == init[i := w];
    }
  }

  /** The pips of a hand, added up. */
  function PipSum(cards: seq<Card>): nat {
    if cards == [] then 0 else Min(ValueIndex(cards[0].value) + 1, 10) + PipSum(cards[1..])
  }

  lemma {:induction false} PipSumLast(cards: seq<Card>)
    requires cards != []
    ensures PipSum(cards) == PipSum(cards[..|cards|-1]) + Min(ValueIndex(cards[|cards|-1].value) + 1, 10)
  {
    if |cards| > 1 {
      PipSumLast(cards[1..]);
      assert cards[1..][..|cards|-2] == cards[..|cards|-1][1..];
    } else {
      assert cards[1..] == [] == cards[..0];
    }
  }

  /** Without aces a hand is worth its pips. */
  lemma {:induction false} WorthOfPips(cards: seq<Card>)
    requires forall k | 0 <= k < |cards| :: cards[k].value != Ace
    ensures Total(cards) == PointSum(cards) == PipSum(cards) && Aces(cards) == 0
  {
    if cards != [] {
      WorthOfPips(cards[..|cards|-1]);
      PipSumLast(cards);
      PointsArePips(cards[|cards|-1].value);
    }
  }

  lemma WorthInPips(cards: seq<Card>)
    ensures (forall k | 0 <= k < |cards| :: cards[k].value != Ace) ==> Total(cards) == PipSum(cards)
    ensures forall k | 0 <= k < |cards| && cards[k].value != Ace ::
              Points(cards[k].value) == Min(ValueIndex(cards[k].value) + 1, 10)
    ensures Points(Ace) == 0
  {
    forall k | 0 <= k < |cards| && cards[k].value != Ace
      ensures Points(cards[k].value) == Min(ValueIndex(cards[k].value) + 1, 10)
    {
      PointsArePips(cards[k].value);
    }
    if forall k | 0 <= k < |cards| :: cards[k].value != Ace { WorthOfPips(cards); }
  }

  /** The worth of each card and of the hand. */
  method GetValues(cards: seq<Card>) returns (values: seq<nat>, sum: nat)
    ensures sum == Total(cards) && |values| == |cards| && Sum(values) == sum
    ensures forall k | 0 <= k < |cards| ::
      if cards[k].value == Ace then values[k] in {1, 10, 11} else values[k] == Min(ValueIndex(cards[k].value) + 1, 10)
    ensures (forall k | 0 <= k < |cards| :: cards[k].value != Ace) ==> sum == PipSum(cards)
  {
    WorthInPips(cards);
    hide PipSum, Points, ValueIndex, Total;
    values, sum := CountPoints(cards);
    values, sum := CountAces(cards, values, sum);
  }

  /** The second loop: each ace counts what the hand is worth so far allows. */
  method CountAces(cards: seq<Card>, points: seq<nat>, pointSum: nat) returns (values: seq<nat>, sum: nat)
    requires |points| == |cards| && pointSum == PointSum(cards) == Sum(points)
    requires forall k | 0 <= k < |cards| :: points[k] == Points(cards[k].value)
    ensures sum == Total(cards) && |values| == |cards| && Sum(values) == sum
    ensures forall k | 0 <= k < |cards| ::
      if cards[k].value == Ace then values[k] in {1, 10, 11} else values[k] == Points(cards[k].value)
  {
    values, sum := points, pointSum;
    for i := 0 to |cards|
      invariant |values| == |cards| && sum == WithAces(PointSum(cards), Aces(cards[..i])) == Sum(values)
      invariant forall k | 0 <= k < |cards| ::
        if cards[k].value == Ace && k < i then values[k] in {1, 10, 11} else values[k] == Points(cards[k].value)
    {
      assert cards[..i+1][..i] == cards[..i];
      if cards[i].value == Ace {
        var worth := if sum == 10 then 11 else if sum + 10 <= 21 then 10 else 1;
        SumUpdated(values, i, worth);
        values := values[i := worth];
        sum := sum + worth;
      }
    }
    assert cards[..|cards|] == cards;
  }

  /** The first loop: aces count nothing yet. */
  method CountPoints(cards: seq<Card>) returns (values: seq<nat>, sum: nat)
    ensures |values| == |cards| && sum == PointSum(cards) == Sum(values)
    ensures forall k | 0 <= k < |cards| :: values[k] == Points(cards[k].value)
  {
    values, sum := [], 0;
    for i := 0 to |cards|
      invariant |values| == i && sum == PointSum(cards[..i]) == Sum(values)
      invariant forall k | 0 <= k < i :: values[k] == Points(cards[k].value)
    {
      var start := sum;
      sum := sum + Points(cards[i].value);
      assert cards[..i+1][..i] == cards[..i];
      assert (values + [sum - start])[..i] == values;
      values := values + [sum - start];
    }
    assert cards[..|cards|] == cards;
  }

  // ---------- drawing ----------

  function Swapped(s: seq<Card>, i: nat, j: nat): (r: seq<Card>)
    requires i < |s| && j < |s|
    ensures |r| == |s| && multiset(r) == multiset(s) && r[i] == s[j] && r[j] == s[i]
    ensures forall k | 0 <= k < |s| && k != i && k != j :: r[k] == s[k]
  {
    s[i := s[j]][j := s[i]]
  }

  /** The swaps of a shuffle, one for each random number. */
  function ShuffledBy(hand: seq<Card>, rands: seq<nat>): (r: seq<Card>)
    requires |rands| <= |hand|
    ensures |r| == |hand| && multiset(r) == multiset(hand)
  {
    if rands == [] then hand
    else
      var i := |rands| - 1;
      var h, j := ShuffledBy(hand, rands[..i]), rands[i] % |hand|;
      Swapped(h, i, j)
  }

  /** The card drawn next; when none is left, what was drawn is shuffled first. */
  function NextCard(hand: seq<Card>, stash: seq<Card>, rands: seq<nat>): Card
    requires hand == [] ==> |rands| == |stash| > 0
  {
    if hand != [] then hand[0] else ShuffledBy(stash, rands)[0]
  }

  /** The next random number, whatever its size, picks one of all the places for the next card. */
  lemma ShuffledFurther(hand: seq<Card>, rands: seq<nat>, rand: nat)
    requires |rands| < |hand|
    ensures var h, i, j := ShuffledBy(hand, rands), |rands|, rand % |hand|;
            && |h| == |hand| && ShuffledBy(hand, []) == hand
            && ShuffledBy(hand, rands + [rand]) == h[i := h[j]][j := h[i]]
  {
    assert (rands + [rand])[..|rands|] == rands;
  }

  /** A shuffle can put any card first. */
  lemma {:induction false} AnyCardFirst(hand: seq<Card>, k: nat, n: nat) returns (rands: seq<nat>)
    requires k < |hand| && 0 < n <= |hand|
    ensures |rands| == n && ShuffledBy(hand, rands)[0] == hand[k]
  {
    if n == 1 {
      rands := [k];
      assert rands[..0] == [];
      Powers.QuotientUnique(k, |hand|, 0, k);
    } else {
      var init := AnyCardFirst(hand, k, n - 1);
      rands := init + [n - 1];
      assert rands[..n-1] == init;
      Powers.QuotientUnique(n - 1, |hand|, 0, n - 1);
    }
  }

  lemma DeckDistinct(s: seq<Card>)
    requires multiset(s) <= multiset(Deck())
    ensures Distinct(s)
  {
    forall m, n | 0 <= m < n < 52 ensures Deck()[m] != Deck()[n] {
      DeckHasEachCardOnce(Deck()[m], m);
      DeckHasEachCardOnce(Deck()[m], n);
    }
    forall m, n | 0 <= m < n < |s| ensures s[m] != s[n] {
      if s[m] == s[n] {
        TwiceCounted(s, m, n);
        DistinctOnce(Deck(), s[m]);
      }
    }
  }

  lemma InDeck(c: Card)
    ensures c in multiset(Deck())
  {
    var k := 13 * SuitIndex(c.suit) + ValueIndex(c.value);
    DeckHasEachCardOnce(c, k);
    assert Deck()[k] in Deck();
  }

  // ---------- the game ----------

  class Game {
    var shown: bool
    var forfeited: bool
    var over: bool
    var firsthit: bool
    var insured: bool
    var dealer: seq<Card>
    var player: seq<Card>
    var hand: seq<Card>
    var stash: seq<Card>

    /** The cards still to be drawn and those drawn since the last shuffle are the deck. */
    ghost predicate Valid()
      reads this`hand, this`stash
    {
      multiset(hand) + multiset(stash) == multiset(Deck())
    }

    constructor ()
      ensures Valid() && dealer == player == [] && stash == []
    {
      shown, forfeited, over, firsthit, insured := false, false, true, false, false;
      dealer, player, stash := [], [], [];
      hand := [];
      new;
      var deck := GenerateDeck();
      for i := 0 to deck.Length
        invariant hand == deck[..i] && dealer == player == stash == []
        modifies this
      {
        hand := hand + [deck[i]];
      }
      assert hand == Deck();
      var _ := Shuffle();
      assert multiset(hand) + multiset(stash) == multiset(Deck());
    }

    /** The cards on the table. */
    ghost function Table(): multiset<Card>
      reads this`dealer, this`player
    {
      multiset(dealer) + multiset(player)
    }

    /** None of the cards on the table has been shuffled back among those to be drawn. */
    ghost predicate Dealt()
      reads this`dealer, this`player, this`stash
    {
      Table() <= multiset(stash)
    }

    /** Then they are different cards. */
    lemma TableDistinct()
      requires Valid() && Dealt()
      ensures Distinct(dealer + player)
    {
      DeckDistinct(dealer + player);
    }

    /** And the next card can be one of them exactly if it takes a reshuffle to draw it. */
    lemma RepeatsExactly()
      requires Valid() && Dealt() && dealer + player != []
      ensures hand == [] ==> stash != []
      ensures hand == [] <==>
                exists rands: seq<nat> | |rands| == |stash| :: NextCard(hand, stash, rands) in dealer + player
    {
      if hand == [] {
        var c := (dealer + player)[0];
        InDeck(c);
        assert c in multiset(stash);
        var k :| 0 <= k < |stash| && stash[k] == c;
        var rands := AnyCardFirst(stash, k, |stash|);
        assert NextCard(hand, stash, rands) in dealer + player;
      } else if hand[0] in dealer + player {
        assert hand[0] in multiset(dealer + player);
        assert multiset(dealer + player) == Table();
        assert hand[0] in multiset(stash) && hand[0] in multiset(hand);
        OnceInDeck(hand[0]);
      }
    }

    lemma OnceInDeck(c: Card)
      requires Valid()
      ensures multiset(hand)[c] + multiset(stash)[c] <= 1
    {
      DeckDistinct(Deck());
      DistinctOnce(Deck(), c);
    }

    /** Swap every card with a random one. */
    method Shuffle() returns (ghost rands: seq<nat>)
      modifies this`hand
      ensures |rands| == |hand| == |old(hand)| && hand == ShuffledBy(old(hand), rands)
      ensures multiset(hand) == multiset(old(hand))
    {
      var n := |hand|;
      rands := [];
      for i := 0 to n
        invariant |rands| == i && |hand| == n && hand == ShuffledBy(old(hand), rands)
      {
        var rand: nat := *;
        var j := rand % n;
        hand := Swapped(hand, i, j);
        assert (rands + [rand])[..i] == rands;
        rands := rands + [rand];
      }
    }

    /** Draw a card; when none is left, what was drawn is shuffled first. */
    method DrawCard() returns (card: Card, ghost rands: seq<nat>)
      requires Valid()
      modifies this`hand, this`stash
      ensures Valid() && stash != [] && stash[|stash|-1] == card
      ensures old(hand) == [] ==> |rands| == |old(stash)| > 0
      ensures card == NextCard(old(hand), old(stash), rands)
      ensures old(hand) != [] ==> card == old(hand)[0] && hand == old(hand)[1..] && stash == old(stash) + [card]
      ensures old(hand) == [] ==> stash == [card] && |hand| == 51
    {
      hide Deck, ShuffledBy;
      rands := [];
      if |hand| == 0 {
        FullHand(stash);
        hand := stash;
        stash := [];
        rands := Shuffle();
      }
      card := hand[0];
      assert hand == [card] + hand[1..];
      hand := hand[1..];
      stash := stash + [card];
    }

    /** A card drawn and put on the table: the table stays clear of the hand unless there was a
        reshuffle with other cards on it. */
    twostate lemma StillDealt(card: Card)
      requires if player == old(player) then dealer == old(dealer) + [card]
               else dealer == old(dealer) && player == old(player) + [card]
      requires if old(hand) == [] then stash == [card] else stash == old(stash) + [card]
      ensures Dealt() <==> if old(hand) == [] then |old(dealer)| + |old(player)| == 0 else old(Dealt())
    {
      assert Table() == old(Table()) + multiset{card};
      assert old(|Table()| == |dealer| + |player|);
      var t, s := old(Table()), multiset(old(stash));
      if old(hand) == [] {
        forall c | Dealt() ensures t[c] == 0 { assert Table()[c] <= multiset([card])[c]; }
      } else {
        assert multiset(stash) == s + multiset{card};
        if Dealt() {
          forall c ensures t[c] <= s[c] { assert Table()[c] <= multiset(stash)[c]; }
        }
      }
    }

    /** Two cards for the dealer and two for the player. They are all different unless the hand had
        to be reshuffled between them. */
    method DrawRound()
      requires Valid()
      modifies this
      ensures Valid() && |dealer| == 2 && |player| == 2
      ensures |old(hand)| >= 4 ==>
                var h := old(hand); dealer == [h[0], h[2]] && player == [h[1], h[3]] && hand == h[4..]
      ensures Dealt() <==> |old(hand)| == 0 || |old(hand)| >= 4
      ensures firsthit && !insured && !over && !shown && !forfeited
    {
      hide Valid, Deck, Dealt;
      ClearTable();
      DealPairs();
    }

    method ClearTable()
      modifies this`firsthit, this`insured, this`over, this`shown, this`forfeited, this`dealer, this`player
      ensures firsthit && !insured && !over && !shown && !forfeited && dealer == player == [] && Dealt()
    {
      firsthit, insured, over, shown, forfeited := true, false, false, false, false;
      dealer, player := [], [];
    }

    method DealPairs()
      requires Valid() && dealer == player == [] && Dealt()
      modifies this`hand, this`stash, this`dealer, this`player
      ensures Valid() && |dealer| == |player| == 2
      ensures |old(hand)| >= 4 ==>
                var h := old(hand); dealer == [h[0], h[2]] && player == [h[1], h[3]] && hand == h[4..]
      ensures Dealt() <==> |old(hand)| == 0 || |old(hand)| >= 4
    {
      hide Valid, Deck, Dealt;
      DealPair();
      ghost var h, h' := old(hand), hand;
      DealPair();
      if |h| >= 4 { FourCards(h, h'); }
    }

    /** One card for the dealer and one for the player. */
    method DealPair()
      requires Valid()
      modifies this`hand, this`stash, this`dealer, this`player
      ensures Valid() && |dealer| == |old(dealer)| + 1 && |player| == |old(player)| + 1
      ensures |old(hand)| >= 2 ==>
                var h := old(hand); dealer == old(dealer) + [h[0]] && player == old(player) + [h[1]] && hand == h[2..]
      ensures |hand| == if |old(hand)| >= 2 then |old(hand)| - 2 else |old(hand)| + 50
      ensures Dealt() <==> if old(hand) == [] then |old(dealer)| + |old(player)| == 0
                           else |old(hand)| >= 2 && old(Dealt())
    {
      hide Valid, Deck, Dealt;
      var c, _ := DrawCard();
      dealer := dealer + [c];
      StillDealt(c);
      label Second:
      var d, _ := DrawCard();
      player := player + [d];
      StillDealt@Second(d);
    }

    method Hit() returns (ghost rands: seq<nat>)
      requires Valid()
      modifies this`hand, this`stash, this`player
      ensures Valid() && (old(hand) == [] ==> |rands| == |old(stash)| > 0)
      ensures player == old(player) + [NextCard(old(hand), old(stash), rands)]
      ensures Dealt() <==> if old(hand) == [] then |old(dealer)| + |old(player)| == 0 else old(Dealt())
    {
      hide Valid, Dealt, NextCard;
      var card;
      card, rands := DrawCard();
      player := player + [card];
      StillDealt(card);
    }

    /** The dealer draws until the hand is worth 17, and no longer. The worth can go down on the way;
        that the dealer stops is because every card counts. */
    method Stand()
      requires Valid()
      modifies this`shown, this`hand, this`stash, this`dealer
      ensures Valid() && shown && Total(dealer) >= 17 && old(dealer) <= dealer
      ensures forall k | |old(dealer)| <= k < |dealer| :: Total(dealer[..k]) < 17
      ensures |old(dealer)| + |old(player)| > 0 ==>
                (Dealt() <==> old(Dealt()) && |dealer| - |old(dealer)| <= |old(hand)|)
      decreases 17 - |dealer|
    {
      hide Valid, Deck, Total, Dealt, NextCard;
      shown := true;
      var _, dealerSum := GetValues(dealer);
      if dealerSum < 17 {
        TotalAtLeastSize(dealer);
        var card, _ := DrawCard();
        dealer := dealer + [card];
        StillDealt(card);
        ghost var d := dealer;
        Stand();
        assert d[..|old(dealer)|] == old(dealer) && dealer[..|old(dealer)|] == old(dealer);
      }
    }

    method IsGameOver() returns (r: bool)
      ensures r == GameOver(forfeited, shown, Total(player), Total(dealer))
      ensures r <==> forfeited || Total(player) >= 21 || Total(dealer) > 21 || (shown && Total(dealer) >= 17)
    {
      var _, dealerSum := GetValues(dealer);
      var _, playerSum := GetValues(player);
      r := forfeited || playerSum >= 21 || dealerSum > 21 || (shown && dealerSum >= 17);
    }

    /** The one status that is true of the game. */
    method DetermineStatus() returns (s: Status)
      ensures forall t :: Says(t, forfeited, shown, Total(player), |player|, Total(dealer), |dealer|) <==> t == s
      ensures s == Forfeited <==> forfeited
      ensures s == AwaitingAction <==>
                !forfeited && (!shown || (Total(player) < 21 && Total(dealer) < 17 && Total(player) != Total(dealer)))
      ensures !forfeited && shown ==>
                && (s == Draw <==> Total(player) == Total(dealer))
                && (s == PlayerBust <==> Total(player) > 21 && Total(player) != Total(dealer))
                && (s == DealerBust <==> Total(player) <= 21 < Total(dealer))
                && (s == PlayerBlackjack <==> |player| == 2 && Total(dealer) < 21 == Total(player))
                && (s == DealerBlackjack <==> |dealer| == 2 && Total(player) < 21 == Total(dealer))
                && (s == PlayerWin ==> Total(player) > Total(dealer))
                && (s == DealerWin ==> Total(player) < Total(dealer))
    {
      hide Total;
      var _, dealerSum := GetValues(dealer);
      var _, playerSum := GetValues(player);
      if forfeited { return Forfeited; }
      if !shown { return AwaitingAction; }
      if playerSum == dealerSum { return Draw; }
      if playerSum > 21 { return PlayerBust; }
      if dealerSum > 21 { return DealerBust; }
      if playerSum == 21 && |player| == 2 { return PlayerBlackjack; }
      if dealerSum == 21 && |dealer| == 2 { return DealerBlackjack; }
      var over := IsGameOver();
      if over {
        if playerSum > dealerSum { return PlayerWin; }
        if dealerSum > playerSum { return DealerWin; }
      }
      s := AwaitingAction;
    }

    method WhoWon() returns (r: int)
      ensures r == Winner(forfeited, Total(player), Total(dealer))
      ensures r in {-1, 0, 1} && (r == 0 <==> !forfeited && Total(player) == Total(dealer))
      ensures r == 1 <==> !forfeited && Total(player) <= 21 && (Total(player) > Total(dealer) || Total(dealer) > 21)
    {
      if forfeited { return -1; }
      var _, dealerSum := GetValues(dealer);
      var _, playerSum := GetValues(player);
      if playerSum == dealerSum { return 0; }
      if playerSum > 21 { return -1; }
      if dealerSum > 21 { return 1; }
      if playerSum == 21 { return 1; }
      if dealerSum == 21 { return -1; }
      if playerSum > dealerSum { return 1; }
      if dealerSum > playerSum { return -1; }
      r := 0;
    }
  }

  lemma FourCards(h: seq<Card>, h': seq<Card>)
    requires |h| >= 4 && h' == h[2..]
    ensures [] + [h[0]] + [h'[0]] == [h[0], h[2]] && [] + [h[1]] + [h'[1]] == [h[1], h[3]] && h'[2..] == h[4..]
  {
  }

  lemma FullHand(hand: seq<Card>)
    requires multiset(hand) + multiset([]) == multiset(Deck())
    ensures |hand| == 52
  {
    assert |multiset(hand)| == |hand| && |multiset(Deck())| == 52;
  }

  // ---------- outcomes ----------

  datatype Status =
    | Forfeited | AwaitingAction | Draw | PlayerBust | DealerBust
    | PlayerBlackjack | DealerBlackjack | PlayerWin | DealerWin

  predicate GameOver(forfeited: bool, shown: bool, player: nat, dealer: nat) {
    forfeited || player >= 21 || dealer > 21 || (shown && dealer >= 17)
  }

  /** What a status says of the game, each on its own; the order in which the code tests does not
      matter. */
  predicate Says(s: Status, forfeited: bool, shown: bool, player: nat, playerSize: nat, dealer: nat, dealerSize: nat) {
    if s == Forfeited then forfeited
    else if forfeited then false
    else if s == AwaitingAction then !shown || (player < 21 && dealer < 17 && player != dealer)
    else
      && shown
      && match s
         case Draw => player == dealer
         case PlayerBust => player > 21 && player != dealer
         case DealerBust => player <= 21 < dealer
         case PlayerBlackjack => player == 21 && playerSize == 2 && dealer < 21
         case DealerBlackjack => dealer == 21 && dealerSize == 2 && player < 21
         case PlayerWin => dealer < player <= 21 && (player == 21 || dealer >= 17) && !(player == 21 && playerSize == 2)
         case _ => player < dealer <= 21 && dealer >= 17 && !(dealer == 21 && dealerSize == 2)
  }

  /** Who is paid: the player, the dealer, or nobody. A bust is a loss only against a better hand or a
      different bust. */
  function Winner(forfeited: bool, player: nat, dealer: nat): int {
    if forfeited then -1
    else if player == dealer then 0
    else if player > 21 then -1
    else if dealer > 21 then 1
    else if player > dealer then 1
    else -1
  }

  /** What is shown agrees with who is paid, once the game is over and the dealer's card is shown. */
  lemma StatusAgreesWithWinner(s: Status, forfeited: bool, shown: bool,
                               player: nat, playerSize: nat, dealer: nat, dealerSize: nat)
    requires GameOver(forfeited, shown, player, dealer) && (shown || forfeited)
    requires Says(s, forfeited, shown, player, playerSize, dealer, dealerSize)
    ensures var w := Winner(forfeited, player, dealer);
            && s != AwaitingAction
            && (w == 0 <==> s == Draw)
            && (w == 1 <==> s in {DealerBust, PlayerBlackjack, PlayerWin})
            && (w == -1 <==> s in {Forfeited, PlayerBust, DealerBlackjack, DealerWin})
  {
  }
}
