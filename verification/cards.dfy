/** Cards, the 40-card deck, card strength and the choice of the trump rank (`manilha`). */
module Cards {
  import opened Basics
  import opened Seating

  /** The suits, in the order the deck is built (`NAIPES`): clubs, hearts, spades, diamonds. */
  datatype Suit = Clubs | Hearts | Spades | Diamonds

  /** A rank is its position in the fixed order `4 5 6 7 Q J K A 2 3` (`VALORES`), weakest first. */
  type Rank = r: int | 0 <= r < 10

  const RankCount: int := 10
  const DeckSize: int := 40

  const Suits: seq<Suit> := [Clubs, Hearts, Spades, Diamonds]

  function SuitIndex(s: Suit): (i: nat)
    ensures i < |Suits| && Suits[i] == s
  {
    match s
    case Clubs => 0
    case Hearts => 1
    case Spades => 2
    case Diamonds => 3
  }

  datatype Card = Card(rank: Rank, suit: Suit)

  /** Precedence of suits among trump cards (`ORDEM_NAIPE_MANILHA`): diamonds < spades < hearts < clubs. */
  function TrumpSuitOrder(s: Suit): (o: nat)
    ensures o < 4
  {
    match s
    case Diamonds => 0
    case Spades => 1
    case Hearts => 2
    case Clubs => 3
  }

  /** Precedence of suits when a tie on the last trick is split (`ORDEM_NAIPE_DESEMPATE`). */
  function TieBreakOrder(s: Suit): (o: nat)
    ensures o < 4
  {
    match s
    case Clubs => 3
    case Hearts => 2
    case Spades => 1
    case Diamonds => 0
  }

  predicate IsTrump(c: Card, trump: Option<Rank>)
  {
    trump.Some? && c.rank == trump.value
  }

  /** `Carta.forca`: a trump card scores 100 plus its suit precedence, any other card its rank index.
      With no trump (the method's `None` default) every card scores its rank index. */
  function Strength(c: Card, trump: Option<Rank>): (r: nat)
    ensures IsTrump(c, trump) <==> r >= 100
    ensures r < 104
  {
    if IsTrump(c, trump) then 100 + TrumpSuitOrder(c.suit) else c.rank
  }

  /** Every trump card beats every card of another rank. */
  lemma TrumpBeatsPlain(t: Card, c: Card, trump: Option<Rank>)
    requires IsTrump(t, trump) && !IsTrump(c, trump)
    ensures Strength(c, trump) < Strength(t, trump)
  {
  }

  /** Among cards of non-trump ranks strength follows the rank order; among trumps it follows the suit order. */
  lemma StrengthOrder(a: Card, b: Card, trump: Option<Rank>)
    ensures !IsTrump(a, trump) && !IsTrump(b, trump) ==>
              (Strength(a, trump) < Strength(b, trump) <==> a.rank < b.rank)
    ensures IsTrump(a, trump) && IsTrump(b, trump) ==>
              (Strength(a, trump) < Strength(b, trump) <==> TrumpSuitOrder(a.suit) < TrumpSuitOrder(b.suit))
  {
  }

  /** Two different cards tie exactly when they share a rank that is not the trump rank. */
  lemma StrengthTie(a: Card, b: Card, trump: Option<Rank>)
    requires a != b
    ensures Strength(a, trump) == Strength(b, trump) <==> a.rank == b.rank && !IsTrump(a, trump)
  {
    if IsTrump(a, trump) && IsTrump(b, trump) {
      assert a.suit != b.suit;
    }
  }

  /** `definir_manilha`: the trump rank is the rank after the middle card's, the strongest ('3') wrapping to the weakest ('4'). */
  function TrumpRank(middle: Card): (t: Rank)
    ensures middle.rank < RankCount - 1 ==> t == middle.rank + 1
    ensures middle.rank == RankCount - 1 ==> t == 0
  {
    (middle.rank + 1) % RankCount
  }

  /** A rank is the trump exactly when the middle card has the rank just before it (cyclically). */
  lemma TrumpRankInverse(middle: Card, t: Rank)
    ensures TrumpRank(middle) == t <==> middle.rank == (t + RankCount - 1) % RankCount
  {
  }

  /** `criar_baralho` before the shuffle: ranks in order, each rank with the four suits in `NAIPES` order. */
  function FreshDeck(): (d: seq<Card>)
    ensures |d| == DeckSize
  {
    seq(DeckSize, i requires 0 <= i < DeckSize => Card(i / 4, Suits[i % 4]))
  }

  /** Where a card sits in the unshuffled deck. */
  function DeckPosition(c: Card): (i: nat)
    ensures i < DeckSize && FreshDeck()[i] == c
  {
    4 * c.rank + SuitIndex(c.suit)
  }

  /** The unshuffled deck holds each of the 40 (rank, suit) pairs exactly once. */
  lemma FreshDeckIsComplete()
    ensures Distinct(FreshDeck())
    ensures forall c: Card :: c in FreshDeck()
    ensures forall c: Card :: multiset(FreshDeck())[c] == 1
  {
    var d := FreshDeck();
    forall i, j | 0 <= i < j < |d|
      ensures d[i] != d[j]
    {
      if i / 4 == j / 4 {
        assert i % 4 != j % 4;
      }
    }
    PairsDistinct(d);
    forall c: Card
      ensures c in d && multiset(d)[c] == 1
    {
      assert d[DeckPosition(c)] == c;
      DistinctCountsOnce(d, c);
    }
  }

  lemma {:induction false} DistinctCountsOnce<T>(s: seq<T>, x: T)
    requires Distinct(s)
    requires x in s
    ensures multiset(s)[x] == 1
  {
    var init, last := s[..|s| - 1], s[|s| - 1];
    assert s == init + [last];
    assert Distinct(init);
    if last == x {
      assert x !in init;
    } else {
      DistinctCountsOnce(init, x);
    }
  }

  /** The deck handed to a round: some ordering of the 40 cards (`random.shuffle` of the fresh deck). */
  predicate IsShuffledDeck(d: seq<Card>)
  {
    multiset(d) == multiset(FreshDeck())
  }

  /** A shuffled deck has 40 cards and none twice. */
  lemma ShuffledDeckIsDistinct(d: seq<Card>)
    requires IsShuffledDeck(d)
    ensures |d| == DeckSize
    ensures Distinct(d)
  {
    assert |d| == |multiset(d)| == |multiset(FreshDeck())| == DeckSize;
    FreshDeckIsComplete();
    forall i, j | 0 <= i < j < |d|
      ensures d[i] != d[j]
    {
      var before, rest := d[..j], d[j..];
      assert d == before + rest;
      assert multiset(d)[d[j]] == multiset(before)[d[j]] + multiset(rest)[d[j]];
      assert rest[0] == d[j];
      assert d[i] == before[i];
    }
    PairsDistinct(d);
  }
}
