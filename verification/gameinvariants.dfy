/** Facts that hold across whole rounds of the engine: who has bid so far, why the last bid can
    never make the bids add up to the hand size, and how trick counts add up to the hand size. */
module GameInvariants {
  import opened Basics
  import opened Seating
  import opened Cards
  import opened Progression
  import opened Game

  predicate BidsInRange<P>(g: GameState<P>)
  {
    forall p :: p in g.bids ==> 0 <= g.bids[p] <= g.n
  }

  predicate NoTricksYet<P>(g: GameState<P>)
  {
    && g.tricks == 0 && g.multiplier == 1 && g.table == []
    && forall p :: p in g.wins ==> g.wins[p] == 0
  }

  /** While bidding: the first `k` seats of the bid order have bid (and the bid total is their sum),
      seat `k` is to act, and the rest wait in the queue. Every player holds `n` cards. */
  predicate BiddingInv<P(==)>(g: GameState<P>)
    requires |g.players| >= 1
  {
    g.phase == WaitingBids ==>
      var order := BidOrder(g);
      var k := |g.players| - 1 - |g.bidQueue|;
      && 0 <= k
      && g.actor == Some(order[k])
      && g.bidQueue == order[k + 1..]
      && g.bids.Keys == SetOf(order[..k])
      && g.bidSum == SumOver(order[..k], g.bids)
      && BidsInRange(g) && g.n >= 0
      && (forall p :: p in g.players ==> p in g.hands && |g.hands[p]| == g.n)
      && NoTricksYet(g)
  }

  /** During card play: everybody has bid, the bids do not add up to the hand size, fewer tricks
      than cards have been played, and the credited tricks plus the carried multiplier account for
      every trick played so far. */
  predicate Tally<P(==)>(g: GameState<P>)
    requires |g.players| >= 1
  {
    && g.bids.Keys == SetOf(g.players)
    && g.bidSum == SumOver(BidOrder(g), g.bids)
    && g.bidSum != g.n
    && BidsInRange(g)
    && 0 <= g.tricks < g.n
    && g.multiplier >= 1
    && (forall p :: p in g.wins ==> g.wins[p] >= 0)
    && SumOver(g.players, g.wins) + g.multiplier - 1 == g.tricks
  }

  predicate CardPlayInv<P(==)>(g: GameState<P>)
    requires |g.players| >= 1
  {
    g.phase == WaitingCardPlay ==> Tally(g) && |g.table| < |g.players|
  }

  /** After a round has been scored the credited tricks add up to exactly the hand size. */
  predicate AfterRoundInv<P(==)>(g: GameState<P>)
  {
    (g.phase == RoundOver || g.phase == GameOver) ==>
      && g.bids.Keys == SetOf(g.players)
      && (forall p :: p in g.wins ==> g.wins[p] >= 0)
      && SumOver(g.players, g.wins) == g.n
  }

  predicate Inv<P(==)>(g: GameState<P>)
  {
    Valid(g) && BiddingInv(g) && CardPlayInv(g) && AfterRoundInv(g)
  }

  lemma NewGameInv<P>(players: seq<P>, initialLives: int, dealerIdx: int)
    requires |players| >= 1 && Distinct(players) && 0 <= dealerIdx < |players|
    ensures Inv(NewGame(players, initialLives, dealerIdx))
  {
  }

  /** Every seated player is dealt exactly `n` cards. */
  lemma DealtSizes<P>(deck: seq<Card>, players: seq<P>, n: int)
    requires IsShuffledDeck(deck) && |players| >= 1 && Distinct(players)
    requires 0 <= n && DealFits(|players|, n)
    ensures |deck| == DeckSize
    ensures forall p :: p in players ==> |DealHands(deck, players, n)[p]| == n
  {
    ShuffledDeckIsDistinct(deck);
    forall p | p in players
      ensures |DealHands(deck, players, n)[p]| == n
    {
      MiddleNotDealt(deck, players, n, IndexOf(players, p));
    }
  }

  /** The state that opens the bidding satisfies the bidding invariant with nobody having bid. */
  lemma OpeningBidding<P>(g: GameState<P>, h: GameState<P>)
    requires |g.players| >= 1 && Distinct(g.players) && 0 <= g.dealerIdx < |g.players|
    requires h.players == g.players && h.dealerIdx == g.dealerIdx && h.phase == WaitingBids && h.n >= 0
    requires h.bids == map[] && h.bidSum == 0 && h.tricks == 0 && h.multiplier == 1 && h.table == []
    requires h.wins.Keys == SetOf(g.players) && forall p :: p in g.players ==> h.wins[p] == 0
    requires h.actor == Some(g.players[FirstSeat(g)]) && h.bidQueue == BidOrder(g)[1..]
    requires forall p :: p in g.players ==> p in h.hands && |h.hands[p]| == h.n
    ensures BiddingInv(h)
  {
    SameBidOrder(g, h);
    var order := BidOrder(g);
    assert |h.players| - 1 - |h.bidQueue| == 0;
    assert order[..0] == [];
  }

  /** Dealing opens the bidding with nobody having bid, the seat after the dealer to act, and `n`
      cards in every hand. */
  lemma StartKeepsInv<P>(g: GameState<P>, deck: seq<Card>)
    requires Inv(g) && IsShuffledDeck(deck)
    requires !g.gameOver ==> DealFits(|g.players|, g.cardsGlobal)
    ensures Inv(StartNewRound(g, deck).1)
  {
    var r := StartNewRound(g, deck);
    if r.0 {
      var h := r.1;
      assert forall p :: p in g.players ==> p in h.hands && |h.hands[p]| == h.n by {
        DealtSizes(deck, g.players, h.n);
      }
      OpeningBidding(g, h);
    }
  }

  lemma {:induction false} PrefixDistinct<P>(s: seq<P>, k: int)
    requires Distinct(s) && 0 <= k <= |s|
    ensures Distinct(s[..k])
    ensures k < |s| ==> s[k] !in s[..k]
  {
    if k < |s| {
      var init := s[..|s| - 1];
      PrefixDistinct(init, k);
      assert init[..k] == s[..k];
      DistinctAt(s);
    } else {
      assert s[..k] == s;
    }
  }

  /** Recording the bid of seat `k` of a seating order, when exactly the seats before it have bid,
      extends the set of bidders and the bid total by that seat. */
  lemma RecordBid<P>(order: seq<P>, k: int, bids: map<P, int>, bidSum: int, player: P, bid: int)
    requires Distinct(order) && 0 <= k < |order| && order[k] == player
    requires bids.Keys == SetOf(order[..k]) && bidSum == SumOver(order[..k], bids)
    ensures |bids| == k
    ensures bids[player := bid].Keys == SetOf(order[..k + 1])
    ensures bidSum + bid == SumOver(order[..k + 1], bids[player := bid])
  {
    PrefixDistinct(order, k);
    DistinctCardinality(order[..k]);
    assert order[..k + 1] == order[..k] + [order[k]];
    SetOfSnoc(order[..k], player);
    SumOverAppend(order[..k], player, bids[player := bid]);
    SumOverUnlisted(order[..k], bids, player, bid);
  }

  lemma SameBidOrder<P>(g: GameState<P>, h: GameState<P>)
    requires |g.players| >= 1 && h.players == g.players && h.dealerIdx == g.dealerIdx
    ensures BidOrder(h) == BidOrder(g)
  {
  }

  /** The bid order during bidding, and the number of seats that have already bid. */
  lemma BiddingPosition<P>(g: GameState<P>) returns (order: seq<P>, k: int)
    requires |g.players| >= 1 && Distinct(g.players) && g.phase == WaitingBids && BiddingInv(g)
    ensures order == BidOrder(g) && k == |g.players| - 1 - |g.bidQueue|
    ensures |order| == |g.players| && Distinct(order) && SetOf(order) == SetOf(g.players)
    ensures 0 <= k < |order| && g.actor == Some(order[k]) && g.bidQueue == order[k + 1..]
    ensures g.bids.Keys == SetOf(order[..k]) && g.bidSum == SumOver(order[..k], g.bids)
  {
    order := BidOrder(g);
    k := |g.players| - 1 - |g.bidQueue|;
    RotatePreservesSeating(g.players, FirstSeat(g));
  }

  /** Recording a bid within `0..n` keeps every recorded bid within `0..n`. */
  lemma BidKeepsRange<P>(bids: map<P, int>, player: P, bid: int, n: int)
    requires (forall p :: p in bids ==> 0 <= bids[p] <= n) && 0 <= bid <= n
    ensures var m := bids[player := bid]; forall p :: p in m ==> 0 <= m[p] <= n
  {
  }

  /** Recording the bid of the last seat of the order: every seat has bid, and when the total
      differs from `n`, which bids within `0..n` cannot do for `n == 0`, the hand size is positive. */
  lemma LastBid<P>(order: seq<P>, bids: map<P, int>, bidSum: int, player: P, bid: int, n: int)
    requires Distinct(order) && |order| >= 1 && order[|order| - 1] == player
    requires bids.Keys == SetOf(order[..|order| - 1]) && bidSum == SumOver(order[..|order| - 1], bids)
    requires (forall p :: p in bids ==> 0 <= bids[p] <= n) && 0 <= bid <= n && bidSum + bid != n
    ensures bids[player := bid].Keys == SetOf(order)
    ensures bidSum + bid == SumOver(order, bids[player := bid])
    ensures n >= 1
  {
    var k := |order| - 1;
    RecordBid(order, k, bids, bidSum, player, bid);
    assert order[..k + 1] == order;
    if n == 0 {
      BidKeepsRange(bids, player, bid, n);
      SumOverBounds(order, bids[player := bid], 0);
    }
  }

  /** A bid with others still queued hands the turn to the next seat of the bid order. */
  lemma BidAdvances<P>(g: GameState<P>, player: P, bid: int, h: GameState<P>, order: seq<P>, k: int)
    requires |g.players| >= 1 && order == BidOrder(g) && |order| == |g.players|
    requires 0 <= k < |order| && player == order[k] && g.bidQueue == order[k + 1..] && |g.bidQueue| > 0
    requires g.bids[player := bid].Keys == SetOf(order[..k + 1])
    requires g.bidSum + bid == SumOver(order[..k + 1], g.bids[player := bid])
    requires BidsInRange(g) && NoTricksYet(g) && 0 <= bid <= g.n
    requires forall p :: p in g.players ==> p in g.hands && |g.hands[p]| == g.n
    requires h.players == g.players && h.dealerIdx == g.dealerIdx && h.n == g.n && h.hands == g.hands
    requires h.wins == g.wins && h.tricks == g.tricks && h.multiplier == g.multiplier && h.table == g.table
    requires h.bids == g.bids[player := bid] && h.bidSum == g.bidSum + bid
    requires h.phase == WaitingBids && h.actor == Some(g.bidQueue[0]) && h.bidQueue == g.bidQueue[1..]
    ensures BiddingInv(h)
  {
    BidKeepsRange(g.bids, player, bid, g.n);
    QueueStep(order, k, g.bidQueue);
    SameBidOrder(g, h);
    BiddingAt(h, order, k + 1);
  }

  /** Whoever waits first behind seat `k` is seat `k + 1`. */
  lemma QueueStep<P>(order: seq<P>, k: int, queue: seq<P>)
    requires 0 <= k < |order| && queue == order[k + 1..] && |queue| > 0
    ensures queue[0] == order[k + 1] && queue[1..] == order[k + 2..]
  {
  }

  /** The bidding invariant, from the position of the seat to act in the bid order. */
  lemma BiddingAt<P>(h: GameState<P>, order: seq<P>, k: int)
    requires |h.players| >= 1 && order == BidOrder(h) && |order| == |h.players| && 0 <= k < |order|
    requires h.phase == WaitingBids && h.actor == Some(order[k]) && h.bidQueue == order[k + 1..]
    requires h.bids.Keys == SetOf(order[..k]) && h.bidSum == SumOver(order[..k], h.bids)
    requires BidsInRange(h) && NoTricksYet(h) && h.n >= 0
    requires forall p :: p in h.players ==> p in h.hands && |h.hands[p]| == h.n
    ensures BiddingInv(h)
  {
  }

  /** The last accepted bid: every player has bid and the total differs from the hand size, which
      therefore is at least one. */
  lemma BidCloses<P>(g: GameState<P>, player: P, bid: int, h: GameState<P>, order: seq<P>)
    requires |g.players| >= 1 && order == BidOrder(g)
    requires g.bids[player := bid].Keys == SetOf(g.players)
    requires g.bidSum + bid == SumOver(order, g.bids[player := bid])
    requires BidsInRange(g) && NoTricksYet(g) && 0 <= bid <= g.n && g.bidSum + bid != g.n && g.n >= 1
    requires h.players == g.players && h.dealerIdx == g.dealerIdx && h.n == g.n
    requires h.wins == g.wins && h.tricks == g.tricks && h.multiplier == g.multiplier && h.table == g.table
    requires h.bids == g.bids[player := bid] && h.bidSum == g.bidSum + bid && h.phase == WaitingCardPlay
    ensures CardPlayInv(h)
  {
    assert BidsInRange(h) by {
      BidKeepsRange(g.bids, player, bid, g.n);
    }
    SameBidOrder(g, h);
    assert SumOver(h.players, h.wins) == 0 by {
      SumOverBounds(h.players, h.wins, 0);
    }
  }

  /** Each accepted bid moves the next seat of the bid order into the set of bidders. When the last
      bid is in, every player has bid, the total differs from the hand size (so at least one card is
      dealt), and play opens at the seat after the dealer. */
  lemma BidKeepsInv<P>(g: GameState<P>, player: P, bid: int)
    requires Inv(g)
    ensures Inv(SubmitBid(g, player, bid).1)
  {
    var r := SubmitBid(g, player, bid);
    if r.0.Ok? {
      if |g.bidQueue| > 0 {
        AcceptedBidAdvances(g, player, bid);
      } else {
        AcceptedBidCloses(g, player, bid);
      }
    }
  }

  lemma AcceptedBidAdvances<P>(g: GameState<P>, player: P, bid: int)
    requires Inv(g) && SubmitBid(g, player, bid).0.Ok? && |g.bidQueue| > 0
    ensures Inv(SubmitBid(g, player, bid).1)
  {
    var h := SubmitBid(g, player, bid).1;
    assert g.phase == WaitingBids && g.actor == Some(player) && 0 <= bid <= g.n;
    var order, k := BiddingPosition(g);
    RecordBid(order, k, g.bids, g.bidSum, player, bid);
    BidAdvances(g, player, bid, h, order, k);
  }

  lemma AcceptedBidCloses<P>(g: GameState<P>, player: P, bid: int)
    requires Inv(g) && SubmitBid(g, player, bid).0.Ok? && |g.bidQueue| == 0
    ensures Inv(SubmitBid(g, player, bid).1)
  {
    var h := SubmitBid(g, player, bid).1;
    var order := ClosingPosition(g, player);
    LastBid(order, g.bids, g.bidSum, player, bid, g.n);
    BidCloses(g, player, bid, h, order);
  }

  /** With nobody queued, the bidder is the last seat of the bid order and everyone else has bid. */
  lemma ClosingPosition<P>(g: GameState<P>, player: P) returns (order: seq<P>)
    requires Inv(g) && g.phase == WaitingBids && g.actor == Some(player) && |g.bidQueue| == 0
    ensures |g.players| >= 1 && order == BidOrder(g) && |order| == |g.players|
    ensures Distinct(order) && SetOf(order) == SetOf(g.players) && order[|order| - 1] == player
    ensures g.bids.Keys == SetOf(order[..|order| - 1]) && g.bidSum == SumOver(order[..|order| - 1], g.bids)
    ensures BidsInRange(g) && NoTricksYet(g) && IsLastBidder(g)
  {
    var k;
    order, k := BiddingPosition(g);
    PrefixDistinct(order, k);
    DistinctCardinality(order[..k]);
  }

  /** Resolving a trick keeps the counters accounting for every trick played, and the last trick of
      the round is always credited, so the multiplier is back to one. */
  lemma TrickTally<P>(h: GameState<P>)
    requires Valid(h) && h.phase == WaitingCardPlay && |h.table| > 0 && Tally(h)
    ensures var a := AfterTrick(h);
      && (forall p :: p in a.wins ==> a.wins[p] >= 0)
      && a.multiplier >= 1
      && SumOver(a.players, a.wins) + a.multiplier - 1 == a.tricks
      && (a.tricks >= a.n ==> a.multiplier == 1)
  {
    var a := AfterTrick(h);
    assert SumOver(h.players, a.wins) + a.multiplier - 1 == h.tricks + 1;
    TrickCredit(h);
  }

  /** Scoring a round whose counters add up to the hand size, with everybody's bid recorded: each
      life drops by the distance between tricks and the real bid. */
  lemma ScoringKeepsInv<P>(a: GameState<P>)
    requires Valid(a) && a.phase == WaitingCardPlay
    requires a.bids.Keys == SetOf(a.players) && (forall p :: p in a.wins ==> a.wins[p] >= 0)
    requires SumOver(a.players, a.wins) == a.n
    ensures var s := CalculateRoundResults(a).1;
      && Inv(s) && s.wins == a.wins && s.players == a.players && s.n == a.n
      && forall p :: p in a.players ==> s.lives[p] == a.lives[p] - Abs(a.wins[p] - a.bids[p])
  {
  }

  /** Resolving a full table: the counters still account for every trick, and after the last trick
      they add up to the hand size. */
  lemma CompleteTrickKeepsInv<P>(h: GameState<P>)
    requires Valid(h) && h.phase == WaitingCardPlay && |h.table| > 0 && Tally(h)
    ensures var r := CompleteTrick(h);
      && Inv(r.1)
      && (r.0.roundOver ==> SumOver(h.players, r.1.wins) == h.n)
  {
    CompleteTrickSteps(h);
    if AfterTrick(h).tricks >= h.n {
      LastTrickScores(h);
    } else {
      TrickContinues(h);
    }
  }

  /** A resolved table is scored exactly when it was the round's last trick. */
  lemma CompleteTrickSteps<P>(h: GameState<P>)
    requires Valid(h) && h.phase == WaitingCardPlay && |h.table| > 0
    ensures AfterTrick(h).tricks >= h.n ==> CompleteTrick(h).1 == CalculateRoundResults(AfterTrick(h)).1
    ensures AfterTrick(h).tricks < h.n ==> CompleteTrick(h).1 == AfterTrick(h)
  {
  }

  /** A trick that is not the round's last leaves the tally intact and play goes on. */
  lemma TrickContinues<P>(h: GameState<P>)
    requires Valid(h) && h.phase == WaitingCardPlay && |h.table| > 0 && Tally(h)
    requires AfterTrick(h).tricks < h.n
    ensures !CompleteTrick(h).0.roundOver && Inv(CompleteTrick(h).1)
  {
    var a := AfterTrick(h);
    TrickTally(h);
    CompleteTrickSteps(h);
    SameBidOrder(h, a);
    assert Tally(a);
  }

  /** The round's last trick: the counters add up to the hand size when the round is scored. */
  lemma LastTrickScores<P>(h: GameState<P>)
    requires Valid(h) && h.phase == WaitingCardPlay && |h.table| > 0 && Tally(h)
    requires AfterTrick(h).tricks >= h.n
    ensures var s := CalculateRoundResults(AfterTrick(h)).1;
      && Inv(s)
      && SumOver(h.players, s.wins) == h.n
  {
    TrickTally(h);
    ScoringKeepsInv(AfterTrick(h));
  }

  /** Placing a card touches none of the counters the tally is about. */
  lemma TallyKeptByPlacing<P>(g: GameState<P>, h: GameState<P>)
    requires |g.players| >= 1 && Tally(g)
    requires h == g.(hands := h.hands, table := h.table, history := h.history, actor := h.actor)
    ensures Tally(h)
  {
    SameBidOrder(g, h);
  }

  /** A play either adds a card to a table that is not yet full or resolves the trick; either way
      the round invariant survives. */
  lemma PlayKeepsInv<P>(g: GameState<P>, player: P, index: int)
    requires Inv(g)
    ensures Inv(SubmitCardPlay(g, player, index).1)
  {
    var r := SubmitCardPlay(g, player, index);
    if r.0.Ok? {
      var placed := PlaceCard(g, player, index);
      assert Tally(placed) by {
        TallyKeptByPlacing(g, placed);
      }
      if |placed.table| == |g.players| {
        assert r.1 == CompleteTrick(placed).1;
        CompleteTrickKeepsInv(placed);
      } else {
        assert r.1 == placed;
      }
    }
  }

  /** The round's last play leaves the credited tricks adding up to exactly the hand size. */
  lemma RoundEndScoring<P>(g: GameState<P>, player: P, index: int)
    requires Inv(g)
    ensures var r := SubmitCardPlay(g, player, index);
      r.0.Ok? && r.0.value.roundOver ==> SumOver(g.players, r.1.wins) == g.n
  {
    var r := SubmitCardPlay(g, player, index);
    if r.0.Ok? && r.0.value.roundOver {
      var placed := PlaceCard(g, player, index);
      assert Tally(placed) by {
        TallyKeptByPlacing(g, placed);
      }
      assert |placed.table| == |g.players|;
      var c := CompleteTrick(placed);
      assert r.0.value == c.0 && r.1 == c.1;
      CompleteTrickKeepsInv(placed);
    }
  }

  /** Once the game is over nothing changes any more: no round starts and every bid or play is
      refused. */
  lemma GameOverIsFinal<P>(g: GameState<P>, deck: seq<Card>, player: P, bid: int, index: int)
    requires Valid(g) && g.gameOver && IsShuffledDeck(deck)
    ensures StartNewRound(g, deck) == (false, g)
    ensures SubmitBid(g, player, bid) == (Err(NotYourTurnToBid), g)
    ensures SubmitCardPlay(g, player, index) == (Err(NotYourTurnToPlay), g)
  {
  }
}
