/** The engine `FodinhaGame`: the game and round state, and the operations that change it.
    Every operation is a pure function from the current state to `(outcome, next state)`. */
module Game {
  import opened Basics
  import opened Seating
  import opened Cards
  import opened Progression
  import opened Tricks

  /** `round_phase`; `NotStarted` is the initial `None`. */
  datatype Phase = NotStarted | WaitingBids | WaitingCardPlay | RoundOver | GameOver

  predicate InRound(ph: Phase)
  {
    ph == WaitingBids || ph == WaitingCardPlay
  }

  datatype GameState<P> = GameState(
    players: seq<P>,              // seating, fixed for the game
    initialLives: int,
    lives: map<P, int>,
    dealerIdx: int,               // seat of the dealer of the next round
    cardsGlobal: int,             // hand size of the next round
    growing: bool,                // direction of the hand-size schedule
    maxCards: int,                // the largest hand size
    gameOver: bool,
    phase: Phase,
    roundDealer: Option<P>,       // dealer of the current round
    n: int,                       // hand size of the current round
    middle: Option<Card>,         // the card turned up to choose the trump rank
    trump: Option<Rank>,
    hands: map<P, seq<Card>>,
    bidQueue: seq<P>,             // players still to bid after the current bidder
    bids: map<P, int>,
    bidSum: int,
    wins: map<P, int>,            // tricks credited this round
    table: seq<Play<P>>,          // plays of the trick in progress, in order
    history: map<P, seq<Card>>,   // every card each player has played this round
    actor: Option<P>,             // whose turn it is to bid or play
    multiplier: int,              // credit carried by cancelled tricks
    tricks: int                   // completed tricks this round
  )

  /** Facts every state reachable from `NewGame` satisfies, and that the operations rely on. */
  predicate Valid<P(==)>(g: GameState<P>)
  {
    && |g.players| >= 1 && Distinct(g.players)
    && 0 <= g.dealerIdx < |g.players|
    && g.maxCards == MaxHandSize(|g.players|)
    && g.lives.Keys == SetOf(g.players)
    && g.wins.Keys == SetOf(g.players)
    && (g.actor.Some? ==> g.actor.value in g.players)
    && (forall p :: p in g.bidQueue ==> p in g.players)
    && (forall e :: e in g.table ==> e.player in g.players)
    && ProgressionInv(g.cardsGlobal, g.growing, g.maxCards)
    && (g.gameOver <==> g.phase == GameOver)
    && (InRound(g.phase) ==> g.n == g.cardsGlobal)
  }

  /** `FodinhaGame.__init__`, with the randomly drawn dealer seat passed in. */
  function NewGame<P(==)>(players: seq<P>, initialLives: int, dealerIdx: int): (g: GameState<P>)
    requires |players| >= 1 && Distinct(players)
    requires 0 <= dealerIdx < |players|
    ensures Valid(g)
    ensures g.phase == NotStarted && !g.gameOver
    ensures g.players == players && g.dealerIdx == dealerIdx
    ensures forall p :: p in players ==> g.lives[p] == initialLives && g.wins[p] == 0
    ensures g.cardsGlobal == 1 && g.growing
    ensures g.maxCards * |players| <= DeckSize < (g.maxCards + 1) * |players|
  {
    GameState(
      players, initialLives, ForEach(players, initialLives),
      dealerIdx, 1, true, MaxHandSize(|players|), false,
      NotStarted, None, 0, None, None, map[],
      [], map[], 0, ForEach(players, 0), [], map[], None, 1, 0)
  }

  /** The seat after the dealer: first to bid and first to play. */
  function FirstSeat<P>(g: GameState<P>): (i: int)
    requires |g.players| >= 1
    ensures 0 <= i < |g.players|
  {
    (g.dealerIdx + 1) % |g.players|
  }

  /** The bidding order of the round: the seating read from the seat after the dealer. */
  function BidOrder<P>(g: GameState<P>): seq<P>
    requires |g.players| >= 1
  {
    Rotate(g.players, FirstSeat(g))
  }

  /** A hand of `n` cards dealt to seat `i` ends no later than the hand of any later seat begins. */
  lemma HandFits(i: int, seats: int, n: int)
    requires 0 <= i < seats && 0 <= n
    ensures 1 + i * n + n <= 1 + seats * n
  {
    var k := seats - i - 1;
    assert seats * n == i * n + n + k * n;
    assert k * n >= 0;
  }

  /** The hands dealt from `deck` by the dealing loop of `start_new_round`: seat `i` takes the `n`
      cards that follow the middle card and the hands of the seats before it. */
  function DealHands<P(==)>(deck: seq<Card>, players: seq<P>, n: int): (hands: map<P, seq<Card>>)
    requires |players| >= 1 && 0 <= n && DealFits(|players|, n) && |deck| == DeckSize
    ensures hands.Keys == SetOf(players)
  {
    map p | p in players ::
      var i := IndexOf(players, p);
      HandFits(i, |players|, n);
      deck[1 + i * n .. 1 + i * n + n]
  }

  /** Seat `i` of a seating without repeats is dealt the `n` cards that start at deck position
      `1 + i * n`. */
  lemma DealtStart<P>(deck: seq<Card>, players: seq<P>, n: int, i: int) returns (start: int)
    requires |players| >= 1 && Distinct(players) && 0 <= i < |players|
    requires 0 <= n && DealFits(|players|, n) && |deck| == DeckSize
    ensures start == 1 + i * n && 1 <= start && start + n <= DeckSize
    ensures DealHands(deck, players, n)[players[i]] == deck[start .. start + n]
  {
    HandFits(i, |players|, n);
    DistinctPairs(players);
    assert IndexOf(players, players[i]) == i;
    start := 1 + i * n;
  }

  /** Dealing from a shuffled deck gives every player `n` cards, and the middle card stays out of
      every hand. */
  lemma MiddleNotDealt<P>(deck: seq<Card>, players: seq<P>, n: int, i: int)
    requires IsShuffledDeck(deck)
    requires |players| >= 1 && Distinct(players) && 0 <= i < |players|
    requires 0 <= n && DealFits(|players|, n)
    ensures |deck| == DeckSize
    ensures |DealHands(deck, players, n)[players[i]]| == n
    ensures deck[0] !in DealHands(deck, players, n)[players[i]]
  {
    ShuffledDeckIsDistinct(deck);
    DistinctPairs(deck);
    var start := DealtStart(deck, players, n, i);
    var hi := DealHands(deck, players, n)[players[i]];
    forall a | 0 <= a < n
      ensures hi[a] != deck[0]
    {
      assert hi[a] == deck[start + a];
    }
  }

  /** No card is dealt to two different players. */
  lemma HandsDisjoint<P>(deck: seq<Card>, players: seq<P>, n: int, i: int, j: int)
    requires IsShuffledDeck(deck)
    requires |players| >= 1 && Distinct(players) && 0 <= i < j < |players|
    requires 0 <= n && DealFits(|players|, n)
    ensures |deck| == DeckSize
    ensures forall c :: c in DealHands(deck, players, n)[players[i]] ==> c !in DealHands(deck, players, n)[players[j]]
  {
    ShuffledDeckIsDistinct(deck);
    DistinctPairs(deck);
    var si := DealtStart(deck, players, n, i);
    var sj := DealtStart(deck, players, n, j);
    HandFits(i, j, n);
    var hi, hj := DealHands(deck, players, n)[players[i]], DealHands(deck, players, n)[players[j]];
    forall c | c in hi
      ensures c !in hj
    {
      var a :| 0 <= a < n && hi[a] == c;
      forall b | 0 <= b < n
        ensures hj[b] != c
      {
        assert hi[a] == deck[si + a] && hj[b] == deck[sj + b];
      }
    }
  }

  /** `start_new_round`, with the shuffled deck passed in. Refused once the game is over; otherwise
      deals, turns up the middle card, and opens the bidding at the seat after the dealer.
      The deck must hold enough cards: the source raises an error half-way through otherwise. */
  function StartNewRound<P(==)>(g: GameState<P>, deck: seq<Card>): (r: (bool, GameState<P>))
    requires Valid(g)
    requires IsShuffledDeck(deck)
    requires !g.gameOver ==> DealFits(|g.players|, g.cardsGlobal)
    ensures Valid(r.1)
    ensures r.0 <==> !g.gameOver
    ensures !r.0 ==> r.1 == g
    ensures r.0 ==>
      var h := r.1;
      && h.phase == WaitingBids && h.n == g.cardsGlobal && h.n >= 0
      && h.roundDealer == Some(g.players[g.dealerIdx])
      && h.middle == Some(deck[0]) && h.trump == Some(TrumpRank(deck[0]))
      && h.players == g.players
      && h.hands.Keys == SetOf(g.players) && h.history.Keys == SetOf(g.players)
      && |deck| == DeckSize && DealFits(|g.players|, h.n)
      && h.hands == DealHands(deck, g.players, h.n)
      && h.bids == map[] && h.bidSum == 0 && h.tricks == 0 && h.multiplier == 1 && h.table == []
      && (forall p :: p in g.players ==> h.wins[p] == 0 && h.history[p] == [])
      && h.actor == Some(g.players[FirstSeat(g)]) && h.bidQueue == BidOrder(g)[1..]
      && h.lives == g.lives && h.dealerIdx == g.dealerIdx
      && h.cardsGlobal == g.cardsGlobal && h.growing == g.growing
  {
    if g.gameOver then (false, g)
    else
      ShuffledDeckIsDistinct(deck);
      var n := g.cardsGlobal;
      var order := BidOrder(g);
      var hands := DealHands(deck, g.players, n);
      RotatePreservesSeating(g.players, FirstSeat(g));
      assert forall p :: p in order[1..] ==> p in order;
      (true, g.(
        phase := WaitingBids, roundDealer := Some(g.players[g.dealerIdx]), n := n,
        middle := Some(deck[0]), trump := Some(TrumpRank(deck[0])), hands := hands,
        bidQueue := order[1..], bids := map[], bidSum := 0,
        wins := ForEach(g.players, 0), tricks := 0, multiplier := 1, table := [],
        history := ForEach(g.players, []), actor := Some(order[0])))
  }

  /** The map giving every player the same starting value. */
  function ForEach<P(==), V>(players: seq<P>, v: V): (m: map<P, V>)
    ensures m.Keys == SetOf(players)
    ensures forall p :: p in m ==> m[p] == v
  {
    map p | p in players :: v
  }

  datatype BidError = NotYourTurnToBid | BidOutOfRange | ForbiddenLastBid

  /** What a successful bid reports: who bids next while bidding goes on, and whether it is over. */
  datatype BidReceipt<P> = BidReceipt(nextBidder: Option<P>, allBidsDone: bool)

  /** The bidder about to act is the last one: nobody is queued and everyone else has bid. */
  predicate IsLastBidder<P>(g: GameState<P>)
  {
    |g.bidQueue| == 0 && |g.bids| == |g.players| - 1
  }

  /** `submit_palpite`. Rejections leave the state unchanged; the last bidder may not make the bids
      add up to the hand size. After the last bid, play opens at the seat after the dealer. */
  function SubmitBid<P(==)>(g: GameState<P>, player: P, bid: int): (r: (Result<BidReceipt<P>, BidError>, GameState<P>))
    requires Valid(g)
    ensures Valid(r.1)
    ensures r.0.Err? ==> r.1 == g
    ensures g.phase != WaitingBids || g.actor != Some(player) ==> r.0 == Err(NotYourTurnToBid)
    ensures g.phase == WaitingBids && g.actor == Some(player) && !(0 <= bid <= g.n) ==>
              r.0 == Err(BidOutOfRange)
    ensures g.phase == WaitingBids && g.actor == Some(player) && 0 <= bid <= g.n ==>
              (r.0.Err? <==> IsLastBidder(g) && g.bidSum + bid == g.n)
    ensures r.0.Err? ==> r.0.error != ForbiddenLastBid || IsLastBidder(g)
    ensures r.0.Ok? ==>
      && r.1.bids == g.bids[player := bid] && r.1.bidSum == g.bidSum + bid
      && r.1 == g.(bids := r.1.bids, bidSum := r.1.bidSum, bidQueue := r.1.bidQueue,
                   actor := r.1.actor, phase := r.1.phase)
    ensures r.0.Ok? && |g.bidQueue| > 0 ==>
      && r.1.phase == WaitingBids && r.1.actor == Some(g.bidQueue[0]) && r.1.bidQueue == g.bidQueue[1..]
      && r.0.value == BidReceipt(Some(g.bidQueue[0]), false)
    ensures r.0.Ok? && |g.bidQueue| == 0 ==>
      && r.1.phase == WaitingCardPlay && r.1.actor == Some(g.players[FirstSeat(g)])
      && r.1.bidQueue == [] && r.0.value == BidReceipt(None, true)
  {
    if g.phase != WaitingBids || g.actor != Some(player) then (Err(NotYourTurnToBid), g)
    else if !(0 <= bid <= g.n) then (Err(BidOutOfRange), g)
    else if IsLastBidder(g) && g.bidSum + bid == g.n then (Err(ForbiddenLastBid), g)
    else
      var recorded := g.(bids := g.bids[player := bid], bidSum := g.bidSum + bid);
      if |g.bidQueue| > 0 then
        (Ok(BidReceipt(Some(g.bidQueue[0]), false)),
         recorded.(actor := Some(g.bidQueue[0]), bidQueue := g.bidQueue[1..]))
      else
        (Ok(BidReceipt(None, true)),
         recorded.(phase := WaitingCardPlay, actor := Some(g.players[FirstSeat(g)])))
  }

  /** `_determine_trick_winner` on a full table: credits the trick (or cancels it) and names the
      next leader. The credit plus the carried multiplier grows by exactly one trick. */
  function DetermineTrickWinner<P(==)>(g: GameState<P>): (r: (P, GameState<P>))
    requires Valid(g) && |g.table| > 0
    ensures Valid(r.1)
    ensures r.0 in g.players
    ensures SumOver(g.players, r.1.wins) + r.1.multiplier == SumOver(g.players, g.wins) + g.multiplier + 1
    ensures r.1 == g.(wins := r.1.wins, multiplier := r.1.multiplier)
    ensures r.0 == Resolve(g.table, g.trump, g.tricks == g.n - 1).leader
  {
    var res := Resolve(g.table, g.trump, g.tricks == g.n - 1);
    var w := res.leader;
    LeaderIsSeated(g);
    if res.credited then
      SumOverBump(g.players, g.wins, w, g.multiplier);
      var h := g.(wins := g.wins[w := g.wins[w] + g.multiplier], multiplier := 1);
      CountersKeepValid(g, h);
      (w, h)
    else
      var h := g.(multiplier := g.multiplier + 1);
      CountersKeepValid(g, h);
      (w, h)
  }

  /** Changing only the trick counters (same players counted) and the multiplier keeps a state valid. */
  lemma CountersKeepValid<P>(g: GameState<P>, h: GameState<P>)
    requires Valid(g)
    requires h == g.(wins := h.wins, multiplier := h.multiplier)
    requires h.wins.Keys == g.wins.Keys
    ensures Valid(h)
  {
  }

  /** A credited trick adds the multiplier to the leader's count and resets it to 1; a cancelled
      trick leaves every count alone and raises the multiplier by 1. */
  lemma TrickCredit<P>(g: GameState<P>)
    requires Valid(g) && |g.table| > 0
    ensures var (w, h) := DetermineTrickWinner(g);
      && (Resolve(g.table, g.trump, g.tricks == g.n - 1).credited ==>
            h.multiplier == 1 && h.wins == g.wins[w := g.wins[w] + g.multiplier])
      && (!Resolve(g.table, g.trump, g.tricks == g.n - 1).credited ==>
            h.multiplier == g.multiplier + 1 && h.wins == g.wins)
  {
  }

  lemma LeaderIsSeated<P>(g: GameState<P>)
    requires Valid(g) && |g.table| > 0
    ensures Resolve(g.table, g.trump, g.tricks == g.n - 1).leader in g.players
  {
  }

  /** How far a player's trick count missed the bid; a missing bid counts as -1, as in the source. */
  function BidMiss<P(==)>(g: GameState<P>, p: P): nat
  {
    Abs(Get(g.wins, p, 0) - Get(g.bids, p, -1))
  }

  /** Every life minus the player's bid miss. */
  function ScoredLives<P(==)>(g: GameState<P>): (m: map<P, int>)
    ensures m.Keys == g.lives.Keys
    ensures forall p :: p in g.lives ==> m[p] == g.lives[p] - BidMiss(g, p) <= g.lives[p]
  {
    map p | p in g.lives :: g.lives[p] - BidMiss(g, p)
  }

  /** `_calculate_round_results`: every life drops by the player's bid miss. If any life is then at
      most zero the game ends; otherwise the dealer moves one seat and the hand size moves on. */
  function CalculateRoundResults<P(==)>(g: GameState<P>): (r: (bool, GameState<P>))
    requires Valid(g) && g.phase == WaitingCardPlay
    ensures Valid(r.1)
    ensures r.1.lives.Keys == g.lives.Keys
    ensures forall p :: p in g.lives ==> r.1.lives[p] == g.lives[p] - BidMiss(g, p)
    ensures forall p :: p in g.lives ==> r.1.lives[p] <= g.lives[p]
    ensures !r.0 <==> exists p :: p in r.1.lives && r.1.lives[p] <= 0
    ensures !r.0 ==>
      && r.1.gameOver && r.1.phase == GameOver
      && r.1.dealerIdx == g.dealerIdx && r.1.cardsGlobal == g.cardsGlobal && r.1.growing == g.growing
    ensures r.0 ==>
      && !r.1.gameOver && r.1.phase == RoundOver
      && r.1.dealerIdx == (g.dealerIdx + 1) % |g.players|
      && (r.1.cardsGlobal, r.1.growing) == NextHandSize(g.n, g.cardsGlobal, g.growing, g.maxCards)
    ensures r.1 == g.(lives := r.1.lives, gameOver := r.1.gameOver, phase := r.1.phase,
                      dealerIdx := r.1.dealerIdx, cardsGlobal := r.1.cardsGlobal, growing := r.1.growing)
  {
    var lives := ScoredLives(g);
    if exists p :: p in lives && lives[p] <= 0 then
      EndKeepsValid(g, lives);
      (false, g.(lives := lives, gameOver := true, phase := GameOver))
    else
      var next := NextHandSize(g.n, g.cardsGlobal, g.growing, g.maxCards);
      NextRoundKeepsValid(g, lives);
      (true, g.(lives := lives, cardsGlobal := next.0, growing := next.1,
                dealerIdx := (g.dealerIdx + 1) % |g.players|, phase := RoundOver))
  }

  /** Ending the game with new lives for the same players keeps a state valid. */
  lemma EndKeepsValid<P>(g: GameState<P>, lives: map<P, int>)
    requires Valid(g) && lives.Keys == g.lives.Keys
    ensures Valid(g.(lives := lives, gameOver := true, phase := GameOver))
  {
  }

  /** Moving to the next round (new lives for the same players, the next dealer and the next hand
      size) keeps a state valid. */
  lemma NextRoundKeepsValid<P>(g: GameState<P>, lives: map<P, int>)
    requires Valid(g) && InRound(g.phase) && lives.Keys == g.lives.Keys
    ensures var next := NextHandSize(g.n, g.cardsGlobal, g.growing, g.maxCards);
      Valid(g.(lives := lives, cardsGlobal := next.0, growing := next.1,
               dealerIdx := (g.dealerIdx + 1) % |g.players|, phase := RoundOver))
  {
  }

  datatype PlayError = NotYourTurnToPlay | NoCardsToPlay | BadCardIndex

  /** What a successful play reports (`trick_completed`, `trick_winner`, `round_over`, `game_over`). */
  datatype PlayReceipt<P> = PlayReceipt(trickCompleted: bool, trickWinner: Option<P>, roundOver: bool, gameOver: bool)

  /** `hand` without its card at `i` (`list.pop(i)`). */
  function RemoveAt<T>(hand: seq<T>, i: int): (h: seq<T>)
    requires 0 <= i < |hand|
    ensures |h| == |hand| - 1
    ensures multiset(h) + multiset{hand[i]} == multiset(hand)
    ensures forall a :: 0 <= a < i ==> h[a] == hand[a]
    ensures forall a :: i <= a < |h| ==> h[a] == hand[a + 1]
  {
    assert hand == hand[..i] + [hand[i]] + hand[i + 1..];
    hand[..i] + hand[i + 1..]
  }

  /** `player` puts the card at `index` of their hand on the table and into their history, and the
      turn passes to the next seat (the body of `submit_card_play` before a full table). */
  function PlaceCard<P(==)>(g: GameState<P>, player: P, index: int): (h: GameState<P>)
    requires Valid(g) && g.actor == Some(player)
    requires player in g.hands && 0 <= index < |g.hands[player]|
    ensures Valid(h)
    ensures var card := g.hands[player][index];
      // the card leaves the player's hand, the other cards keep their order, and other hands are untouched
      && h.hands.Keys == g.hands.Keys
      && h.hands[player] == g.hands[player][..index] + g.hands[player][index + 1..]
      && multiset(h.hands[player]) + multiset{card} == multiset(g.hands[player])
      && (forall q :: q in g.hands && q != player ==> h.hands[q] == g.hands[q])
      // it is appended to the table
      && |h.table| == |g.table| + 1 && h.table[..|g.table|] == g.table && h.table[|g.table|] == Play(player, card)
      // and to the player's history only
      && player in h.history && h.history[player] == Get(g.history, player, []) + [card]
      && h.history.Keys == g.history.Keys + {player}
      && (forall q :: q in g.history && q != player ==> h.history[q] == g.history[q])
    ensures h.actor == Some(g.players[(IndexOf(g.players, player) + 1) % |g.players|])
    ensures h == g.(hands := h.hands, table := h.table, history := h.history, actor := h.actor)
  {
    var hand := g.hands[player];
    var card := hand[index];
    g.(hands := g.hands[player := RemoveAt(hand, index)],
       table := g.table + [Play(player, card)],
       history := g.history[player := Get(g.history, player, []) + [card]],
       actor := Some(NextSeat(g.players, player)))
  }

  /** The state once `submit_card_play` resolves a full table: the trick is credited or cancelled,
      the table is cleared, the trick is counted and its leader is to act. */
  function AfterTrick<P(==)>(h: GameState<P>): (a: GameState<P>)
    requires Valid(h) && |h.table| > 0
    ensures Valid(a)
    ensures a == h.(wins := a.wins, multiplier := a.multiplier, tricks := h.tricks + 1, table := [],
                    actor := Some(Resolve(h.table, h.trump, h.tricks == h.n - 1).leader))
    ensures a.players == h.players && a.n == h.n && a.bids == h.bids && a.lives == h.lives
    ensures a.tricks == h.tricks + 1 && a.phase == h.phase
    ensures SumOver(h.players, a.wins) + a.multiplier == SumOver(h.players, h.wins) + h.multiplier + 1
  {
    var (winner, resolved) := DetermineTrickWinner(h);
    resolved.(tricks := resolved.tricks + 1, table := [], actor := Some(winner))
  }

  /** The full-table branch of `submit_card_play`: resolve the trick, clear the table, count the trick, hand the lead
      to the trick's leader, and score the round after its last trick. */
  function CompleteTrick<P(==)>(h: GameState<P>): (r: (PlayReceipt<P>, GameState<P>))
    requires Valid(h) && h.phase == WaitingCardPlay && |h.table| > 0
    ensures Valid(r.1)
    ensures var res := Resolve(h.table, h.trump, h.tricks == h.n - 1);
      && r.1.table == [] && r.1.tricks == h.tricks + 1 && r.1.actor == Some(res.leader)
      && r.0.trickCompleted && r.0.trickWinner == Some(res.leader)
    ensures r.0.roundOver <==> h.tricks + 1 >= h.n
    ensures r.0.roundOver ==> (r.1.phase == RoundOver || r.1.phase == GameOver) && r.0.gameOver == r.1.gameOver
    ensures !r.0.roundOver ==> r.1.phase == WaitingCardPlay && !r.0.gameOver && r.1.lives == h.lives
    ensures r.1.lives.Keys == h.lives.Keys
    ensures forall p :: p in h.lives ==> r.1.lives[p] <= h.lives[p]
    ensures r.1.n == h.n && r.1.hands == h.hands && r.1.history == h.history && r.1.bids == h.bids && r.1.players == h.players
  {
    var a := AfterTrick(h);
    var winner := Resolve(h.table, h.trump, h.tricks == h.n - 1).leader;
    if a.tricks >= a.n then
      var scoring := CalculateRoundResults(a);
      (PlayReceipt(true, Some(winner), true, !scoring.0), scoring.1)
    else
      (PlayReceipt(true, Some(winner), false, false), a)
  }

  /** `submit_card_play`. Rejections leave the state unchanged. Otherwise the chosen card moves from
      the player's hand to the table and to the player's history and the turn passes to the next
      seat; a full table is resolved and cleared, and the last trick of the round is scored. */
  function SubmitCardPlay<P(==)>(g: GameState<P>, player: P, index: int): (r: (Result<PlayReceipt<P>, PlayError>, GameState<P>))
    requires Valid(g)
    ensures Valid(r.1)
    ensures r.0.Err? ==> r.1 == g
    ensures g.phase != WaitingCardPlay || g.actor != Some(player) ==> r.0 == Err(NotYourTurnToPlay)
    ensures (g.phase == WaitingCardPlay && g.actor == Some(player) &&
             (player !in g.hands || |g.hands[player]| == 0)) ==> r.0 == Err(NoCardsToPlay)
    ensures g.phase == WaitingCardPlay && g.actor == Some(player) &&
            player in g.hands && |g.hands[player]| > 0 ==>
              (r.0.Err? <==> !(0 <= index < |g.hands[player]|)) &&
              (r.0.Err? ==> r.0.error == BadCardIndex)
    ensures r.0.Ok? ==>
      var hand := g.hands[player];
      0 <= index < |hand| &&
      var card := hand[index];
      var placed := g.table + [Play(player, card)];
      && r.1.hands == g.hands[player := RemoveAt(hand, index)]
      && r.1.history == g.history[player := Get(g.history, player, []) + [card]]
      && r.1.bids == g.bids && r.1.players == g.players && r.1.n == g.n
      && r.1.lives.Keys == g.lives.Keys
      && (forall p :: p in g.lives ==> r.1.lives[p] <= g.lives[p])
      && (|placed| != |g.players| ==>
            && r.1 == g.(hands := r.1.hands, history := r.1.history, table := placed,
                         actor := Some(NextSeat(g.players, player)))
            && r.0.value == PlayReceipt(false, None, false, false))
      && (|placed| == |g.players| ==>
            var res := Resolve(placed, g.trump, g.tricks == g.n - 1);
            && r.1.table == [] && r.1.tricks == g.tricks + 1
            && r.1.actor == Some(res.leader)
            && r.0.value.trickCompleted && r.0.value.trickWinner == Some(res.leader)
            && (r.0.value.roundOver <==> g.tricks + 1 >= g.n)
            && (r.0.value.roundOver ==>
                  (r.1.phase == RoundOver || r.1.phase == GameOver) && r.0.value.gameOver == r.1.gameOver)
            && (!r.0.value.roundOver ==>
                  r.1.phase == WaitingCardPlay && !r.0.value.gameOver && r.1.lives == g.lives))
  {
    if g.phase != WaitingCardPlay || g.actor != Some(player) then (Err(NotYourTurnToPlay), g)
    else if player !in g.hands || |g.hands[player]| == 0 then (Err(NoCardsToPlay), g)
    else if !(0 <= index < |g.hands[player]|) then (Err(BadCardIndex), g)
    else
      var placed := PlaceCard(g, player, index);
      if |placed.table| != |g.players| then
        (Ok(PlayReceipt(false, None, false, false)), placed)
      else
        var done := CompleteTrick(placed);
        (Ok(done.0), done.1)
  }
}
