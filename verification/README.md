# Fodinha game engine, modelled in Dafny

This project models the engine of the trick-taking card game Fodinha, as implemented by the class
`FodinhaGame` and its card helpers in `backend/game_logic.py`. The model is a functional state
machine. An immutable `GameState` record holds the whole game. Each operation of the class is a pure
function that returns its result together with the new state.

The modules follow the parts of the engine:

- `Basics`: `Option`, `Result` and `Abs`.
- `Seating`: sequences of player ids. It covers distinctness, position (`list.index`), the next
  seat, the rotation that gives the bid order, and sums of per-player counters.
- `Cards`: suits, ranks as indices into `VALORES`, the 40-card deck and card strength (`forca`).
  It also picks the trump rank (`manilha`).
- `Progression`: the hand-size schedule across rounds (`cartas_global`, `crescendo_global`) and how
  many cards a deal needs.
- `Tricks`: how a full table is resolved. A unique strongest card wins. A tie on a non-final trick is
  cancelled. A tie on the final trick is split by suit.
- `Game`: the state, `__init__`, `start_new_round`, `submit_palpite`, `submit_card_play`,
  `_determine_trick_winner` and `_calculate_round_results`.
- `Views`: `get_player_game_state`, the per-player filter over the hands.
- `GameInvariants`: the round invariant. Every operation preserves it, and it carries the facts the
  source relies on without checking them.

Randomness becomes input. The shuffled deck is any ordering of the 40 cards (`IsShuffledDeck`), and
the initial dealer seat is any index in range.

Behaviours of the code that the model keeps as written:

- **Deck exhaustion at the peak.** A deal takes `1 + players * n` cards from the deck front. The
  largest hand size is `40 // players`, so at the peak the deck runs out exactly when the seat count
  divides 40 (`PeakDealFits`). The source then fails part-way through the deal. The model makes
  `DealFits` a precondition of `StartNewRound`. `ProgressionInvAllowsExhaustion` shows that the
  schedule invariant does not imply it.
- **Dead branch of the schedule.** The test at lines 384-385 reads the direction flag right after
  setting it to growing, so it never holds. As a result, size 1 is played in two consecutive rounds
  at each trough (`TroughRepeats`). The schedule is otherwise triangular (`ScheduleMatches`).
  For the same reason the adjustment at lines 377-378 never fires when the largest hand size is at
  least 2. The size only reaches the peak on the step up from `max - 1`, so the round just played
  never had `max` cards. It fires only when the largest hand size is 1.
- **A missing bid counts as -1 in scoring** (`BidMiss`). The invariant proves that this default
  never applies: once card play starts, every player has bid.
- **The view's else-branch covers every hand size other than 1, including 0.** Before the first
  round it lists every seated player with an empty hand.
- **The round's `"error"` phase is unreachable.** The bid queue is never empty at round start
  (there is at least one seat), so that phase is not modelled.

## Model

| member | source | states |
|---|---|---|
| Cards.Strength | backend/game_logic.py:14-17 | a card scores at least 100 exactly when it has the trump rank, and never 104 or more |
| Cards.TrumpBeatsPlain | backend/game_logic.py:14-17 | every trump card is stronger than every card of another rank |
| Cards.StrengthOrder | backend/game_logic.py:5-17 | among non-trumps, strength follows rank order; among trumps, it follows the suit order ♦ < ♠ < ♥ < ♣ |
| Cards.StrengthTie | backend/game_logic.py:14-17 | two different cards tie exactly when they share a rank that is not the trump rank |
| Cards.TrumpRank | backend/game_logic.py:24-25 | the trump is the rank after the middle card's, with '3' wrapping to '4' |
| Cards.TrumpRankInverse | backend/game_logic.py:24-25 | a rank is the trump exactly when the middle card has the cyclically preceding rank |
| Cards.FreshDeckIsComplete | backend/game_logic.py:19-20 | the unshuffled deck has no repeats, holds every (rank, suit) pair, and holds each one exactly once |
| Cards.ShuffledDeckIsDistinct | backend/game_logic.py:19-21 | any shuffle of the deck has 40 cards and no repeats |
| Seating.IndexOf | backend/game_logic.py:258 | `list.index` returns the first position that holds the id |
| Seating.NextSeatByPosition | backend/game_logic.py:258-259 | in a seating without repeats, the seat after position `i` is position `i + 1`, and the last seat is followed by the first; with two or more seats nobody follows themselves |
| Seating.Rotate | backend/game_logic.py:169-171 | the bid order reads the seating from a given seat, wrapping round |
| Seating.RotatePreservesSeating | backend/game_logic.py:169-171 | the rotated seating has no repeats and the same players |
| Progression.MaxHandSize | backend/game_logic.py:132 | the largest hand size is the greatest `m` with `m * players <= 40` |
| Progression.NextHandSize | backend/game_logic.py:373-385 | from a valid schedule state the next one is valid: grow by one, turn at the peak, and at the bottom restart at 1 growing |
| Progression.ScheduleMatches | backend/game_logic.py:130-131 | after `k` rounds the size is the `k`-th entry of the triangular schedule of period `2 * max - 1`, and the state stays valid |
| Progression.PeakReached | backend/game_logic.py:373-376 | starting from size 1, the size reaches `max` after `max - 1` rounds and starts shrinking |
| Progression.TroughRepeats | backend/game_logic.py:381-385 | size 1 is played twice in a row at the bottom of the cycle, first shrinking and then growing |
| Progression.PeakDealFits | backend/game_logic.py:132 | the peak-size deal fits the deck exactly when the seat count does not divide 40 |
| Progression.ProgressionInvAllowsExhaustion | backend/game_logic.py:164-167 | two seats reach size 20, which satisfies the schedule invariant and cannot be dealt |
| Tricks.ScanStrongest | backend/game_logic.py:308-318 | the scan ends with the highest strength on the table and exactly the plays that reach it, in table order |
| Tricks.MaxStrengthIsMaximum | backend/game_logic.py:308-316 | the highest strength bounds every play and is reached by one |
| Tricks.WithStrengthMembers | backend/game_logic.py:317-318 | the tied list holds exactly the plays of that strength |
| Tricks.TieBreak | backend/game_logic.py:335-342 | the tie-break picks a tied play whose suit has the highest tie-break order |
| Tricks.TieBreakIsFirst | backend/game_logic.py:338-342 | the strict comparison keeps the earliest play of the best suit: every play before the chosen one has a lower tie-break order |
| Tricks.Resolve | backend/game_logic.py:320-354 | the next leader is a player with a card on the table; the final trick is always credited; an uncredited trick is led next by the last player on the table |
| Tricks.UniqueStrongestWins | backend/game_logic.py:321-327 | a strictly strongest card wins and is credited, on any trick |
| Tricks.TieCancels | backend/game_logic.py:349-354 | a tie for the top on a non-final trick credits nobody, and the last player on the table leads |
| Tricks.FinalTieGoesToSuit | backend/game_logic.py:332-347 | a tie for the top on the final trick is credited to a top play with the best suit (♣ > ♥ > ♠ > ♦) |
| Game.NewGame | backend/game_logic.py:124-153 | a new game is valid and not started; every player has the initial lives and no tricks; the schedule starts at 1 and growing |
| Game.StartNewRound | backend/game_logic.py:155-190 | when the game is over, it refuses and leaves the state unchanged; otherwise it opens bidding at the current size, deals from the deck front, resets bids, tricks, table and multiplier, and gives the first turn to the seat after the dealer with the rest of that rotation queued |
| Game.DealtStart | backend/game_logic.py:164-167 | seat `i` receives the `n` cards starting at deck position `1 + i * n` |
| Game.MiddleNotDealt | backend/game_logic.py:164-167 | every hand has `n` cards and none of them is the middle card |
| Game.HandsDisjoint | backend/game_logic.py:167 | no card is dealt to two players |
| Game.SubmitBid | backend/game_logic.py:192-227 | wrong phase or turn, a bid outside `[0, n]`, and a last bid that makes the total `n` are each refused with the state unchanged; an accepted bid is recorded and added to the total; the turn passes to the queue head, or card play opens at the seat after the dealer |
| Game.DetermineTrickWinner | backend/game_logic.py:300-354 | resolving a trick changes only the trick counters and the multiplier, and credits plus multiplier grow by exactly one |
| Game.TrickCredit | backend/game_logic.py:320-351 | a credited trick adds the multiplier to the leader's count and resets it to 1; a cancelled trick raises the multiplier by 1 |
| Game.CalculateRoundResults | backend/game_logic.py:356-390 | every life drops by its bid miss and none rises; the game ends exactly when some life is at most 0, and then dealer and schedule stay put; otherwise the dealer moves one seat and the schedule advances |
| Game.RemoveAt | backend/game_logic.py:246 | `pop(i)` removes exactly the card at `i` and keeps the others in order |
| Game.PlaceCard | backend/game_logic.py:246-259 | the chosen card leaves the player's hand, the remaining cards keep their order, and every other hand is untouched; the card is appended to the table and to that player's history, and no other history changes; the next seat acts; the other fields are unchanged; the state stays valid |
| Game.AfterTrick | backend/game_logic.py:266-275 | a resolved table is cleared, the trick counted and its leader acts; credits plus multiplier grow by one |
| Game.CompleteTrick | backend/game_logic.py:266-291 | the report names the leader; the round ends exactly at the last trick; lives only fall |
| Game.SubmitCardPlay | backend/game_logic.py:230-298 | wrong phase or turn, a missing or empty hand and a bad index are each refused with the state unchanged; otherwise exactly that card leaves the hand for the table and history; a full table is resolved and cleared |
| Views.GetPlayerView | backend/game_logic.py:418-474 | only the hands are filtered, and every card shown is a card of that hand. In one-card rounds a bidder's own card is hidden and the others' are shown; after bidding, every card is shown. Otherwise each seated player appears, with the viewer's hand in full and only the card count of the others. The flags say when own and others' cards are visible |
| Views.FlagsDescribeView | backend/game_logic.py:471-472 | the flags are true exactly when the viewer's own hand, or another player's, is shown in full |
| GameInvariants.NewGameInv | backend/game_logic.py:124-153 | a new game satisfies the round invariant |
| GameInvariants.DealtSizes | backend/game_logic.py:167 | every seated player is dealt exactly `n` cards |
| GameInvariants.StartKeepsInv | backend/game_logic.py:155-190 | starting a round keeps the invariant: nobody has bid yet and every hand has `n` cards |
| GameInvariants.RecordBid | backend/game_logic.py:210-211 | recording the bid of the next seat in the bid order adds that seat to the bidders and the bid to the total |
| GameInvariants.LastBid | backend/game_logic.py:205-218 | after the last bid everyone has bid, the total is the sum of all bids, and the hand size is at least 1 |
| GameInvariants.BidKeepsInv | backend/game_logic.py:192-227 | every bid keeps the invariant; once bidding closes, every player has bid and the total differs from `n` |
| GameInvariants.TrickTally | backend/game_logic.py:266-281 | after a trick, credits plus multiplier minus one equal the tricks played, and after the last trick the multiplier is 1 |
| GameInvariants.ScoringKeepsInv | backend/game_logic.py:356-390 | scoring a round in which everyone has bid takes each life down by exactly the distance between tricks won and the real bid |
| GameInvariants.CompleteTrickKeepsInv | backend/game_logic.py:266-291 | resolving a full table keeps the invariant, and at round end the credits add up to the hand size |
| GameInvariants.PlayKeepsInv | backend/game_logic.py:230-298 | every card play keeps the invariant |
| GameInvariants.RoundEndScoring | backend/game_logic.py:278-281 | the play that ends a round leaves credits that add up to exactly the hand size |
| GameInvariants.GameOverIsFinal | backend/game_logic.py:156-157 | once the game is over, no round starts and every bid and play is refused with nothing changed |

## Left out

- `simular_rodada` (lines 27-121) is not modelled. It is a console loop driven by `input()` and
  `print`, with a different tie policy that cancels ties as soon as they occur.
- `main.py`, `backend/app.py` and `backend/simple_client.py` are not modelled. They are a legacy
  console game and the network transport.
- `random.shuffle` and `random.randint` are not modelled; the deck and the initial dealer seat are
  inputs instead.
- `print` output and the `__main__` block (lines 477-532) have no effect on the state and are not
  modelled.
- `get_game_state` (lines 392-416) is not modelled field by field. The view's snapshot is the whole
  state record without the hands. So it also carries fields that `get_game_state` never returns:
  the bid queue, the trick multiplier, the trick count, the direction flag, the largest hand size
  and the initial lives. The `str()` serialisation of cards is not modelled either, and the history
  records cards rather than their strings.
- `int()` coercion of a bid and its `ValueError` path are not modelled. Bids and card indices are
  integers.
- The unused `jogador_da_vez_palpite` field is not modelled.
- The `"error"` phase of `start_new_round` (lines 183-185) is not modelled, because the bid queue
  is never empty.
- The empty-table case of `_determine_trick_winner` (lines 302-303) is not modelled, because a
  table is only resolved once it is full.
- Game.StartNewRound: the source crashes mid-deal when the deck is too short; the model requires
  `DealFits` instead of modelling the crash.
- GameInvariants.RoundEndScoring: states only the sum of the credits; the exact life loss at round
  end is stated by `ScoringKeepsInv` and `Game.CalculateRoundResults`.
