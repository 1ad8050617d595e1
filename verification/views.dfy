/** `get_player_game_state`: what one player is allowed to see of the hands. */
module Views {
  import opened Basics
  import opened Seating
  import opened Cards
  import opened Game

  /** One entry of a filtered hand: a card shown in full, or the "HIDDEN" marker. */
  datatype Slot = Shown(card: Card) | Hidden

  /** The per-player snapshot: every field of the game state except the hands, the filtered hands,
      and the two visibility flags. */
  datatype PlayerView<P> = PlayerView(
    snapshot: GameState<P>,
    hands: map<P, seq<Slot>>,
    canSeeOwnCards: bool,
    canSeeOthersCards: bool)

  function ShowAll(h: seq<Card>): (v: seq<Slot>)
    ensures |v| == |h|
    ensures forall i :: 0 <= i < |h| ==> v[i] == Shown(h[i])
  {
    seq(|h|, i requires 0 <= i < |h| => Shown(h[i]))
  }

  function HideAll(k: nat): (v: seq<Slot>)
    ensures |v| == k
    ensures forall i :: 0 <= i < k ==> v[i] == Hidden
  {
    seq(k, _ => Hidden)
  }

  /** No card of the entry is shown. */
  predicate Conceals(v: seq<Slot>)
  {
    forall i :: 0 <= i < |v| ==> v[i] == Hidden
  }

  /** Every card the entry shows is the true card at that position of the hand. */
  predicate Truthful(v: seq<Slot>, hand: seq<Card>)
  {
    forall i :: 0 <= i < |v| && v[i].Shown? ==> i < |hand| && v[i].card == hand[i]
  }

  /** With one card per hand, bidders see everyone's card but their own; once play starts they see
      all of them. With any other hand size they see their own hand and only the size of the others'. */
  function GetPlayerView<P(==)>(g: GameState<P>, viewer: P): (v: PlayerView<P>)
    ensures v.snapshot == g.(hands := map[])
    ensures forall p :: p in v.hands ==> Truthful(v.hands[p], Get(g.hands, p, []))
    ensures g.n != 1 ==>
      && v.hands.Keys == SetOf(g.players)
      && forall p :: p in v.hands ==>
           && |v.hands[p]| == |Get(g.hands, p, [])|
           && (p == viewer ==> v.hands[p] == ShowAll(Get(g.hands, p, [])))
           && (p != viewer ==> Conceals(v.hands[p]))
    ensures g.n == 1 ==> v.hands.Keys == g.hands.Keys
    ensures g.n == 1 && g.phase == WaitingBids ==>
      forall p :: p in v.hands ==>
        && (p == viewer ==> v.hands[p] == [Hidden])
        && (p != viewer ==> v.hands[p] == ShowAll(g.hands[p]))
    ensures g.n == 1 && g.phase != WaitingBids ==>
      forall p :: p in v.hands ==> v.hands[p] == ShowAll(g.hands[p])
    ensures v.canSeeOwnCards <==> g.n > 1 || g.phase != WaitingBids
    ensures v.canSeeOthersCards <==> g.n == 1
  {
    var hands :=
      if g.n == 1 then
        if g.phase == WaitingBids then
          map p | p in g.hands :: if p == viewer then [Hidden] else ShowAll(g.hands[p])
        else
          map p | p in g.hands :: ShowAll(g.hands[p])
      else
        map p | p in g.players ::
          if p == viewer then ShowAll(Get(g.hands, p, [])) else HideAll(|Get(g.hands, p, [])|);
    PlayerView(g.(hands := map[]), hands, g.n > 1 || g.phase != WaitingBids, g.n == 1)
  }

  /** The two flags tell the truth about the filtered hands: in a round with cards in hand, the viewer
      sees their own hand exactly when `canSeeOwnCards` holds, and another seated player's hand exactly
      when `canSeeOthersCards` holds. */
  lemma FlagsDescribeView<P>(g: GameState<P>, viewer: P, other: P)
    requires g.n >= 1
    requires viewer in g.players && viewer in g.hands && |g.hands[viewer]| > 0
    requires other in g.players && other in g.hands && |g.hands[other]| > 0 && other != viewer
    ensures var v := GetPlayerView(g, viewer);
      && (v.canSeeOwnCards <==> v.hands[viewer] == ShowAll(g.hands[viewer]))
      && (v.canSeeOthersCards <==> v.hands[other] == ShowAll(g.hands[other]))
  {
    var v := GetPlayerView(g, viewer);
    if g.n == 1 && g.phase == WaitingBids {
      assert v.hands[viewer][0] != ShowAll(g.hands[viewer])[0];
    }
    if g.n != 1 {
      assert v.hands[other][0] != ShowAll(g.hands[other])[0];
    }
  }
}
