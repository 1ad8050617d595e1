/** Resolution of one completed trick (`_determine_trick_winner`), independent of the rest of the game. */
module Tricks {
  import opened Basics
  import opened Cards

  /** One entry of the table: who played which card. */
  datatype Play<P> = Play(player: P, card: Card)

  function PlayStrength<P>(e: Play<P>, trump: Option<Rank>): nat
  {
    Strength(e.card, trump)
  }

  /** The highest strength on the table; -1 (the scan's starting value) when the table is empty. */
  function MaxStrength<P>(t: seq<Play<P>>, trump: Option<Rank>): (m: int)
    ensures |t| == 0 <==> m == -1
  {
    if |t| == 0 then -1
    else
      var m := MaxStrength(t[..|t| - 1], trump);
      var s := PlayStrength(t[|t| - 1], trump);
      if s > m then s else m
  }

  /** The plays of strength exactly `s`, in table order. */
  function WithStrength<P>(t: seq<Play<P>>, trump: Option<Rank>, s: int): (r: seq<Play<P>>)
    ensures |r| <= |t|
  {
    if |t| == 0 then []
    else
      var last := t[|t| - 1];
      WithStrength(t[..|t| - 1], trump, s) + (if PlayStrength(last, trump) == s then [last] else [])
  }

  /** The highest strength bounds every play on the table and is reached by one of them. */
  lemma {:induction false} MaxStrengthIsMaximum<P>(t: seq<Play<P>>, trump: Option<Rank>)
    ensures forall i :: 0 <= i < |t| ==> PlayStrength(t[i], trump) <= MaxStrength(t, trump)
    ensures |t| > 0 ==> exists i :: 0 <= i < |t| && PlayStrength(t[i], trump) == MaxStrength(t, trump)
  {
    if |t| > 0 {
      var init := t[..|t| - 1];
      MaxStrengthIsMaximum(init, trump);
      if |init| > 0 {
        var k :| 0 <= k < |init| && PlayStrength(init[k], trump) == MaxStrength(init, trump);
        assert t[k] == init[k];
      }
    }
  }

  /** The selection of strength `s` holds exactly the plays of strength `s`. */
  lemma {:induction false} WithStrengthMembers<P>(t: seq<Play<P>>, trump: Option<Rank>, s: int)
    ensures forall e :: e in WithStrength(t, trump, s) ==> e in t && PlayStrength(e, trump) == s
    ensures forall e :: e in t && PlayStrength(e, trump) == s ==> e in WithStrength(t, trump, s)
  {
    if |t| > 0 {
      var init := t[..|t| - 1];
      WithStrengthMembers(init, trump, s);
      assert forall e :: e in t ==> e in init || e == t[|t| - 1];
    }
  }

  /** The plays tied for the highest strength (`current_winners` once the scan is over). */
  function Strongest<P>(t: seq<Play<P>>, trump: Option<Rank>): seq<Play<P>>
  {
    WithStrength(t, trump, MaxStrength(t, trump))
  }

  /** The scan in `_determine_trick_winner`: keep the best strength seen and the plays that reach it,
      restarting the list at every strictly stronger card. */
  method ScanStrongest<P>(t: seq<Play<P>>, trump: Option<Rank>) returns (best: int, leaders: seq<Play<P>>)
    ensures best == MaxStrength(t, trump)
    ensures leaders == Strongest(t, trump)
  {
    best, leaders := -1, [];
    var i := 0;
    while i < |t|
      invariant 0 <= i <= |t|
      invariant best == MaxStrength(t[..i], trump)
      invariant leaders == WithStrength(t[..i], trump, best)
    {
      var e := t[i];
      var s := PlayStrength(e, trump);
      assert t[..i + 1] == t[..i] + [e];
      ExtendTable(t[..i], e, trump, if s > best then s else best);
      if s > best {
        MaxStrengthIsMaximum(t[..i], trump);
        NoneWith(t[..i], trump, s);
        best, leaders := s, [e];
      } else if s == best {
        leaders := leaders + [e];
      }
      i := i + 1;
    }
    assert t[..|t|] == t;
  }

  /** One more play on the table: how the highest strength and a selection by strength grow. */
  lemma ExtendTable<P>(t: seq<Play<P>>, e: Play<P>, trump: Option<Rank>, s: int)
    ensures MaxStrength(t + [e], trump) ==
              (if PlayStrength(e, trump) > MaxStrength(t, trump) then PlayStrength(e, trump) else MaxStrength(t, trump))
    ensures WithStrength(t + [e], trump, s) ==
              WithStrength(t, trump, s) + (if PlayStrength(e, trump) == s then [e] else [])
  {
    assert (t + [e])[..|t|] == t;
  }

  /** When no play has strength `s`, the selection of strength `s` is empty. */
  lemma NoneWith<P>(t: seq<Play<P>>, trump: Option<Rank>, s: int)
    requires forall i :: 0 <= i < |t| ==> PlayStrength(t[i], trump) != s
    ensures WithStrength(t, trump, s) == []
  {
  }

  /** The play at `i` is the only one of strength `s`. */
  lemma {:induction false} WithStrengthSingle<P>(t: seq<Play<P>>, trump: Option<Rank>, s: int, i: int)
    requires 0 <= i < |t| && PlayStrength(t[i], trump) == s
    requires forall j :: 0 <= j < |t| && j != i ==> PlayStrength(t[j], trump) != s
    ensures WithStrength(t, trump, s) == [t[i]]
  {
    var init := t[..|t| - 1];
    if i == |t| - 1 {
      NoneWith(init, trump, s);
    } else {
      WithStrengthSingle(init, trump, s, i);
    }
  }

  /** Two different positions of strength `s` give at least two plays of strength `s`. */
  lemma {:induction false} WithStrengthTwo<P>(t: seq<Play<P>>, trump: Option<Rank>, s: int, i: int, j: int)
    requires 0 <= i < j < |t|
    requires PlayStrength(t[i], trump) == s && PlayStrength(t[j], trump) == s
    ensures |WithStrength(t, trump, s)| >= 2
  {
    var init := t[..|t| - 1];
    if j == |t| - 1 {
      assert t[i] in init;
      WithStrengthMembers(init, trump, s);
    } else {
      WithStrengthTwo(init, trump, s, i, j);
    }
  }

  /** How `_determine_trick_winner` splits a tie on the last trick: the first tied play whose suit has the
      highest tie-break precedence. */
  function TieBreak<P>(ls: seq<Play<P>>): (w: Play<P>)
    requires |ls| > 0
    ensures w in ls
    ensures forall e :: e in ls ==> TieBreakOrder(e.card.suit) <= TieBreakOrder(w.card.suit)
  {
    if |ls| == 1 then ls[0]
    else
      var prev := TieBreak(ls[..|ls| - 1]);
      var last := ls[|ls| - 1];
      assert forall e :: e in ls ==> e in ls[..|ls| - 1] || e == last;
      if TieBreakOrder(last.card.suit) > TieBreakOrder(prev.card.suit) then last else prev
  }

  /** The tie-break's strict comparison keeps the earliest play of the best suit: every play before
      the chosen one has a lower tie-break order. */
  lemma {:induction false} TieBreakIsFirst<P>(ls: seq<Play<P>>) returns (k: int)
    requires |ls| > 0
    ensures 0 <= k < |ls| && ls[k] == TieBreak(ls)
    ensures forall j :: 0 <= j < k ==> TieBreakOrder(ls[j].card.suit) < TieBreakOrder(TieBreak(ls).card.suit)
  {
    if |ls| == 1 {
      k := 0;
    } else {
      var init := ls[..|ls| - 1];
      var last := ls[|ls| - 1];
      var prev := TieBreak(init);
      if TieBreakOrder(last.card.suit) > TieBreakOrder(prev.card.suit) {
        k := |ls| - 1;
        forall j | 0 <= j < k
          ensures TieBreakOrder(ls[j].card.suit) < TieBreakOrder(last.card.suit)
        {
          assert ls[j] == init[j] && init[j] in init;
        }
      } else {
        k := TieBreakIsFirst(init);
        assert forall j :: 0 <= j <= k ==> ls[j] == init[j];
      }
    }
  }

  /** How a trick ends: the player who leads the next trick, and whether that player is credited. */
  datatype Resolution<P> = Resolution(leader: P, credited: bool)

  /** A unique strongest play wins; a tie on the last trick goes to the tie-break; any other tie
      credits nobody and hands the lead to the last player on the table. */
  function Resolve<P>(t: seq<Play<P>>, trump: Option<Rank>, isFinal: bool): (r: Resolution<P>)
    requires |t| > 0
    ensures exists e :: e in t && e.player == r.leader
    ensures isFinal ==> r.credited
    ensures !r.credited ==> r.leader == t[|t| - 1].player
  {
    var leaders := Strongest(t, trump);
    var top := MaxStrength(t, trump);
    MaxStrengthIsMaximum(t, trump);
    WithStrengthMembers(t, trump, top);
    assert |leaders| > 0 by {
      var i :| 0 <= i < |t| && PlayStrength(t[i], trump) == top;
      assert t[i] in leaders;
    }
    if |leaders| == 1 then
      assert leaders[0] in leaders;
      Resolution(leaders[0].player, true)
    else if isFinal then
      Resolution(TieBreak(leaders).player, true)
    else
      Resolution(t[|t| - 1].player, false)
  }

  /** A strictly strongest card wins the trick for its player, final trick or not. */
  lemma UniqueStrongestWins<P>(t: seq<Play<P>>, trump: Option<Rank>, isFinal: bool, i: int)
    requires 0 <= i < |t|
    requires forall j :: 0 <= j < |t| && j != i ==> PlayStrength(t[j], trump) < PlayStrength(t[i], trump)
    ensures Resolve(t, trump, isFinal) == Resolution(t[i].player, true)
  {
    MaxStrengthIsMaximum(t, trump);
    assert MaxStrength(t, trump) == PlayStrength(t[i], trump);
    WithStrengthSingle(t, trump, PlayStrength(t[i], trump), i);
  }

  /** A tie for the highest strength on a trick that is not the last credits nobody;
      the last player on the table leads next. */
  lemma TieCancels<P>(t: seq<Play<P>>, trump: Option<Rank>, i: int, j: int)
    requires 0 <= i < j < |t|
    requires PlayStrength(t[i], trump) == PlayStrength(t[j], trump) == MaxStrength(t, trump)
    ensures Resolve(t, trump, false) == Resolution(t[|t| - 1].player, false)
  {
    WithStrengthTwo(t, trump, MaxStrength(t, trump), i, j);
  }

  /** A tie for the highest strength on the last trick goes to a tied play whose suit ranks highest
      in the tie-break order (clubs > hearts > spades > diamonds). */
  lemma FinalTieGoesToSuit<P>(t: seq<Play<P>>, trump: Option<Rank>, i: int, j: int)
    requires 0 <= i < j < |t|
    requires PlayStrength(t[i], trump) == PlayStrength(t[j], trump) == MaxStrength(t, trump)
    ensures var r := Resolve(t, trump, true);
      && r.credited
      && exists w :: w in t && w.player == r.leader && PlayStrength(w, trump) == MaxStrength(t, trump)
           && forall e :: e in t && PlayStrength(e, trump) == MaxStrength(t, trump) ==>
                TieBreakOrder(e.card.suit) <= TieBreakOrder(w.card.suit)
  {
    var top := MaxStrength(t, trump);
    WithStrengthTwo(t, trump, top, i, j);
    WithStrengthMembers(t, trump, top);
    var w := TieBreak(Strongest(t, trump));
    assert w in t && PlayStrength(w, trump) == top;
  }
}
