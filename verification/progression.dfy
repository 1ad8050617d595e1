/** The hand-size schedule across the rounds of one game and the deck capacity it needs. */
module Progression {
  import opened Cards

  /** `max_cartas_global`: the deck size divided (rounding down) by the number of seats. */
  function MaxHandSize(players: int): (m: int)
    requires players >= 1
    ensures 0 <= m <= DeckSize
    ensures m * players <= DeckSize < (m + 1) * players
  {
    DeckSize / players
  }

  /** The values `(cartas_global, crescendo_global)` can take between rounds: for `max >= 2` a size in
      `[1, max]` that is below `max` while growing; for smaller `max` only `(1, growing)` or `(0, shrinking)`. */
  predicate ProgressionInv(cards: int, growing: bool, max: int)
  {
    if max >= 2 then 1 <= cards <= max && (growing ==> cards < max)
    else 0 <= max && ((cards == 1 && growing) || (cards == 0 && !growing))
  }

  /** The update at the end of a continuing round: `played` is the size of the round just played,
      `cards` and `growing` the current global size and direction. The result is the next pair. */
  function NextHandSize(played: int, cards: int, growing: bool, max: int): (r: (int, bool))
    ensures ProgressionInv(cards, growing, max) && played == cards ==> ProgressionInv(r.0, r.1, max)
    ensures ProgressionInv(cards, growing, max) && played == cards && max >= 2 ==>
              && (growing && cards + 1 < max ==> r == (cards + 1, true))
              && (growing && cards + 1 == max ==> r == (max, false))
              && (!growing && cards > 1 ==> r == (cards - 1, false))
              && (!growing && cards == 1 ==> r == (1, true))
  {
    var c := cards + (if growing then 1 else -1);
    if c >= max then
      (if played == max then max - 1 else max, false)
    else if c < 1 then
      var growing' := true;
      // The second test of this branch reads the flag it has just set to true, so it never holds.
      if played == 1 && !growing' then (2, growing') else (1, growing')
    else
      (c, growing)
  }

  /** The state of the schedule after `k` continuing rounds of a fresh game (which starts at `(1, growing)`). */
  function Iterate(k: nat, max: int): (int, bool)
  {
    if k == 0 then (1, true)
    else
      var prev := Iterate(k - 1, max);
      NextHandSize(prev.0, prev.0, prev.1, max)
  }

  /** Reference schedule for `max >= 2`: period `2 * max - 1`, rising `1..max` then falling `max - 1..1`. */
  function ScheduleAt(k: nat, max: int): (n: int)
    requires max >= 2
    ensures 1 <= n <= max
  {
    var p := k % (2 * max - 1);
    if p < max then p + 1 else 2 * max - 1 - p
  }

  function GrowingAt(k: nat, max: int): bool
    requires max >= 2
  {
    k % (2 * max - 1) < max - 1
  }

  lemma ModStep(k: nat, period: int)
    requires period > 0 && k >= 1
    ensures (k - 1) % period == period - 1 ==> k % period == 0
    ensures (k - 1) % period < period - 1 ==> k % period == (k - 1) % period + 1
  {
    var q, r := (k - 1) / period, (k - 1) % period;
    assert k == q * period + r + 1;
    if r == period - 1 {
      assert k == (q + 1) * period;
      ModOfMultiple(q + 1, period);
    } else {
      ModOfSmallOffset(q, period, r + 1);
    }
  }

  lemma ModOfMultiple(q: int, period: int)
    requires period > 0 && q >= 0
    ensures (q * period) % period == 0
  {
    ModOfSmallOffset(q, period, 0);
  }

  lemma ModOfSmallOffset(q: int, period: int, s: int)
    requires period > 0 && q >= 0 && 0 <= s < period
    ensures (q * period + s) % period == s
  {
    var x := q * period + s;
    var q', s' := x / period, x % period;
    assert x == q' * period + s';
    var d := q - q';
    assert d * period == s' - s by {
      assert q * period - q' * period == (q - q') * period;
    }
    if d >= 1 {
      MulAtLeast(d, period);
    } else if d <= -1 {
      MulAtLeast(-d, period);
    }
  }

  lemma MulAtLeast(d: int, period: int)
    requires d >= 1 && period > 0
    ensures d * period >= period
  {
    assert d * period == (d - 1) * period + period;
    assert (d - 1) * period >= 0;
  }

  /** The global hand size follows the triangular schedule, with size 1 played twice at each trough. */
  lemma {:induction false} ScheduleMatches(k: nat, max: int)
    requires max >= 2
    ensures Iterate(k, max) == (ScheduleAt(k, max), GrowingAt(k, max))
    ensures ProgressionInv(Iterate(k, max).0, Iterate(k, max).1, max)
  {
    if k > 0 {
      ScheduleMatches(k - 1, max);
      ModStep(k, 2 * max - 1);
    }
  }

  /** Before the peak the size grows by one card per round. */
  lemma {:induction false} Rising(k: nat, max: int)
    requires 2 <= max && k < max
    ensures Iterate(k, max) == (k + 1, k + 1 < max)
  {
    if k > 0 {
      Rising(k - 1, max);
    }
  }

  /** The size reaches `max` after `max - 1` rounds. */
  lemma PeakReached(max: int)
    requires max >= 2
    ensures Iterate(max - 1, max).0 == max && !Iterate(max - 1, max).1
  {
    Rising(max - 1, max);
  }

  /** At the bottom of each cycle size 1 is played on two consecutive rounds, first shrinking, then growing. */
  lemma TroughRepeats(max: int)
    requires max >= 2
    ensures Iterate(2 * max - 2, max) == (1, false)
    ensures Iterate(2 * max - 1, max) == (1, true)
  {
    var period := 2 * max - 1;
    ScheduleMatches(period - 1, max);
    ModOfSmallOffset(0, period, period - 1);
    ScheduleMatches(period, max);
    ModOfMultiple(1, period);
  }

  /** Dealing takes one middle card plus `n` cards for each of `players` seats from the deck front. */
  predicate DealFits(players: int, n: int)
  {
    1 + players * n <= DeckSize
  }

  /** The round at the peak size can be dealt only when the seat count does not divide 40:
      with 2, 4 or 5 seats (and 1, 8, 10, 20 or 40) the deck runs out. */
  lemma PeakDealFits(players: int)
    requires players >= 1
    ensures DealFits(players, MaxHandSize(players)) <==> DeckSize % players != 0
  {
    var m := MaxHandSize(players);
    assert DeckSize == players * m + DeckSize % players;
  }

  /** The schedule invariant does not guarantee a dealable round: two seats at the peak size satisfy it. */
  lemma ProgressionInvAllowsExhaustion()
    ensures ProgressionInv(20, false, MaxHandSize(2))
    ensures !DealFits(2, 20)
    ensures Iterate(19, MaxHandSize(2)) == (20, false)
  {
    PeakReached(20);
  }
}
