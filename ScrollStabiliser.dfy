/**
 The infinite-scroll loop of link.js: scroll to the bottom, count the
 scroll-control anchors, and stop as soon as the count repeats, the page
 height has stayed put for three scrolls in a row, or a page call fails.
 The browser is replaced by what it reports in each round of the loop: a
 `Cycle`.
 */
module ScrollStabiliser {
  import opened Wrappers

  /** `MAX_STABLE_SCROLL_ATTEMPTS` (link.js:15). */
  const MaxStableScrollAttempts: nat := 3

  /** What one round of the loop observes: the height before scrolling, the
      anchor count (`None` when the count query failed) and the height after.
      `Crashed` is a round in which a page call outside the count query threw
      (reading a height, scrolling, or the last scroll). */
  datatype Cycle = Cycle(heightBefore: int, count: Option<nat>, heightAfter: int) | Crashed

  datatype StopReason = CountUnchanged | HeightSettled

  /** How the loop ended and in which round; `OutOfInput` means the
      finitely many rounds given ran out before the loop stopped. */
  datatype Outcome = Stable(at: nat, reason: StopReason) | Errored(at: nat) | OutOfInput

  /** The loop's own variables: `previousScrollCtrlCount` and
      `stableScrollAttempts`. */
  datatype Stabiliser = Stabiliser(previous: int, stableAttempts: nat)

  datatype Decision = Stop(outcome: Outcome) | Continue(next: Stabiliser)

  /** `getElementCount` (link.js:17-27): the count, or -1 when the query
      threw. */
  function ElementCount(answer: Option<nat>): (r: int)
    ensures r == -1 <==> answer.None?
    ensures answer.Some? ==> r >= 0 && r == answer.value
  {
    if answer.Some? then answer.value else -1
  }

  /** One round of the loop (link.js:55-104). */
  function Step(s: Stabiliser, c: Cycle, i: nat): Decision {
    match c
    case Crashed => Stop(Errored(i))
    case Cycle(before, count, after) =>
      var current := ElementCount(count);
      if current == -1 then Stop(Errored(i))
      else if s.previous != -1 && current == s.previous then Stop(Stable(i, CountUnchanged))
      else
        var attempts := if after == before then s.stableAttempts + 1 else 0;
        if attempts >= MaxStableScrollAttempts then Stop(Stable(i, HeightSettled))
        else Continue(Stabiliser(current, attempts))
  }

  /** The loop from round `i` on. */
  function Run(cs: seq<Cycle>, i: nat, s: Stabiliser): Outcome
    decreases |cs| - i
  {
    if i >= |cs| then OutOfInput
    else
      match Step(s, cs[i], i)
      case Stop(o) => o
      case Continue(t) => Run(cs, i + 1, t)
  }

  /** The whole loop, from the initial `-1` count and zero attempts. */
  function Stabilise(cs: seq<Cycle>): Outcome {
    Run(cs, 0, Stabiliser(-1, 0))
  }

  // A reference description of when the loop stops, round by round, in
  // terms of the observations alone.

  predicate Fails(cs: seq<Cycle>, i: nat)
    requires i < |cs|
  {
    cs[i].Crashed? || cs[i].count.None?
  }

  /** Round `i` finds the same count as round `i - 1`; round 0 has nothing to
      compare with. */
  predicate CountRepeats(cs: seq<Cycle>, i: nat)
    requires i < |cs|
  {
    1 <= i && cs[i].Cycle? && cs[i - 1].Cycle? && cs[i].count.Some? && cs[i].count == cs[i - 1].count
  }

  predicate Flat(cs: seq<Cycle>, i: nat)
    requires i < |cs|
  {
    cs[i].Cycle? && cs[i].heightAfter == cs[i].heightBefore
  }

  /** The number of consecutive rounds ending at `i` whose scroll left the
      height unchanged. */
  function FlatRun(cs: seq<Cycle>, i: nat): nat
    requires i < |cs|
  {
    if !Flat(cs, i) then 0 else if i == 0 then 1 else 1 + FlatRun(cs, i - 1)
  }

  predicate StopsAt(cs: seq<Cycle>, i: nat)
    requires i < |cs|
  {
    Fails(cs, i) || CountRepeats(cs, i) || FlatRun(cs, i) >= MaxStableScrollAttempts
  }

  /** The outcome of a round that stops; a failure takes precedence over
      a repeated count, which takes precedence over a settled height. */
  function Verdict(cs: seq<Cycle>, i: nat): Outcome
    requires i < |cs|
  {
    if Fails(cs, i) then Errored(i)
    else if CountRepeats(cs, i) then Stable(i, CountUnchanged)
    else Stable(i, HeightSettled)
  }

  /** The loop state on entering round `i` when no earlier round stopped. */
  predicate Entering(cs: seq<Cycle>, i: nat, s: Stabiliser)
    requires i <= |cs|
  {
    && (forall j :: 0 <= j < i ==> !StopsAt(cs, j))
    && (i == 0 ==> s == Stabiliser(-1, 0))
    && (i > 0 ==>
          && cs[i - 1].Cycle? && cs[i - 1].count.Some?
          && s == Stabiliser(cs[i - 1].count.value, FlatRun(cs, i - 1)))
  }

  /** One round agrees with the reference: it stops exactly when `StopsAt`
      holds, with the `Verdict`, and otherwise enters the next round in the
      expected state. */
  lemma StepAgrees(cs: seq<Cycle>, i: nat, s: Stabiliser)
    requires i < |cs| && Entering(cs, i, s)
    ensures Step(s, cs[i], i).Stop? <==> StopsAt(cs, i)
    ensures Step(s, cs[i], i).Stop? ==> Step(s, cs[i], i).outcome == Verdict(cs, i)
    ensures Step(s, cs[i], i).Continue? ==> Entering(cs, i + 1, Step(s, cs[i], i).next)
  {
    if !Fails(cs, i) && !CountRepeats(cs, i) {
      if i > 0 {
        assert cs[i].count.value != s.previous;
      }
      var d := Step(s, cs[i], i);
      if d.Continue? {
        forall j | 0 <= j < i + 1
          ensures !StopsAt(cs, j)
        {
        }
      }
    }
  }

  /** From any round entered in the expected state, the loop stops at the
      first round at which the reference says it stops, with the reference's
      verdict, and runs out of input when there is no such round. */
  lemma {:induction false} RunAgrees(cs: seq<Cycle>, i: nat, s: Stabiliser)
    requires i <= |cs| && Entering(cs, i, s)
    ensures Run(cs, i, s).OutOfInput? <==> forall j :: i <= j < |cs| ==> !StopsAt(cs, j)
    ensures !Run(cs, i, s).OutOfInput? ==>
      var k := Run(cs, i, s).at;
      && i <= k < |cs| && StopsAt(cs, k)
      && (forall j :: 0 <= j < k ==> !StopsAt(cs, j))
      && Run(cs, i, s) == Verdict(cs, k)
    decreases |cs| - i
  {
    if i < |cs| {
      StepAgrees(cs, i, s);
      var d := Step(s, cs[i], i);
      if d.Continue? {
        RunAgrees(cs, i + 1, d.next);
      }
    }
  }

  /** The loop stops at the first round that fails, repeats the previous
      count or completes three flat scrolls in a row, and only there. */
  lemma StabiliseIsFirstStop(cs: seq<Cycle>)
    ensures Stabilise(cs).OutOfInput? <==> forall j :: 0 <= j < |cs| ==> !StopsAt(cs, j)
    ensures !Stabilise(cs).OutOfInput? ==>
      var k := Stabilise(cs).at;
      && k < |cs| && StopsAt(cs, k)
      && (forall j :: 0 <= j < k ==> !StopsAt(cs, j))
      && Stabilise(cs) == Verdict(cs, k)
  {
    RunAgrees(cs, 0, Stabiliser(-1, 0));
  }

  /** Rounds after the one the loop stops at are never looked at. */
  lemma StabiliseIgnoresLaterRounds(cs: seq<Cycle>, more: seq<Cycle>)
    requires !Stabilise(cs).OutOfInput?
    ensures Stabilise(cs + more) == Stabilise(cs)
  {
    StabiliseIsFirstStop(cs);
    StabiliseIsFirstStop(cs + more);
    var k := Stabilise(cs).at;
    forall j | 0 <= j <= k
      ensures StopsAt(cs + more, j) == StopsAt(cs, j)
    {
      assert (cs + more)[j] == cs[j];
      if j > 0 {
        assert (cs + more)[j - 1] == cs[j - 1];
      }
      FlatRunPrefix(cs, more, j);
    }
  }

  /** The flat-scroll run at a round depends only on the rounds up to it. */
  lemma {:induction false} FlatRunPrefix(cs: seq<Cycle>, more: seq<Cycle>, j: nat)
    requires j < |cs|
    ensures FlatRun(cs + more, j) == FlatRun(cs, j)
  {
    assert (cs + more)[j] == cs[j];
    if j > 0 && Flat(cs, j) {
      FlatRunPrefix(cs, more, j - 1);
    }
  }

  /** Counts 5, 8, 8 with a growing page: the repeated 8 ends the loop in
      the third round. */
  lemma RepeatedCountStops()
    ensures Stabilise([Cycle(100, Some(5), 200), Cycle(200, Some(8), 300), Cycle(300, Some(8), 400)])
         == Stable(2, CountUnchanged)
  {
  }

  /** A count that drops is only warned about: the loop goes on. */
  lemma DroppedCountContinues()
    ensures Stabilise([Cycle(100, Some(8), 200), Cycle(200, Some(5), 300)]) == OutOfInput
  {
  }

  /** Three scrolls in a row that leave the height unchanged end the loop
      even while the count keeps growing; a change in between resets the
      tally. */
  lemma FlatScrollsSettle()
    ensures Stabilise([Cycle(500, Some(1), 500), Cycle(500, Some(2), 500), Cycle(500, Some(3), 500)])
         == Stable(2, HeightSettled)
    ensures Stabilise([Cycle(500, Some(1), 500), Cycle(500, Some(2), 600), Cycle(600, Some(3), 600),
                       Cycle(600, Some(4), 600)]) == OutOfInput
  {
  }

  /** The `while (true)` loop of link.js:55-105, run over the given rounds. */
  method ScrollUntilStable(cycles: seq<Cycle>) returns (outcome: Outcome)
    ensures outcome == Stabilise(cycles)
  {
    var previousScrollCtrlCount := -1;
    var stableScrollAttempts := 0;
    var i := 0;
    while i < |cycles|
      invariant 0 <= i <= |cycles|
      invariant Run(cycles, i, Stabiliser(previousScrollCtrlCount, stableScrollAttempts)) == Stabilise(cycles)
      decreases |cycles| - i
    {
      var cycle := cycles[i];
      if cycle.Crashed? {
        return Errored(i);
      }
      var lastKnownHeight := cycle.heightBefore;
      var currentScrollCtrlCount := ElementCount(cycle.count);
      if currentScrollCtrlCount == -1 {
        return Errored(i);
      }
      if previousScrollCtrlCount != -1 {
        if currentScrollCtrlCount > previousScrollCtrlCount {
        } else if currentScrollCtrlCount == previousScrollCtrlCount {
          return Stable(i, CountUnchanged);
        }
      }
      previousScrollCtrlCount := currentScrollCtrlCount;
      var newHeight := cycle.heightAfter;
      if newHeight == lastKnownHeight {
        stableScrollAttempts := stableScrollAttempts + 1;
        if stableScrollAttempts >= MaxStableScrollAttempts {
          return Stable(i, HeightSettled);
        }
      } else {
        stableScrollAttempts := 0;
      }
      i := i + 1;
    }
    return OutOfInput;
  }
}
