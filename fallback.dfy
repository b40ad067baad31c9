/**
 * The source fallback of `fetchAuthorityTime`: the endpoints are tried in
 * their fixed order and the first valid instant wins.
 */
module Fallback {
  import opened Options

  /**
   * What one endpoint's attempt comes to. A transport failure, a failed
   * status, a payload without the expected field and any other exception
   * are all `Threw`; a parsed `Date` whose time value is NaN is
   * `InvalidDate`; otherwise the instant in milliseconds since the epoch.
   */
  datatype Outcome = Threw | InvalidDate | Valid(instant: int)

  /** The instant of the first endpoint with a valid outcome, if any. */
  function FirstValid(outcomes: seq<Outcome>): Option<int>
  {
    if outcomes == [] then None
    else if outcomes[0].Valid? then Some(outcomes[0].instant)
    else FirstValid(outcomes[1..])
  }

  /** Endpoint `i` is the one that answers: valid, and every earlier one failed. */
  predicate WinsAt(outcomes: seq<Outcome>, i: int)
  {
    0 <= i < |outcomes| && outcomes[i].Valid? &&
    forall j :: 0 <= j < i ==> !outcomes[j].Valid?
  }

  /** `FirstValid` answers with the winning endpoint's instant, and with `None` exactly when none is valid. */
  lemma {:induction false} FirstValidIsWinner(outcomes: seq<Outcome>)
    ensures FirstValid(outcomes).None? <==> forall j :: 0 <= j < |outcomes| ==> !outcomes[j].Valid?
    ensures forall i :: WinsAt(outcomes, i) ==> FirstValid(outcomes) == Some(outcomes[i].instant)
    decreases |outcomes|
  {
    if outcomes != [] {
      var rest := outcomes[1..];
      FirstValidIsWinner(rest);
      forall i | WinsAt(outcomes, i)
        ensures FirstValid(outcomes) == Some(outcomes[i].instant)
      {
        if i > 0 {
          assert WinsAt(rest, i - 1);
        }
      }
      if !outcomes[0].Valid? {
        assert forall j :: 1 <= j < |outcomes| ==> outcomes[j] == rest[j - 1];
      }
    }
  }

  /**
   * Endpoints that fail, whether they threw or gave an invalid date, only hand
   * over to the ones after them, however many there are.
   */
  lemma {:induction false} FailureHandsOver(failed: seq<Outcome>, later: seq<Outcome>)
    requires forall j :: 0 <= j < |failed| ==> !failed[j].Valid?
    ensures FirstValid(failed + later) == FirstValid(later)
    decreases |failed|
  {
    if failed == [] {
      assert failed + later == later;
    } else {
      assert (failed + later)[0] == failed[0];
      assert (failed + later)[1..] == failed[1..] + later;
      FailureHandsOver(failed[1..], later);
    }
  }

  /** Nothing after the winning endpoint affects the result. */
  lemma {:induction false} LaterOutcomesIgnored(outcomes: seq<Outcome>, i: nat, later: seq<Outcome>)
    requires WinsAt(outcomes, i)
    ensures FirstValid(outcomes[..i + 1] + later) == FirstValid(outcomes)
    decreases i
  {
    if i > 0 {
      assert WinsAt(outcomes[1..], i - 1);
      LaterOutcomesIgnored(outcomes[1..], i - 1, later);
      assert (outcomes[..i + 1] + later)[1..] == outcomes[1..][..i] + later;
    }
  }

  /**
   * The loop of `fetchAuthorityTime`. `consulted` counts the endpoints called:
   * the winner and those before it, or all of them when none answers.
   */
  method FetchAuthorityTime(endpoints: seq<Outcome>) returns (instant: Option<int>, ghost consulted: nat)
    ensures instant == FirstValid(endpoints)
    ensures consulted <= |endpoints|
    ensures instant.Some? ==> WinsAt(endpoints, consulted - 1) && instant.value == endpoints[consulted - 1].instant
    ensures instant.None? ==> consulted == |endpoints| && forall j :: 0 <= j < |endpoints| ==> !endpoints[j].Valid?
  {
    consulted := 0;
    for i := 0 to |endpoints|
      invariant consulted == i
      invariant forall j :: 0 <= j < i ==> !endpoints[j].Valid?
      invariant FirstValid(endpoints[i..]) == FirstValid(endpoints)
    {
      consulted := i + 1;
      match endpoints[i]
      case Valid(t) =>
        assert WinsAt(endpoints, i);
        return Some(t), consulted;
      case _ =>
        assert endpoints[i..][1..] == endpoints[i + 1..];
    }
    instant := None;
  }

  /** All endpoints failing gives `null`; a failing first endpoint hands over to the second. */
  lemma FallbackExamples(a: int, b: int)
    ensures FirstValid([Threw, Threw, Threw]) == None
    ensures FirstValid([Threw, Valid(a), Valid(b)]) == Some(a)
    ensures FirstValid([InvalidDate, InvalidDate, Valid(b)]) == Some(b)
  {
    FirstValidIsWinner([Threw, Threw, Threw]);
    assert WinsAt([Threw, Valid(a), Valid(b)], 1);
    FirstValidIsWinner([Threw, Valid(a), Valid(b)]);
    assert WinsAt([InvalidDate, InvalidDate, Valid(b)], 2);
    FirstValidIsWinner([InvalidDate, InvalidDate, Valid(b)]);
  }
}
