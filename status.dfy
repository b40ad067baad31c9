/**
 * The outcome of one reconciliation cycle (`updateOffsetStatus`): the status
 * line and the class it is shown with, from the authority's instant (or its
 * absence) and the local clock.
 */
module OffsetStatus {
  import opened Options
  import opened Offset
  import opened OffsetReadback
  import opened Fallback

  /** The class added to the status element next to `offset`. */
  datatype Severity = Ok | Warn | Bad

  datatype Status = Status(text: string, severity: Severity)

  /** What is shown when no endpoint gives a valid instant. */
  const Unavailable := Status("Sync: unavailable", Warn)

  /** The three-way branch on the absolute delta, with the exact offset in parentheses. */
  function AvailableStatus(delta: int): (st: Status)
    ensures st.severity == Ok <==> Abs(delta) < 2000
    ensures st.severity == Warn <==> 2000 <= Abs(delta) < 60000
    ensures st.severity == Bad <==> 60000 <= Abs(delta)
  {
    Classify(delta, FormatOffset(delta))
  }

  /** The branch of `updateOffsetStatus`, given the already formatted offset `exact`. */
  function Classify(delta: int, exact: string): (st: Status)
    ensures st.severity == Ok <==> Abs(delta) < 2000
    ensures st.severity == Warn <==> 2000 <= Abs(delta) < 60000
    ensures st.severity == Bad <==> 60000 <= Abs(delta)
  {
    var text := Lead(delta) + exact + ")";
    if Abs(delta) < 2000 then Status(text, Ok)
    else if Abs(delta) < 60000 then Status(text, Warn)
    else Status(text, Bad)
  }

  /** The status after the fetch: unavailable without an instant, else the classified delta. */
  function StatusFor(serverTime: Option<int>, localNow: int): Status
  {
    match serverTime
    case None => Unavailable
    case Some(t) => AvailableStatus(localNow - t)
  }

  /** The label in front of the exact offset, for each band and direction. */
  function Lead(delta: int): string
  {
    if Abs(delta) < 2000 then "In sync ("
    else if Abs(delta) < 60000 then (if delta > 0 then "Slightly ahead (" else "Slightly behind (")
    else (if delta > 0 then "Your clock is ahead (" else "Your clock is behind (")
  }

  lemma ClassifiedDirection(delta: int, exact: string)
    requires Abs(delta) >= 2000 && |exact| >= 2
    ensures var t := Classify(delta, exact).text;
      (t[..14] == "Slightly ahead" || t[..19] == "Your clock is ahead") <==> delta > 0
  {
    var t := Classify(delta, exact).text;
    var lead := Lead(delta);
    assert t[..|lead|] == lead;
    if delta <= 0 {
      if Abs(delta) < 60000 {
        assert t[..14][9] == lead[9] == 'b';
        assert t[..19][0] == lead[0] == 'S';
      } else {
        assert t[..19][14] == lead[14] == 'b';
        assert t[..14][0] == lead[0] == 'Y';
      }
    }
  }

  /**
   * Outside the in-sync band the text says "ahead" exactly when the local
   * clock is ahead of the authority, that is when the delta is positive.
   */
  lemma DirectionFollowsSign(delta: int)
    requires Abs(delta) >= 2000
    ensures var t := AvailableStatus(delta).text;
      (t[..14] == "Slightly ahead" || t[..19] == "Your clock is ahead") <==> delta > 0
  {
    ClassifiedDirection(delta, FormatOffset(delta));
  }

  lemma ClassifiedNotUnavailable(delta: int, exact: string)
    ensures Classify(delta, exact) != Unavailable
  {
    var t := Classify(delta, exact).text;
    var lead := Lead(delta);
    assert t[..|lead|] == lead;
    assert t[1] == lead[1] != 'y';
  }

  /** An available status never reads as the unavailable one. */
  lemma AvailableIsNotUnavailable(delta: int)
    ensures AvailableStatus(delta) != Unavailable
  {
    ClassifiedNotUnavailable(delta, FormatOffset(delta));
  }

  /** The five leads differ, so a text built from a lead and an offset gives back that offset. */
  lemma SameTextSameOffset(a: int, b: int, ea: string, eb: string)
    requires Lead(a) + ea + ")" == Lead(b) + eb + ")"
    ensures ea == eb
  {
    var t := Lead(a) + ea + ")";
    var la, lb := Lead(a), Lead(b);
    assert t[..|la|] == la;
    assert t[..|lb|] == lb;
    assert t[0] == la[0] == lb[0];
    if la[0] == 'S' {
      assert t[9] == la[9] == lb[9];
    } else if la[0] == 'Y' {
      assert t[14] == la[14] == lb[14];
    }
    var k := |la|;
    assert t[k..|t| - 1] == ea;
    assert t[k..|t| - 1] == eb;
  }

  lemma ClassifiedSplit(a: int, b: int, ea: string, eb: string)
    requires Classify(a, ea) == Classify(b, eb)
    ensures ea == eb
  {
    SameTextSameOffset(a, b, ea, eb);
  }

  /** The status line identifies the measured delta exactly. */
  lemma StatusIdentifiesDelta(a: int, b: int)
    requires AvailableStatus(a) == AvailableStatus(b)
    ensures a == b
  {
    ClassifiedSplit(a, b, FormatOffset(a), FormatOffset(b));
    FormatOffsetInjective(a, b);
  }

  /** The status is the unavailable one exactly when there is no authority time. */
  lemma UnavailableOnlyWithoutTime(serverTime: Option<int>, localNow: int)
    ensures StatusFor(serverTime, localNow) == Unavailable <==> serverTime.None?
  {
    if serverTime.Some? {
      AvailableIsNotUnavailable(localNow - serverTime.value);
    }
  }

  /** After the fallback loop the status is unavailable exactly when every endpoint failed. */
  lemma UnavailableOnlyWhenAllFail(endpoints: seq<Outcome>, localNow: int)
    ensures StatusFor(FirstValid(endpoints), localNow) == Unavailable <==>
      forall j :: 0 <= j < |endpoints| ==> !endpoints[j].Valid?
  {
    FirstValidIsWinner(endpoints);
    UnavailableOnlyWithoutTime(FirstValid(endpoints), localNow);
  }

  /** After the fallback loop the status classifies the winning endpoint's delta. */
  lemma WinnerDecidesStatus(endpoints: seq<Outcome>, localNow: int, i: int)
    requires WinsAt(endpoints, i)
    ensures StatusFor(FirstValid(endpoints), localNow) == AvailableStatus(localNow - endpoints[i].instant)
  {
    FirstValidIsWinner(endpoints);
    assert FirstValid(endpoints) == Some(endpoints[i].instant);
  }

  /**
   * One cycle of `updateOffsetStatus`: fetch in order, then show either the
   * unavailable status or the classified delta against the local clock.
   */
  method UpdateOffsetStatus(endpoints: seq<Outcome>, localNow: int) returns (st: Status)
    ensures st == StatusFor(FirstValid(endpoints), localNow)
    ensures st == Unavailable <==> forall j :: 0 <= j < |endpoints| ==> !endpoints[j].Valid?
    ensures forall i :: WinsAt(endpoints, i) ==> st == AvailableStatus(localNow - endpoints[i].instant)
  {
    var serverTime, _ := FetchAuthorityTime(endpoints);
    st := StatusFor(serverTime, localNow);
    UnavailableOnlyWhenAllFail(endpoints, localNow);
    forall i | WinsAt(endpoints, i)
      ensures st == AvailableStatus(localNow - endpoints[i].instant)
    {
      WinnerDecidesStatus(endpoints, localNow, i);
    }
  }
}
