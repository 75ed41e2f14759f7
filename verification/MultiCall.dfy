/** Executing several service function calls of one request, one after another or in parallel.

    In parallel, all calls are started before any of them is answered: the part of a call up to its
    first wait runs at once, and the rest after all calls have been started. */
module MultiCall {
  import opened Common

  const ERRORS_START := 300
  const BAD_REQUEST := 400

  datatype Response = Response(statusCode: int, body: string)

  /** A call of a function of this service, with what the function answers when it is executed, or a
      call of another service that is denied without a wait. */
  datatype Call = Local(id: string, answer: Response) | Denied(id: string, reason: string)

  function Answer(c: Call): Response {
    match c
    case Local(_, answer) => answer
    case Denied(_, reason) => Response(BAD_REQUEST, reason)
  }

  predicate Fails(c: Call) {
    Answer(c).statusCode >= ERRORS_START
  }

  predicate AnyFails(calls: seq<Call>) {
    exists c :: c in calls && Fails(c)
  }

  /** The call identifiers are the keys of an object. */
  ghost predicate DistinctIds(calls: seq<Call>) {
    forall i, j :: 0 <= i < j < |calls| ==> calls[i].id != calls[j].id
  }

  // ---------------------------------------------------------------------------------------------
  // What answering calls leaves behind
  // ---------------------------------------------------------------------------------------------

  datatype Log = Log(error: Option<Response>, responses: map<string, Response>, codes: seq<int>)

  function Recorded(log: Log, c: Call): Log {
    Log(if Fails(c) then Some(Answer(c)) else log.error,
        log.responses[c.id := Answer(c)],
        log.codes + [Answer(c).statusCode])
  }

  /** The calls are given in the order in which they are answered. */
  function Answered(calls: seq<Call>): Log {
    if calls == [] then Log(None, map[], [])
    else Recorded(Answered(calls[..|calls| - 1]), calls[|calls| - 1])
  }

  lemma {:induction false} CodeOf(calls: seq<Call>, i: nat)
    requires i < |calls|
    ensures |Answered(calls).codes| == |calls| && Answered(calls).codes[i] == Answer(calls[i]).statusCode
    decreases |calls|
  {
    var init := calls[..|calls| - 1];
    if i < |init| {
      CodeOf(init, i);
    } else if init != [] {
      CodeOf(init, 0);
    }
  }

  predicate HasResponse(log: Log, c: Call) {
    c.id in log.responses && log.responses[c.id] == Answer(c)
  }

  lemma {:induction false} ResponseOf(calls: seq<Call>, i: nat)
    requires DistinctIds(calls) && i < |calls|
    ensures HasResponse(Answered(calls), calls[i])
    decreases |calls|
  {
    var init := calls[..|calls| - 1];
    if i < |init| {
      ResponseOf(init, i);
      assert calls[i].id != calls[|init|].id;
    }
  }

  lemma {:induction false} ResponseHasCall(calls: seq<Call>, id: string)
    requires id in Answered(calls).responses
    ensures exists i :: 0 <= i < |calls| && calls[i].id == id
    decreases |calls|
  {
    var init := calls[..|calls| - 1];
    if calls[|init|].id != id {
      ResponseHasCall(init, id);
      var i :| 0 <= i < |init| && init[i].id == id;
      assert calls[i].id == id;
    }
  }

  lemma {:induction false} ResponseCount(calls: seq<Call>)
    requires DistinctIds(calls)
    ensures |Answered(calls).responses| == |calls|
    decreases |calls|
  {
    if calls == [] {
    } else {
      var init, last := calls[..|calls| - 1], calls[|calls| - 1];
      ResponseCount(init);
      if last.id in Answered(init).responses {
        ResponseHasCall(init, last.id);
        assert false;
      }
      assert Answered(calls).responses.Keys == Answered(init).responses.Keys + {last.id};
    }
  }

  lemma {:induction false} ErrorMeansFailedCall(calls: seq<Call>)
    ensures Answered(calls).error.Some? <==> AnyFails(calls)
    decreases |calls|
  {
    if calls == [] {
    } else {
      var init := calls[..|calls| - 1];
      ErrorMeansFailedCall(init);
      assert calls == init + [calls[|init|]];
    }
  }

  lemma AnyFailsExactly(calls: seq<Call>)
    ensures AnyFails(calls) <==>
            exists i :: 0 <= i < |calls| && (calls[i].Denied? || calls[i].answer.statusCode >= 300)
  {
    if AnyFails(calls) {
      var c :| c in calls && Fails(c);
      var i :| 0 <= i < |calls| && calls[i] == c;
      assert calls[i].Denied? || calls[i].answer.statusCode >= 300;
    }
    if i :| 0 <= i < |calls| && (calls[i].Denied? || calls[i].answer.statusCode >= 300) {
      assert calls[i] in calls && Fails(calls[i]);
    }
  }

  /** The log has the response of a local call as its function gave it, and status 400 with the reason for a
      denied call. */
  predicate HasAnswer(log: Log, c: Call, code: int) {
    && c.id in log.responses
    && (c.Local? ==> log.responses[c.id] == c.answer && code == c.answer.statusCode)
    && (c.Denied? ==> log.responses[c.id] == Response(400, c.reason) && code == 400)
  }

  /** Responses and status codes correspond to the answered calls one to one, and an error is recorded
      exactly when one of them was denied or answered with status 300 or higher. */
  lemma AnsweredOneToOne(calls: seq<Call>)
    requires DistinctIds(calls)
    ensures |Answered(calls).codes| == |calls| == |Answered(calls).responses|
    ensures forall i :: 0 <= i < |calls| ==> HasAnswer(Answered(calls), calls[i], Answered(calls).codes[i])
    ensures Answered(calls).error.Some? <==>
            exists i :: 0 <= i < |calls| && (calls[i].Denied? || calls[i].answer.statusCode >= 300)
  {
    ErrorMeansFailedCall(calls);
    AnyFailsExactly(calls);
    ResponseCount(calls);
    forall i | 0 <= i < |calls|
      ensures |Answered(calls).codes| == |calls|
      ensures HasAnswer(Answered(calls), calls[i], Answered(calls).codes[i])
    {
      CodeOf(calls, i);
      ResponseOf(calls, i);
    }
  }

  /** The largest status code; none if there was no call. */
  function ReportedStatus(codes: seq<int>): (r: Option<int>)
    ensures r.None? <==> codes == []
    ensures r.Some? ==> r.value in codes && forall i :: 0 <= i < |codes| ==> codes[i] <= r.value
  {
    if codes == [] then None
    else
      var rest := ReportedStatus(codes[..|codes| - 1]);
      if rest.Some? && rest.value > codes[|codes| - 1] then rest else Some(codes[|codes| - 1])
  }

  /** The reported status is an error exactly when an answered call failed. */
  lemma {:induction false} ReportedErrorMeansFailedCall(calls: seq<Call>)
    requires DistinctIds(calls) && calls != []
    ensures ReportedStatus(Answered(calls).codes).Some?
    ensures ReportedStatus(Answered(calls).codes).value >= 300 <==>
            exists i :: 0 <= i < |calls| && (calls[i].Denied? || calls[i].answer.statusCode >= 300)
  {
    AnsweredOneToOne(calls);
    AnyFailsExactly(calls);
    var codes := Answered(calls).codes;
    var r := ReportedStatus(codes);
    var j :| 0 <= j < |codes| && codes[j] == r.value;
    assert calls[j] in calls;
    CodeOf(calls, j);
    if AnyFails(calls) {
      var c :| c in calls && Fails(c);
      var i :| 0 <= i < |calls| && calls[i] == c;
      CodeOf(calls, i);
      assert codes[i] <= r.value;
    }
  }

  // ---------------------------------------------------------------------------------------------
  // The order of the answers
  // ---------------------------------------------------------------------------------------------

  lemma {:induction false} DistinctMeansOnce(calls: seq<Call>, c: Call)
    requires DistinctIds(calls)
    ensures multiset(calls)[c] <= 1
    decreases |calls|
  {
    if calls == [] {
    } else {
      var init, last := calls[..|calls| - 1], calls[|calls| - 1];
      DistinctMeansOnce(init, c);
      assert calls == init + [last];
      assert multiset(calls) == multiset(init) + multiset{last};
      assert forall i :: 0 <= i < |init| ==> init[i] == calls[i] && calls[i].id != last.id;
    }
  }

  lemma PermutedIdsAreDistinct(calls: seq<Call>, order: seq<Call>)
    requires DistinctIds(calls) && multiset(order) == multiset(calls)
    ensures DistinctIds(order)
  {
    forall i, j | 0 <= i < j < |order|
      ensures order[i].id != order[j].id
    {
      var c := order[i];
      assert c in multiset(calls) && order[j] in multiset(calls);
      if order[j] == c {
        assert order == order[..j] + order[j..];
        assert multiset(order) == multiset(order[..j]) + multiset(order[j..]);
        assert order[..j][i] == c && order[j..][0] == c;
        DistinctMeansOnce(calls, c);
      } else {
        var k, l :| 0 <= k < |calls| && 0 <= l < |calls| && calls[k] == c && calls[l] == order[j];
        assert calls[k].id != calls[l].id;
      }
    }
  }

  /** The order in which calls are answered changes neither the responses, nor the reported status, nor
      whether there was an error. */
  lemma OrderDoesNotMatter(calls: seq<Call>, order: seq<Call>)
    requires DistinctIds(calls) && multiset(order) == multiset(calls)
    ensures Answered(order).responses == Answered(calls).responses
    ensures ReportedStatus(Answered(order).codes) == ReportedStatus(Answered(calls).codes)
    ensures Answered(order).error.Some? <==> Answered(calls).error.Some?
  {
    PermutedIdsAreDistinct(calls, order);
    PermutedMembers(calls, order);
    PermutedMembers(order, calls);
    SameError(calls, order);
    SameResponses(order, calls);
    SameResponses(calls, order);
    ReportedAtMost(order, calls);
    ReportedAtMost(calls, order);
  }

  lemma PermutedMembers(calls: seq<Call>, order: seq<Call>)
    requires multiset(order) == multiset(calls)
    ensures forall c :: c in order ==> c in calls
  {
    forall c | c in order
      ensures c in calls
    {
      assert c in multiset(order);
    }
  }

  lemma SameError(calls: seq<Call>, order: seq<Call>)
    requires (forall c :: c in order ==> c in calls) && (forall c :: c in calls ==> c in order)
    ensures Answered(order).error.Some? <==> Answered(calls).error.Some?
  {
    ErrorMeansFailedCall(calls);
    ErrorMeansFailedCall(order);
  }

  lemma SameResponses(order: seq<Call>, calls: seq<Call>)
    requires DistinctIds(calls) && DistinctIds(order) && forall c :: c in order ==> c in calls
    ensures forall id :: id in Answered(order).responses ==>
              id in Answered(calls).responses && Answered(calls).responses[id] == Answered(order).responses[id]
  {
    forall id | id in Answered(order).responses
      ensures id in Answered(calls).responses && Answered(calls).responses[id] == Answered(order).responses[id]
    {
      ResponseHasCall(order, id);
      var i :| 0 <= i < |order| && order[i].id == id;
      ResponseOf(order, i);
      assert order[i] in calls;
      var j :| 0 <= j < |calls| && calls[j] == order[i];
      ResponseOf(calls, j);
    }
  }

  lemma ReportedAtMost(order: seq<Call>, calls: seq<Call>)
    requires forall c :: c in order ==> c in calls
    ensures var r, s := ReportedStatus(Answered(order).codes), ReportedStatus(Answered(calls).codes);
            r.Some? ==> s.Some? && r.value <= s.value
  {
    var r := ReportedStatus(Answered(order).codes);
    if r.Some? {
      var i :| 0 <= i < |Answered(order).codes| && Answered(order).codes[i] == r.value;
      CodeCount(order);
      CodeOf(order, i);
      assert order[i] in calls;
      var j :| 0 <= j < |calls| && calls[j] == order[i];
      CodeOf(calls, j);
    }
  }

  lemma {:induction false} CodeCount(calls: seq<Call>)
    ensures |Answered(calls).codes| == |calls|
  {
    if calls == [] {
    } else {
      CodeOf(calls, 0);
    }
  }

  // ---------------------------------------------------------------------------------------------
  // Which calls are answered
  // ---------------------------------------------------------------------------------------------

  /** One after another: those up to and including the first that fails. */
  function Executed(calls: seq<Call>): (n: nat)
    ensures n <= |calls| && (forall i :: 0 <= i < n - 1 ==> !Fails(calls[i]))
    ensures n == |calls| || (n > 0 && Fails(calls[n - 1]))
  {
    if calls == [] then 0
    else if Fails(calls[0]) then 1
    else
      assert forall i :: 1 <= i < |calls| ==> calls[i] == calls[1..][i - 1];
      1 + Executed(calls[1..])
  }

  /** In parallel: those up to and including the first that is denied. */
  function Started(calls: seq<Call>): (n: nat)
    ensures n <= |calls| && (forall i :: 0 <= i < n - 1 ==> calls[i].Local?)
    ensures n == |calls| || (n > 0 && calls[n - 1].Denied?)
  {
    if calls == [] then 0
    else if calls[0].Denied? then 1
    else
      assert forall i :: 1 <= i < |calls| ==> calls[i] == calls[1..][i - 1];
      1 + Started(calls[1..])
  }

  /** One after another, the reported status is that of the first failing call. */
  lemma SequentialReportsFirstFailure(calls: seq<Call>, k: nat)
    requires DistinctIds(calls)
    requires k < |calls| && (calls[k].Denied? || calls[k].answer.statusCode >= 300)
    requires forall i :: 0 <= i < k ==> calls[i].Local? && calls[i].answer.statusCode < 300
    ensures Executed(calls) == k + 1
    ensures ReportedStatus(Answered(calls[..k + 1]).codes)
            == Some(if calls[k].Denied? then 400 else calls[k].answer.statusCode)
  {
    var prefix := calls[..k + 1];
    CodeOf(prefix, k);
    var codes := Answered(prefix).codes;
    var r := ReportedStatus(codes);
    var j :| 0 <= j < |codes| && codes[j] == r.value;
    CodeOf(prefix, j);
  }

  /** In parallel a call is skipped only behind a denied one; a failure of a local call skips nothing. */
  lemma LocalCallsAreNotSkipped(calls: seq<Call>, i: nat)
    requires i < |calls|
    ensures i >= Started(calls) <==> exists j :: 0 <= j < i && calls[j].Denied?
  {
    if i >= Started(calls) {
      assert calls[Started(calls) - 1].Denied?;
    }
  }

  lemma TakeOut(calls: seq<Call>, k: nat)
    requires k < |calls|
    ensures multiset(calls) == multiset(calls[..k] + calls[k + 1..]) + multiset{calls[k]}
  {
    assert calls == calls[..k] + [calls[k]] + calls[k + 1..];
  }

  lemma AppendRecorded(calls: seq<Call>, c: Call)
    ensures Answered(calls + [c]) == Recorded(Answered(calls), c)
    ensures multiset(calls + [c]) == multiset(calls) + multiset{c}
  {
    assert (calls + [c])[..|calls|] == calls;
  }

  class Execution {
    var possibleErrorResponse: Option<Response>
    var responses: map<string, Response>
    var statusCodes: seq<int>

    constructor ()
      ensures State() == Answered([])
    {
      possibleErrorResponse, responses, statusCodes := None, map[], [];
    }

    function State(): Log
      reads this
    {
      Log(possibleErrorResponse, responses, statusCodes)
    }

    /** What a call does once it has its answer. */
    method Record(c: Call)
      modifies this
      ensures State() == Recorded(old(State()), c)
    {
      var response := Answer(c);
      responses := responses[c.id := response];
      if response.statusCode >= ERRORS_START {
        possibleErrorResponse := Some(response);
      }
      statusCodes := statusCodes + [response.statusCode];
    }

    /** One call after another. */
    method ExecuteSequentially(calls: seq<Call>)
      requires State() == Answered([])
      modifies this
      ensures State() == Answered(calls[..Executed(calls)])
    {
      ghost var n := 0;
      for i := 0 to |calls|
        invariant n <= i && n <= Executed(calls) && State() == Answered(calls[..n])
        invariant possibleErrorResponse.None? ==> n == i && forall j :: 0 <= j < n ==> !Fails(calls[j])
        invariant possibleErrorResponse.Some? ==> n == Executed(calls)
      {
        if possibleErrorResponse.None? {
          Record(calls[i]);
          n := i + 1;
          assert calls[..n][..i] == calls[..i];
        }
      }
    }

    /** All calls are started in order; those that are not answered at once are pending. */
    method StartAll(calls: seq<Call>) returns (pending: seq<Call>, ghost order: seq<Call>)
      requires State() == Answered([])
      modifies this
      ensures State() == Answered(order) && pending + order == calls[..Started(calls)]
    {
      order, pending := [], [];
      ghost var n := 0;
      for i := 0 to |calls|
        invariant n <= i && State() == Answered(order) && pending + order == calls[..n]
        invariant possibleErrorResponse.None? ==> order == [] && n == i && forall j :: 0 <= j < n ==> calls[j].Local?
        invariant possibleErrorResponse.Some? ==> n == Started(calls)
      {
        if possibleErrorResponse.None? {
          if calls[i].Denied? {
            Record(calls[i]);
            order := [calls[i]];
          } else {
            pending := pending + [calls[i]];
          }
          n := i + 1;
        }
      }
    }

    /** Pending calls are answered in any order. */
    method AnswerAll(calls: seq<Call>, ghost before: seq<Call>) returns (ghost order: seq<Call>)
      requires State() == Answered(before)
      modifies this
      ensures State() == Answered(order)
      ensures multiset(order) == multiset(before) + multiset(calls)
    {
      order := before;
      var pending := calls;
      while pending != []
        invariant State() == Answered(order)
        invariant multiset(pending) + multiset(order) == multiset(before) + multiset(calls)
        decreases |pending|
      {
        var k: nat :| k < |pending|;
        Record(pending[k]);
        TakeOut(pending, k);
        AppendRecorded(order, pending[k]);
        order := order + [pending[k]];
        pending := pending[..k] + pending[k + 1..];
      }
    }

    method ExecuteInParallel(calls: seq<Call>) returns (ghost order: seq<Call>)
      requires State() == Answered([])
      modifies this
      ensures State() == Answered(order)
      ensures multiset(order) == multiset(calls[..Started(calls)])
    {
      var pending;
      pending, order := StartAll(calls);
      assert multiset(calls[..Started(calls)]) == multiset(pending) + multiset(order);
      order := AnswerAll(pending, order);
    }
  }
}
