/** Sequences of requests against the queue. Node runs each handler body of
    index.js to completion before the next one starts, so any interleaving
    of concurrent requests is some sequence of whole handler calls; this
    module replays such sequences and states what holds across calls. */
module QueueTraces {
  import opened JsValues
  import opened MatchQueue

  /** One authenticated request, already parsed into the fields its
      handler reads. */
  datatype Request =
    | AddRequest(userId: JsValue, name: JsValue)
    | RemoveRequest(userId: JsValue)
    | AssignRequest(count: JsValue)
    | ListRequest
    | MatchEndRequest(serverId: JsValue)

  datatype Response =
    | AddResponse(added: Result<nat>)
    | RemoveResponse(removed: Result<Removed>)
    | AssignResponse(batch: Result<seq<JsValue>>)
    | ListResponse(snapshot: seq<Player>)
    | MatchEndResponse(ack: Result<JsValue>)

  /** A response and the queue left behind. */
  datatype Served = Served(response: Response, queue: seq<Player>)

  /** The responses to a sequence of requests, in order, and the final queue. */
  datatype Trace = Trace(responses: seq<Response>, queue: seq<Player>)

  /** Routes one request to its handler: each request gets the response of
      its own route, and only add, remove and assign can change the queue. */
  function Handle(q: seq<Player>, req: Request): (s: Served)
    ensures req.AddRequest? <==> s.response.AddResponse?
    ensures req.RemoveRequest? <==> s.response.RemoveResponse?
    ensures req.AssignRequest? <==> s.response.AssignResponse?
    ensures req.ListRequest? <==> s.response.ListResponse?
    ensures req.MatchEndRequest? <==> s.response.MatchEndResponse?
    ensures req.AddRequest? ==> s.queue == AddTransition(q, req.userId, req.name).queue
    ensures req.RemoveRequest? ==> s.queue == RemoveTransition(q, req.userId).queue
    ensures req.AssignRequest? ==> s.queue == AssignTransition(q, req.count).queue
    ensures req.ListRequest? ==> s.response.snapshot == q
    ensures req.ListRequest? || req.MatchEndRequest? ==> s.queue == q
    ensures req.MatchEndRequest? ==> (s.response.ack.Ok? <==> Truthy(req.serverId))
    ensures req.AddRequest? ==> s.response.added == AddTransition(q, req.userId, req.name).result
    ensures req.RemoveRequest? ==> s.response.removed == RemoveTransition(q, req.userId).result
    ensures req.AssignRequest? ==> s.response.batch == AssignTransition(q, req.count).result
    ensures req.MatchEndRequest? ==> s.response.ack == AcknowledgeMatchEnd(req.serverId)
  {
    match req
    case AddRequest(userId, name) =>
      var s := AddTransition(q, userId, name);
      Served(AddResponse(s.result), s.queue)
    case RemoveRequest(userId) =>
      var s := RemoveTransition(q, userId);
      Served(RemoveResponse(s.result), s.queue)
    case AssignRequest(count) =>
      var s := AssignTransition(q, count);
      Served(AssignResponse(s.result), s.queue)
    case ListRequest =>
      Served(ListResponse(q), q)
    case MatchEndRequest(serverId) =>
      Served(MatchEndResponse(AcknowledgeMatchEnd(serverId)), q)
  }

  /** Every handler keeps the invariant. */
  lemma HandleKeepsInvariant(q: seq<Player>, req: Request)
    requires QueueInvariant(q)
    ensures QueueInvariant(Handle(q, req).queue)
  {
    match req
    case AddRequest(userId, name) => AddKeepsInvariant(q, userId, name);
    case RemoveRequest(userId) => RemoveKeepsInvariant(q, userId);
    case AssignRequest(count) => AssignKeepsInvariant(q, count);
    case ListRequest =>
    case MatchEndRequest(_) =>
  }

  /** Serves `reqs` one after another, starting from queue `q`. */
  function Replay(q: seq<Player>, reqs: seq<Request>): (t: Trace)
    ensures |t.responses| == |reqs|
    decreases |reqs|
  {
    if reqs == [] then Trace([], q)
    else
      var first := Handle(q, reqs[0]);
      var rest := Replay(first.queue, reqs[1..]);
      Trace([first.response] + rest.responses, rest.queue)
  }

  /** No sequence of requests breaks the invariant: no two entries ever
      share a `userId`. */
  lemma {:induction false} ReplayKeepsInvariant(q: seq<Player>, reqs: seq<Request>)
    requires QueueInvariant(q)
    ensures QueueInvariant(Replay(q, reqs).queue)
    decreases |reqs|
  {
    if reqs != [] {
      HandleKeepsInvariant(q, reqs[0]);
      ReplayKeepsInvariant(Handle(q, reqs[0]).queue, reqs[1..]);
    }
  }

  /** A successful add followed by a remove of the same `userId` returns
      the added record and restores the queue. */
  lemma AddThenRemove(q: seq<Player>, userId: JsValue, name: JsValue)
    requires AddTransition(q, userId, name).result.Ok?
    ensures Player(userId, name) in AddTransition(q, userId, name).queue
    ensures RemoveTransition(AddTransition(q, userId, name).queue, userId)
         == Step(Ok(Removed(Player(userId, name), |q|)), q)
    ensures !Queued(q, userId)
  {
    var q' := AddTransition(q, userId, name).queue;
    assert q' == q + [Player(userId, name)];
    var i := FirstIndex(q', userId);
    assert q'[|q|].userId == userId;
    assert forall j :: 0 <= j < |q| ==> q'[j] == q[j];
    assert i == |q|;
    assert q'[..i] + q'[i + 1..] == q;
  }

  /** Enrolment is not idempotent: adding a `userId` that is already
      queued is refused and leaves the queue as it was. */
  lemma AddTwiceRejected(q: seq<Player>, userId: JsValue, name: JsValue, name2: JsValue)
    requires AddTransition(q, userId, name).result.Ok?
    requires Truthy(name2)
    ensures var q' := AddTransition(q, userId, name).queue;
      AddTransition(q', userId, name2) == Step(Err(AlreadyQueued), q')
  {
    var q' := AddTransition(q, userId, name).queue;
    assert q'[|q|].userId == userId;
  }

  function Enrolments(players: seq<Player>): (reqs: seq<Request>)
    ensures |reqs| == |players|
    ensures forall i :: 0 <= i < |players| ==> reqs[i] == AddRequest(players[i].userId, players[i].name)
  {
    if players == [] then []
    else [AddRequest(players[0].userId, players[0].name)] + Enrolments(players[1..])
  }

  /** The first of several distinct new players is not queued yet, and
      after it joins the rest are still new. */
  lemma EnrolFirst(q: seq<Player>, players: seq<Player>)
    requires players != [] && UniqueIds(q + players)
    ensures !Queued(q, players[0].userId)
    ensures (q + [players[0]]) + players[1..] == q + players
  {
    assert (q + players)[|q|] == players[0];
    forall k | 0 <= k < |q|
      ensures q[k].userId != players[0].userId
    {
      assert (q + players)[k] == q[k];
    }
  }

  /** Enrolling players with distinct, valid `userId`s that are not yet
      queued: every add succeeds, each reports the queue length after it,
      and the players end up at the back in the order they came. */
  lemma {:induction false} DistinctEnrolmentsAllSucceed(q: seq<Player>, players: seq<Player>)
    requires forall i :: 0 <= i < |players| ==> Truthy(players[i].userId) && Truthy(players[i].name)
    requires UniqueIds(q + players)
    ensures Replay(q, Enrolments(players)).queue == q + players
    ensures forall i :: 0 <= i < |players| ==>
      Replay(q, Enrolments(players)).responses[i] == AddResponse(Ok(|q| + i + 1))
    decreases |players|
  {
    if players != [] {
      var p := players[0];
      var q' := q + [p];
      EnrolFirst(q, players);
      var reqs := Enrolments(players);
      assert reqs[0] == AddRequest(p.userId, p.name);
      assert reqs[1..] == Enrolments(players[1..]);
      assert AddTransition(q, p.userId, p.name) == Step(Ok(|q| + 1), q');
      var first := Handle(q, reqs[0]);
      assert first == Served(AddResponse(Ok(|q| + 1)), q');
      DistinctEnrolmentsAllSucceed(q', players[1..]);
      var rest := Replay(q', reqs[1..]);
      assert Replay(q, reqs) == Trace([first.response] + rest.responses, rest.queue);
      forall i | 1 <= i < |players|
        ensures Replay(q, reqs).responses[i] == AddResponse(Ok(|q| + i + 1))
      {
        assert Replay(q, reqs).responses[i] == rest.responses[i - 1];
      }
    }
  }

  /** Two batches cut one after the other from a list of distinct ids are
      disjoint, and together they are its front. */
  lemma ConsecutiveCutsDisjoint(ids: seq<JsValue>, a1: seq<JsValue>, rest1: seq<JsValue>, a2: seq<JsValue>, rest2: seq<JsValue>)
    requires NoDuplicates(ids)
    requires ids == a1 + rest1 && rest1 == a2 + rest2
    ensures a1 + a2 == ids[..|a1| + |a2|]
    ensures forall x :: x in a1 ==> x !in a2
  {
    assert ids == (a1 + a2) + rest2;
    forall i, j | 0 <= i < |a1| && 0 <= j < |a2|
      ensures a1[i] != a2[j]
    {
      assert a1[i] == ids[i] && a2[j] == ids[|a1| + j];
    }
  }

  /** Two assign calls in a row hand out disjoint sets of players, and
      together they hand out the front of the queue in FIFO order. */
  lemma ConsecutiveAssignsDisjoint(q: seq<Player>, count1: JsValue, count2: JsValue)
    requires QueueInvariant(q)
    requires AssignTransition(q, count1).result.Ok?
    requires AssignTransition(AssignTransition(q, count1).queue, count2).result.Ok?
    ensures var first := AssignTransition(q, count1);
      var second := AssignTransition(first.queue, count2);
      && first.result.value + second.result.value == Ids(q)[..|first.result.value| + |second.result.value|]
      && forall x :: x in first.result.value ==> x !in second.result.value
  {
    var first := AssignTransition(q, count1);
    var second := AssignTransition(first.queue, count2);
    UniqueIdsIffDistinct(q);
    ConsecutiveCutsDisjoint(Ids(q), first.result.value, Ids(first.queue), second.result.value, Ids(second.queue));
  }

  /** A batch larger than the queue is not an error: it takes everybody. */
  lemma AssignDrainsShortQueue(q: seq<Player>, count: int)
    requires 0 < count && |q| <= count
    ensures AssignTransition(q, Num(count)) == Step(Ok(Ids(q)), [])
  {
    assert q[..|q|] == q;
  }

  /** The queue after enrolling `a`, `b` and `c` in that order into an
      empty queue, when all three adds succeed. */
  function EnrolThree(a: Player, b: Player, c: Player): seq<Player>
  {
    var s1 := AddTransition([], a.userId, a.name);
    var s2 := AddTransition(s1.queue, b.userId, b.name);
    AddTransition(s2.queue, c.userId, c.name).queue
  }

  /** Three players with distinct valid ids enrol into an empty queue:
      the queue holds them in arrival order. */
  lemma EnrolThreeInOrder(a: Player, b: Player, c: Player)
    requires Truthy(a.userId) && Truthy(b.userId) && Truthy(c.userId)
    requires Truthy(a.name) && Truthy(b.name) && Truthy(c.name)
    requires a.userId != b.userId && b.userId != c.userId && a.userId != c.userId
    ensures EnrolThree(a, b, c) == [a, b, c]
  {
    assert !Queued([], a.userId);
    assert AddTransition([], a.userId, a.name).queue == [a];
    assert !Queued([a], b.userId);
    assert AddTransition([a], b.userId, b.name).queue == [a, b];
    assert !Queued([a, b], c.userId);
  }

  /** Three players enrol, then two are assigned: the first two come back
      in order and only the third is left. */
  lemma FifoScenario(a: Player, b: Player, c: Player)
    requires Truthy(a.userId) && Truthy(b.userId) && Truthy(c.userId)
    requires Truthy(a.name) && Truthy(b.name) && Truthy(c.name)
    requires a.userId != b.userId && b.userId != c.userId && a.userId != c.userId
    ensures AssignTransition(EnrolThree(a, b, c), Num(2)) == Step(Ok([a.userId, b.userId]), [c])
  {
    EnrolThreeInOrder(a, b, c);
    var abc := [a, b, c];
    assert abc[..2] == [a, b] && abc[2..] == [c];
    assert Ids([a, b]) == [a.userId, b.userId];
  }

  /** Three players enrol and the middle one withdraws: the list shows the
      other two in their original order. */
  lemma WithdrawScenario(a: Player, b: Player, c: Player)
    requires Truthy(a.userId) && Truthy(b.userId) && Truthy(c.userId)
    requires Truthy(a.name) && Truthy(b.name) && Truthy(c.name)
    requires a.userId != b.userId && b.userId != c.userId && a.userId != c.userId
    ensures RemoveTransition(EnrolThree(a, b, c), b.userId) == Step(Ok(Removed(b, 2)), [a, c])
  {
    EnrolThreeInOrder(a, b, c);
    var abc := [a, b, c];
    assert FirstIndex(abc, b.userId) == 1;
    assert abc[..1] + abc[2..] == [a, c];
  }
}
