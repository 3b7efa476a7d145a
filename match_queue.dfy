/** The matchmaking queue of index.js as values: the player records, the
    outcomes of the route handlers, and one transition function per handler
    that gives its response and the queue it leaves behind. The class in
    QueueServer implements these step by step. */
module MatchQueue {
  import opened JsValues

  /** One queue entry, `{ userId, name }`. The queue's order is its FIFO
      order; there is no timestamp. */
  datatype Player = Player(userId: JsValue, name: JsValue)

  /** The failing HTTP statuses: 400, 409 and 404. */
  datatype QueueError = InvalidInput | AlreadyQueued | NotQueued

  /** A handler's outcome: 200 with a payload, or one of the errors. */
  datatype Result<T> = Ok(value: T) | Err(error: QueueError)

  datatype Option<T> = None | Some(value: T)

  /** The payload of a successful removal: the spliced-out entry and the
      new queue length. */
  datatype Removed = Removed(player: Player, queueSize: nat)

  /** A handler's response together with the queue it leaves behind. */
  datatype Step<T> = Step(result: Result<T>, queue: seq<Player>)

  /** `q.map(p => p.userId)` */
  function Ids(q: seq<Player>): (ids: seq<JsValue>)
    ensures |ids| == |q|
    ensures forall i :: 0 <= i < |q| ==> ids[i] == q[i].userId
  {
    seq(|q|, i requires 0 <= i < |q| => q[i].userId)
  }

  lemma IdsConcat(a: seq<Player>, b: seq<Player>)
    ensures Ids(a + b) == Ids(a) + Ids(b)
  {
    assert forall i :: 0 <= i < |a + b| ==> Ids(a + b)[i] == (Ids(a) + Ids(b))[i];
  }

  predicate NoDuplicates(s: seq<JsValue>)
  {
    forall i, j :: 0 <= i < j < |s| ==> s[i] != s[j]
  }

  /** `UniqueIds` and `NoDuplicates` of the id list are the same property;
      they are kept apart so that reasoning about the queue does not go
      through `Ids`. */
  lemma UniqueIdsIffDistinct(q: seq<Player>)
    ensures UniqueIds(q) <==> NoDuplicates(Ids(q))
  {
  }

  /** Some entry of `q` has this `userId`. */
  predicate Queued(q: seq<Player>, id: JsValue)
  {
    exists i :: 0 <= i < |q| && q[i].userId == id
  }

  /** No two entries of `q` share a `userId`. */
  predicate UniqueIds(q: seq<Player>)
  {
    forall i, j :: 0 <= i < j < |q| ==> q[i].userId != q[j].userId
  }

  /** What every reachable queue satisfies: no two entries share a
      `userId`, and every entry passed the add route's validation. */
  predicate QueueInvariant(q: seq<Player>)
  {
    && UniqueIds(q)
    && forall i :: 0 <= i < |q| ==> Truthy(q[i].userId) && Truthy(q[i].name)
  }

  /** `q.findIndex(p => p.userId === id)`: the position of the first entry
      with that `userId`, or -1 when there is none. */
  function FirstIndex(q: seq<Player>, id: JsValue): (i: int)
    ensures -1 <= i < |q|
    ensures i == -1 <==> !Queued(q, id)
    ensures 0 <= i ==> q[i].userId == id
    ensures 0 <= i ==> forall j :: 0 <= j < i ==> q[j].userId != id
  {
    if q == [] then -1
    else if q[0].userId == id then 0
    else
      var k := FirstIndex(q[1..], id);
      assert forall j :: 1 <= j < |q| ==> q[j] == q[1..][j - 1];
      if k == -1 then -1 else k + 1
  }

  /** POST /queue/add. */
  function AddTransition(q: seq<Player>, userId: JsValue, name: JsValue): (s: Step<nat>)
    ensures s.result == Err(InvalidInput) <==> !Truthy(userId) || !Truthy(name)
    ensures s.result == Err(AlreadyQueued) <==> Truthy(userId) && Truthy(name) && Queued(q, userId)
    ensures s.result.Ok? <==> Truthy(userId) && Truthy(name) && !Queued(q, userId)
    ensures s.result.Err? ==> s.queue == q
    ensures s.result.Ok? ==>
      && |s.queue| == |q| + 1
      && s.queue[..|q|] == q
      && s.queue[|q|] == Player(userId, name)
      && s.result.value == |s.queue|
  {
    if !Truthy(userId) || !Truthy(name) then Step(Err(InvalidInput), q)
    else if Queued(q, userId) then Step(Err(AlreadyQueued), q)
    else
      var q' := q + [Player(userId, name)];
      Step(Ok(|q'|), q')
  }

  /** Add keeps the invariant: the duplicate check and the validation run
      before the push. */
  lemma AddKeepsInvariant(q: seq<Player>, userId: JsValue, name: JsValue)
    requires QueueInvariant(q)
    ensures QueueInvariant(AddTransition(q, userId, name).queue)
  {
    var s := AddTransition(q, userId, name);
    if s.result.Ok? {
      assert forall i :: 0 <= i < |q| ==> s.queue[i] == q[i] && q[i].userId != userId;
    }
  }

  /** POST /queue/remove. */
  function RemoveTransition(q: seq<Player>, userId: JsValue): (s: Step<Removed>)
    ensures s.result == Err(InvalidInput) <==> !Truthy(userId)
    ensures s.result == Err(NotQueued) <==> Truthy(userId) && !Queued(q, userId)
    ensures s.result.Ok? <==> Truthy(userId) && Queued(q, userId)
    ensures s.result.Err? ==> s.queue == q
    ensures s.result.Ok? ==>
      var i := FirstIndex(q, userId);
      && 0 <= i < |q|
      && s.result.value.player == q[i]
      && s.result.value.player.userId == userId
      && s.queue == q[..i] + q[i + 1..]
      && s.result.value.queueSize == |s.queue| == |q| - 1
    ensures s.result.Ok? ==> multiset(s.queue) + multiset{s.result.value.player} == multiset(q)
  {
    if !Truthy(userId) then Step(Err(InvalidInput), q)
    else
      var i := FirstIndex(q, userId);
      if i == -1 then Step(Err(NotQueued), q)
      else
        var rest := q[..i] + q[i + 1..];
        RemoveAtMultiset(q, i);
        Step(Ok(Removed(q[i], |rest|)), rest)
  }

  /** Remove keeps the invariant, and afterwards no entry has the removed
      `userId`, whichever way the call went. */
  lemma RemoveKeepsInvariant(q: seq<Player>, userId: JsValue)
    requires QueueInvariant(q)
    ensures QueueInvariant(RemoveTransition(q, userId).queue)
    ensures !Queued(RemoveTransition(q, userId).queue, userId)
  {
    if !Truthy(userId) {
      FalsyIdNotQueued(q, userId);
    } else {
      var i := FirstIndex(q, userId);
      if i != -1 {
        RemoveAtKeepsInvariant(q, i);
      }
    }
  }

  /** Every queued `userId` passed validation, so a falsy one is never
      queued. */
  lemma FalsyIdNotQueued(q: seq<Player>, id: JsValue)
    requires QueueInvariant(q) && !Truthy(id)
    ensures !Queued(q, id)
  {
    forall k | 0 <= k < |q|
      ensures q[k].userId != id
    {
      assert Truthy(q[k].userId);
    }
  }

  /** Splicing out position `i` loses exactly that one entry. */
  lemma RemoveAtMultiset(q: seq<Player>, i: nat)
    requires i < |q|
    ensures multiset(q[..i] + q[i + 1..]) + multiset{q[i]} == multiset(q)
  {
    assert q == q[..i] + [q[i]] + q[i + 1..];
  }

  /** Splicing out position `i` keeps the invariant and leaves no entry
      with the removed `userId`. */
  lemma {:induction false} RemoveAtKeepsInvariant(q: seq<Player>, i: nat)
    requires i < |q| && QueueInvariant(q)
    ensures QueueInvariant(q[..i] + q[i + 1..])
    ensures !Queued(q[..i] + q[i + 1..], q[i].userId)
  {
    var rest := q[..i] + q[i + 1..];
    forall k | 0 <= k < |rest|
      ensures rest[k] == q[if k < i then k else k + 1]
    {
    }
    forall a, b | 0 <= a < b < |rest|
      ensures rest[a].userId != rest[b].userId
    {
      var a', b' := (if a < i then a else a + 1), (if b < i then b else b + 1);
      assert rest[a] == q[a'] && rest[b] == q[b'];
    }
    forall k | 0 <= k < |rest|
      ensures rest[k].userId != q[i].userId
    {
      var k' := if k < i then k else k + 1;
      assert rest[k] == q[k'];
    }
  }

  /** POST /queue/assign: the first `count` entries, or all of them when
      fewer are waiting, leave the queue and their `userId`s are returned. */
  function AssignTransition(q: seq<Player>, count: JsValue): (s: Step<seq<JsValue>>)
    ensures s.result.Err? <==> !IsPositiveNumber(count)
    ensures s.result.Err? ==> s.result.error == InvalidInput && s.queue == q
    ensures s.result.Ok? ==>
      && |s.result.value| <= count.n
      && (|s.result.value| < count.n ==> s.queue == [])
      && Ids(q) == s.result.value + Ids(s.queue)
      && s.queue == q[|s.result.value|..]
  {
    if !IsPositiveNumber(count) then Step(Err(InvalidInput), q)
    else
      // slice(0, count) and slice(count) clamp count to the length
      var k := if count.n < |q| then count.n else |q|;
      assert q == q[..k] + q[k..];
      IdsConcat(q[..k], q[k..]);
      Step(Ok(Ids(q[..k])), q[k..])
  }

  /** Assign keeps the invariant, and a batch never names a player twice. */
  lemma AssignKeepsInvariant(q: seq<Player>, count: JsValue)
    requires QueueInvariant(q)
    ensures QueueInvariant(AssignTransition(q, count).queue)
    ensures AssignTransition(q, count).result.Ok? ==> NoDuplicates(AssignTransition(q, count).result.value)
  {
    if IsPositiveNumber(count) {
      var k := if count.n < |q| then count.n else |q|;
      assert AssignTransition(q, count) == Step(Ok(Ids(q[..k])), q[k..]);
      SuffixKeepsInvariant(q, k);
      PrefixIdsDistinct(q, k);
    }
  }

  lemma SuffixKeepsInvariant(q: seq<Player>, k: nat)
    requires k <= |q| && QueueInvariant(q)
    ensures QueueInvariant(q[k..])
  {
    forall a | 0 <= a < |q| - k
      ensures q[k..][a] == q[k + a]
    {
    }
  }

  lemma PrefixIdsDistinct(q: seq<Player>, k: nat)
    requires k <= |q| && UniqueIds(q)
    ensures NoDuplicates(Ids(q[..k]))
  {
    var batch := Ids(q[..k]);
    forall a | 0 <= a < k
      ensures batch[a] == q[a].userId
    {
      assert q[..k][a] == q[a];
    }
  }

  /** POST /match/end: acknowledges a present `serverId`; the queue is not
      an input, so it cannot change. */
  function AcknowledgeMatchEnd(serverId: JsValue): (r: Result<JsValue>)
    ensures r.Ok? <==> Truthy(serverId)
    ensures r.Ok? ==> r.value == serverId
    ensures r.Err? ==> r.error == InvalidInput
  {
    if !Truthy(serverId) then Err(InvalidInput) else Ok(serverId)
  }
}
