/** The module-level `queue` of index.js and its route handlers, as an
    object whose methods update the queue in place. Each handler is proved
    to leave the response and the queue that its transition function in
    MatchQueue prescribes. */
module QueueServer {
  import opened JsValues
  import opened MatchQueue

  class QueueManager {
    /** The waiting players, oldest first. */
    var queue: seq<Player>

    ghost predicate Valid()
      reads this
    {
      QueueInvariant(queue)
    }

    /** `let queue = []` */
    constructor ()
      ensures Valid() && queue == []
    {
      queue := [];
    }

    /** `queue.findIndex(player => player.userId === userId)`, a linear scan. */
    method FindIndex(userId: JsValue) returns (index: int)
      ensures index == FirstIndex(queue, userId)
    {
      index := 0;
      while index < |queue|
        invariant 0 <= index <= |queue|
        invariant forall j :: 0 <= j < index ==> queue[j].userId != userId
      {
        if queue[index].userId == userId {
          return;
        }
        index := index + 1;
      }
      index := -1;
    }

    /** `queue.find(player => player.userId === userId)` */
    method Find(userId: JsValue) returns (found: Option<Player>)
      ensures found.Some? <==> Queued(queue, userId)
      ensures found.Some? ==> found.value.userId == userId
      ensures found.Some? ==> found.value == queue[FirstIndex(queue, userId)]
    {
      var i := FindIndex(userId);
      found := if i == -1 then None else Some(queue[i]);
    }

    /** POST /queue/add */
    method Add(userId: JsValue, name: JsValue) returns (r: Result<nat>)
      requires Valid()
      modifies this
      ensures Valid()
      ensures Step(r, queue) == AddTransition(old(queue), userId, name)
    {
      AddKeepsInvariant(queue, userId, name);
      if !Truthy(userId) || !Truthy(name) {
        return Err(InvalidInput);
      }
      var existing := Find(userId);
      if existing.Some? {
        return Err(AlreadyQueued);
      }
      queue := queue + [Player(userId, name)];
      r := Ok(|queue|);
    }

    /** POST /queue/remove */
    method Remove(userId: JsValue) returns (r: Result<Removed>)
      requires Valid()
      modifies this
      ensures Valid()
      ensures Step(r, queue) == RemoveTransition(old(queue), userId)
    {
      ghost var expected := RemoveTransition(queue, userId);
      RemoveKeepsInvariant(queue, userId);
      if !Truthy(userId) {
        return Err(InvalidInput);
      }
      var i := FindIndex(userId);
      if i == -1 {
        return Err(NotQueued);
      }
      // queue.splice(i, 1)[0]
      var removed := queue[i];
      queue := queue[..i] + queue[i + 1..];
      r := Ok(Removed(removed, |queue|));
      assert Step(r, queue) == expected;
    }

    /** POST /queue/assign */
    method Assign(count: JsValue) returns (r: Result<seq<JsValue>>)
      requires Valid()
      modifies this
      ensures Valid()
      ensures Step(r, queue) == AssignTransition(old(queue), count)
    {
      AssignKeepsInvariant(queue, count);
      if count.Undefined? || !count.Num? || count.n <= 0 {
        return Err(InvalidInput);
      }
      // slice clamps an end past the length to the length
      var k := if count.n < |queue| then count.n else |queue|;
      var assignedPlayers := queue[..k];
      queue := queue[k..];
      r := Ok(Ids(assignedPlayers));
    }

    /** GET /listQueue: the current contents, oldest first. */
    method ListQueue() returns (snapshot: seq<Player>)
      ensures snapshot == queue
    {
      snapshot := queue;
    }

    /** POST /match/end: has no `modifies` clause, so the queue stays as it is. */
    method EndMatch(serverId: JsValue) returns (r: Result<JsValue>)
      ensures r == AcknowledgeMatchEnd(serverId)
    {
      if !Truthy(serverId) {
        return Err(InvalidInput);
      }
      r := Ok(serverId);
    }
  }
}
