/** The canister over its lifetime: a sequence of requests, each run to
    completion against the store the previous one left behind, and what such
    a history guarantees about ids and records. */
module EvidenceTraces {
  import opened Wrappers
  import opened EvidenceStore

  /** One inbound call, with the identity and clock reading the runtime
      supplied for it. */
  datatype Request =
    | SubmitRequest(caller: string, owner: string, data: seq<Byte>, now: Timestamp)
    | GetRequest(id: EvidenceId)
    | DeleteRequest(caller: string, id: EvidenceId)

  /** The reply each kind of call sends back. */
  datatype Reply =
    | Submitted(submitted: Result<EvidenceId>)
    | Fetched(fetched: Option<Evidence>)
    | Deleted(deleted: Result<()>)

  /** One handled request: its reply and the store afterwards. */
  datatype Handled = Handled(reply: Reply, store: Store)

  /** A run of requests: one reply per request and the final store. */
  datatype Trace = Trace(replies: seq<Reply>, store: Store)

  /** Dispatches one request to the store operation it names. */
  function Handle(s: Store, req: Request): (h: Handled)
    // a lookup never changes the store
    ensures req.GetRequest? ==> h.store == s && h.reply == Fetched(Get(s, req.id))
    // the counter only ever moves forward, and only on a successful submit
    ensures h.store.nextId == s.nextId + (if h.reply.Submitted? && h.reply.submitted.Ok? then 1 else 0)
    ensures Valid(s) ==> Valid(h.store)
  {
    match req
    case SubmitRequest(caller, owner, data, now) =>
      var st := Submit(s, caller, owner, data, now);
      Handled(Submitted(st.result), st.store)
    case GetRequest(id) =>
      Handled(Fetched(Get(s, id)), s)
    case DeleteRequest(caller, id) =>
      var st := Delete(s, caller, id);
      Handled(Deleted(st.result), st.store)
  }

  /** Handles `reqs` in order, each against the store the previous left. */
  function Run(s: Store, reqs: seq<Request>): (t: Trace)
    ensures |t.replies| == |reqs|
    ensures s.nextId <= t.store.nextId
    decreases |reqs|
  {
    if reqs == [] then
      Trace([], s)
    else
      var h := Handle(s, reqs[0]);
      var rest := Run(h.store, reqs[1..]);
      Trace([h.reply] + rest.replies, rest.store)
  }

  /** The ids handed out by the successful submissions among `replies`, in
      order. */
  function IssuedIds(replies: seq<Reply>): seq<EvidenceId>
    decreases |replies|
  {
    if replies == [] then
      []
    else
      var first := if replies[0].Submitted? && replies[0].submitted.Ok? then [replies[0].submitted.value] else [];
      first + IssuedIds(replies[1..])
  }

  /** Successful submissions receive consecutive ids starting at the
      counter's value, and the counter ends just past the last one. */
  lemma {:induction false} RunIssuesConsecutiveIds(s: Store, reqs: seq<Request>)
    ensures var t := Run(s, reqs);
      && |IssuedIds(t.replies)| == t.store.nextId - s.nextId
      && forall i :: 0 <= i < |IssuedIds(t.replies)| ==> IssuedIds(t.replies)[i] == s.nextId + i
    decreases |reqs|
  {
    if reqs != [] {
      var h := Handle(s, reqs[0]);
      var rest := Run(h.store, reqs[1..]);
      RunIssuesConsecutiveIds(h.store, reqs[1..]);
      var t := Run(s, reqs);
      assert t.replies == [h.reply] + rest.replies;
      assert t.replies[1..] == rest.replies;
      assert IssuedIds(t.replies) ==
        (if h.reply.Submitted? && h.reply.submitted.Ok? then [h.reply.submitted.value] else [])
        + IssuedIds(rest.replies);
    }
  }

  /** On the store the canister starts with, the successful submissions
      receive 0, 1, 2, ... in order. */
  lemma FreshStoreIssuesNaturals(reqs: seq<Request>)
    ensures var ids := IssuedIds(Run(Fresh(), reqs).replies);
      forall i :: 0 <= i < |ids| ==> ids[i] == i
  {
    RunIssuesConsecutiveIds(Fresh(), reqs);
  }

  /** Every request keeps the store invariant. */
  lemma {:induction false} RunPreservesValid(s: Store, reqs: seq<Request>)
    requires Valid(s)
    ensures Valid(Run(s, reqs).store)
    decreases |reqs|
  {
    if reqs != [] {
      RunPreservesValid(Handle(s, reqs[0]).store, reqs[1..]);
    }
  }

  /** An id that was issued and has since gone stays gone: nothing later
      brings a record back under it. */
  lemma {:induction false} AbsentStaysAbsent(s: Store, reqs: seq<Request>, k: EvidenceId)
    requires Valid(s)
    requires k < s.nextId && Get(s, k) == None
    ensures Get(Run(s, reqs).store, k) == None
    decreases |reqs|
  {
    if reqs != [] {
      var h := Handle(s, reqs[0]);
      assert Get(h.store, k) == None;
      AbsentStaysAbsent(h.store, reqs[1..], k);
    }
  }

  /** A record is never altered while stored: if an id holds a record both
      before and after a run, it is the same record, same owner included. */
  lemma {:induction false} RecordNeverAltered(s: Store, reqs: seq<Request>, k: EvidenceId)
    requires Valid(s)
    requires Get(s, k).Some? && Get(Run(s, reqs).store, k).Some?
    ensures Get(Run(s, reqs).store, k) == Get(s, k)
    decreases |reqs|
  {
    if reqs != [] {
      var h := Handle(s, reqs[0]);
      if Get(h.store, k) == None {
        AbsentStaysAbsent(h.store, reqs[1..], k);
        assert false;
      }
      assert Get(h.store, k) == Get(s, k);
      RecordNeverAltered(h.store, reqs[1..], k);
    }
  }

  /** A record only disappears through a delete request from its owner,
      which succeeds. */
  lemma {:induction false} OnlyOwnerRemoves(s: Store, reqs: seq<Request>, k: EvidenceId)
    requires Valid(s)
    requires Get(s, k).Some? && Get(Run(s, reqs).store, k) == None
    ensures exists i ::
      && 0 <= i < |reqs|
      && reqs[i] == DeleteRequest(Get(s, k).value.owner, k)
      && Run(s, reqs).replies[i] == Deleted(Ok(()))
    decreases |reqs|
  {
    var h := Handle(s, reqs[0]);
    var rest := Run(h.store, reqs[1..]);
    var t := Run(s, reqs);
    assert t.replies == [h.reply] + rest.replies;
    if Get(h.store, k) == None {
      assert reqs[0] == DeleteRequest(Get(s, k).value.owner, k) && t.replies[0] == Deleted(Ok(()));
    } else {
      assert Get(h.store, k) == Get(s, k);
      OnlyOwnerRemoves(h.store, reqs[1..], k);
      var j :| 0 <= j < |reqs[1..]|
        && reqs[1..][j] == DeleteRequest(Get(h.store, k).value.owner, k)
        && rest.replies[j] == Deleted(Ok(()));
      assert reqs[j + 1] == reqs[1..][j] && t.replies[j + 1] == rest.replies[j];
    }
  }

  /** Ids handed out by a run were never in use before it. */
  lemma IssuedIdsAreNew(s: Store, reqs: seq<Request>)
    requires Valid(s)
    ensures forall id :: id in IssuedIds(Run(s, reqs).replies) ==> s.nextId <= id && Get(s, id) == None
  {
    RunIssuesConsecutiveIds(s, reqs);
  }

  /** Once its owner deletes a record, its id is never handed out again and
      never holds a record again. */
  lemma DeletedIdNeverReissued(s: Store, caller: string, k: EvidenceId, reqs: seq<Request>)
    requires Valid(s)
    requires Delete(s, caller, k).result.Ok?
    ensures var after := Delete(s, caller, k).store;
      && k !in IssuedIds(Run(after, reqs).replies)
      && Get(Run(after, reqs).store, k) == None
  {
    var after := Delete(s, caller, k).store;
    IssuedIdsAreNew(after, reqs);
    AbsentStaysAbsent(after, reqs, k);
  }

  /** Alice submits two records; Bob may not delete hers; Alice deletes the
      first, after which it reads as absent and the next submission gets a
      new id rather than the freed one. */
  lemma {:induction false} OwnerDeleteScenario()
    ensures var reqs := [
        SubmitRequest("alice", "alice", [1], 10),
        SubmitRequest("alice", "alice", [2], 20),
        GetRequest(0),
        DeleteRequest("bob", 0),
        DeleteRequest("alice", 0),
        GetRequest(0),
        SubmitRequest("alice", "alice", [3], 30)
      ];
      Run(Fresh(), reqs).replies == [
        Submitted(Ok(0)),
        Submitted(Ok(1)),
        Fetched(Some(Evidence(0, "alice", [1], 10))),
        Deleted(Err(NotOwnerMessage)),
        Deleted(Ok(())),
        Fetched(None),
        Submitted(Ok(2))
      ]
  {
  }
}
