/** The evidence record store: a map from evidence ids to records plus the
    counter that hands out the next id, and the three operations the canister
    exposes on it.

    The canister keeps one store for its whole lifetime and mutates it in
    place; here the store is an immutable value, and every update returns the
    store it leaves behind next to its reply. The caller identity and the
    clock, which the canister asks its runtime for, are parameters. */
module EvidenceStore {
  import opened Wrappers

  /** Ids are unsigned counters that start at 0; see README for the 64-bit
      width, which is not modelled. */
  type EvidenceId = nat

  /** A timestamp as the runtime clock supplies it: an unsigned 64-bit
      count of nanoseconds. */
  type Timestamp = t: int | 0 <= t < 0x1_0000_0000_0000_0000

  /** One byte of an opaque evidence payload. */
  type Byte = b: int | 0 <= b < 256

  /** One stored record. Nothing updates a record once it is stored. */
  datatype Evidence = Evidence(id: EvidenceId, owner: string, data: seq<Byte>, timestamp: Timestamp)

  /** All records by id, and the id the next successful submission gets. */
  datatype Store = Store(evidence: map<EvidenceId, Evidence>, nextId: EvidenceId)

  /** The reply to an update, together with the store after it. */
  datatype Step<+T> = Step(result: Result<T>, store: Store)

  /** The two messages the canister refuses an update with. */
  const NotOwnerMessage: string := "Caller is not the owner"
  const NotFoundMessage: string := "Evidence not found"

  /** The store invariant: every record sits under its own id, and every id
      in use is below the counter, so the counter names an unused slot. */
  ghost predicate Valid(s: Store) {
    forall k :: k in s.evidence ==> s.evidence[k].id == k && k < s.nextId
  }

  /** The store the canister starts with: no records, counter at 0. */
  function Fresh(): (s: Store)
    ensures Valid(s)
    ensures s.nextId == 0
    ensures forall id :: Get(s, id) == None
  {
    Store(map[], 0)
  }

  /** Looks a record up by id. Anyone may read any record: there is no
      caller check, and absence is a normal reply rather than an error. */
  function Get(s: Store, id: EvidenceId): (r: Option<Evidence>)
    ensures r.Some? <==> id in s.evidence
    // in a valid store, what comes back is the record issued under that id
    ensures Valid(s) && r.Some? ==> r.value.id == id && id < s.nextId
  {
    if id in s.evidence then Some(s.evidence[id]) else None
  }

  /** Stores `data` under a new id on behalf of `owner`, stamped with `now`.
      Only a caller submitting in its own name is accepted. */
  function Submit(s: Store, caller: string, owner: string, data: seq<Byte>, now: Timestamp): (r: Step<EvidenceId>)
    ensures r.result.Ok? <==> caller == owner
    // a refused submission consumes no id and stores nothing
    ensures r.result.Err? ==> r.result.error == NotOwnerMessage && r.store == s
    // an accepted one hands out the counter's old value and advances it by one
    ensures r.result.Ok? ==> r.result.value == s.nextId && r.store.nextId == s.nextId + 1
    ensures r.result.Ok? ==>
      Get(r.store, r.result.value) == Some(Evidence(r.result.value, owner, data, now))
    ensures r.result.Ok? ==> forall k :: k != r.result.value ==> Get(r.store, k) == Get(s, k)
    // in a valid store the new id was free, so no record is overwritten
    ensures Valid(s) && r.result.Ok? ==> Get(s, r.result.value) == None
    ensures Valid(s) ==> Valid(r.store)
  {
    if caller != owner then
      Step(Err(NotOwnerMessage), s)
    else
      var id := s.nextId;
      var record := Evidence(id, owner, data, now);
      Step(Ok(id), Store(s.evidence[id := record], s.nextId + 1))
  }

  /** Removes the record under `id`, provided it exists and `caller` owns it. */
  function Delete(s: Store, caller: string, id: EvidenceId): (r: Step<()>)
    ensures r.result.Ok? <==> Get(s, id).Some? && Get(s, id).value.owner == caller
    // a missing id is reported as such, whoever asks
    ensures Get(s, id) == None ==> r.result == Err(NotFoundMessage) && r.store == s
    // someone else's record is refused and left exactly as it was
    ensures Get(s, id).Some? && Get(s, id).value.owner != caller ==>
      r.result == Err(NotOwnerMessage) && r.store == s
    // a permitted delete removes that one record and nothing else
    ensures r.result.Ok? ==> Get(r.store, id) == None
    ensures r.result.Ok? ==> forall k :: k != id ==> Get(r.store, k) == Get(s, k)
    // the counter does not move back, so the freed id is not handed out again
    ensures r.store.nextId == s.nextId
    ensures Valid(s) ==> Valid(r.store)
  {
    if id in s.evidence then
      if s.evidence[id].owner != caller then
        Step(Err(NotOwnerMessage), s)
      else
        Step(Ok(()), Store(s.evidence - {id}, s.nextId))
    else
      Step(Err(NotFoundMessage), s)
  }
}
