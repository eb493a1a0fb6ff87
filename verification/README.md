# Secure Evidence store, modelled in Dafny

The Secure Evidence canister keeps opaque binary records ("evidence") for
identified callers. Each record has an id, an owner, a payload and a
creation timestamp. The canister offers three calls:

- `submit_evidence` stores a record. It is accepted only when the caller
  submits in their own name.
- `get_evidence` reads any record by id. It has no caller check.
- `delete_evidence` removes a record. Only the record's owner may do so.

Ids come from a counter. The counter starts at 0 and advances by one on
every accepted submission. It never moves back, so a deleted record's id is
never handed out again.

The model has three modules:

- `Wrappers` (`wrappers.dfy`) holds `Option` and `Result`. A `Result`'s
  error is the plain message string that the canister returns.
- `EvidenceStore` (`evidence_store.dfy`) holds the records (`Evidence`) and
  the store (`Store`, a map from id to record plus `nextId`). It has the
  invariant `Valid`: every record sits under its own id, and that id is
  below `nextId`. It also has the three operations `Submit`, `Get` and
  `Delete`. Each one is a pure function of the store. An update returns its
  reply together with the store it leaves behind.
- `EvidenceTraces` (`evidence_traces.dfy`) models the canister over its
  lifetime. A run is a sequence of requests, each handled to completion in
  turn. This module proves what such a history guarantees:
  - ids are consecutive, starting at 0;
  - the invariant is kept;
  - freed ids never come back;
  - stored records never change;
  - a record goes away only when its owner deletes it.

The runtime's caller identity (`ic_cdk::api::caller()`) and clock
(`ic_cdk::api::time()`) are parameters of the operations: `caller` and
`now`. The canister's single global store is an explicit value passed
through the operations.

## Model

| member | source | states |
|---|---|---|
| EvidenceStore.Fresh | src/Secure_Evidence_backend/src/lib.rs:15-22 | The starting store holds no record, has its counter at 0 and satisfies the store invariant. |
| EvidenceStore.Get | src/Secure_Evidence_backend/src/lib.rs:48-52 | The lookup finds a record exactly when the id is a key; absence is a `None` reply, not an error. In a valid store, a record found under an id carries that id, and the id is below the counter. |
| EvidenceStore.Submit | src/Secure_Evidence_backend/src/lib.rs:25-46 | A submission is accepted exactly when the caller equals the claimed owner. A refusal returns "Caller is not the owner" and leaves the store identical, with no id consumed. On acceptance the reply is the old counter value and the counter advances by exactly one. The record then stored under that id has that id, the claimed owner, the given payload and the given timestamp. Every other id reads as before. In a valid store the new id was free, so nothing is overwritten, and the invariant is kept. |
| EvidenceStore.Delete | src/Secure_Evidence_backend/src/lib.rs:54-70 | A delete succeeds exactly when the id holds a record owned by the caller. A missing id returns "Evidence not found". Another owner's record returns "Caller is not the owner". Both refusals leave the store identical. On success that id reads as absent, every other id reads as before, and the counter is unchanged. The invariant is kept. |
| EvidenceTraces.Handle | src/Secure_Evidence_backend/src/lib.rs:25-70 | Dispatching a request: a lookup returns `Get`'s answer and leaves the store unchanged. The counter advances by one on an accepted submission and stays put otherwise. The invariant is kept. |
| EvidenceTraces.Run | src/Secure_Evidence_backend/src/lib.rs:44 | A run gives one reply per request, and the counter never ends below where it started. |
| EvidenceTraces.RunIssuesConsecutiveIds | src/Secure_Evidence_backend/src/lib.rs:33-45 | The accepted submissions in a run receive the consecutive ids `nextId`, `nextId + 1`, and so on, and the counter ends just past the last one. |
| EvidenceTraces.FreshStoreIssuesNaturals | src/Secure_Evidence_backend/src/lib.rs:15-19 | From the default store (counter 0), the accepted submissions receive 0, 1, 2, … in order. |
| EvidenceTraces.RunPreservesValid | src/Secure_Evidence_backend/src/lib.rs:33-67 | Every sequence of requests keeps the invariant: every key equals its record's id and lies below the counter. |
| EvidenceTraces.AbsentStaysAbsent | src/Secure_Evidence_backend/src/lib.rs:33-44 | An id below the counter that holds no record never holds one again, whatever requests follow. |
| EvidenceTraces.RecordNeverAltered | src/Secure_Evidence_backend/src/lib.rs:35-43 | An id that holds a record both before and after a run holds the same record, with the same owner, payload and timestamp. |
| EvidenceTraces.OnlyOwnerRemoves | src/Secure_Evidence_backend/src/lib.rs:58-68 | If a record present before a run is absent after it, the run contains a delete request for that id from the record's owner, and its reply was success. |
| EvidenceTraces.IssuedIdsAreNew | src/Secure_Evidence_backend/src/lib.rs:33-44 | In a valid store, every id handed out by a run is at least the starting counter and was not in use before. |
| EvidenceTraces.DeletedIdNeverReissued | src/Secure_Evidence_backend/src/lib.rs:44-68 | After an owner deletes a record, no later submission receives its id, and the id never holds a record again. |
| EvidenceTraces.OwnerDeleteScenario | src/Secure_Evidence_backend/src/lib.rs:25-70 | A worked history: Alice's two submissions get ids 0 and 1, and reading id 0 returns her record. Bob's delete of 0 is refused. Alice's delete of 0 succeeds, after which id 0 reads as absent. Her next submission gets id 2. |

## Left out

- The runtime calls `ic_cdk::api::caller()` and `ic_cdk::api::time()` are not modelled. Each operation takes the caller identity and the clock reading as parameters.
- The `thread_local!`/`RefCell` singleton is not modelled. The store is a value passed from one operation to the next. Each canister call runs to completion on its own, which `Run` models by handling requests one after another.
- The 64-bit width of ids is not modelled. `EvidenceId` is an unbounded natural, so the canister's `next_id += 1` at `u64::MAX` has no counterpart here. Reaching it would take 2^64 accepted submissions. Timestamps keep their unsigned 64-bit range.
- The Candid export stubs and `init` are not modelled. They only print the interface description and set up the runtime.
- The `CandidType`/`Deserialize` derives are not modelled. They define the wire format, which a library handles.
- `get_evidence` has no ownership check, so any caller may read any record. The model keeps this and does not add a read check.
