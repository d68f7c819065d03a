/** Idempotency records and the in-memory store that keeps them. */
module Idempotency {
  datatype Status = Running | Succeeded | Failed

  /** Tenant, operation and key name a record; the attempt only fences stale workers. */
  datatype StoreKey = StoreKey(tenant: string, operation: string, key: string)

  datatype Identity = Identity(at: StoreKey, attempt: string)

  datatype Record = Record(status: Status, attempt: string)

  type Records = map<StoreKey, Record>

  datatype ClaimResult = Granted | InProgress | Completed

  datatype MarkResult = Marked | LeaseLost | InvalidStatus

  /** A claim is granted on a free or failed record, and only then changes anything. */
  function ClaimResultOf(r: Records, id: Identity): ClaimResult {
    if id.at !in r || r[id.at].status.Failed? then Granted
    else if r[id.at].status.Running? then InProgress
    else Completed
  }

  function Claimed(r: Records, id: Identity): Records {
    if ClaimResultOf(r, id).Granted? then r[id.at := Record(Running, id.attempt)] else r
  }

  /** The attempt that holds the claim may end it, once; nobody else may. */
  predicate Holds(r: Records, id: Identity) {
    id.at in r && r[id.at] == Record(Running, id.attempt)
  }

  function MarkResultOf(r: Records, id: Identity, status: Status): MarkResult {
    if status.Running? then InvalidStatus
    else if Holds(r, id) then Marked
    else LeaseLost
  }

  function MarkedWith(r: Records, id: Identity, status: Status): Records {
    if MarkResultOf(r, id, status).Marked? then r[id.at := Record(status, id.attempt)] else r
  }

  /** `MemoryIdempotencyStore`: each method runs under the store's mutex, so each is one step. */
  class MemoryStore {
    var records: Records

    constructor ()
      ensures records == map[]
    {
      records := map[];
    }

    method Claim(id: Identity) returns (result: ClaimResult)
      modifies this
      ensures result == ClaimResultOf(old(records), id)
      ensures records == Claimed(old(records), id)
      ensures result.Granted? <==> id.at !in old(records) || old(records)[id.at].status == Failed
      ensures records == if result.Granted? then old(records)[id.at := Record(Running, id.attempt)] else old(records)
    {
      if id.at in records {
        match records[id.at].status {
          case Running => return InProgress;
          case Succeeded => return Completed;
          case Failed =>
        }
      }
      records := records[id.at := Record(Running, id.attempt)];
      return Granted;
    }

    method Mark(id: Identity, status: Status) returns (result: MarkResult)
      modifies this
      ensures result == MarkResultOf(old(records), id, status)
      ensures records == MarkedWith(old(records), id, status)
      ensures result.Marked? <==> status != Running && id.at in old(records) && old(records)[id.at] == Record(Running, id.attempt)
      ensures records == if result.Marked? then old(records)[id.at := Record(status, id.attempt)] else old(records)
    {
      if status == Running {
        return InvalidStatus;
      }
      if id.at !in records || records[id.at].status != Running || records[id.at].attempt != id.attempt {
        return LeaseLost;
      }
      records := records[id.at := Record(status, id.attempt)];
      return Marked;
    }

    method Lookup(id: Identity) returns (found: bool, status: Status)
      ensures found <==> id.at in records
      ensures found ==> status == records[id.at].status
    {
      found := id.at in records;
      status := if found then records[id.at].status else Failed;
    }
  }

  /** A succeeded record is final: no claim is granted on it and no mark moves it. */
  lemma SucceededIsFinal(r: Records, id: Identity, other: Identity, status: Status)
    requires id.at in r && r[id.at].status.Succeeded?
    ensures other.at == id.at ==> ClaimResultOf(r, other) == Completed
    ensures Claimed(r, other).Keys >= {id.at} && Claimed(r, other)[id.at] == r[id.at]
    ensures MarkedWith(r, other, status).Keys >= {id.at} && MarkedWith(r, other, status)[id.at] == r[id.at]
  {
  }

  /** A claim that was marked failed can be claimed again, by anyone, and one that was marked succeeded by nobody. */
  lemma MarkDecides(r: Records, id: Identity, other: Identity)
    requires Holds(r, id) && other.at == id.at
    ensures ClaimResultOf(MarkedWith(r, id, Failed), other) == Granted
    ensures ClaimResultOf(MarkedWith(r, id, Succeeded), other) == Completed
    ensures ClaimResultOf(r, other) == InProgress
  {
  }

  /** Fencing: once another attempt has taken a failed record over, the old attempt can no longer move it. */
  lemma StaleAttemptIsFenced(r: Records, stale: Identity, taker: Identity, status: Status)
    requires stale.at == taker.at && stale.attempt != taker.attempt
    requires Holds(r, taker)
    ensures MarkResultOf(r, stale, status) != Marked && MarkedWith(r, stale, status) == r
  {
  }
}
