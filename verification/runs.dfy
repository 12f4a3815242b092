/**
 * Sequences of mutating calls against the store, and the facts that hold across
 * them: ids are handed out in strictly increasing order, never reused even after a
 * delete, and a record keeps its owner for as long as it exists.
 */
module Runs {
  import opened Types
  import opened PasswordStore

  /** A call that may change the state. Reads never do: they return no state. */
  datatype Call =
    | Generate(caller: Principal, now: u64, length: u64)
    | Store(password: Password)
    | Update(caller: Principal, now: u64, id: u64, payload: PasswordPayload)
    | Delete(caller: Principal, id: u64)

  /** The state after one call. */
  function Apply(s: State, c: Call): (s': State)
    requires (c.Generate? || c.Store?) ==> s.counter < U64_MAX
    ensures s'.counter == s.counter || s'.counter == s.counter + 1
    ensures (c.Generate? || c.Store?) <==> s'.counter == s.counter + 1
    ensures Valid(s) ==> Valid(s') && KeepsOwners(s, s')
    ensures forall id :: id in s'.store && id !in s.store ==> id == s'.counter > s.counter
  {
    match c
    case Generate(caller, now, length) => GeneratePassword(s, caller, now, length).state
    case Store(p) => StorePassword(s, p)
    case Update(caller, now, id, payload) => UpdatePassword(s, caller, now, id, payload).state
    case Delete(caller, id) => DeletePassword(s, caller, id).state
  }

  /** There is room in the counter for every call of `calls` to hand out an id. */
  predicate Fits(s: State, calls: seq<Call>)
  {
    s.counter + |calls| <= U64_MAX
  }

  /** The state after the calls, in order. */
  function Run(s: State, calls: seq<Call>): State
    requires Fits(s, calls)
    decreases |calls|
  {
    if |calls| == 0 then s else Run(Apply(s, calls[0]), calls[1..])
  }

  /** The ids handed out by the calls, in the order they were handed out. */
  function Issued(s: State, calls: seq<Call>): seq<u64>
    requires Fits(s, calls)
    decreases |calls|
  {
    if |calls| == 0 then []
    else
      var s' := Apply(s, calls[0]);
      (if s'.counter == s.counter then [] else [s'.counter]) + Issued(s', calls[1..])
  }

  /**
   * Every id handed out is larger than the counter at the start, at most the counter
   * at the end, and larger than every id handed out before it.
   */
  lemma {:induction false} IssuedIdsIncrease(s: State, calls: seq<Call>)
    requires Fits(s, calls)
    ensures forall i :: 0 <= i < |Issued(s, calls)| ==> s.counter < Issued(s, calls)[i] <= Run(s, calls).counter
    ensures forall i, j :: 0 <= i < j < |Issued(s, calls)| ==> Issued(s, calls)[i] < Issued(s, calls)[j]
    ensures Run(s, calls).counter == s.counter + |Issued(s, calls)|
    decreases |calls|
  {
    if |calls| > 0 {
      var s' := Apply(s, calls[0]);
      IssuedIdsIncrease(s', calls[1..]);
    }
  }

  /** Validity holds after any sequence of calls from a valid state. */
  lemma {:induction false} RunKeepsValid(s: State, calls: seq<Call>)
    requires Fits(s, calls) && Valid(s)
    ensures Valid(Run(s, calls))
    decreases |calls|
  {
    if |calls| > 0 {
      RunKeepsValid(Apply(s, calls[0]), calls[1..]);
    }
  }

  /**
   * An id that was handed out and is no longer stored never comes back: new records
   * only ever go under ids above the counter.
   */
  lemma {:induction false} RemovedIdStaysRemoved(s: State, calls: seq<Call>, id: u64)
    requires Fits(s, calls)
    requires id <= s.counter && id !in s.store
    ensures id !in Run(s, calls).store
    decreases |calls|
  {
    if |calls| > 0 {
      RemovedIdStaysRemoved(Apply(s, calls[0]), calls[1..], id);
    }
  }

  /** A record present before and after any sequence of calls has the same owner at both ends. */
  lemma {:induction false} OwnerNeverChanges(s: State, calls: seq<Call>, id: u64)
    requires Fits(s, calls) && Valid(s)
    requires id in s.store && id in Run(s, calls).store
    ensures Run(s, calls).store[id].owner == s.store[id].owner
    decreases |calls|
  {
    if |calls| > 0 {
      var s' := Apply(s, calls[0]);
      if id in s'.store {
        OwnerNeverChanges(s', calls[1..], id);
      } else {
        RemovedIdStaysRemoved(s', calls[1..], id);
      }
    }
  }

  /** After an owner deletes a record, the next record stored gets a different, larger id. */
  lemma DeleteDoesNotRecycle(s: State, caller: Principal, id: u64, p: Password)
    requires Valid(s) && s.counter < U64_MAX
    requires id in s.store && s.store[id].owner == caller
    ensures var s' := DeletePassword(s, caller, id).state;
      && id !in s'.store
      && StorePassword(s', p).counter > id
      && id !in StorePassword(s', p).store
  {
  }

  /** From a fresh canister, the first id handed out is 1. */
  lemma FirstIdIsOne(c: Call)
    requires c.Generate? || c.Store?
    ensures Issued(Init, [c]) == [1]
  {
  }
}
