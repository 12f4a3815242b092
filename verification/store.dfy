/**
 * The password store: records keyed by id, an id counter, and the endpoints that
 * read and change them. Each endpoint is a function of the current state, the
 * calling identity, the clock reading and its arguments; mutating endpoints
 * return the next state alongside their reply.
 */
module PasswordStore {
  import opened Types
  import Generator
  import Validation

  /** The whole canister state: the records and the last id handed out (0 before the first). */
  datatype State = State(store: map<u64, Password>, counter: u64)

  /** The reply of a mutating endpoint: the state after the call and what the caller receives. */
  datatype Reply<T> = Reply(state: State, result: T)

  /** The state of a freshly installed canister. */
  const Init: State := State(map[], 0)

  /** Every stored id was handed out by the counter: ids run from 1 up to the counter. */
  ghost predicate Valid(s: State)
  {
    forall id :: id in s.store ==> 1 <= id <= s.counter
  }

  /** No record present both before and after a step changed hands. */
  ghost predicate KeepsOwners(s: State, s': State)
  {
    forall id :: id in s.store && id in s'.store ==> s'.store[id].owner == s.store[id].owner
  }

  /** Some stored record holds the value `v`. */
  ghost predicate ValueTaken(s: State, v: string)
  {
    exists id :: id in s.store && s.store[id].value == v
  }

  /** The ids among `ids` that map to exactly the record `p`. */
  ghost function IdsHolding(m: map<u64, Password>, p: Password, ids: set<u64>): set<u64>
  {
    set id | id in ids && id in m && m[id] == p
  }

  /** How many ids map to exactly the record `p`. */
  ghost function Occurrences(m: map<u64, Password>, p: Password): nat
  {
    |IdsHolding(m, p, m.Keys)|
  }

  /** Visiting one more id adds it to the holders of `p` exactly when it maps to `p`. */
  lemma IdsHoldingVisit(m: map<u64, Password>, p: Password, ids: set<u64>, id: u64)
    requires id in m && id !in ids
    ensures |IdsHolding(m, p, ids + {id})| == |IdsHolding(m, p, ids)| + (if m[id] == p then 1 else 0)
  {
    if m[id] == p {
      assert IdsHolding(m, p, ids + {id}) == IdsHolding(m, p, ids) + {id};
    } else {
      assert IdsHolding(m, p, ids + {id}) == IdsHolding(m, p, ids);
    }
  }

  /** Unrestricted read of one record; any caller may read any id. */
  function GetPassword(s: State, id: u64): (r: Result<Password>)
    ensures r.Ok? <==> id in s.store
    ensures r.Ok? ==> r.value == s.store[id]
    ensures r.Err? ==> r.error == NotFoundMsg
  {
    if id in s.store then Ok(s.store[id]) else Err(NotFoundMsg)
  }

  lemma InitValid()
    ensures Valid(Init) && Init.store == map[] && Init.counter == 0
  {
  }

  /**
   * Inserts `p` under the next id. The id is never one already in use, and the
   * record reads back exactly as given.
   */
  function StorePassword(s: State, p: Password): (s': State)
    requires s.counter < U64_MAX
    ensures s'.counter == s.counter + 1
    ensures GetPassword(s', s'.counter) == Ok(p)
    ensures forall id :: id != s'.counter ==> GetPassword(s', id) == GetPassword(s, id)
    ensures s'.store.Keys == s.store.Keys + {s'.counter}
    ensures Valid(s) ==> Valid(s') && s'.counter !in s.store
    ensures Valid(s) ==> KeepsOwners(s, s')
  {
    var id := s.counter + 1;
    State(s.store[id := p], id)
  }

  /**
   * Generates a password of `length` characters from the fixed alphabet, seeded
   * by the clock, records it as the caller's and stores it under the next id.
   */
  function GeneratePassword(s: State, caller: Principal, now: u64, length: u64): (r: Reply<Result<Password>>)
    requires s.counter < U64_MAX
    ensures r.result.Ok?
    ensures |r.result.value.value| == length
    ensures forall i :: 0 <= i < length ==> r.result.value.value[i] in Generator.Charset
    ensures r.result.value.owner == caller && r.result.value.createdAt == now
    ensures r.state.counter == s.counter + 1
    ensures GetPassword(r.state, r.state.counter) == r.result
    ensures forall id :: id != r.state.counter ==> GetPassword(r.state, id) == GetPassword(s, id)
    ensures Valid(s) ==> Valid(r.state) && KeepsOwners(s, r.state)
  {
    var value := Generator.Chars(Generator.InitialSeed(now), length, Generator.Mix);
    Generator.DrawnFromCharset(value);
    var p := Password(value, now, caller);
    Reply(StorePassword(s, p), Ok(p))
  }

  /**
   * Replaces the value of record `id` and refreshes its timestamp, provided the
   * record exists and belongs to the caller. Absence is reported before ownership.
   */
  function UpdatePassword(s: State, caller: Principal, now: u64, id: u64, payload: PasswordPayload): (r: Reply<Result<string>>)
    ensures id !in s.store ==> r == Reply(s, Err(NotFoundMsg))
    ensures id in s.store && s.store[id].owner != caller ==> r == Reply(s, Err(UnauthorizedMsg))
    ensures id in s.store && s.store[id].owner == caller ==>
      && r.result == Ok(UpdatedMsg)
      && GetPassword(r.state, id) == Ok(Password(payload.value, now, caller))
    ensures r.state.counter == s.counter
    ensures r.state.store.Keys == s.store.Keys
    ensures forall k :: k != id ==> GetPassword(r.state, k) == GetPassword(s, k)
    ensures KeepsOwners(s, r.state)
    ensures Valid(s) ==> Valid(r.state)
  {
    if id in s.store then
      var existing := s.store[id];
      if existing.owner == caller then
        var updated := existing.(value := payload.value, createdAt := now);
        Reply(s.(store := s.store[id := updated]), Ok(UpdatedMsg))
      else
        Reply(s, Err(UnauthorizedMsg))
    else
      Reply(s, Err(NotFoundMsg))
  }

  /**
   * Removes record `id`, provided it exists and belongs to the caller. Absence is
   * reported before ownership; the id is not handed out again.
   */
  function DeletePassword(s: State, caller: Principal, id: u64): (r: Reply<Result<string>>)
    ensures id !in s.store ==> r == Reply(s, Err(NotFoundMsg))
    ensures id in s.store && s.store[id].owner != caller ==>
      && r == Reply(s, Err(UnauthorizedMsg))
      && GetPassword(r.state, id) == Ok(s.store[id])
    ensures id in s.store && s.store[id].owner == caller ==>
      && r.result == Ok(DeletedMsg)
      && GetPassword(r.state, id) == Err(NotFoundMsg)
      && r.state.store.Keys == s.store.Keys - {id}
    ensures r.state.counter == s.counter
    ensures forall k :: k != id ==> GetPassword(r.state, k) == GetPassword(s, k)
    ensures KeepsOwners(s, r.state)
    ensures Valid(s) ==> Valid(r.state)
  {
    if id in s.store then
      if s.store[id].owner == caller then
        Reply(s.(store := s.store - {id}), Ok(DeletedMsg))
      else
        Reply(s, Err(UnauthorizedMsg))
    else
      Reply(s, Err(NotFoundMsg))
  }

  /**
   * A snapshot of every stored record, in no particular order: each record appears
   * exactly as many times as ids map to it.
   */
  method ListPasswords(s: State) returns (list: seq<Password>)
    ensures |list| == |s.store|
    ensures forall p :: multiset(list)[p] == Occurrences(s.store, p)
  {
    list := [];
    var rest := s.store.Keys;
    ghost var done: set<u64> := {};
    while rest != {}
      invariant rest <= s.store.Keys
      invariant done == s.store.Keys - rest
      invariant |list| + |rest| == |s.store.Keys|
      invariant forall p :: multiset(list)[p] == |IdsHolding(s.store, p, done)|
      decreases rest
    {
      var id :| id in rest;
      forall p
        ensures multiset(list + [s.store[id]])[p] == |IdsHolding(s.store, p, done + {id})|
      {
        IdsHoldingVisit(s.store, p, done, id);
      }
      list := list + [s.store[id]];
      rest := rest - {id};
      done := done + {id};
    }
    assert done == s.store.Keys;
    assert |s.store| == |s.store.Keys|;
  }

  /**
   * Whether no stored record already holds the payload's value. Always succeeds,
   * and answers `true` on an empty store.
   */
  method CheckPasswordUniqueness(s: State, payload: PasswordPayload) returns (r: Result<bool>)
    ensures r == Ok(!ValueTaken(s, payload.value))
  {
    var rest := s.store.Keys;
    var taken := false;
    while rest != {} && !taken
      invariant rest <= s.store.Keys
      invariant taken <==> exists id :: id in s.store && id !in rest && s.store[id].value == payload.value
      decreases rest
    {
      var id :| id in rest;
      taken := s.store[id].value == payload.value;
      rest := rest - {id};
    }
    r := Ok(!taken);
  }

  /** A record shows up in a listing exactly when some id maps to it. */
  lemma OccursIffStored(m: map<u64, Password>, p: Password)
    ensures Occurrences(m, p) > 0 <==> p in m.Values
  {
    if p in m.Values {
      var id :| id in m && m[id] == p;
      assert id in IdsHolding(m, p, m.Keys);
    } else {
      assert IdsHolding(m, p, m.Keys) == {};
    }
  }

  /** Once a record is stored, its value is no longer unique. */
  lemma StoredValueIsTaken(s: State, p: Password)
    requires s.counter < U64_MAX
    ensures ValueTaken(StorePassword(s, p), p.value)
  {
  }

  /** On an empty store every value is unique. */
  lemma EmptyStoreHasNoValues(v: string)
    ensures !ValueTaken(Init, v)
  {
  }

  /**
   * The generator's alphabet is plain ASCII, so a generated value has as many bytes as
   * characters, and one shorter than eight characters never passes validation.
   */
  lemma GeneratedValueByteLength(s: State, caller: Principal, now: u64, length: u64)
    requires s.counter < U64_MAX
    ensures var v := GeneratePassword(s, caller, now, length).result.value.value;
      && Validation.ByteLen(v) == length
      && (length < 8 ==> Validation.ValidatePassword(PasswordPayload(v)) == Err(Validation.Message(Validation.MinLength)))
  {
    var v := GeneratePassword(s, caller, now, length).result.value.value;
    forall i | 0 <= i < |v|
      ensures (v[i] as int) < 0x80
    {
      Generator.AlphabetIsAscii(v[i]);
    }
    Validation.AsciiByteLen(v);
  }
}
