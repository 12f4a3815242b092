# Password canister, modelled in Dafny

This project models the backend of a small Internet Computer canister that generates,
validates and stores passwords. The canister keeps an in-memory map from a `u64` id to a
`Password { value, created_at, owner }` record and a counter of the last id handed out.
It exposes these endpoints:

- `generate_password` builds a value from a 73-character alphabet using a clock-seeded
  linear-congruential recurrence. It stores the value as the caller's record and returns it.
- `store_password` inserts a record under the next id.
- `update_password` and `delete_password` check that the id exists, then check that the
  caller owns the record.
- `get_password` and `list_passwords` read records without any ownership check.
- `validate_password` applies five character-class rules in order.
- `check_password_uniqueness` scans the stored values.

The model is functional. The canister state is an immutable `State(store, counter)`. Each
mutating endpoint is a function of the state, the caller, the clock reading (`now`) and
its arguments. It returns the next state together with the reply. Read endpoints take the
state and return no state, so they cannot change it. Every failure is returned as an
`Err` carrying the exact message the canister sends.

Files and modules:

- `types.dfy` (`Types`): `u64`, `Principal`, `Password`, `PasswordPayload`, `Result` and
  the reply messages.
- `validation.dfy` (`Validation`): UTF-8 byte length, the character classes, the rules
  and `ValidatePassword`.
- `generator.dfy` (`Generator`): the alphabet, the seed, the mixing step, the character
  stream `Chars` and the loop `GenerateChars`. The charset literal is written as its four
  runs (upper case, lower case, digits, symbols). The generator looks characters up through
  `CharAt`, which computes position `j` from those runs. `CharAtIndexesCharset` proves that
  `CharAt` agrees with the literal at every position.
- `store.dfy` (`PasswordStore`): the state, the validity invariant and all store
  endpoints.
- `runs.dfy` (`Runs`): arbitrary sequences of mutating calls. Proves that ids strictly
  increase, that a removed id is never reused, and that an owner never changes.

`Valid(s)` is the store invariant: every stored id lies between 1 and the counter.
`GetPassword` is the unrestricted read. The mutating endpoints' contracts use it to state
what a later read returns.

## Model

| member | source | states |
|---|---|---|
| Validation.Utf8Width | src/my_rust_canister_backend/src/lib.rs:123 | A character takes 1 to 4 bytes, and exactly 1 byte iff it is ASCII. |
| Validation.ByteLen | src/my_rust_canister_backend/src/lib.rs:123 | The byte length that `value.len()` reports is at least the character count and at most four times it. |
| Validation.AsciiByteLen | src/my_rust_canister_backend/src/lib.rs:123 | For an all-ASCII value, the byte length equals the character count. |
| Validation.NonAsciiByteLen | src/my_rust_canister_backend/src/lib.rs:123 | One non-ASCII character makes the byte length exceed the character count. |
| Validation.Any | src/my_rust_canister_backend/src/lib.rs:126-135 | The left-to-right `chars().any` scan is true iff some character satisfies the predicate. |
| Validation.ValidatePassword | src/my_rust_canister_backend/src/lib.rs:120-139 | Returns `Ok("Password is valid.")` iff all five rules hold. Otherwise it returns the message of the first rule, in the order length, upper, lower, digit, special, that the value breaks. |
| Validation.MessagesIdentifyRule | src/my_rust_canister_backend/src/lib.rs:124-136 | The five error messages are pairwise distinct, so an error names exactly one rule. |
| Validation.FirstBrokenUnique | src/my_rust_canister_backend/src/lib.rs:123-137 | At most one rule is the first broken one, so the reported failure is determined by the value. |
| Validation.AlphanumericIsNotSpecial | src/my_rust_canister_backend/src/lib.rs:135 | No letter or digit belongs to the special-character set. |
| Validation.ShortFailsOnLength | src/my_rust_canister_backend/src/lib.rs:123-125 | "short" is rejected with the length message. |
| Validation.NoSpecialFailsOnSpecial | src/my_rust_canister_backend/src/lib.rs:123-137 | "Abcdefgh1" passes the first four rules and is rejected with the special-character message. |
| Validation.StrongIsValid | src/my_rust_canister_backend/src/lib.rs:120-139 | "Abcdefg1!" is valid. |
| Validation.SixCharactersCanBeLongEnough | src/my_rust_canister_backend/src/lib.rs:123-138 | Six characters, two of them two-byte, pass the "at least 8" rule because it counts bytes. |
| Generator.CharAtIndexesCharset | src/my_rust_canister_backend/src/lib.rs:31-33 | The charset literal has 73 characters, and indexing it at `j` gives `CharAt(j)`. |
| Generator.InAlphabetIffInCharset | src/my_rust_canister_backend/src/lib.rs:31-33 | A character is in the alphabet iff it occurs in the charset literal. |
| Generator.DrawnFromCharset | src/my_rust_canister_backend/src/lib.rs:31-39 | A string made of alphabet characters has every character in the charset literal. |
| Generator.AlphabetIsAscii | src/my_rust_canister_backend/src/lib.rs:31-33 | Every alphabet character is ASCII. |
| Generator.InitialSeed | src/my_rust_canister_backend/src/lib.rs:35 | `time() as usize` gives a seed below 2^32 that differs from the time by a multiple of 2^32, i.e. the time modulo 2^32; a time below 2^32 is unchanged. |
| Generator.Mix | src/my_rust_canister_backend/src/lib.rs:37 | The wrapping mixing step always stays inside a 32-bit word. |
| Generator.Chars | src/my_rust_canister_backend/src/lib.rs:36-40 | For any seed and any mixing function, the emitted string has exactly `length` characters, each from the alphabet. |
| Generator.GenerateChars | src/my_rust_canister_backend/src/lib.rs:34-40 | The character-by-character loop yields exactly the stream `Chars` defines: `length` characters, all from the alphabet. |
| Generator.ShorterIsPrefix | src/my_rust_canister_backend/src/lib.rs:35-40 | The output depends only on the seed: a shorter password from the same clock reading is a prefix of a longer one. |
| PasswordStore.InitValid | src/my_rust_canister_backend/src/lib.rs:19-22 | The initial state has an empty store and counter 0, and it satisfies the invariant. |
| PasswordStore.GetPassword | src/my_rust_canister_backend/src/lib.rs:98-107 | Takes no caller, so any caller may read any id. Succeeds iff the id is stored, then returns that record; otherwise returns "Password not found.". Returns no state, so it changes nothing. |
| PasswordStore.StorePassword | src/my_rust_canister_backend/src/lib.rs:50-61 | Increments the counter and stores the record under the new counter value, where it reads back unchanged. Every other id reads as before. In a valid state the new id was unused, so nothing is overwritten; the invariant and all owners are kept. |
| PasswordStore.GeneratePassword | src/my_rust_canister_backend/src/lib.rs:29-48 | Always succeeds. The value has exactly `length` characters from the charset, the owner is the caller and `created_at` is `now`. The same record is readable under the next id, nothing else changes, and the invariant is kept. |
| PasswordStore.UpdatePassword | src/my_rust_canister_backend/src/lib.rs:63-79 | Absent id: "Password not found." and no state change. Non-owner: the Unauthorized message and no state change. Owner: the record reads back with the new value, `created_at = now` and the same owner. Ids, counter, other records and owners are unchanged. |
| PasswordStore.DeletePassword | src/my_rust_canister_backend/src/lib.rs:81-96 | Absent id: not found and no state change. Non-owner: Unauthorized, and the record is still readable. Owner: exactly that id is removed, and reading it then gives "Password not found.". The counter and the other records are unchanged. |
| PasswordStore.ListPasswords | src/my_rust_canister_backend/src/lib.rs:109-118 | Returns one entry per stored id, in unspecified order. Each record appears as many times as ids map to it, so the result equals the store's values as a multiset. |
| PasswordStore.OccursIffStored | src/my_rust_canister_backend/src/lib.rs:109-118 | A record appears in the listing iff it is one of the stored values. |
| PasswordStore.CheckPasswordUniqueness | src/my_rust_canister_backend/src/lib.rs:141-148 | Never fails. Returns `Ok(true)` iff no stored record's value equals the payload's value. |
| PasswordStore.StoredValueIsTaken | src/my_rust_canister_backend/src/lib.rs:50-61 | After a record is stored, its value is reported as not unique. |
| PasswordStore.EmptyStoreHasNoValues | src/my_rust_canister_backend/src/lib.rs:142-147 | On the initial, empty store every value is unique. |
| PasswordStore.GeneratedValueByteLength | src/my_rust_canister_backend/src/lib.rs:29-47 | A generated value's byte length equals the requested length. Any generated value shorter than 8 fails validation on the length rule. |
| Runs.Apply | src/my_rust_canister_backend/src/lib.rs:29-96 | One mutating call raises the counter by 1 exactly when it is a generate or a store, and otherwise leaves the counter unchanged. Any newly present id is the new counter value. The invariant and owners are kept. |
| Runs.IssuedIdsIncrease | src/my_rust_canister_backend/src/lib.rs:54-59 | Over any call sequence, issued ids are strictly increasing. Each lies above the starting counter and at or below the final counter. The final counter is the start plus the number of ids issued. |
| Runs.RunKeepsValid | src/my_rust_canister_backend/src/lib.rs:50-96 | Every call sequence preserves the invariant. |
| Runs.RemovedIdStaysRemoved | src/my_rust_canister_backend/src/lib.rs:54-59 | An id that was issued and is no longer stored stays absent after any further calls, so ids are never reused. |
| Runs.OwnerNeverChanges | src/my_rust_canister_backend/src/lib.rs:63-96 | A record present before and after any call sequence has the same owner at both ends. |
| Runs.DeleteDoesNotRecycle | src/my_rust_canister_backend/src/lib.rs:54-59 | After an owner deletes an id, the next stored record gets a strictly larger id, and the deleted id stays absent. |
| Runs.FirstIdIsOne | src/my_rust_canister_backend/src/lib.rs:21 | The first id issued on a fresh canister is 1. |

## Left out

- Host plumbing is not modelled: the `#[init]` log line, the `update`/`query` attributes,
  `export_candid!`, the Candid encoding, and the `thread_local!`/`RefCell` globals. The two
  globals become the explicit `State` value passed to and returned from each endpoint.
- `time()` and `ic_cdk::caller()` are host calls, so they become the parameters `now` and
  `caller`. `generate_password` calls `time()` twice, once for the seed and once for
  `created_at`. Within one message execution the host returns the same time, so both use `now`.
- Generator.Mix: its contract states only that the result stays inside a 32-bit word.
  The recurrence's values are given by its definition, and no property of the produced
  sequence (period, distribution) is claimed.
- Generator.Mix: assumes a release build, where the multiplication and the `+ 12345` wrap
  modulo 2^32. A debug build would trap on overflow. On a 64-bit target `usize` is wider.
  `Chars` and its length and alphabet facts hold for every mixing function, so they do not
  depend on this choice. Nothing is claimed about randomness or unpredictability.
- Validation.ValidatePassword: counts only ASCII `A`-`Z`, `a`-`z` and `0`-`9` as upper
  case, lower case and numeric. Rust's `is_uppercase`, `is_lowercase` and `is_numeric`
  also accept non-ASCII letters and numerals, so for such values the model may report a
  rule as broken where the canister would not. The length rule is modelled exactly: it
  counts UTF-8 bytes.
- PasswordStore.StorePassword: requires the counter to be below `u64::MAX`. Behaviour when
  `*counter + 1` overflows is not modelled. PasswordStore.GeneratePassword and Runs.Run
  carry the same bound.
- Runs.Run: requires room in the counter for every call in the sequence, including updates
  and deletes, which issue no id. This is stronger than needed; reaching the bound takes
  2^64 - 1 stores. Runs.Apply itself asks for room only for generate and store calls.
- PasswordStore.ListPasswords: `HashMap` iteration order is not modelled. The order is an
  arbitrary choice, and only the multiset of records is specified.
- `Principal` is modelled as a byte string, of which only equality is used.
