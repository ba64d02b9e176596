# fairdicegame in Dafny

A model of `fairdicegame`, an EOS contract that runs a commit-reveal dice
game. The game works as follows:

- A player deposits EOS with a memo. The memo names:
  - a threshold `roll_under`;
  - the hash of a secret seed held by the house's oracle;
  - an expiration;
  - an optional referrer;
  - the oracle's signature over all of the above.
- `offer` checks the deposit and stores the bet. It sweeps expired commitments, registers the new commitment, and locks the stake in the fund pool. Then it queues a receipt.
- `reveal` is allowed only to the revealer account. It takes the seed and checks it against the commitment. It rolls 1 to 100 from the seed's 64-bit hash.
  - A roll below the threshold pays `min(stake * 98 / (roll_under - 1), available / 100)`.
  - Reveal then releases the stake.
  - It pays a 0.5% referral fee unless the referrer is the contract itself.
  - It deletes the bet and sends a settlement record to the logger account.

The model is split into modules:

- `Types` (types.dfy) holds the records, assets, errors and outbound actions. It also holds `Host`, the platform capabilities that the contract calls but does not define.
- `Arithmetic` (arithmetic.dfy) holds the roll, the referral fee and the payout arithmetic.
- `Memo` (memo.dfy) covers memo handling: whitespace removal, splitting on `-`, and the signed text. It also proves a round trip between parsing and composing memos.
- `Tables` (tables.dfy) describes reads of the tables as values:
  - the next primary key;
  - lookups that abort;
  - the registry sweep;
  - the total stake of open bets.
- `Admission` (admission.dfy) holds every check of `offer`, in the contract's order, as one function from the state and the deposit to either an error or the bet to store.
- `Settlement` (settlement.dfy) holds a reveal's outcome and the actions it queues.
- `FairDice` (fairdice.dfy) holds the class `FairDiceGame`. Its fields are the contract's tables and its methods are the contract's operations. `Valid()` is the state invariant:
  - every bet is stored under its own id, satisfies the admission bounds, and was not placed by the contract;
  - every registry entry is keyed by its hash;
  - the locked amount equals the total stake of the open bets.

  `Offer` and `Reveal` keep this invariant. Because of it, the locked amount is never negative and the "fund unlock error" check in `unlock` can never fire from `reveal`.

An invocation either commits or aborts as a whole. The methods therefore write nothing before their last check can fail. They return `Err` with the reason, and a failed call leaves every field unchanged. Outbound actions go into `outbox` only when the invocation succeeds.

The following are parameters:

- the current time (`now`);
- the contract's token balance (`balance`);
- the caller of `reveal`;
- the host's hashing, key recovery and text parsing (fields of `Host`).

Three consequences of the code are worth stating:

- A bet's id comes from the bets table's `available_primary_key` (`fairdicegame/src/fairdicegame.cpp:111`): one past the largest id in use. The `next_id` counter is never called by the contract. So an id is reused once the newest bet is settled (`Tables.PrimaryKeyReused`).
- With `roll_under = 50` the odds double the stake: a stake of 100 pays 200, capped by the bonus ceiling (`Arithmetic.EvenOddsPayout`).
- `assert_signature` hashes the signed text only up to its first NUL character (`fairdicegame/include/fairdicegame.hpp:144-145`). If a memo's expiration field holds a NUL, an appended referrer lies outside the digest, and a signature over the memo without a referrer also passes the signature check with any referrer appended (`Memo.NulHidesReferrer`). Whether such a memo gets past the expiration check depends on `stoull`, which is not part of this model.

## Model

| member | source | states |
|---|---|---|
| `Arithmetic.TruncDiv` | fairdicegame/include/fairdicegame.hpp:31 | asset division truncates toward zero: the quotient has the dividend's sign and the largest magnitude whose multiple of the divisor does not exceed the dividend's |
| `Arithmetic.RandomRoll` | fairdicegame/include/fairdicegame.hpp:27-29 | the roll lies in [1, 100] and is one more than the seed hash modulo 100 |
| `Arithmetic.ReferrerReward` | fairdicegame/include/fairdicegame.hpp:31 | the referral fee is the stake divided by 200, truncated, never negative for a non-negative stake |
| `Arithmetic.MaxPayout` | fairdicegame/include/fairdicegame.hpp:120-123 | the payout is the largest p with (roll_under - 1) * p <= 98 * stake: a 2% house edge at win probability (roll_under - 1) / 100 |
| `Arithmetic.MaxBonus` | fairdicegame/include/fairdicegame.hpp:125 | the bonus ceiling is 1% of the available balance, truncated |
| `Arithmetic.ComputePayout` | fairdicegame/include/fairdicegame.hpp:117-119 | the payout is the smaller of the odds payout and the bonus ceiling, so it never exceeds 1% of the available balance nor the house-edge bound |
| `Arithmetic.AvailableBalance` | fairdicegame/include/fairdicegame.hpp:127-135 | succeeds exactly when the balance covers the locked amount, with balance - locked; otherwise aborts with "fund pool overdraw" |
| `Arithmetic.MaxPayoutAntitone` | fairdicegame/include/fairdicegame.hpp:120-123 | a higher threshold never pays more |
| `Arithmetic.MaxPayoutCoversStake` | fairdicegame/include/fairdicegame.hpp:120-123 | for every accepted threshold the odds payout, before the bonus ceiling caps it, is at least the stake |
| `Arithmetic.EvenOddsPayout` | fairdicegame/include/fairdicegame.hpp:117-123 | threshold 50 and stake 100 pay 200, capped by the bonus ceiling |
| `Memo.IsSpace` | fairdicegame/src/fairdicegame.cpp:59 | a character is whitespace exactly when it is space, tab, newline, vertical tab, form feed or carriage return, as `isspace` in the C locale |
| `Memo.RemoveSpaces` | fairdicegame/src/fairdicegame.cpp:56-60 | the result has no whitespace, is no longer than the memo, and is the memo itself when the memo has none |
| `Memo.RemoveSpacesCount` | fairdicegame/src/fairdicegame.cpp:56-60 | removing whitespace keeps the number of separators |
| `Memo.RemoveSpacesAppend` | fairdicegame/src/fairdicegame.cpp:56-60 | removal works piecewise, so the kept characters stay in their original order |
| `Memo.RemoveSpacesOfSpaces` | fairdicegame/src/fairdicegame.cpp:56-60 | a run of whitespace is removed entirely |
| `Memo.RemoveSpacesInserted` | fairdicegame/src/fairdicegame.cpp:56-60 | inserting a run of whitespace anywhere in a text leaves its stripped form unchanged |
| `Memo.Find` | fairdicegame/src/fairdicegame.cpp:78 | the result is the first index at or after the start position holding the character, or none when no such index exists |
| `Memo.FindLast` | fairdicegame/src/fairdicegame.cpp:101 | the result is the last index holding the character, or none when the text has none |
| `Memo.Sub2Sepa` | fairdicegame/src/fairdicegame.cpp:74-76 | reading a field splits the text at its first separator into a separator-free field and the rest; it fails exactly when there is no separator |
| `Memo.ParseMemo` | fairdicegame/src/fairdicegame.cpp:73-83 | parsing fails only for a missing separator or an empty signature |
| `Memo.ParseMemoSound` | fairdicegame/src/fairdicegame.cpp:73-81 | every parsed memo is the composition of its well-formed fields |
| `Memo.ParseCompose` | fairdicegame/src/fairdicegame.cpp:73-81 | composing well-formed fields and parsing gives the fields back, referrer present or absent |
| `Memo.ParseMemoMissingSeparator` | fairdicegame/src/fairdicegame.cpp:74-76 | a required separator is missing exactly when the memo has fewer than three |
| `Memo.SignedText` | fairdicegame/src/fairdicegame.cpp:101 | the signed text is the prefix before the last separator, or the whole memo without one |
| `Memo.SignedTextOfCompose` | fairdicegame/src/fairdicegame.cpp:101-103 | for a signature without '-', the text passed to the signature check is exactly the fields before the signature, including the referrer |
| `Memo.SignedDigestCoversFields` | fairdicegame/include/fairdicegame.hpp:142-145 | for a signature without '-' and fields without a NUL, the hashed C string of the signed text is exactly the fields before the signature, referrer included |
| `Memo.CStringStopsAtNul` | fairdicegame/include/fairdicegame.hpp:144-145 | text after a NUL does not reach the hashed C string |
| `Memo.NulHidesReferrer` | fairdicegame/include/fairdicegame.hpp:142-145 | with a NUL in the expiration field, the digest of a memo with a referrer equals the digest of the same memo without it |
| `Types.CString` | fairdicegame/include/fairdicegame.hpp:144-145 | the C string is the longest NUL-free prefix of the text: it stops at the first NUL and is the whole text when there is none |
| `Types.SeedMatches` | fairdicegame/include/fairdicegame.hpp:155-160 | the seed passes exactly when the SHA-256 of its hex text equals the stored commitment |
| `Types.SignatureValid` | fairdicegame/include/fairdicegame.hpp:142-153 | the signature passes exactly when it recovers the trusted public key from the SHA-256 of the signed text read as a C string |
| `Types.IsValidQuantity` | fairdicegame/src/fairdicegame.cpp:53 | an EOS amount is valid exactly when its magnitude is at most 2^62 - 1 |
| `Tables.AvailablePrimaryKey` | fairdicegame/src/fairdicegame.cpp:111 | the new id is unused, above every id in use, 0 for an empty table and otherwise one past the largest |
| `Tables.PrimaryKeyReused` | fairdicegame/src/fairdicegame.cpp:111 | after the newest bet is removed, its id (or a smaller one) is handed out again |
| `Tables.FindOrError` | fairdicegame/include/fairdicegame.hpp:64-68 | returns the stored bet exactly when the id is present, otherwise "bet not found" |
| `Tables.AssertHash` | fairdicegame/include/fairdicegame.hpp:70-74 | aborts with "hash duplicate" exactly when the commitment's 64-bit hash keys a registry entry |
| `Tables.Unexpired` | fairdicegame/include/fairdicegame.hpp:76-83 | the sweep keeps exactly the entries expiring after now, unchanged |
| `Tables.EarliestExists` | fairdicegame/include/fairdicegame.hpp:77-81 | a non-empty registry has an entry of earliest expiration, where the sweep starts |
| `Tables.StakedInsert` | fairdicegame/include/fairdicegame.hpp:111-115 | storing a bet under a fresh id adds its stake to the total stake |
| `Tables.StakedRemove` | fairdicegame/include/fairdicegame.hpp:104-109 | deleting a bet takes its stake off the total |
| `Tables.StakeOfCovers` | fairdicegame/include/fairdicegame.hpp:104-109 | with non-negative stakes the total is non-negative and covers each stake |
| `Admission.ToUint8` | fairdicegame/src/fairdicegame.cpp:85 | the cast keeps the value modulo 256 and leaves values below 256 unchanged |
| `Admission.ResolveReferrer` | fairdicegame/src/fairdicegame.cpp:105-107 | a non-empty referrer field names the referrer; otherwise it is the contract |
| `Admission.ReadRollUnder` | fairdicegame/src/fairdicegame.cpp:85-88 | the threshold is accepted exactly when it parses and its 8-bit value lies in [2, 96]; otherwise the error is Unparsable or "roll_under overflow" |
| `Admission.CheckBonus` | fairdicegame/src/fairdicegame.cpp:90-92 | passes exactly when the pool is not overdrawn and the odds payout is within the bonus ceiling; otherwise "fund pool overdraw" or "offered overflow" |
| `Admission.ReadSeedHash` | fairdicegame/src/fairdicegame.cpp:94-96 | the commitment is accepted exactly when present, parseable and not registered; otherwise "no seed", Unparsable or "hash duplicate" |
| `Admission.ReadExpiration` | fairdicegame/src/fairdicegame.cpp:98-99 | the expiration is accepted exactly when it parses to a time after now; otherwise Unparsable or "seed hash expired" |
| `Admission.AdmitFields` | fairdicegame/src/fairdicegame.cpp:85-117 | a bet admitted from the parsed fields passed every field check and is well formed, fresh, covered by the bonus ceiling and unregistered |
| `Admission.AdmitMemo` | fairdicegame/src/fairdicegame.cpp:73-117 | a memo that does not parse is refused for the parse error; an admitted bet passed every memo check and is well formed, fresh, covered by the bonus ceiling and unregistered |
| `Admission.CheckOffer` | fairdicegame/src/fairdicegame.cpp:52-117 | each quantity error occurs exactly when its check fails; an admitted bet passed every check in order and satisfies the bet invariants |
| `Admission.CheckOfferAccepts` | fairdicegame/src/fairdicegame.cpp:52-117 | conversely, a deposit passing every check is admitted with exactly that bet |
| `Admission.ComposedMemoAdmitted` | fairdicegame/src/fairdicegame.cpp:56-117 | a correctly signed memo composed from well-formed fields is admitted end to end |
| `Admission.CheckOfferIgnoresWhitespace` | fairdicegame/src/fairdicegame.cpp:56-60 | the outcome is that of the memo with its whitespace removed |
| `Admission.CheckOfferInsertedWhitespace` | fairdicegame/src/fairdicegame.cpp:56-60 | inserting a run of whitespace anywhere in the memo keeps the outcome |
| `Admission.CheckOfferSameStripped` | fairdicegame/src/fairdicegame.cpp:56-60 | two memos that are equal once their whitespace is removed have the same outcome |
| `Admission.CheckOfferMissingSeparator` | fairdicegame/src/fairdicegame.cpp:74-76 | an acceptable deposit whose memo has fewer than three separators is refused for that reason |
| `Settlement.Settle` | fairdicegame/src/fairdicegame.cpp:8-18 | fails only on a win with the pool overdrawn; the roll is in [1, 100]; a win pays the capped payout, which is non-negative, within the house edge and within 1% of the available balance; a loss pays 0 |
| `Settlement.Record` | fairdicegame/src/fairdicegame.cpp:29-37 | the settlement record carries the bet's id, player, referrer, stake, threshold and commitment, the roll, the revealed seed and the payout in the stake's symbol |
| `Settlement.TransferredToAppend` | fairdicegame/src/fairdicegame.cpp:12-27 | the amount sent to an account over two runs of actions is the sum of the two |
| `Settlement.Effects` | fairdicegame/src/fairdicegame.cpp:10-42 | there are (win ? 1 : 0) + (referrer is not the contract ? 1 : 0) + 1 actions, ending with the settlement record; every other action is an empty-memo transfer from the contract to the player or the referrer; a transfer to the player exists exactly on a win, carries the payout and comes first; a transfer to the referrer exists exactly when the referrer is not the contract and carries the fee |
| `Settlement.WinningExample` | fairdicegame/src/fairdicegame.cpp:8-27 | stake 1000 under 50 rolling 20 with a referrer pays min(2000, ceiling) to the player and 5 to the referrer |
| `FairDice.FundPoolOrDefault` | fairdicegame/include/fairdicegame.hpp:137-140 | a missing fund-pool record reads as 0 EOS locked |
| `FairDice.Successor` | fairdicegame/include/fairdicegame.hpp:36 | the counter advances by one, wrapping to 0 after 2^64 - 1 |
| `FairDice.AdmissionKeepsConsistent` | fairdicegame/src/fairdicegame.cpp:111-119 | storing an admitted bet, registering its commitment after the sweep and locking its stake keep the state invariant |
| `FairDice.SettlementKeepsConsistent` | fairdicegame/src/fairdicegame.cpp:18-28 | deleting a settled bet and unlocking its stake keep the state invariant |
| `FairDice.ConsistentLockedNonNegative` | fairdicegame/include/fairdicegame.hpp:104-109 | in a consistent state the locked amount is never negative |
| `FairDice.ConsistentCoversStake` | fairdicegame/include/fairdicegame.hpp:104-109 | in a consistent state the locked amount covers every open stake, so unlocking at settlement never fails |
| `FairDice.FairDiceGame.constructor` | fairdicegame/include/fairdicegame.hpp:6-11 | a fresh contract has empty tables and satisfies the invariant |
| `FairDice.FairDiceGame.NextId` | fairdicegame/include/fairdicegame.hpp:33-39 | the counter, seeded from the next free primary key, advances by one and the new value is stored and returned |
| `FairDice.FairDiceGame.Cleanup` | fairdicegame/include/fairdicegame.hpp:76-83 | erasing earliest-first leaves exactly the unexpired entries |
| `FairDice.FairDiceGame.Save` | fairdicegame/include/fairdicegame.hpp:85-100 | adds exactly the bet, sweeps, and adds exactly the commitment entry |
| `FairDice.FairDiceGame.Remove` | fairdicegame/include/fairdicegame.hpp:102 | deletes exactly that bet |
| `FairDice.FairDiceGame.Lock` | fairdicegame/include/fairdicegame.hpp:111-115 | the locked amount grows by exactly the amount and the record is written |
| `FairDice.FairDiceGame.Unlock` | fairdicegame/include/fairdicegame.hpp:104-109 | the locked amount shrinks by exactly the amount; it fails with "fund unlock error", writing nothing, exactly when it would go negative |
| `FairDice.FairDiceGame.Admit` | fairdicegame/src/fairdicegame.cpp:111-124 | stores exactly the admitted bet, sweeps and registers its commitment, locks exactly its stake and queues its receipt; keeps the invariant |
| `FairDice.FairDiceGame.Release` | fairdicegame/src/fairdicegame.cpp:18-42 | deletes exactly the settled bet, unlocks exactly its stake and queues exactly the settlement's actions; keeps the invariant |
| `FairDice.FairDiceGame.Offer` | fairdicegame/src/fairdicegame.cpp:45-125 | ignores transfers not to or from the contract; otherwise fails exactly as the checks do with nothing changed, or stores the bet, sweeps and registers, locks the stake and queues the receipt; keeps the invariant |
| `FairDice.FairDiceGame.Reveal` | fairdicegame/src/fairdicegame.cpp:3-43 | fails without change for a wrong caller, a missing bet, a seed not matching the commitment, or an overdrawn pool on a win; when the caller, the bet and the seed are right it succeeds exactly when the settlement does; on success removes the bet, releases its stake and queues the settlement's actions; never fails to unlock; keeps the invariant |
| `FairDice.SuccessiveIds` | fairdicegame/include/fairdicegame.hpp:33-39 | two advances of the counter give consecutive ids |
| `FairDice.RevealTwice` | fairdicegame/src/fairdicegame.cpp:5 | after a successful reveal, revealing the same id again fails with "bet not found" |

## Left out

- Host cryptography is not modelled. `uint64_hash`, `sha256`, `sha256_to_hex`, the key recovery behind `assert_signature` and the trusted public key are fields of `Host` with no properties. `assert_seed` and `assert_signature` become the predicates `SeedMatches` and `SignatureValid`.
- The helper headers that define `sub2sepa`, `uint64_string`, `hex_to_sha256`, `string_to_name`, `str_to_sig` and the table types are not part of this model.
  - `sub2sepa` is modelled as "read up to the next `-`, which must exist".
  - `stoi`, `stoull`, `hex_to_sha256` and `string_to_name` are `Host` parameters. An exception thrown by `stoi`, `stoull` or `hex_to_sha256` is the error `Unparsable`. `string_to_name` is modelled as total: it never fails.
- The token balance (`eosio.token`'s `get_balance`) is the `balance` parameter. The token contract's own checks on outbound transfers are not modelled, such as its refusal of a zero payout.
- `Arithmetic.MaxPayout`: the source multiplies the stake by the double `98.0 / (roll_under - 1)` and truncates. The model uses exact integer division. While 98 × stake stays below 2^53 the two can differ by one unit where the double rounds; above that the double's own rounding can make the difference larger.
- `Arithmetic.MaxPayout`: the asset constructor (`fairdicegame/include/fairdicegame.hpp:122`) aborts when the odds payout exceeds 2^62 - 1. This happens only for huge stakes at low thresholds. Where the source aborts there, the model does not: at `offer` it refuses the deposit with "offered overflow" whenever the bonus ceiling is below the odds payout, and at `reveal` it computes the payout. The model does not bound `balance`.
- `Types.SignatureValid`: `Host.sha256` stands for the hash of the C string; the model passes it `CString` of the signed text, and key recovery has no properties.
- Asset arithmetic's own assertions are not modelled: the range check on `+=` and `-=` and the symbol match. `Lock` and `Unlock` require the amount's symbol to match the pool's. Every stake is EOS, so this always holds in `Offer` and `Reveal`.
- `IsValidQuantity` checks only the amount's range. The symbol part of `asset::is_valid` is covered by the earlier EOS-symbol check.
- `get_or_create`'s write of the default fund-pool record is not modelled. A missing record reads as 0 locked, and every successful `lock` and `unlock` writes the record anyway.
- `referrer_memo` and `winner_memo` are not called by the contract. Outbound transfers carry the empty memo the code sends.
- The `receipt` action and the `apply` dispatcher are not modelled. `require_auth(REVEALER)` is a check that the `caller` parameter equals `revealer`.
- `Save`: the uniqueness checks of the table `emplace` calls are preconditions. `Offer` establishes them by its own checks.
- `Remove`: `erase`'s check that the bet is in the table is a precondition.
- The multi-index's secondary index by expiration is not kept. `Cleanup` selects an entry of earliest expiration directly.

