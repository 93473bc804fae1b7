# Snowflake ID generator — Dafny model

This project models the Snowflake identifier generator of the twitter-clone
repository (`snowflake/snowflake_generator.py`). It covers the generator's
state machine and the encode/decode pair that packs an identifier. The state
is `(machine ID, sequence, last timestamp)`. An identifier holds 1 reserved
bit, 41 bits of milliseconds since the custom epoch 2025-01-01 UTC
(1735689600000), 10 bits of machine ID and 12 bits of per-millisecond
sequence.

Files:

- `wrappers.dfy` (module `Wrappers`): the `Option` and `Result` datatypes.
- `id_layout.dfy` (module `IdLayout`): the layout constants, `Encode`
  (the packing inside `generate_id`), `ParseId` (the numeric part of
  `parse_id`), and lemmas about them: both round trips, injectivity,
  lexicographic ordering, the 63-bit bound and the epoch test vector.
- `generator.dfy` (module `SnowflakeGenerator`): the immutable generator
  state, construction, the busy-wait, one `Generate` step, and
  `GenerateIds`, which makes successive calls on one instance.

Modelling choices:

- Python integers are unbounded, so the model uses `int`. A left shift by
  `k` is multiplication by 2^k. An arithmetic right shift by `k` is floor
  division by 2^k. `x & (2^k - 1)` is the non-negative remainder modulo
  2^k. Dafny's `/` and `%` by a positive divisor are exactly these, also
  for negative values.
- The OR of the three shifted fields is written as a sum. This is exact
  because the fields occupy disjoint bits. The machine ID is below 2^10 (a
  subset type, enforced at construction) and the sequence is below 2^12
  (it is always masked or reset before encoding).
- The clock is a parameter. `Generate` receives the reading taken on
  entry (`now`) and the readings the busy-wait would take if the sequence
  wraps (`wait`). The busy-wait terminates only if the clock eventually
  passes the last timestamp. `Generate` therefore requires that, in the
  wrap case, some reading in `wait` is later than the last timestamp.
- A call's effect is returned as a `Step`: the state after the call
  together with its `Result`. A failed call returns the state unchanged,
  matching the source, which raises before any assignment.
- The source never checks the 41-bit or 63-bit limits. `Generate` does not
  promise them either. `EncodeFitsSignedWord` states the bound as a
  conditional lemma.
- `parse_id` performs no validity check on its argument: the arithmetic
  decode at snowflake/snowflake_generator.py:75-77 accepts any integer, so
  `ParseId` is total. Only the calendar rendering at line 84, which is not
  modelled, can fail.
- The code marks "no identifier yet" with `-1`
  (snowflake/snowflake_generator.py:33), and so does `NeverGenerated`.
- `TimestampUnit` and `MachineIdUnit` are written as literals so that the
  arithmetic stays linear; `ShiftWeights` proves that they, the masks and
  the 41- and 63-bit capacities are the powers of two the shifts denote.

## Model

| member | source | states |
|---|---|---|
| IdLayout.ShiftWeights | snowflake/snowflake_generator.py:19-25 | The identifier weights are 2^22 and 2^12, the sequence and machine masks are 2^12 - 1 and 2^10 - 1, and the field capacities are 2^41 and 2^63 |
| IdLayout.Encode | snowflake/snowflake_generator.py:65-69 | The identifier lies in the block of 2^22 consecutive values that belongs to its millisecond offset from the epoch, so timestamp is the most significant field |
| IdLayout.ParseId | snowflake/snowflake_generator.py:73-83 | The arithmetic decode of lines 75-77 accepts any integer, keeps the identifier as the `id` entry, and yields a machine ID in [0, 1023] and a sequence in [0, 4095] |
| IdLayout.ParseEncode | snowflake/snowflake_generator.py:65-77 | The decoder inverts the encoder: decoding the packing of timestamp t, machine m and sequence s yields exactly t, m and s |
| IdLayout.EncodeParse | snowflake/snowflake_generator.py:65-77 | Every integer is the packing of the fields it decodes to, so decode loses no information |
| IdLayout.EncodeInjective | snowflake/snowflake_generator.py:65-69 | Equal identifiers come from equal (timestamp, machine ID, sequence) triples |
| IdLayout.EncodeOrder | snowflake/snowflake_generator.py:9-25 | One identifier is below another exactly when its (timestamp, machine ID, sequence) triple is lexicographically smaller |
| IdLayout.EncodeFitsSignedWord | snowflake/snowflake_generator.py:9-14 | While the epoch offset fits in 41 bits, the identifier is non-negative and below 2^63, so the reserved top bit is 0 |
| IdLayout.KnownVector | snowflake/test_snowflake_generator.py:205-218 | The identifier 1000 << 22 decodes to timestamp 1735689601000, machine 0 and sequence 0 |
| SnowflakeGenerator.NewGenerator | snowflake/snowflake_generator.py:27-33 | Construction fails with InvalidMachineId exactly when the machine ID is below 0 or above 1023; otherwise it stores the ID as given, with sequence 0 and last timestamp -1 |
| SnowflakeGenerator.DefaultGenerator | snowflake/snowflake_generator.py:27 | Constructing with the default machine ID 0 succeeds and yields the initial state for machine 0 |
| SnowflakeGenerator.PollsBeforeLater | snowflake/snowflake_generator.py:40-45 | The busy-wait stops at the first reading later than the last timestamp: every reading it discards is at or before it |
| SnowflakeGenerator.WaitNextMillis | snowflake/snowflake_generator.py:40-45 | The wait returns a reading strictly later than the last timestamp, and it is the first such reading |
| SnowflakeGenerator.NextSequence | snowflake/snowflake_generator.py:56 | The masked successor is always in [0, 4095]; it is the old sequence plus one below 4095 and wraps to 0 from 4095 |
| SnowflakeGenerator.Generate | snowflake/snowflake_generator.py:47-71 | A call fails with ClockMovedBackwards exactly when the reading is below the last timestamp, and then leaves the state unchanged. Otherwise the machine ID is kept, the sequence is in range and the last timestamp never decreases. The same millisecond without wrap increments the sequence. A later millisecond resets it to 0. A wrap waits for a strictly later reading and emits sequence 0. The result is the packing of the new state |
| SnowflakeGenerator.GenerateIncreases | snowflake/snowflake_generator.py:47-71 | From a valid state, a successful call emits an identifier above the packing of the state's last timestamp and sequence |
| SnowflakeGenerator.SuccessiveIdsIncrease | snowflake/test_snowflake_generator.py:43-51 | Two successive successful calls on one instance return strictly increasing identifiers |
| SnowflakeGenerator.ParseGenerated | snowflake/test_snowflake_generator.py:104-117 | Decoding an emitted identifier gives the instance's machine ID, the new last timestamp (never before the entry reading) and the new sequence |
| SnowflakeGenerator.DistinctMachinesDistinctIds | snowflake/test_snowflake_generator.py:132-149 | Generators with different machine IDs never emit the same identifier, whatever their clocks read |
| SnowflakeGenerator.SequenceOverflowExample | snowflake/test_snowflake_generator.py:175-203 | From sequence 4094 at time t, two calls at t emit sequences 4095 and then 0, and the second identifier has timestamp t + 1 and is larger |
| SnowflakeGenerator.Run | snowflake/test_snowflake_generator.py:33-51 | Successive calls on one instance, stopping at the first clock regression: every tick is consumed unless a call fails, a failure is a reading below the last timestamp of the state the earlier calls left, the machine ID is kept and the last timestamp never decreases |
| SnowflakeGenerator.RunIdsIncrease | snowflake/test_snowflake_generator.py:43-51 | The identifiers of successive calls on one instance are strictly increasing |
| SnowflakeGenerator.RunIdsAbove | snowflake/snowflake_generator.py:52-62 | From a state satisfying the invariant, successive calls emit only identifiers above the packing of that state's last timestamp and sequence |
| SnowflakeGenerator.RunLastId | snowflake/snowflake_generator.py:62-69 | The last identifier of successive calls is the packing of the state they leave behind |
| SnowflakeGenerator.RunIdsMachine | snowflake/test_snowflake_generator.py:104-117 | Every identifier of successive calls decodes to the instance's machine ID |
| SnowflakeGenerator.RunIdsDistinct | snowflake/test_snowflake_generator.py:33-41 | The identifiers of successive calls on one instance are pairwise distinct |
| SnowflakeGenerator.GenerateIds | snowflake/test_snowflake_generator.py:33-51 | The caller's loop of successive calls returns exactly what Run computes: the same final state, identifiers and failure |

## Left out

- The `datetime` string of `parse_id` (snowflake/snowflake_generator.py:84): it relies on floating-point division and calendar formatting from the standard library. Its error path is dropped with it: for a timestamp outside the platform's time range (an identifier far beyond 64 bits) that line raises, which snowflake/main.py:50-58 turns into an "Invalid snowflake ID" reply; `ParseId` never fails.
- `threading.Lock` (snowflake/snowflake_generator.py:34, 49) and the thread-safety test: each `Generate` is one atomic step, which is what the lock provides.
- `_current_timestamp` (snowflake/snowflake_generator.py:36-38): the real clock is replaced by readings supplied as parameters.
- The timestamp-accuracy test (snowflake/test_snowflake_generator.py:119-130) needs a real clock. The model states only that the decoded timestamp is never before the entry reading, and equals it unless the sequence wrapped.
- Generate: in the wrap case it requires the busy-wait to end, since the source loops forever on a clock that never advances.
- Run: it requires every call's clock to eventually pass that call's entry reading. This is stronger than `Generate` needs, because outside the wrap case the wait readings are unused.
- The HTTP services, the ID client, database access, authentication and password hashing are not part of this model.
