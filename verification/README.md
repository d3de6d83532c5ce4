# pykv core in Dafny

A model of the core of pykv, a small key-value server. The model has three parts.

- **The store** (`pykv/store.py`, class `PyKVStore`):
  - A hash map from key to node, plus a doubly linked recency list. The head of the list is the most recently used key and the tail is the least recently used.
  - When a new key arrives and the map is full, the tail key is evicted.
  - Each key can have an expiry time. `get` checks expiry lazily, and a periodic cleanup sweep checks it eagerly.
  - Operation counters feed `stats`.
- **The write-ahead log** (`pykv/persistence.py`, class `WAL`):
  - The `SET|key|value|ttl` and `DEL|key` lines that `append_set` and `append_delete` write.
  - The line-by-line parse and replay of `recover`.
  - The records `compact` writes.
- **Credentials** (`pykv/auth.py`):
  - The e-mail pattern and the password rule.
  - The decisions of `register_user` and `validate_user`, taken over the loaded user table.

Modelling choices:

- **Time.** Time is an explicit integer `now` passed to every operation that reads the clock.
- **The store is a value.** It is an immutable record (`LruStore.Store`) with these parts:
  - `entries`, the map from key to entry.
  - `recency`, the linked list as a sequence from head to tail.
  - `order`, the insertion order of the Python dict, which is what `keys()` lists.
  - The counters.

  Every operation returns the new store. It requires, and re-establishes, the representation invariant `Valid`: both sequences hold each key once, and both hold exactly the map's keys.
- **The log is a value.** It is modelled as the text of the file.
  - Reading it follows Python's text mode: `\r\n`, `\r` and `\n` all end a line and are read as `\n`.
  - `str.strip()` removes the code points for which `str.isspace()` holds.
  - `int()` accepts one sign and ASCII digits with single underscores between them. Around them it skips only the ASCII whitespace of the C library's `isspace`, plus the other code points `str.isspace()` accepts from U+0080 up. The separators U+001C to U+001F are whitespace for `str.strip()` but not for `int()`.
  - A line that `recover` cannot handle raises an exception in the source. Here recovery stops with an `Aborted` result that carries the line number, the cause, and the store as the earlier lines left it.
- **Credentials.** The user table is a map value (e-mail to hash). The password hash is a function parameter.

Behaviour kept as the code has it:

- A `get` of an expired key counts two operations in `total_ops`: its own, and the one from the `delete` it calls.
- With capacity 0 (or less), the first insertion succeeds anyway. `_evict_lru` on an empty list does nothing. The store then holds one key, never more.
- `keys()` lists keys in insertion order, not recency order. A key that is overwritten keeps its place.
- `delete` never reads its `reason` argument.
- `re.match` with a final `$` also accepts one trailing `"\n"` after an address, but not two.
- `compact` reads each value through `get`, with all its side effects:
  - A live key moves to the front of the recency list and counts a hit, so the visited live keys end up in reverse `keys()` order.
  - An expired key is deleted and counts one expiration, one miss and two operations (see Findings).

Properties proved:

- **Capacity.** The capacity bound holds over any run of operations.
- **LRU victim.** The recency list is always ordered by last touch (`set`, or a `get` that hits). So the evicted key is the one touched least recently (`LastTouch`).
- **Counters.** Each removal is counted under eviction or under expiry, never both.
- **Expiry.** Expiry is consistent between `get`, the sweep and `ttl_remaining`.
- **Log round trip.** Reading a written log replays exactly the written records.
- **Errors.** Recovery stops at the first bad line.
- **Compaction.** What a recovery of the compacted log gives back.
- **E-mail check.** The decision procedure for the e-mail pattern agrees with the pattern.
- **Registration and login.** The order of checks, and what registration changes.

## Model

| member | source | states |
|---|---|---|
| LruStore.Empty | pykv/store.py:35-56 | A new store is valid and empty: no keys, and all counters zero. |
| LruStore.AddToFrontLinks | pykv/store.py:70-77 | Linking a key after the head puts it first and shifts every other key back by one; a new key keeps each key listed once. |
| LruStore.RemoveNodeUnlinks | pykv/store.py:79-84 | Unlinking a key removes it and keeps every other key. In a list with each key once, the rest is the list before and after its position. |
| LruStore.RemoveAfterAdd | pykv/store.py:70-84 | Unlinking a key just linked at the front gives back the list as it was. |
| LruStore.MoveFrontmost | pykv/store.py:86-91 | Moving the key already at the head leaves the list unchanged. |
| LruStore.ExpiresAfterTtl | pykv/store.py:112-116 | An entry set at `t` with a TTL is expired at `now` exactly when `now - t >= ttl`; without a TTL it never expires. Once expired, it stays expired. |
| LruStore.ExpiredKeysGrow | pykv/store.py:112-116 | A key expired at some time is still expired at any later time. |
| LruStore.MoveToFront | pykv/store.py:86-91 | After the move, the key is at the head and the list holds the same keys plus this one, each still listed once. A key not yet listed is put in front of the unchanged list. A listed key is taken out of its single position and put in front; every other key keeps its relative order. |
| LruStore.MoveKeepsOrder | pykv/store.py:79-84 | Unlinking a key not in the list changes nothing. In a list with each key once, unlinking a key leaves the keys before and after its position, in order. |
| LruStore.EvictLru | pykv/store.py:93-108 | An empty list leaves the store as it was. Otherwise the tail key leaves the map, the list and the insertion order, and `evictions` grows by one; nothing else changes. |
| LruStore.Set | pykv/store.py:140-174 | Three cases. Overwriting an existing key replaces its entry in place and moves it to the front; size and `evictions` are unchanged. A new key in a full, non-empty store evicts exactly the tail, then goes to the front and to the end of `keys()`. A new key with room is simply added. In every case `total_ops` grows by one and the store stays valid. |
| LruStore.Get | pykv/store.py:176-203 | Absent key: a miss, with map and lists unchanged. Expired key: removed, one TTL expiration, one miss, `total_ops` up by two. Live key: its value is returned, it moves to the front, one hit. |
| LruStore.Delete | pykv/store.py:205-222 | The answer is true exactly when the key was present. Afterwards the key is gone from the map and from both lists, and only `total_ops` changes among the counters. |
| LruStore.TtlRemaining | pykv/store.py:224-238 | None exactly for an absent key or a key without expiry. Otherwise the value is never negative, and it is 0 exactly when the key has expired. A positive value is the distance from `now` to the expiry. |
| LruStore.Keys | pykv/store.py:257-261 | Each key of the map is listed exactly once. |
| LruStore.GetStats | pykv/store.py:240-255 | The reported fields are the store's counters, its key count, the uptime since construction, and the log size passed in. |
| LruStore.Sweep | pykv/store.py:124-136 | The keys kept are exactly those not expired at `now`, with their entries unchanged. `ttl_expirations` and `total_ops` each grow by the number of expired keys. Both lists keep their relative order. |
| StoreProps.StepBound | pykv/store.py:162-172 | No single `set`, `get`, `delete` or sweep takes the store above the larger of its capacity and one. |
| StoreProps.RunBound | pykv/store.py:162-172 | Starting from a store within that bound, any run of operations stays within it. With capacity at least one, this is the capacity bound itself. |
| StoreProps.RunFromEmptyWithinCapacity | pykv/store.py:35-40 | Every store reached from a fresh one with capacity at least one holds at most `capacity` keys. |
| StoreProps.ZeroCapacityOverflows | pykv/store.py:99-101 | With capacity 0, the first `set` stores its key with no eviction, so the store holds more keys than its capacity. |
| StoreProps.SetAttribution | pykv/store.py:153-172 | `set` removes keys only by eviction: at most one, each one counted in `evictions`, with `ttl_expirations` unchanged. |
| StoreProps.SetEvictsOne | pykv/store.py:93-108 | A new key in a full, non-empty store removes exactly the tail key of the recency list and counts one eviction. |
| StoreProps.GetAttribution | pykv/store.py:192-197 | `get` removes at most its own key, only when that key has expired, and counts the removal in `ttl_expirations`, never in `evictions`. |
| StoreProps.SweepAttribution | pykv/store.py:129-136 | The sweep removes only expired keys, counts each one in `ttl_expirations`, and leaves `evictions` unchanged. |
| StoreProps.DeleteAttribution | pykv/store.py:205-222 | `delete` removes at most its own key and counts the removal neither as an eviction nor as an expiration. |
| StoreProps.StepAttribution | pykv/store.py:140-222 | For any operation, every removal falls under exactly one cause: `set` counts evictions, `get` and the sweep count expirations, and `delete` counts neither. |
| StoreProps.LookupsCounted | pykv/store.py:183-203 | Over any run, hits plus misses grow by exactly the number of `get` calls. Every `get` is one hit or one miss, and no other operation touches either counter. |
| StoreProps.GetAfterSet | pykv/store.py:148-151 | A key `set` with a TTL at `t0` and read at `t1` returns its value while `t1 < t0 + ttl`. From then on it reads as absent, counting one expiration and one miss. Without a TTL it never expires. |
| StoreProps.SweepAfterSet | pykv/store.py:129-131 | The sweep at `t1` removes a key `set` at `t0` exactly when it has a TTL and `t1 >= t0 + ttl`. |
| StoreProps.TtlAfterSet | pykv/store.py:231-238 | After `set`, `ttl_remaining` is None without a TTL, and otherwise `max(0, t0 + ttl - t1)`. |
| StoreProps.DeleteKeepsOrder | pykv/store.py:219-220 | `delete` removes the key at its single position in the recency list and in the insertion order. All other keys keep their relative order. |
| StoreProps.EvictionScenario | pykv/store.py:160-174 | With capacity 2, after `set` of a, b and c: `get(a)` misses, `keys()` is `[b, c]`, and one eviction has been counted. |
| LastTouch.RunOrdered | pykv/store.py:70-91 | After any run, the recency list lists the keys from newest to oldest last touch. A touch is a `set`, or a `get` that returns a value. |
| LastTouch.EvictsOldestTouch | pykv/store.py:93-108 | When `set` evicts, it removes exactly one key, and that key's last touch is older than that of every other key. |
| LastTouch.EvictsLeastRecentlyUsed | pykv/store.py:97-105 | From a fresh store, after any run, a `set` that evicts removes the key whose last touch is the oldest. |
| PyText.Strip | pykv/persistence.py:60 | The result is the line between its longest whitespace prefix and its whitespace suffix. It is empty exactly when the line is all whitespace; otherwise it starts and ends with a non-space character. |
| PyText.StripSurrounded | pykv/persistence.py:60 | Any whitespace around a text that starts and ends with non-space characters is removed, and nothing else. |
| PyText.StripEnd | pykv/persistence.py:60 | The last field of a stripped line is a prefix of the raw field, and only whitespace follows it. |
| PyText.Split | pykv/persistence.py:66 | `split` gives at least one piece. No piece holds the separator, and joining the pieces with it gives back the line. |
| PyText.SplitJoin | pykv/persistence.py:66 | Splitting a join of separator-free pieces gives the same pieces back. |
| PyText.ParseIntToString | pykv/persistence.py:75 | `int` of the decimal text of any integer, negative ones included, is that integer. |
| PyText.ParseInt | pykv/persistence.py:75 | `int` fails on an all-whitespace text, and succeeds only on a text holding a digit. |
| PyText.ParseIntMeaning | pykv/persistence.py:75 | `int(text)` is `n` if and only if the text is: whitespace `int` skips, an optional `+` or `-`, digit groups joined by single underscores, then whitespace `int` skips, and `n` is the value of the digits with the underscores dropped, negated after a `-`. |
| PyText.PlusSign | pykv/persistence.py:75 | `int("+5")` is 5. |
| PyText.Underscores | pykv/persistence.py:75 | `int("1_000")` is 1000. |
| PyText.LeadingZeros | pykv/persistence.py:75 | `int("-007")` is -7. |
| PyText.ParseIntNeedsDigit | pykv/persistence.py:75 | `int` fails when the first character it does not skip as whitespace is neither a digit nor a sign. |
| PyText.DigitsSurrounded | pykv/persistence.py:75 | Digits with only `int` whitespace around them read as their decimal value. |
| PyText.UnsignedRefused | pykv/persistence.py:75 | A text without sign that is not digit groups joined by single underscores is refused. |
| PyText.FloatNotInt | pykv/persistence.py:75 | `int("1.5")` fails. |
| PyText.SeparatorBeforeDigits | pykv/persistence.py:60-75 | U+001C is stripped by `strip()` but refused by `int()`; a space and a newline are skipped by both. |
| PyText.IntToString | pykv/persistence.py:33 | The decimal text of an integer: digits, with a leading `-` exactly for a negative number, and no leading zero except in `0` itself. |
| PyText.NatToString | pykv/persistence.py:33 | The decimal text of a natural number is all digits, and starts with `0` only for `0`. |
| PyText.ReadLines | pykv/persistence.py:58-59 | The lines have the shape a file yields (`LinesShape`): none is empty, only the end of a line can be a line break, and every line but the last ends in `"\n"`. The lines joined give the file with every `\r\n` and `\r` read as `\n`. |
| PyText.Universal | pykv/persistence.py:58 | Text-mode reading leaves no `\r`, and changes nothing in a text without line breaks. |
| PyText.ReadTerminated | pykv/persistence.py:58-59 | A file written as lines each followed by `"\n"` reads back as those same lines. |
| Wal.Line | pykv/persistence.py:26-42 | A SET record is written as the fields `SET`, key, value and TTL text joined by the field separator; a DEL record as `DEL` and the key. |
| Wal.Append | pykv/persistence.py:26-42 | An append keeps the earlier text as a prefix and ends the file with a newline. |
| Wal.AppendBuildsLog | pykv/persistence.py:32-42 | Appending records one by one builds the log of the whole sequence. |
| Wal.ParseTtl | pykv/persistence.py:75 | The TTL field reads as no TTL exactly for `"None"`. Any other field is refused exactly when `int` refuses it, and otherwise reads as the integer `int` gives. |
| Wal.ParseLine | pykv/persistence.py:60-64 | A line is skipped as blank exactly when it is all whitespace. A skipped unknown line has a tag other than SET and DEL. |
| Wal.ParseFields | pykv/persistence.py:66-83 | A line is unknown exactly when its first field is neither SET nor DEL. It is a missing-field error exactly when a SET has fewer than four fields or a DEL fewer than two. It is a TTL error exactly when a SET has four fields and the fourth is refused, and the error carries that field. A SET record takes its key, value and TTL from fields two to four; a DEL record takes its key from field two. |
| Wal.ExtraFieldsIgnored | pykv/persistence.py:69-83 | Fields after the four of a SET or the two of a DEL do not change what the line reads as. |
| Wal.SetExtraFieldLine | pykv/persistence.py:66-78 | A SET line with a fifth field reads as the record of its first four fields. |
| Wal.DelExtraFieldLine | pykv/persistence.py:66-83 | A DEL line with a third field reads as the deletion of its key. |
| Wal.SetExtraField | pykv/persistence.py:58-78 | Example: a log of one line with the fields `SET`, `k`, `v`, `5` and `x` recovers as `set(k, v, ttl=5)`: `k` holds `v` until five seconds later. |
| Wal.DelExtraField | pykv/persistence.py:58-83 | Example: a log of one line with the fields `DEL`, `k` and `x` recovers as `delete(k)`: `k` is gone and every other entry is unchanged. |
| Wal.OneLineRecovers | pykv/persistence.py:58-83 | A log of one line that reads as a record recovers by applying that record, and completes. |
| Wal.ParseLineOfRecord | pykv/persistence.py:33-83 | The line written for a record parses back to that same record. For a SET, key and value must hold no field separator and no line break. For a DEL, the key also must not end in whitespace. |
| Wal.TtlTextField | pykv/persistence.py:33-75 | The TTL text written in a line (`None` or an integer) parses back to the same TTL. |
| Wal.Apply | pykv/persistence.py:68-83 | A SET record leaves its key holding the written value and expiry. A DEL record leaves the map without its key. |
| Wal.Replay | pykv/persistence.py:68-83 | Replaying records keeps the store valid and its capacity unchanged. |
| Wal.ReplayIsRun | pykv/persistence.py:68-83 | Replaying records is the run of the matching `set` and `delete` calls on the store. |
| Wal.ReplayBound | pykv/persistence.py:78-83 | A replay never takes the store above the larger of its capacity and one. |
| Wal.Recover | pykv/persistence.py:50-83 | Recovery completes exactly when no line read is malformed. When it stops, it names a malformed line, and every line before it is well formed. |
| Wal.RecoverParsed | pykv/persistence.py:58-83 | Recovery stops only at a malformed line, and reports that line's index and error. |
| Wal.RecoverIsReplay | pykv/persistence.py:58-83 | With no malformed line, recovery is the in-order replay of the SET and DEL lines. Blank and unknown lines change nothing. |
| Wal.RecoverStopsAtFirstError | pykv/persistence.py:72-78 | At the first malformed line, recovery stops with that line's error. The store is the replay of the lines before it, and no later line is applied. |
| Wal.LogRoundTrip | pykv/persistence.py:26-83 | Recovering a log of well-formed records replays exactly those records, in order, from the given store. |
| Wal.BadTtlAborts | pykv/persistence.py:60-75 | A first SET line whose stripped TTL field is neither `None` nor an integer, the empty field included, stops recovery at that line with nothing applied, whatever follows it. |
| Wal.FloatTtlAborts | pykv/persistence.py:33-75 | A SET line logged with the TTL `1.5` stops recovery at that line with nothing applied. |
| Wal.SeparatorTtlAborts | pykv/persistence.py:60-75 | A SET line whose TTL field is U+001C followed by `5` stops recovery at that line with nothing applied: the separator is inside the stripped line, and `int()` does not skip it. |
| Wal.FirstLineAborts | pykv/persistence.py:58-75 | A malformed first line stops recovery before anything is applied. |
| Wal.CompactKeys | pykv/persistence.py:93-96 | The loop writes one SET per key, in order, with the record for that key in the store as it was before compaction. It removes exactly the expired keys it visits. Each live key counts a hit and each other key a miss; each expired key counts an expiration and one extra operation. The visited live keys end at the front of the recency list, most recently visited first, ahead of the unvisited keys in their old order. |
| Wal.Compact | pykv/persistence.py:85-96 | Compaction writes one SET per key of `keys()`, in that order, and no DEL. It leaves behind the store without its expired keys, with the live keys in `keys()` order and the recency list in the reverse of that order. Hits grow by the number of live keys, misses and expirations by the number of expired keys, and `total_ops` by the number of keys plus the number of expired keys. |
| Wal.CompactResurrectsExpired | pykv/persistence.py:93-96 | An expired key is written as value `None` with no TTL. Replaying that line gives a live entry that never expires. |
| Wal.CompactThenRecover | pykv/persistence.py:85-96 | Recovering the compacted log into a fresh store with room for every key rebuilds the same keys in the same `keys()` order. A live key keeps its value and its remaining time. An expired key comes back as `None` with no expiry. |
| Wal.CompactKeepsValues | pykv/persistence.py:87-96 | With no expired key at compaction, recovery of the compacted log gives the same keys with the same values. |
| Wal.ExpiredKeyResurrected | pykv/persistence.py:93-96 | Example: a key `set` with TTL 1 at time 0 and compacted at time 5 comes back at time 10 as `None` with no expiry. |
| Wal.LiveKeys | pykv/persistence.py:87 | The live keys are exactly the keys not expired at `now`, in `keys()` order, each once. |
| Wal.CompactLive | pykv/persistence.py:85-96 | Corrected compaction writes a SET for each live key of `keys()`, in that order, and nothing for an expired key. |
| Wal.CompactLiveKeysStore | pykv/persistence.py:93-96 | The corrected loop leaves the store exactly as the loop as written does. |
| Wal.CompactLiveKeys | pykv/persistence.py:93-96 | The corrected loop writes exactly the records of the live keys among those visited, in order. |
| Wal.CompactLiveStore | pykv/persistence.py:85-96 | Corrected compaction leaves the store exactly as compaction as written does; only the records written differ. |
| Wal.CompactLiveThenRecover | pykv/persistence.py:85-96 | Recovery of the corrected log rebuilds exactly the live keys, in `keys()` order. Each keeps its value and its remaining time. |
| Wal.ExpiredKeyStaysGone | pykv/persistence.py:87 | Example: under corrected compaction, the expired key of the example above stays absent. |
| Auth.IsValidEmail | pykv/auth.py:17-33 | `is_valid_email` holds exactly when the address, or the address minus one final `"\n"`, matches the pattern as a whole. |
| Auth.CandidatesDecide | pykv/auth.py:17 | Trying only the first `@` and the last `.` decides whether the pattern matches. |
| Auth.TrailingNewline | pykv/auth.py:28-33 | A matching address still passes with one `"\n"` after it, and fails with two. |
| Auth.PlainEmail | pykv/auth.py:17 | `ada@example.org` matches. |
| Auth.TaggedEmail | pykv/auth.py:17 | `a+b@m.ex.co` matches. |
| Auth.ShortTldRejected | pykv/auth.py:17 | An address with a one-letter top-level domain does not match. |
| Auth.IsValidPassword | pykv/auth.py:36-46 | A password is valid exactly when it has at least 8 characters. |
| Auth.Register | pykv/auth.py:76-105 | Registration succeeds exactly when the e-mail matches, the password has at least 8 characters and the user is new. Failures report the first failed rule in the order e-mail, password, duplicate, and leave the table unchanged. A success adds exactly `username ↦ hash(password)`. |
| Auth.Validate | pykv/auth.py:108-125 | Login succeeds exactly when the e-mail matches, the user exists, and the stored hash equals the hash of the password. |
| Auth.RegisterThenValidate | pykv/auth.py:98-125 | After a successful registration, logging in with the same password succeeds. |
| Auth.RegisterKeepsOthers | pykv/auth.py:98-99 | Registration leaves every other user's login answers unchanged. |
| Auth.RegisterTwice | pykv/auth.py:90-96 | A registered address cannot be registered again. A short password is reported before the duplicate. |
| Auth.RegisterKeepsEmailsValid | pykv/auth.py:86-99 | If every address in the table matches the pattern, that stays true after registration. |

## Left out

- The cleanup thread: its loop, `time.sleep` and the `stop` flag (pykv/store.py:58-66, 118-123, 263-267). The sweep body is a pure function. The thread takes no lock, and its interleaving with requests is not modelled.
- Wall-clock time. Time is an integer passed in, so `time.time()` and floating-point expiries are not modelled.
- LruStore.Set: a TTL too large in magnitude for a double (from about 2**1024, that is 309 digits and up) makes `time.time() + ttl` raise `OverflowError` (pykv/store.py:151), after `total_ops` has grown (pykv/store.py:146) and before anything is stored. The model has no float conversion, so such a `set` stores its key like any other.
- Wal.Recover: does not model that same `OverflowError`. A SET line whose TTL is an integer of 309 digits or more is well formed here, and recovery applies it and goes on. In the source, `store.set` raises on it (pykv/persistence.py:78), so recovery stops at that line with the earlier lines applied, and the server does not start.
- Wal.OneLineRecovers: a one-line log whose SET has such a TTL completes here, but raises `OverflowError` in the source.
- Wal.RecoverIsReplay: the replay it promises for a log without malformed lines raises `OverflowError` in the source at the first SET line with such a TTL.
- Wal.LogRoundTrip: a written SET record with such a TTL replays here, but raises `OverflowError` in the source when recovered. The source itself cannot have logged it through a successful `set`, because `set` raises first.
- LruStore.TtlRemaining: time is an integer, so the truncation that `int()` applies to a floating-point difference is not modelled.
- LruStore.GetStats: the uptime is `now - start` on integers, without `int()` truncation of a float.
- File I/O in `WAL`: creating the directory and file, `size()`, opening and appending, and the atomic `os.replace` (pykv/persistence.py:16-24, 44-48, 89-99).
  - The log is its text.
  - A missing file, for which `recover` returns at once (pykv/persistence.py:55-56), is not modelled separately.
  - Lines are written with `"\n"`, as text mode does on POSIX.
- Wal.Recover: every line is replayed at one `now`. In the source, each `store.set` reads the clock again.
- Values are strings. The server hands the store whatever the request's JSON holds (pykv/main.py:104-106), and the log keeps only `f"{value}"`. So a value `5` recovers as the string `"5"`, and `null` as `"None"`. Only the text of the value is modelled.
- TTLs are integers. A JSON TTL such as `1.5` reaches the log as `"1.5"`, which `int()` refuses, so recovery stops at that line (Wal.FloatTtlAborts). The expiry arithmetic on such a float TTL is not modelled.
- PyText.ParseInt: does not model the limit of 4300 digits that `int()` and `str()` place on decimal conversion (Python 3.11 and later, configurable per interpreter). Longer texts read as their value here.
- `int()` also accepts non-ASCII decimal digits. Only ASCII digits are modelled.
- Python exceptions in `recover` are modelled as the `Aborted` result. The state of a partly read file handle is not modelled.
- `load_users`, `save_users` and `_hash_password` (pykv/auth.py:20-25, 49-73). The table is a value, and the hash is a parameter. Loading before and saving after a success are not modelled.
- All of pykv/main.py: web routing, sessions, role configuration and replication. It is not part of this model.

## Findings

| source | as written | input that shows it | evidently intended | confidence | as-written member | corrected member |
|---|---|---|---|---|---|---|
| pykv/persistence.py:93-96 | `compact` writes a SET line for every key of `keys()`. For a key that has expired but has not yet been swept, `get` returns None, so the line written for it has the value None and the TTL None. | A key `k` set with TTL 1 at time 0 and compacted at time 5. Recovering the new log brings `k` back with the value `"None"` and no expiry. | Only live keys are written, as the method's description says (line 87). An expired key is left out. | not executed | Wal.ExpiredKeyResurrected | Wal.CompactLiveThenRecover |
