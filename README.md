# File-backed key/value store of the OTA update agent

On Linux, the OTA (over-the-air update) agent keeps small pieces of state
across reboots in one flat file, `./uota.kv`. The file is a sequence of
fixed 512-byte records (`ITEM_LEN`). Each record is a `kv_t`:

- a zero-terminated key in a 128-byte field;
- a 256-byte value buffer;
- a `kv_state_t` holding `flag`, `val_len` and `crc32`.

There are five operations:

- `hal_fopen` opens the file and refuses a size that is not a multiple of 512.
- `ota_kv_set` rewrites the first record whose key matches, or appends a record.
- `ota_kv_get` copies out the value of the first record whose key matches.
- `ota_kv_del` copies the last record over the match and truncates the file by one record.
- `ota_kv_erase_all` truncates the file to zero.

This project models those operations in Dafny and proves their contracts.

- `kv_slots.dfy` (module `KvSlots`) holds the record layout and the
  first-match search. It also holds the pure specification of each
  operation's effect on the sequence of records (`Store`, `Lookup`,
  `SwapRemove`, `Relocated`, `DeleteSlots`) and the lemmas about them: the
  set/get round trip, other keys unaffected, no duplicates created, the last
  write wins, and delete as swap-remove.
- `kv_store.dfy` (module `KvStore`) holds the class `KvFile`. Its fields are
  the file's whole records, the stray bytes of a misaligned file, and whether
  the file exists. Its methods `Open`, `Set`, `Get`, `Del` and `EraseAll`
  scan the records with loops, as the C functions do. Each method's
  postcondition ties the new file to the specification functions, including
  every error return.
- `kv_findings.dfy` (module `KvFindings`) models two defects of the code as
  written, next to the corrected behaviour (see "## Findings").
- `kv_scenario.dfy` is a caller that runs this sequence from the method
  contracts alone: set `fw_ver`, update it, set `dl_off`, delete `fw_ver`,
  read `dl_off`.

Inputs taken from the environment:

- Whether `fopen` fails is the `openFails` parameter.
- Whether `truncate` fails for an operating-system reason is the
  `truncateFails` parameter. A truncation to a negative length fails in the
  model by itself. So does a truncation of a file that does not exist.
- CRC-32 (`crc.h`) is the function-valued field `crc32`, fixed when the
  store is built and otherwise unconstrained.
- A null `key` or `val` is `None`. A null `buffer` or `buffer_len` is a null
  reference.

## Model

| member | source | states |
|---|---|---|
| KvSlots.Padded | src/services/uOTA/hal/ota_hal_os.c:487-488 | the value buffer after zero-fill and copy holds the first `len` bytes of the value, then zeros up to 256 bytes |
| KvSlots.NewSlot | src/services/uOTA/hal/ota_hal_os.c:503-510 | an appended record has the given key, flag 0, the padded value, `val_len = len` and the CRC of the `len` value bytes |
| KvSlots.Rewrite | src/services/uOTA/hal/ota_hal_os.c:486-493 | a rewritten record keeps its key and flag and gets the padded new value, its length and its CRC |
| KvSlots.FindFirst | src/services/uOTA/hal/ota_hal_os.c:475-484 | the scan stops at an index whose key matches and no earlier key matches; with no result, no record's key matches |
| KvSlots.FindFirstDistinct | src/services/uOTA/hal/ota_hal_os.c:484 | in a store without duplicate keys, the matching record found by the scan is the only one |
| KvSlots.Lookup | src/services/uOTA/hal/ota_hal_os.c:554-574 | `get` finds a value exactly when some record holds the key; a found value is at most 256 bytes |
| KvSlots.Store | src/services/uOTA/hal/ota_hal_os.c:475-515 | `set` on a stored key keeps the record count and rewrites only the first match (same key and flag); on a new key it appends one record with flag 0; no other record changes |
| KvSlots.StoreWellFormed | src/services/uOTA/hal/ota_hal_os.c:501-510 | `set` with a key that fits produces only well-formed records |
| KvSlots.StoreThenLookup | src/services/uOTA/hal/ota_hal_os.c:475-515 | round trip: after `set(k, v, len)`, `get(k)` returns exactly `v[0..len]` |
| KvSlots.StoreKeepsOtherKeys | src/services/uOTA/hal/ota_hal_os.c:475-515 | `set(k, ...)` does not change what `get` returns for any other key |
| KvSlots.StoreKeepsDistinct | src/services/uOTA/hal/ota_hal_os.c:501-515 | `set` never creates a duplicate: distinct keys stay distinct |
| KvSlots.StoreLastWriteWins | src/services/uOTA/hal/ota_hal_os.c:484-498 | two sets of one key equal the second set alone: set is idempotent, and an update leaves no orphan record |
| KvSlots.SwapRemove | src/services/uOTA/hal/ota_hal_os.c:633-644 | swap-remove at `i` shortens by one, puts the old last record at `i`, keeps every other record, and just drops the last when `i` is last |
| KvSlots.SwapRemoveMultiset | src/services/uOTA/hal/ota_hal_os.c:633-644 | the records left are the old multiset minus the removed record |
| KvSlots.SwapRemoveDistinct | src/services/uOTA/hal/ota_hal_os.c:633-644 | swap-remove keeps records well formed and keys distinct, and no remaining record holds the removed key |
| KvSlots.Relocated | src/services/uOTA/hal/ota_hal_os.c:616-649 | before truncating, `del` has overwritten the first match with the last record and nothing else; with no match the file is untouched |
| KvSlots.DeleteSlots | src/services/uOTA/hal/ota_hal_os.c:616-673 | `del` fails exactly on an empty file (negative truncation length); a match is swap-removed; with no match the last record is dropped |
| KvSlots.DeletePresentKey | src/services/uOTA/hal/ota_hal_os.c:616-673 | deleting a stored key makes it unreadable and leaves every other key's value as before |
| KvStore.KvFile.Size | src/services/uOTA/hal/ota_hal_os.c:440-449 | the file size leaves remainder `partial` modulo 512, and its quotient is the record count |
| KvStore.KvFile.Open | src/services/uOTA/hal/ota_hal_os.c:432-456 | opening creates the file; it fails when `fopen` fails or the size is not a multiple of 512; otherwise it reports the size and `size / 512` records |
| KvStore.KvFile.Set | src/services/uOTA/hal/ota_hal_os.c:458-534 | returns 0 exactly when key and value are non-null, the open succeeds and the file is aligned; then the records become `Store(...)`; on -1 they are unchanged |
| KvStore.KvFile.Get | src/services/uOTA/hal/ota_hal_os.c:537-593 | never changes the records; on a match it copies the value and its length out and leaves the rest of the buffer; with no match, or on -1, it touches neither output |
| KvStore.KvFile.Del | src/services/uOTA/hal/ota_hal_os.c:596-674 | -1 with the file unchanged on a null key, open failure or misalignment; otherwise the result of `DeleteSlots`, or -1 with the overwrite already done when the truncation fails |
| KvStore.KvFile.EraseAll | src/services/uOTA/hal/ota_hal_os.c:677-691 | truncates to zero and returns 0, with no alignment check; -1 and nothing changed when the file is missing or `truncate` fails |
| KvFindings.StoreAppendMode | src/services/uOTA/hal/ota_hal_os.c:434-435 | on an `"a+"` stream, `set` always adds one record at the end and keeps every existing record |
| KvFindings.AppendModeUpdateIsLost | src/services/uOTA/hal/ota_hal_os.c:494-495 | on an `"a+"` stream, setting a stored key leaves `get` returning the old value |
| KvFindings.AppendModeRoundTripFails | src/services/uOTA/hal/ota_hal_os.c:494-495 | a one-record store on which set-then-get returns the previous value |
| KvFindings.DeleteAppendMode | src/services/uOTA/hal/ota_hal_os.c:643-666 | on an `"a+"` stream, `del` of any key leaves the first n-1 records unchanged |
| KvFindings.AppendModeDeleteHitsLastSlot | src/services/uOTA/hal/ota_hal_os.c:643-666 | on an `"a+"` stream, deleting a stored key that is not in the last record keeps it readable and loses the last record's key |
| KvFindings.DeleteMissingKeyLosesLastSlot | src/services/uOTA/hal/ota_hal_os.c:648-666 | as written, deleting an absent key from a non-empty store makes the last stored key unreadable |
| KvFindings.DeleteIntended | src/services/uOTA/hal/ota_hal_os.c:616-649 | corrected delete: swap-remove of a match, and no change when there is none |
| KvFindings.DeleteIntendedRemovesOnlyKey | src/services/uOTA/hal/ota_hal_os.c:616-649 | the corrected delete makes the key unreadable, keeps keys distinct, and leaves every other key's value as before |

## Left out

- The mutex around each operation is left out. So are the thread, semaphore, sleep and timer wrappers. Each operation is one atomic step.
- The AliOS branch, which forwards to `aos_kv_*`, is left out. It only calls foreign code.
- Allocation, SSL, device identity, reboot and the MQTT/CoAP pass-throughs are left out. They only call foreign code.
- Logging is left out. So is the `sync` argument of `ota_kv_set`, which the code ignores.
- CRC-32 internals are left out. `crc.h` is not part of this model.
- Raw byte layout is left out. A record is modelled as key, value buffer, flag, `val_len` and `crc32`. The key is the C string before its terminator, so `strcmp` is sequence equality. The padding, and the key bytes after the terminator, are not modelled.
- Short reads are left out. A read of a whole record cannot come up short once the size is a multiple of 512.
- On the misaligned path the stream is closed twice. The model gives only the -1 return.
- Failure of `fwrite` is left out. The code ignores its result.
- KvStore.KvFile.Open: on a misaligned file the model reports size 0, not the real size. No caller reads the size on that path.
- KvStore.KvFile.Set: requires `0 <= len <= 256`, `len` readable bytes of value, and a key under 128 bytes without zero bytes. The code does not check these; breaking them overruns a buffer.
- KvStore.KvFile.Get: requires that the stored value fit in `buffer`. The code copies `val_len` bytes without checking.
- Stored records are assumed well formed (`0 <= val_len <= 256`, key terminated within its field). The code never checks them on read.
- The in-place rewrites at lines 494-495 and 643-644 are modelled as positional overwrites, which is what the comments intend. The `"a+"` behaviour of the code is modelled separately (see Findings).

## Findings

| source | as written | input that shows it | evidently intended | confidence | as-written member | corrected member |
|---|---|---|---|---|---|---|
| src/services/uOTA/hal/ota_hal_os.c:435 | The file is opened `"a+"`, so the `fwrite` after `fseek(cur_pos)` in `set` appends a second record for the key. `get` still returns the old value. | store `[k=1, v=5]`, then `set(1, [6], 1)`, then `get(1)` returns `[5]` | rewrite the matching record in place | high, not executed | KvFindings.AppendModeUpdateIsLost | KvSlots.StoreThenLookup |
| src/services/uOTA/hal/ota_hal_os.c:643-666 | In `"a+"` mode, `del` appends the copy of the last record. The truncation to the old size minus one record then removes both the copy and the old last record. The matching record stays. | store `[a, b]`, then `del(a)` leaves `[a]` | swap-remove the matching record | high, not executed | KvFindings.AppendModeDeleteHitsLastSlot | KvSlots.DeletePresentKey |
| src/services/uOTA/hal/ota_hal_os.c:648-666 | With no matching key, `del` still jumps to the truncation. It removes the last record, or returns -1 on an empty file. | store `[a]`, then `del(b)` leaves `[]` and returns 0 | no change when the key is absent | high, not executed | KvFindings.DeleteMissingKeyLosesLastSlot | KvFindings.DeleteIntendedRemovesOnlyKey |

`KvFile.Del` keeps the code's behaviour for a missing key, since that is
what the repository does. `KvFindings.DeleteIntended` is the corrected
definition.
