# Sensor uplink firmware, modelled in Dafny

This is a model of the data path of an ESP32 metering node. A sensor task appends 24-byte sample records to a persistent ring log in flash. An uplink task takes the oldest record and wraps it in an encrypted, authenticated envelope. It posts the envelope over GPRS and drops the record once the server acknowledges it. It also registers the device, and synchronises the time when asked to. A small web portal edits the configuration the uplink reads.

The model has one module per part of the firmware:

- **`Crc32`**: the record checksum loop.
- **`RingStore`**: the ring log. It is a `Ring` class whose `array` of slots is the flash file. The cursor fields `head`, `tail` and `full` are the keys of the "ring" preference namespace. `Contents()` is the queue, oldest first.
- **`RingWrap`**: the same cursor update on wrapping 32-bit counters. This module shows where the firmware breaks.
- **`Envelope`**: PKCS#7 padding (section 6.3 of RFC 5652) and the `[IV][ciphertext][tag]` blob.
  - AES-256-CBC, SHA-256 and HMAC-SHA256 are function values in `Primitives`.
  - `Sound(p)` is the assumption that CBC decryption inverts encryption on whole blocks.
- **`Uplink`**: `sendData`, `doRegister`, `doSyncTime` and the `gsmTask` cycle.
  - The methods are those of an `Uplink` class.
  - Each method is proved equal to a value-level specification (`SendSpec`, `RegisterSpec`, `SyncSpec`). The properties are lemmas about those.
  - The network is a script of `Round`s, each with its nonce, IV and server reply.
- **`WifiConfig`**: the `/save` handler, `loadConfig`, `saveConfig`, `requireAuth` and `WifiConfigStart`, as methods of a `Portal` class over the "cfg" preference store.
- **`Common`**, **`Text`** and **`Prefs`**: shared definitions.
  - `Common`: fixed-width integers and little-endian bytes.
  - `Text`: Arduino `String` helpers (`toInt`, `String(n)` and hex formatting).
  - `Prefs`: the `Preferences` getters with their defaults.

## Model

| member | source | states |
|---|---|---|
| Crc32.Crc32Simple | src/ring_store.cpp:31-40 | The nested masked-shift loop returns `Crc(data)`: the reflected CRC-32 with polynomial 0xEDB88320, preset 0xFFFFFFFF and final complement. |
| Crc32.ShiftDividesByPoly | src/ring_store.cpp:36 | The masked step `(crc >> 1) ^ (0xEDB88320 & -(crc & 1))` is the division step: it XORs the polynomial exactly when the bit shifted out is 1. |
| Crc32.CrcCheckValue | src/ring_store.cpp:31-40 | The CRC of the ASCII digits "123456789" is 0xCBF43926, the standard check value of this CRC-32. |
| Common.LeValueOfLeBytes | src/ring_store.cpp:17-27 | Writing a value below 256^n as n little-endian bytes and reading them back gives the value. |
| Common.SignedOfUnsigned | src/ring_store.cpp:20-22 | A signed field stored in two's complement reads back as the same signed value. |
| RingStore.DecodeEncode | src/ring_store.cpp:145-150 | The 16 field bytes of a slot read back as the sample written: `ts`, `current_mA`, `power_dW`, `temp_cC` and `flags`. |
| RingStore.Seal | src/ring_store.cpp:152 | A record written by `Append` passes the checksum test of `readOne`. |
| RingStore.Capacity | src/ring_store.cpp:45-46 | `(size - 16) / 24` slots fit after the header. A file that passes the 400-byte minimum of `RingStoreBegin` has at least 16 slots. |
| RingStore.SlotOffset | src/ring_store.cpp:45-47 | Every slot offset lies in `[16, 16 + cap*24)` and on the 24-byte stride, so a record write never touches the header. |
| RingStore.HeaderLayout | src/ring_store.cpp:49-59 | The 16-byte header reads back field by field: the magic 0x52494E47, version 1, record size 24, the capacity, then zero. |
| RingStore.ZeroHeaderHasNoMagic | src/ring_store.cpp:107-109 | A freshly zero-filled file does not carry the magic, so `Begin` formats it. |
| RingStore.QueuedCount | src/ring_store.cpp:124-134 | The count is `cap` when `full` is set, otherwise `head - tail`, or 0 when `head < tail`. Under the cursor invariant it equals `head - tail`. |
| RingStore.AppendCursor | src/ring_store.cpp:162-174 | `head` grows by 1. `tail` grows by 1 only when the log was full. `full` becomes set exactly when the log was full or `head - tail` reaches `cap`. The invariant `head - tail <= cap && (full <==> head - tail == cap)` is preserved. |
| RingStore.DropCursor | src/ring_store.cpp:222-241 | `head` is kept. `tail` advances by `min(count, head - tail)`. The invariant holds afterwards, and `full` is cleared by any non-empty drop. |
| RingStore.AppendWindow | src/ring_store.cpp:154-177 | Writing slot `head mod cap` and advancing the cursor appends the record to the queue. When the log was full, the oldest record is dropped from the front. |
| RingStore.DropWindow | src/ring_store.cpp:222-241 | Dropping `count` records removes the `min(count, queued)` oldest ones from the queue and keeps the others in order. |
| RingStore.SealedReadsBack | src/ring_store.cpp:200-214 | Records written by `Append` and not overwritten read back, in order, as the samples appended. |
| RingStore.CorruptOldestGivesEmptyBatch | src/ring_store.cpp:200-207 | A batch of one from a queue whose oldest record fails the checksum is empty, although a record is queued. |
| RingStore.PurgeKeepsIntact | src/ring_store.cpp:205-207 | Moving `tail` past the damaged oldest records loses no intact record: the whole queue reads the same. |
| RingStore.PurgeEndsStall | src/ring_store.cpp:205-207 | After that purge, while any queued record is intact, a batch of one holds the oldest intact record. |
| RingStore.Ring.Begin | src/ring_store.cpp:89-120 | A size under 400 bytes is refused: only the recorded file size changes, and the file, header and cursor are untouched. Otherwise the file is resized and zero-filled when its size differs. The cursor is reset to `0, 0, false` and the header rewritten exactly when the stored magic is missing; otherwise both are untouched. |
| RingStore.Ring.EnsureFileSized | src/ring_store.cpp:61-87 | A file of the right size is kept as it is. Any other file is replaced by one of the requested size, zero-filled. |
| RingStore.Ring.CheckHeader | src/ring_store.cpp:106-116 | Header and cursor are kept when the magic is present. Otherwise the header is written and the cursor reset. |
| RingStore.Ring.Append | src/ring_store.cpp:136-179 | Only slot `head mod cap` is written, with the sealed record, and the cursor moves as `AppendCursor` says. The queue gains the record at the back and loses its oldest record when the log was full. |
| RingStore.Ring.CountApprox | src/ring_store.cpp:124-134 | The result is `QueuedCount` of the cursor, which under the invariant is the length of the queue. |
| RingStore.Ring.ReadBatch | src/ring_store.cpp:190-220 | It returns the samples of the intact records among the oldest `min(maxItems, count)`, in order from `tail`, and changes nothing. |
| RingStore.Ring.ReadLoop | src/ring_store.cpp:200-216 | The loop over `i < n` collects the intact records among the first `n` of the queue, skipping the damaged ones. |
| RingStore.Ring.ReadAt | src/ring_store.cpp:203-214 | The `i`-th queued record is read from slot `(tail + i) mod cap`, and comes back as its sample exactly when it is intact. |
| RingStore.Ring.ReadOne | src/ring_store.cpp:181-188 | A slot gives its sample when the stored CRC matches the CRC of its first 16 bytes, and nothing otherwise. |
| RingStore.Ring.Drop | src/ring_store.cpp:222-242 | The count is clamped to the queue length. The cursor moves as `DropCursor` says and the oldest records leave the queue. |
| RingWrap.AppendCursor32 | src/ring_store.cpp:162-174 | `head` wraps to 0 after 0xFFFFFFFF. While the cursor keeps the invariant and `head` is below 0xFFFFFFFF, the 32-bit update gives exactly the cursor of the unbounded `AppendCursor`. |
| RingWrap.CountApprox32 | src/ring_store.cpp:124-134 | On a cursor that keeps the invariant, the 32-bit count is the unbounded `QueuedCount`, which is `head - tail`. Without `full` and with `head < tail` it is 0. |
| RingWrap.AgreesBeforeWrap | src/ring_store.cpp:154-174 | Before the wrap, a 32-bit append writes slot `head mod cap` as the unbounded one does. The next append writes the following slot, and the count afterwards is the unbounded count. |
| RingWrap.WrappedAppendsShareSlot | src/ring_store.cpp:154-174 | With 17 slots and `head = tail = 0xFFFFFFFF`, two consecutive appends both write slot 0, while the cursor counts two records. |
| RingWrap.CountSafeIsQueued | src/ring_store.cpp:124-130 | The wrap-safe count `full ? cap : head - tail`, with the subtraction on `uint32_t`, is the queue length for every cursor that keeps the invariant, wrapped or not: its 32-bit image gives `QueuedCount`. |
| RingWrap.WrappedCountIsZero | src/ring_store.cpp:124-130 | After `head` wraps past `tail`, one record is queued (`head - tail == 1` on `uint32_t`), yet `RingStoreCountApprox` reports 0. |
| RingWrap.NextSlotDiffers | src/ring_store.cpp:154 | With unbounded counters, the next `cap - 1` appends after a record all write other slots. |
| Envelope.DeriveKeys | src/crypto_aes.cpp:17-24 | The AES key is SHA-256 of the pass bytes. The HMAC key is SHA-256 of "HMAC" followed by the pass bytes. |
| Envelope.Resize | src/crypto_aes.cpp:125 | `vector::resize(n)` keeps the first `n` bytes and pads with zero bytes. |
| Envelope.Pad | src/crypto_aes.cpp:44-52 | The padded buffer has length `|x| + p`, with `p = 16 - |x| % 16` between 1 and 16. It is block-aligned, starts with `x`, and ends with `p` bytes of value `p`. |
| Envelope.Pkcs7Pad | src/crypto_aes.cpp:44-52 | The resize-and-fill code computes `Pad(input)`. |
| Envelope.Unpad | src/crypto_aes.cpp:54-63 | Unpadding succeeds exactly on well-padded buffers: non-empty, block-aligned, a last byte `p` in 1..16, and `p` trailing bytes equal to `p`. |
| Envelope.Pkcs7Unpad | src/crypto_aes.cpp:54-63 | The checks and the trailing-byte loop return true exactly when `Unpad` succeeds. The buffer loses its padding on success and is unchanged on failure. |
| Envelope.UnpadOfPad | src/crypto_aes.cpp:44-63 | Unpadding a padded buffer gives the original bytes back. |
| Envelope.PadOfUnpad | src/crypto_aes.cpp:44-63 | Padding the result of a successful unpad gives the buffer back, so each of the two inverts the other. |
| Envelope.PadLenOfTrailer | src/crypto_aes.cpp:46-47 | For a block-aligned buffer ending in a pad of length `p`, the pad length of the unpadded length is `p`. |
| Envelope.EncryptBlob | src/crypto_aes.cpp:65-104 | A blob starts with the IV. Its last 32 bytes are the HMAC, under the derived key, of everything in front of them. A failed encryption leaves `outBlob` unchanged. |
| Envelope.EncryptLayout | src/crypto_aes.cpp:74-95 | Under a sound cipher, encryption succeeds. The blob is `16 + |plain| + p + 32` bytes long, at least 64, and a multiple of 16. |
| Envelope.DecryptBlob | src/crypto_aes.cpp:106-147 | The length checks and the tag check come before decryption; when they fail, `outPlain` is untouched. Success means the tag matched and the decryption unpadded to the result. After a later failure, `outPlain` holds the resized old buffer, or else the padded decryption. |
| Envelope.BadPaddingKeepsDecryption | src/crypto_aes.cpp:125-145 | A blob with a valid tag over a ciphertext whose decryption `d` is badly padded is refused, yet `outPlain` comes back holding `d`. |
| Envelope.DecryptBlobClean | src/crypto_aes.cpp:106-147 | The intended decryption: every failure leaves `outPlain` as the caller passed it. Success has the same meaning as in `DecryptBlob`. |
| Envelope.CleanAgreesOnSuccess | src/crypto_aes.cpp:106-147 | The intended and the firmware decryption succeed on the same blobs, with the same plaintext. |
| Envelope.CleanDecryptOfEncrypt | src/crypto_aes.cpp:65-147 | The round trip holds for the intended decryption too. |
| Envelope.DecryptOfEncrypt | src/crypto_aes.cpp:65-147 | Under a sound cipher, decrypting an encrypted blob with the same pass gives the plaintext back, whatever the output vectors held. |
| Envelope.TamperedTagRejected | src/crypto_aes.cpp:120-123 | A blob whose tag is replaced by any other 32 bytes is refused before decryption, and `outPlain` is untouched. |
| Envelope.EmptyCipherRejected | src/crypto_aes.cpp:108-111 | A 48-byte blob passes the length checks but never decrypts, because an empty buffer does not unpad. |
| Text.ToIntOfIntToDec | src/gsm_uplink.cpp:157 | `toInt()` of the decimal text of a 32-bit integer gives the integer back. |
| Text.HexUpperPaddedRoundTrip | src/gsm_uplink.cpp:58 | The zero-padded upper-case hex digits of `%04X`/`%08X` read back as the number. |
| Uplink.LoadUplinkCfg | src/gsm_uplink.cpp:34-45 | When the store holds none of the three keys, the server address and the pass are the defaults 78.138.169.178, 33775 and "12345678". `WifiConfig.SaveFeedsUplink` shows that what `/save` stores is read back as a non-empty host, a non-zero port and a pass of at least 8 characters. |
| Uplink.DeviceId | src/gsm_uplink.cpp:55-60 | The id is 18 characters long and starts with "esp32-". |
| Uplink.DeviceIdDigits | src/gsm_uplink.cpp:58 | The four hex digits after "esp32-" are MAC bits 32..47, and the last eight are bits 0..31. |
| Uplink.DeviceIdInjective | src/gsm_uplink.cpp:55-60 | Two MACs give the same id exactly when their low 48 bits agree. |
| Uplink.StatusCode | src/gsm_uplink.cpp:155-158 | The code is -1 when the line does not start with "HTTP/1.1". |
| Uplink.StatusCodeRange | src/gsm_uplink.cpp:155-158 | Every code read from a status line lies in -99..999, so it never collides with the transport codes -100 and -101. |
| Uplink.StatusCodeOfLine | src/gsm_uplink.cpp:155-158 | For "HTTP/1.1 " followed by a three-digit code, the code extracted is that code. |
| Uplink.PostBlob | src/gsm_uplink.cpp:100-172 | `postBlob` returns true exactly when the status is 200, which needs an answer from the server. Without an answer, the body is empty and the status negative. |
| Uplink.TransportCodes | src/gsm_uplink.cpp:100-148 | The status is -100 exactly when GPRS is down and -101 exactly when the TCP connect fails. A reply that never comes gives -3. |
| Uplink.JoinLoop | src/gsm_uplink.cpp:280-289 | The record loop, with a comma before every item but the first, builds the comma-joined list. |
| Uplink.BuildDataJson | src/gsm_uplink.cpp:274-291 | The JSON built by `sendData` is `DataJson`: `device_id`, `nonce`, `seq`, then one object per record. |
| Uplink.DataJsonIgnoresFlags | src/gsm_uplink.cpp:283-288 | Batches that differ only in `flags` give the same JSON, so `flags` is not sent. |
| Uplink.RegisterSpec | src/gsm_uplink.cpp:180-234 | Registration succeeds only when the encryption worked and the server accepted with "OK". At most one request is sent. |
| Uplink.SyncSpec | src/gsm_uplink.cpp:237-255 | A failed encryption sends nothing and keeps `seq`. A successful one increments `seq` whatever the POST returns. At most one request is sent. |
| Uplink.Answer | src/gsm_uplink.cpp:320-336 | On "OK", the batch is dropped and `seq` advances. The call re-enters exactly when the answer lacked "OK", contained "notreg", and the registration succeeded; a re-entry also advances `seq`. Nothing else changes anything. |
| Uplink.SendSpec | src/gsm_uplink.cpp:258-337 | A call drops nothing or exactly the whole non-empty batch. It consumes at least one round, unless it does nothing at all. |
| Uplink.CorruptTailStalls | src/gsm_uplink.cpp:263-267 | With a damaged oldest record, `sendData` sends nothing, drops nothing and keeps `seq`, whatever the server would answer. |
| Uplink.AcceptedDropsSent | src/gsm_uplink.cpp:321-327 | An accepted data POST drops exactly the records it carried, advances `seq` by one, and sends only that POST. |
| Uplink.DroppedOnlyWhenAccepted | src/gsm_uplink.cpp:320-336 | When the answer is neither "OK" nor "notreg", nothing is dropped and `seq` is kept. |
| Uplink.DataRequestDecrypts | src/gsm_uplink.cpp:274-313 | The first request is the `/data` POST. Decrypting it with the same pass gives the JSON of the batch with the current `seq`. |
| Uplink.RegisterOkIffAccepted | src/gsm_uplink.cpp:200-233 | Under a sound cipher, registration succeeds exactly when the server accepts it. |
| Uplink.SyncAlwaysAdvances | src/gsm_uplink.cpp:243-254 | Under a sound cipher, `doSyncTime` advances `seq` whatever the server answers. |
| Uplink.IncNIsAdd | src/gsm_uplink.cpp:325 | `n` increments of the `uint32_t` counter add `n` modulo 2^32. |
| Uplink.RegisterLoopUnbounded | src/gsm_uplink.cpp:329-336 | While the server answers "notreg" and accepts every registration, one call consumes every round, drops nothing, and spends one `seq` per round. |
| Uplink.SendSpecBounded | src/gsm_uplink.cpp:329-336 | With the retry bounded to once, a call consumes at most two rounds and drops nothing or the whole batch. |
| Uplink.BoundedRetryStops | src/gsm_uplink.cpp:329-336 | In the same endless "notreg" exchange, the bounded call stops after two rounds, two `seq` further on. |
| Uplink.BoundedAgreesWithoutReentry | src/gsm_uplink.cpp:320-336 | When the first answer does not ask for a new call, the bounded and the firmware `sendData` agree. |
| Uplink.ElapsedAcrossWrap | src/gsm_uplink.cpp:358-364 | The `millis() - last` interval the gates measure is the real elapsed time, also across the 32-bit wrap. |
| Uplink.Uplink.NextSeq | src/gsm_uplink.cpp:49-53 | `seq` advances by one and is saved under "seq" at once, so the persisted copy keeps up. |
| Uplink.Uplink.DoRegister | src/gsm_uplink.cpp:180-234 | The result, the new `seq` and the requests sent are those of `RegisterSpec`. |
| Uplink.Uplink.DoSyncTime | src/gsm_uplink.cpp:237-255 | The new `seq` and the requests sent are those of `SyncSpec`. |
| Uplink.Uplink.SendData | src/gsm_uplink.cpp:258-267 | The new `seq`, the requests sent and the rounds left are those of `SendSpec` on the batch read. The ring loses exactly the records dropped. |
| Uplink.Uplink.SendBatch | src/gsm_uplink.cpp:269-337 | For a non-empty batch: encrypt, POST and act on the answer, with the effect of `SendSpec`. |
| Uplink.Uplink.OnReply | src/gsm_uplink.cpp:320-336 | The effect after the data POST is that of `Answer`: records dropped, `seq`, the registration request, and the re-entry flag. |
| Uplink.Uplink.Acknowledged | src/gsm_uplink.cpp:321-327 | The batch's records leave the ring, and then `seq` advances. |
| Uplink.Uplink.SyncIfDue | src/gsm_uplink.cpp:363-367 | When more than 40000 ms have passed since the last sync, it syncs and notes the time; otherwise nothing changes. |
| Uplink.Uplink.SendCycle | src/gsm_uplink.cpp:358-370 | A due send reloads the configuration, syncs when due, then runs `sendData`. |
| Uplink.Uplink.Cycle | src/gsm_uplink.cpp:350-370 | Without GPRS, or before 30000 ms since the last send, nothing changes. Otherwise `lastSend` is the current time, and the effect is the sync step followed by `SendSpec`. |
| WifiConfig.Portal.LoadConfig | src/wifi_config.cpp:20-30 | Every field is read with its default, and the location is cut to 500 characters. |
| WifiConfig.Portal.SaveConfig | src/wifi_config.cpp:31-39 | The six fields are written to their keys, and the rest of the store is kept. |
| WifiConfig.Portal.RequireAuth | src/wifi_config.cpp:41-49 | The request passes exactly when it presents the stored login and password, with "admin" standing in for an empty one. |
| WifiConfig.Portal.ApplyArgs | src/wifi_config.cpp:125-130 | Each argument present replaces its field, the port through the 16-bit cast. |
| WifiConfig.Portal.Sanitize | src/wifi_config.cpp:132-135 | The four repairs of `/save`, applied in place. |
| WifiConfig.Portal.HandleSave | src/wifi_config.cpp:122-139 | Without the credentials: 401, and nothing changes. With them: 200, the configuration is the repaired copy of the arguments, and it is stored. |
| WifiConfig.Portal.Start | src/wifi_config.cpp:175-188 | The configuration is the loaded value for each key the store holds and the initial value for each other key, and it is stored. |
| WifiConfig.CapLocationPrefix | src/wifi_config.cpp:24 | The cap keeps at most 500 characters, all a prefix of the input, and it cuts only an input longer than 500. |
| WifiConfig.SanitizedWellFormed | src/wifi_config.cpp:132-135 | After the repair: location at most 500 characters, pass at least 8, port not 0, host not empty. |
| WifiConfig.SanitizedChangesOnlyBadFields | src/wifi_config.cpp:132-135 | Each field is kept exactly when it is acceptable, and login and password are always kept. A configuration is left alone exactly when it is already well formed. |
| WifiConfig.SanitizedIdempotent | src/wifi_config.cpp:132-135 | Repairing twice is repairing once. |
| WifiConfig.WithArgsFieldByField | src/wifi_config.cpp:125-130 | A field without its argument keeps its value. A field with one takes it. |
| WifiConfig.PortArgOfDec | src/wifi_config.cpp:126 | A decimal port argument is taken modulo 65536, so 0..65535 are kept and 65536 becomes 0, which the repair then replaces by 33775. |
| WifiConfig.PortArgOfNegative | src/wifi_config.cpp:126 | A negative argument `-n` becomes `65536 - n`, so "-1" gives 65535. |
| WifiConfig.LoadedOfSaved | src/wifi_config.cpp:20-39 | A configuration with a location of at most 500 characters, once stored, loads back unchanged. |
| WifiConfig.LoadedLocationCapped | src/wifi_config.cpp:24 | A loaded location never exceeds 500 characters, whatever the store holds. |
| WifiConfig.MergedKeepsExistingKeys | src/wifi_config.cpp:181-186 | The initial value is taken exactly for the keys the store lacks. |
| WifiConfig.StartKeepsStoredStrings | src/wifi_config.cpp:175-188 | An existing value of the right type is written back unchanged; for the location this needs at most 500 characters. |
| WifiConfig.StartKeepsWellFormed | src/wifi_config.cpp:181-186 | When the stored and the initial configuration are well formed, so is the merge. |
| WifiConfig.AuthNeverEmpty | src/wifi_config.cpp:41-44 | An empty login or password never opens the portal. An empty stored one is replaced by "admin". Otherwise the stored pair is required. |
| WifiConfig.SaveFeedsUplink | src/wifi_config.cpp:132-137 | After `/save`, the uplink's configuration load gives the saved host, port and pass: a pass of at least 8 characters, a non-empty host and a non-zero port. |

## Left out

- RingStore.Ring: `head` and `tail` are unbounded `nat`s, not `uint32_t`. The 32-bit behaviour is in `RingWrap`. There `AgreesBeforeWrap` proves that the two agree until `head` reaches 0xFFFFFFFF, and the two defects after the wrap are shown (see Findings). Every other module uses the unbounded counters.
- RingStore.Ring.Begin, RingStore.Ring.Append: a LittleFS mount, open or write failure makes the firmware return false. The model has none of these failures, so `Append` always succeeds and `Begin` fails only on the size check.
- RingStore.Ring.ReadOne: the short read of `readOne` (`f.read` returning fewer than 24 bytes) is not modelled. Every slot reads back as 24 bytes.
- RingStore.Ring: no crash atomicity. The window between the record write and the cursor writes is not modelled, and neither is a cursor key written only partly.
- RingStore.Ring: no concurrency. The sensor task appends while the uplink task reads and drops, with no lock between them; the model treats every operation as one sequential call.
- RingStore.SampleRec: `flags` is an opaque 16-bit field. Bit 0 (the heater) has no meaning in the model, because nothing in the core reads it.
- Envelope: AES-256-CBC, SHA-256 and HMAC-SHA256 are uninterpreted. The only assumption is `Sound`: CBC works on whole blocks, keeps the length, and decryption inverts encryption.
- Envelope.EncryptBlob: the IV comes from `esp_random` and is a parameter.
- Envelope.TamperedTagRejected: tamper detection is proved only for a replaced tag. A flipped bit in the IV or in the ciphertext is rejected only if the HMAC changes, and with an uninterpreted HMAC that cannot be proved.
- Common.StrBytes: one model character is one byte (`c % 256`). A pass or JSON with characters beyond one byte in UTF-8 is encoded differently from the firmware.
- Uplink.SendSpec, Uplink.Uplink.SendData: the firmware re-enters `sendData` without bound. The model consumes one scripted round per call. When the script is exhausted, the model ends the call as if nothing further happened; the firmware would carry on posting.
- Uplink.PostBlob: the modem and TCP I/O of `postBlob` are an abstract `Reply`: no GPRS, the connect failed, no reply within 15000 ms, or a status line and a body. This covers the header writes, the wait loop and the loop that appends the body. The disabled older `postBlob` is not modelled.
- Uplink.Uplink.Cycle: the firmware reads `millis()` three times in a cycle. The model uses one `now` for both gates and `lastSend`, and a separate `syncEnd` for `lastTimeSync`.
- Uplink.Uplink.Cycle: the 5000 ms and 500 ms `vTaskDelay` waits are not modelled, and neither is the reconnect itself (`gprsConnect`).
- Uplink.SyncDue: `TIME_SYNC_INTERVAL` is 40000 ms as written, although its comment calls it one hour.
- Uplink.Uplink.constructor: `GsmInit`'s modem restart, network wait and `GsmStartTask`'s task creation are left out. The constructor covers only the configuration load, the device id and `loadSeq`.
- Uplink.Uplink.SendBatch, Uplink.Uplink.OnReply, Uplink.Uplink.Acknowledged: these split the body of `sendData` into steps. They are not functions of the firmware.
- WifiConfig.Config: the float `voltage` field is left out: its load, its save and its `/save` argument.
- WifiConfig.Portal.RequireAuth: the basic-authentication exchange of `web.authenticate` is reduced to comparing the presented login and password.
- WifiConfig: `htmlPage`, the route for `/`, the not-found redirect, the soft access point, `wifiTask` and `WifiConfigModeActive` are left out. They are user interface, radio and GPIO.
- Prefs: the size limits and write failures of `Preferences` are not modelled. A getter on a key stored with another type returns the default, as the library does.
- `sensors.cpp` and `main.cpp` are not part of this model: sensor acquisition, heater control, deep-sleep reset and task start-up.

## Findings

| source | as written | input that shows it | evidently intended | confidence | as-written member | corrected member |
|---|---|---|---|---|---|---|
| src/ring_store.cpp:154-174 | The slot is `head % cap` on a `uint32_t` head that wraps to 0. | 17 slots, `head = tail = 0xFFFFFFFF`, not full: the first append writes slot 0 (0xFFFFFFFF is a multiple of 17), and so does the next one at `head = 0`. | Consecutive records go to consecutive slots, so a record survives `cap - 1` further appends. | not executed | RingWrap.WrappedAppendsShareSlot | RingWrap.NextSlotDiffers |
| src/ring_store.cpp:124-130 | The count uses `head >= tail`, not the wrap-safe `head - tail`. | `head = tail = 0xFFFFFFFF`, not full, one append: `head - tail == 1`, yet the count is 0, so the uplink reads nothing. | The count is the queue length, also across the wrap. | not executed | RingWrap.WrappedCountIsZero | RingWrap.CountSafeIsQueued |
| src/ring_store.cpp:205-207 | A damaged record is skipped without moving `tail`, and `sendData` asks for one record. | A queue whose oldest record fails the CRC: every `sendData` finds "no data". It sends nothing until the queue fills and an append overwrites the damaged record. | The damaged record is purged, so the intact records behind it are sent at once. | not executed | Uplink.CorruptTailStalls | RingStore.PurgeEndsStall |
| src/gsm_uplink.cpp:329-336 | After a successful registration, `sendData` calls itself with no bound. | A server that answers every data POST with "notreg" and accepts every registration: one call goes on for as many rounds as the exchange lasts, spending a `seq` each time. | The data is sent once more after registering, and the call ends there. | not executed | Uplink.RegisterLoopUnbounded | Uplink.BoundedRetryStops |
| src/crypto_aes.cpp:125-145 | `outPlain` is resized and decrypted into before unpadding, and it is not cleared when unpadding fails. | A blob with a valid tag over the encryption of 16 zero bytes: the result is false, and `outPlain` holds the 16 decrypted bytes. | A failure leaves no decrypted bytes in `outPlain`. | not executed | Envelope.BadPaddingKeepsDecryption | Envelope.DecryptBlobClean |
