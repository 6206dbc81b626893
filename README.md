# E-paper framebuffer transfer, modelled in Dafny

This project models how a host sends one 800 x 480, four-gray-level frame to a
Raspberry Pi Pico e-paper controller over a serial line, and proves
properties of that model. Three programs make up the core:

- `server/send_image.py` is the host script with the `CAN_SEND` handshake.
- `server/main.py` is the earlier host script, which waits for `READY`.
- `firmware/main.py` is the device's `main`.

Each host quantizes the grayscale raster to 2-bit levels and packs four
levels per byte. The two hosts use opposite bit orders. A host then
hex-encodes the 96000-byte frame and writes it as lines of 1024 hex
characters. After each line it waits for an acknowledgement. The device
decodes each non-blank line into its 96000-byte buffer at a write cursor. It
answers `OK` or `ERR:<reason>`. When the buffer is full it refreshes the
panel and prints `DONE`.

Modules, one per file:

- **Text** (`text.dfy`): `str.strip()`, `startswith`, the substring test `in`
  and clamped slicing.
- **Hex** (`hex.dfy`): `binascii.hexlify` and `unhexlify`.
- **Pixels** (`pixels.dfy`): the half of `process_image` that both hosts
  share: flatten, `np.digitize` against 64/128/192, reshape into groups of
  four, and the 2-bit fields of a byte.
- **Link** (`link.dfy`): the host's view of the serial line. This module
  holds the chunking, the acknowledgement window, the chunk loop
  (`SendChunks`) and the waits for `READY` and `DONE` (`AwaitLine`).
- **SendImage** (`send_image.dfy`): reversed packing, the permission
  handshake (`RequestSendPermission`) and `send_image_to_pico`.
- **ServerMain** (`server_main.dfy`): forward packing and
  `send_image_to_pico` with the `READY` wait.
- **Firmware** (`firmware.dfy`): `main`. It has the receive loop over an
  `array<byte>` (`ReceiveLoop`) and the whole run (`RunMain`). Each is
  proved against the spec functions `Receive` and `Lifetime`.
- **Session** (`session.dfy`): statements across the programs. A host's lines
  fill the device's buffer with the host's frame. The device's replies are
  read by the hosts as intended. The handshake of `server/send_image.py`
  fails against this firmware. The two bit orders mirror each other.

Time is abstracted on the host side. The port delivers a sequence of events:

- a line the device printed;
- `Silence`, which stands for a waiting window that expired with nothing
  read.

Once the events are used up the device is silent for ever. On the device
side, input is the sequence of `sys.stdin.readline()` results, where the
empty string means nothing was read. Once the input is used up, the device
is still waiting in its receive loop. The display driver and the allocator
are represented by `Hardware`, which says which of their calls raise.

How the three programs meet, as their code has it:

- The firmware has no `CAN_SEND`, `YES` or `BUSY`, the words
  `request_send_permission` uses (server/send_image.py:13-16). It prints
  `READY` once at boot (firmware/main.py:29) and treats every non-blank line
  as hex, so `CAN_SEND` is answered with `ERR:` like any line that does not
  decode.
- A rejected line (`ERR:`, firmware/main.py:59) and a failed allocation
  (`ERR_MEM`, firmware/main.py:21) `return` from `main`. They do not reach
  the idle loop at firmware/main.py:70-71. Only `DONE` and `FATAL:` reach it
  (`DevState` `Exited` versus `Idle`). In no case does the device serve a
  second frame.
- A chunk that does not fit behind the cursor makes the memoryview slice
  assignment at firmware/main.py:52 raise, which is reported as an ordinary
  `ERR:` line.
- A failure of the display driver prints `FATAL:` (firmware/main.py:67-68).
- Because of the first point, `request_send_permission` never reads `YES`.
  `Session.SendImageNeverSends` proves that, whatever the firmware prints
  and however its lines and silences reach the host, `server/send_image.py`
  sends no chunk to it. `Session.CanSendIsRejectedByFirmware` adds that when
  the `ERR` reply arrives in the first waiting window, the handshake stops
  after one query. Only `server/main.py` can transfer a frame to this
  firmware (`Session.ServerMainShowsPicture`).

## Model

| member | source | states |
|---|---|---|
| Pixels.Digitize | server/send_image.py:44 | `np.digitize` as a count of bins at or below the sample; its meaning is stated by `Pixels.DigitizeBrackets` and `Pixels.DigitizeMonotone` |
| Pixels.PackGroups | server/send_image.py:47-50 | one packed byte per group of four levels, in order; `Pixels.UnpackPackGroups` states the round trip |
| Pixels.Levels | server/main.py:18-20 | the digitized, flattened raster, one level per sample; `Pixels.LevelsAt` says which level is where |
| Pixels.DigitizeBrackets | server/send_image.py:44 | for increasing bins, `np.digitize` returns the index `i` with `bins[i-1] <= x < bins[i]`, dropping the bound that does not exist at either end |
| Pixels.DigitizeMonotone | server/main.py:18 | digitizing never maps a larger sample to a smaller index |
| Pixels.Quantize | server/send_image.py:44 | a sample below 64 gives level 0, 64 to 127 gives level 1, 128 to 191 gives level 2, and 192 or more gives level 3; the level is always in 0..3 |
| Pixels.QuantizeMonotone | server/main.py:18 | the quantized level is monotone in the sample |
| Pixels.FlattenAt | server/send_image.py:46 | sample `c` of row `r` is element `r*800 + c` of the flattened raster (`Pixels.Flatten`, `pixels.flatten()`), which holds rows*800 samples |
| Pixels.LevelsAt | server/main.py:18-20 | level `r*800 + c` of the digitized, flattened raster is the quantized sample `c` of row `r` |
| Pixels.GroupLevels | server/send_image.py:46-47 | row `r*200 + q` of `flat.reshape(-1, 4)` holds the quantized samples `4q` .. `4q+3` of row `r`, in order |
| Pixels.UnpackPackGroups | server/send_image.py:47-50 | when unpacking undoes packing on every group, unpacking a packed level sequence gives back every level, in order |
| SendImage.PackReversed | server/send_image.py:49-50 | the byte holds `p0` in bits 0-1, `p1` in bits 2-3, `p2` in bits 4-5 and `p3` in bits 6-7, the low eight bits of the packed lane being what `astype(np.uint8)` (`Pixels.ToUint8`) keeps |
| SendImage.UnpackPackReversed | server/send_image.py:49 | reading the fields at bits 0, 2, 4, 6 recovers `p0..p3` exactly |
| SendImage.PackUnpackReversed | server/send_image.py:49 | packing the unpacked fields recovers the byte, so the packing is a bijection between groups and bytes |
| SendImage.ProcessImage | server/send_image.py:46-50 | `raw_data` has a quarter byte per sample: rows*200 bytes |
| SendImage.UnpackProcessImage | server/send_image.py:44-50 | unpacking `raw_data` in reversed order gives back the quantized raster, level by level in row-major order |
| SendImage.ProcessImagePixels | server/send_image.py:44-50 | byte `r*200 + q` carries the quantized samples `4q` .. `4q+3` of row `r`, the first in the low bits |
| SendImage.SizeCheck | server/send_image.py:56-58 | the size check fails exactly when the raster does not have 480 rows, so it never rejects an 800 x 480 raster |
| SendImage.QueryWindow | server/send_image.py:22-34 | the polling loop of one attempt; `SendImage.QueryWindowDecidedBy` states which reading decides it |
| SendImage.Handshake | server/send_image.py:18-38 | `request_send_permission`; `SendImage.HandshakeLog`, `SendImage.HandshakeGrant`, `SendImage.HandshakeRefusal`, `SendImage.AttemptsByWindows` and `SendImage.RequestSendPermissionShape` state what it writes, when it grants and when an `ERR` line ends it |
| SendImage.HandshakeStep | server/send_image.py:28-36 | an attempt whose window ended in `BUSY` or silence writes its query, sleeps unless it was the last attempt, and leaves the rest to the remaining attempts |
| SendImage.HandshakeDecided | server/send_image.py:26-33 | an attempt whose window read `YES` or a line starting with `ERR` ends the handshake after its one query, granted exactly on `YES`, reading no further |
| SendImage.WindowStart | server/send_image.py:19-23 | the event where the `m`-th attempt's window starts: the first at `i`, each later one right after the event that ended the window before; `SendImage.AttemptsByWindows` uses it |
| SendImage.AttemptsByWindows | server/send_image.py:18-38 | with attempts left the handshake makes `n` of them, `1 <= n <=` the attempts left: every window before the `n`-th ended in `BUSY` or silence, and the `n`-th granted, refused or was the last allowed; the handshake stops reading where the `n`-th window ended and is granted exactly when that window read `YES`; `SendImage.WindowStart` and `SendImage.WindowReply` give where each window starts and how it ends, independently of the handshake's recursion |
| SendImage.Transfer | server/send_image.py:52-113 | `send_image_to_pico`; `SendImage.TransferWrites` states what it writes and `SendImage.TransferOutcome` what each outcome means |
| SendImage.TransferOutcome | server/send_image.py:60-113 | on a 480-row raster: `NotPermitted` exactly when the handshake was not granted; after a grant, a device error or an ack timeout exactly when the chunk loop ended so, carrying the `ERR` line; `Success` exactly when every window after the 188 chunk lines acknowledged and some later line contains `DONE`; still waiting for `DONE` exactly when all were acknowledged but no such line follows |
| SendImage.QueryWindowDecidedBy | server/send_image.py:23-34 | one attempt skips lines other than `YES`, `BUSY` and `ERR...`, and its reply is decided by the first reading that is silence or such a line: `YES` grants, `BUSY` ends the attempt, a line starting with `ERR` refuses (each as an if and only if); running out of events or silence means no reply |
| SendImage.HandshakeLog | server/send_image.py:18-38 | the handshake writes exactly `n` `CAN_SEND` lines, one per attempt, with a backoff between consecutive queries and none after the last; `1 <= n <= max_attempts` |
| SendImage.QueryLogCounts | server/send_image.py:19-36 | the log of `n` attempts (`SendImage.QueryLog`) has `2n-1` entries, alternating query and backoff, and ends with a query |
| SendImage.HandshakeGrant | server/send_image.py:26-27 | permission is granted exactly when the last event read is a `YES` line; no earlier event read was `YES` |
| SendImage.HandshakeRefusal | server/send_image.py:31-33 | a line starting with `ERR` (`Text.StartsWith`, `str.startswith`) ends the handshake in whichever attempt it arrives: no event read before the last is such a line, and if the last is, permission is refused; conversely, stopping without permission before the last attempt means the last event read was such a line |
| SendImage.RequestSendPermissionShape | server/send_image.py:18-38 | with five attempts: 1 to 5 queries and backoffs as above; granted iff the last reading is `YES`; no earlier reading is `YES` or starts with `ERR`; a last reading starting with `ERR` refuses; an early stop without permission happens only on such a line; the attempts are those up to the first window that granted or refused, or all five |
| SendImage.PollReply | server/send_image.py:23-34 | the polling loop of one attempt returns what `QueryWindow` says about the readings of the events |
| SendImage.RequestSendPermission | server/send_image.py:18-38 | the `for attempt` loop with early returns computes exactly `Handshake(readings, start, 0, max_attempts)`: granted, what it wrote and slept, and where it stopped reading |
| SendImage.TransferWrites | server/send_image.py:52-113 | a size error writes nothing, and happens exactly when the raster is not 480 rows; otherwise the run starts with the handshake's actions and writes a chunk only after a granted handshake that read `YES`; a successful run wrote all 188 chunk lines in order after the handshake |
| SendImage.SendImageToPico | server/send_image.py:52-113 | the script computes exactly `Transfer(img, readings)`: its outcome and all it wrote |
| ServerMain.PackForward | server/main.py:22-23 | the byte holds `p0` in bits 6-7, `p1` in bits 4-5, `p2` in bits 2-3 and `p3` in bits 0-1, after the same `astype(np.uint8)` (`Pixels.ToUint8`) |
| ServerMain.UnpackPackForward | server/main.py:22 | reading the fields at bits 6, 4, 2, 0 recovers `p0..p3` exactly |
| ServerMain.PackUnpackForward | server/main.py:22 | packing the unpacked fields recovers the byte |
| ServerMain.ProcessImage | server/main.py:20-23 | `raw_data` has rows*200 bytes |
| ServerMain.UnpackProcessImage | server/main.py:18-23 | unpacking `raw_data` in forward order gives back the quantized raster, level by level |
| ServerMain.ProcessImagePixels | server/main.py:18-23 | byte `r*200 + q` carries the quantized samples `4q` .. `4q+3` of row `r`, the first in the high bits |
| ServerMain.SizeCheck | server/main.py:29-31 | the size check fails exactly when the raster does not have 480 rows |
| ServerMain.Transfer | server/main.py:25-91 | `send_image_to_pico` with the `READY` wait; `ServerMain.TransferWrites` states what it writes and `ServerMain.TransferOutcome` what each outcome means |
| ServerMain.TransferOutcome | server/main.py:44-91 | on a 480-row raster once a `READY` line was read: a device error or an ack timeout exactly when the chunk loop from the event after it ended so, carrying the `ERR` line; `Success` exactly when every window after the 188 chunk lines acknowledged and some later line contains `DONE`; still waiting for `DONE` exactly when all were acknowledged but no such line follows |
| ServerMain.TransferWrites | server/main.py:29-81 | the size check fails exactly when the raster does not have 480 rows, and then nothing is written; otherwise nothing is written unless some line contains `READY`, and the chunk loop starts right after the first such line; a successful run wrote all 188 chunk lines, in order, and nothing else |
| ServerMain.SendImageToPico | server/main.py:25-91 | the script computes exactly `Transfer(img, readings)` |
| Hex.Hexlify | server/send_image.py:60 | the hex text is twice as long as the bytes and uses only `0-9a-f` |
| Hex.Unhexlify | firmware/main.py:49 | decoding succeeds exactly for even-length hex text of either case, giving half as many bytes; an odd length is reported as such, otherwise a non-hex digit |
| Hex.UnhexlifyHexlify | server/send_image.py:60 | decoding what `hexlify` wrote gives the original bytes |
| Hex.HexlifyUnhexlify | firmware/main.py:49 | re-encoding a decoded even-length lowercase hex text gives the text back |
| Hex.HexlifyAppend | server/main.py:33 | hex encoding distributes over concatenation |
| Hex.HexlifySlice | server/main.py:33-56 | hex characters `[2lo, 2hi)` are the hex of bytes `[lo, hi)` |
| Text.Strip | server/send_image.py:25 | `str.strip()`; `Text.StripSlice` and `Text.StripLine` state what it keeps and removes |
| Text.Contains | server/send_image.py:88 | the substring test `p in s`; `Text.ContainsAt` states it as an occurrence at some offset |
| Text.PySlice | server/send_image.py:78 | slicing with bounds clamped to the length, as `hex_data[bytes_sent : bytes_sent + chunk_len]` does: element `k` of the slice is element `lo + k` of the string, and the slice is no longer than `hi - lo`; `Link.ChunkHead` states the chunk it cuts |
| Text.StripSlice | server/send_image.py:25 | `strip()` keeps a slice without whitespace at either end and cuts only whitespace; the result is empty exactly for all-whitespace input |
| Text.StripLine | server/send_image.py:87 | a line with no whitespace at its ends, followed by a line feed, strips back to itself |
| Text.ContainsAt | server/send_image.py:88 | `p in s` holds exactly when `p` occurs at some offset of `s` |
| Link.Readings | server/main.py:65 | the readings of the events, one each, in order, each `readline().decode().strip()` of its line or nothing for a silent window (`Link.Read`) |
| Link.NumChunks | server/main.py:54-56 | `ceil(len/1024)`: the least count of 1024-character chunks that covers `len` characters; `Link.ChunksFromCount` states that the loop cuts that many |
| Link.ChunksFrom | server/send_image.py:76-78 | the chunks the loop cuts from `bytes_sent` on; `Link.ChunksShape`, `Link.ChunksFromCount` and `Link.FrameChunks` state their shape and number |
| Link.AckWindow | server/send_image.py:83-94 | one acknowledgement window; `Link.AckWindowDecidedBy` states which line decides it and how |
| Link.ChunkLoop | server/send_image.py:74-100 | the chunk loop; `Link.ChunkLoopWrites` and `Link.ChunkLoopSent` state what it writes and how far `bytes_sent` gets, `Link.ChunkLoopByWindows` ties each line to the acknowledgement window after it and the loop's end to the last one, and `Link.ChunkLoopOutcome` puts these together from offset 0 |
| Link.AckStart | server/send_image.py:83-98 | the event where the `m`-th acknowledgement window starts: the first at `i`, each later one right after the event that ended the window before; `Link.AckReply` is how that window ends |
| Link.ChunkLoopByWindows | server/send_image.py:74-100 | the `m`-th chunk line is followed by the `m`-th acknowledgement window (`Link.AckStart`, `Link.AckReply`): every window but the last one watched acknowledged its chunk, and so did the last when the loop completed; the loop ends on a device error exactly when the last window read an `ERR` line, carrying that line, and on a timeout exactly when the last window timed out; it stops reading where the last window ended; proved by induction in `Link.LoopWindows` over the predicate `Link.WindowsAgree` |
| Link.ChunkLoopAllAcked | server/main.py:54-78 | from offset 0 the loop completes exactly when every window after the chunk lines acknowledged its chunk, and then stops reading where the last of those windows ended |
| Link.ChunkLoopThenDone | server/send_image.py:107-113 | after the loop the `DONE` wait succeeds exactly when every chunk was acknowledged and some line after the last window contains `DONE`, and waits for ever exactly when every chunk was acknowledged and no such line follows |
| Link.LineWith | server/main.py:44-50 | the unbounded wait for a line containing a word; `Link.LineWithFirst` states that it finds the first such line |
| Link.ChunkHead | server/send_image.py:77-78 | the next chunk is the next at most 1024 characters, non-empty, and full unless it reaches the end |
| Link.ChunksFromCount | server/main.py:54-56 | there are `ceil(len/1024)` chunks (`Link.NumChunks`) |
| Link.ChunksShape | server/send_image.py:74-100 | the chunks are consecutive slices `hex[1024k .. 1024(k+1)]` cut at the end, each non-empty and at most 1024 long, all but the last exactly 1024; joined in order they give `hex_data` back; `Link.Chunks` is the loop from offset 0 |
| Link.FrameChunks | server/main.py:52-78 | 192000 hex characters go out as 188 lines, the last one 512 characters long |
| Link.AckWindowDecidedBy | server/send_image.py:85-98 | lines without `OK` or `ERR` are skipped; the window acknowledges exactly when the deciding line contains `OK`, even if it also contains `ERR`; it reports an error exactly when that line contains `ERR` but not `OK`, carrying the line; it times out exactly on silence or when the events run out |
| Link.ChunkLoopWrites | server/main.py:54-76 | the chunk loop writes a prefix of the chunk lines in order: all of them when it completed, otherwise at least one; which windows acknowledged is `Link.ChunkLoopByWindows` |
| Link.ChunkLoopSent | server/send_image.py:76-100 | `bytes_sent` equals the payload length when the loop runs to completion; otherwise it stopped below it, advanced by 1024 for every line written but the last, which `Link.ChunkLoopByWindows` shows are the acknowledged ones |
| Link.ChunkLoopOutcome | server/send_image.py:74-100 | from offset 0: the loop completes exactly when `bytes_sent` reaches the length, and then wrote every chunk line; every written line is a chunk line in order, and every window but the last watched acknowledged its chunk (the last too on completion); after an abort the window after the last line written read an `ERR` line or timed out, as the loop's end says, `bytes_sent` is 1024 per acknowledged chunk, and no further chunk was written; the loop stops reading where the last window ended |
| Link.AwaitAck | server/send_image.py:83-94 | the acknowledgement polling loop returns exactly `AckWindow` of the readings |
| Link.SendChunks | server/send_image.py:74-100 | the `while bytes_sent < total_hex_len` loop returns exactly what `ChunkLoop` says: how it ended, `bytes_sent`, the lines written and where it stopped reading |
| Link.LineWithFirst | server/main.py:44-50 | the wait finds the first line containing the word, and finds nothing exactly when no line contains it |
| Link.AwaitLine | server/main.py:44-50 | the polling loop for `READY` (and for `DONE`, server/main.py:85-91) returns exactly `LineWith` of the readings |
| Firmware.Parse | firmware/main.py:39-49 | a decoded line is never empty |
| Firmware.ParseCases | firmware/main.py:37-49 | a line is skipped exactly when it is empty or all whitespace; otherwise its stripped text is non-empty and decodes exactly when it is even-length hex, to the bytes `unhexlify` gives and with the error it raises |
| Firmware.WriteAt | firmware/main.py:52 | the memoryview write; it keeps the buffer's length, and `Firmware.WriteAtBytes` states where the bytes go |
| Firmware.WriteAtBytes | firmware/main.py:52 | the memoryview write puts the chunk at `[pos, pos+L)` and leaves every other byte alone |
| Firmware.Receive | firmware/main.py:36-59 | the cursor never decreases, never exceeds 96000, and the buffer keeps its length |
| Firmware.ReceiveBlank | firmware/main.py:39-46 | an empty read or a whitespace line changes nothing and prints nothing |
| Firmware.ReceiveStored | firmware/main.py:49-55 | a line decoding to L bytes that fit is written at the cursor, the cursor advances by exactly L, and one `OK` is printed before the rest |
| Firmware.ReceiveReject | firmware/main.py:48-59 | a line that does not decode, or decodes to more bytes than fit behind the cursor, is answered with exactly one `ERR:` carrying its cause and ends the loop at that line, with buffer and cursor unchanged |
| Firmware.ReceiveExit | firmware/main.py:36-59 | the loop exits normally exactly when the cursor reaches 96000; every reply but the last is `OK`; the loop aborts exactly when the last reply is an `ERR` line, and otherwise every reply is `OK`; it aborts exactly when the line it stopped at does not decode or does not fit at the cursor reached, and that `ERR` names the line's cause; it is starved exactly when the input ran out short of the end; no line before the one it stopped at failed to decode |
| Firmware.ReceiveFrame | firmware/main.py:52-53 | the loop writes only between the start cursor and the end cursor |
| Firmware.ReceiveAdvance | firmware/main.py:52-55 | the cursor moved exactly when some `OK` was printed |
| Firmware.HexLineParses | firmware/main.py:43-49 | the device reads a host line `hexlify(chunk) + "\n"` back as the chunk |
| Firmware.ReceiveChunks | firmware/main.py:36-55 | chunks whose lengths add up to the rest of the buffer are stored one after another, answered by one `OK` each, and the loop exits with a full buffer, whatever follows them |
| Firmware.LinesParse | firmware/main.py:37-49 | the host lines of non-empty chunks, followed by anything, are read as those chunks |
| Firmware.Refresh | firmware/main.py:61-68 | `init_4Gray`, `display_4Gray`, `sleep` and `DONE`, or `FATAL:` at the first step that fails; `Firmware.LifetimeDone` and `Firmware.LifetimeFatal` state its effect |
| Firmware.Lifetime | firmware/main.py:13-71 | the whole of `main`; `Firmware.LifetimeFrame`, `Firmware.LifetimeOpens`, `Firmware.LifetimeExits`, `Firmware.LifetimeNoMemory`, `Firmware.LifetimeDone`, `Firmware.LifetimeFatal` and `Firmware.LifetimeWaiting` state its properties |
| Firmware.LifetimeFrame | firmware/main.py:13-65 | a healthy device fed the lines of chunks that total 96000 bytes prints `READY`, one `OK` per chunk and `DONE`, shows the concatenated chunks and idles |
| Firmware.LifetimeOpens | firmware/main.py:18-36 | once the buffer exists `READY` is the first line and never printed again, and every later line but the last is `OK` |
| Firmware.LifetimeExits | firmware/main.py:17-59 | `main` returns without idling exactly after `ERR_MEM` or an `ERR` line, and an `ERR` line is always the last; `ERR_MEM` is printed exactly when the driver was built and the allocation failed |
| Firmware.LifetimeNoMemory | firmware/main.py:17-21 | when the allocation fails after the driver was built, `main` prints only `ERR_MEM`, returns, shows nothing and reads no input: the result is the same for every input |
| Firmware.LifetimeDone | firmware/main.py:36-65 | `DONE` is the last line, printed only in the idle state with the panel given the buffer; `DONE` is printed exactly when no hardware step fails and the receive loop filled the buffer; the panel is given the buffer exactly when the driver was built, the buffer allocated and filled, and `init_4Gray` and `display_4Gray` returned; either one means the cursor reached 96000 and the panel was given the loop's buffer |
| Firmware.LifetimeFatal | firmware/main.py:13-68 | `FATAL:` is the last line exactly when building the driver failed, or the buffer was filled and `init_4Gray`, `display_4Gray` or `sleep` failed; it is then the only `FATAL:` line, no `DONE` is printed and the device idles; a driver that cannot be built gives `FATAL:` alone, with nothing read or shown |
| Firmware.LifetimeWaiting | firmware/main.py:31-41 | while the device waits for input the cursor is below 96000, the buffer from the cursor on is still zero, and the cursor moved exactly when an `OK` was printed |
| Firmware.ReadLine | firmware/main.py:37-49 | one turn's line handling returns exactly `Parse` of the line |
| Firmware.StoreAt | firmware/main.py:52 | the array afterwards is exactly `WriteAt` of its old contents |
| Firmware.ReceiveLoop | firmware/main.py:31-59 | the receive loop over the array computes exactly `Receive` on the parsed input: the buffer, the cursor, the replies, how it exited and the line it stopped at |
| Firmware.RunMain | firmware/main.py:13-71 | `main` produces exactly `Lifetime(hw, inputs)`: its replies, where it ended, the buffer and what the panel shows |
| Session.HexChunks | server/send_image.py:60-78 | hex chunk `k` is the hex of the `k`th 512-byte run of the frame, and the runs are non-empty |
| Session.ByteChunksCover | server/main.py:52-78 | the byte runs together are the whole frame |
| Session.ChunkLinesAreHexLines | server/main.py:58 | the lines a host writes for a frame are the device's lines for the frame's byte runs, which cover the frame |
| Session.FrameDelivered | firmware/main.py:36-65 | a healthy device fed a host's chunk lines of a 96000-byte frame prints `READY`, 188 `OK`s and `DONE`, holds and shows exactly that frame, and idles |
| Session.ServerMainShowsPicture | server/main.py:25-91 | after a successful run of `server/main.py`, a healthy device that read what it wrote shows the packed frame, and unpacking that frame in forward order gives back the quantized picture |
| Session.OkAcknowledges | server/main.py:64-68 | the device's `OK` acknowledges the chunk in one reading |
| Session.ErrIsReported | server/main.py:69-71 | every `ERR:` reply of the device (`Firmware.ReplyText` of an `ErrLine`, with the representative messages of `Firmware.CauseText`) is read as a device error carrying its text, since it contains `ERR` and not `OK` |
| Session.ReadyFound | server/main.py:44-50 | the device's `READY` ends the host's wait for it, and it does not decide an acknowledgement window |
| Session.DoneFound | server/main.py:85-91 | the device's `DONE` ends the host's final wait, and it does not decide an acknowledgement window |
| Session.FirmwareNeverGrants | firmware/main.py:13-71 | no line the firmware prints is `YES` or `BUSY` |
| Session.QueryIsNotHex | firmware/main.py:49 | the line `CAN_SEND` fails to decode with a non-hex digit |
| Session.RefusalRead | server/send_image.py:31-33 | the `ERR:` reply to `CAN_SEND` settles the attempt as refused, whether or not a `READY` line comes before it |
| Session.CanSendIsRejectedByFirmware | server/send_image.py:18-38 | the firmware answers `CAN_SEND` with `ERR` and returns with its buffer untouched; when that reply arrives in the first waiting window, after a `READY` or not, the handshake reads it as a refusal after one query |
| Session.NoReplyReadsYes | server/send_image.py:25-27 | no line the firmware prints (`Firmware.ReplyText`: `READY`, `OK`, `ERR:<reason>`, `DONE`, `FATAL:<reason>`, `ERR_MEM`) reads as `YES` once read through `Link.Read`, `readline().decode().strip()` |
| Session.SendImageNeverSends | server/send_image.py:52-70 | whatever the firmware prints, heard in any order and with any silences, `send_image_to_pico` either fails the size check and writes nothing, or is not permitted and writes only its `CAN_SEND` queries and backoffs, never a chunk |
| Session.PackReversedIsMirrored | server/send_image.py:49 | the send_image byte of a group is the main.py byte of the mirrored group |
| Session.PackersAgree | server/main.py:22 | the two scripts pack a group into the same byte exactly when the group reads the same backwards |
| Session.ReversedFrameReadForward | server/send_image.py:46-50 | reading the send_image frame in main.py's bit order mirrors every group of four pixels |

## Left out

- Serial plumbing is left out, because the model starts where the hosts read
  a line: `serial.Serial`, `reset_input_buffer`, `reset_output_buffer`,
  `flush`, `in_waiting` and `close`. The event sequence stands for what the
  port delivers.
- Wall-clock timing, including the waiting windows and the 10 ms, 1 ms and
  100 ms sleeps, is left out. These waits are the `Silence` event in the
  model. The 2-second backoff is the `Backoff` action.
- The handshake's `timeout` and `wait_seconds` parameters are not modelled,
  for the same reason. `max_attempts` is a parameter.
- `Image.open`, `convert('L')` and the LANCZOS resize are left out. They are
  floating-point work in a library outside the model. The model starts from
  the resized grid of 8-bit samples.
- Progress and status `print`s on the hosts are left out. They are output
  formatting that does not affect what is sent. This includes the float
  percentage at server/send_image.py:102-103.
- The exception branches of the hosts are left out (server/send_image.py:115-118,
  server/main.py:93-96). They only report and close the port.
- `decode('utf-8', errors='ignore')` is left out. Lines are modelled as
  already-decoded text.
- The strict `.decode()` of the hosts (server/send_image.py:87 and 109,
  server/main.py:65 and 87) raises on bytes that are not UTF-8, which ends
  the run through the `except` branch. That path is not modelled, because
  lines are already text in the model; the firmware's own replies are
  ASCII.
- Whitespace for `strip()` is MicroPython's: space and code points 9 to 13.
  CPython's `strip()` on the hosts also removes code points 28 to 31 and the
  other Unicode whitespace; that difference is not modelled.
- MicroPython's `binascii.unhexlify` measures a `str` by its UTF-8 bytes, so
  a line holding a non-ASCII character can be refused as odd-length where
  `Hex.Unhexlify`, which counts characters, reports a non-hex digit. Either
  way the device prints one `ERR:` line and returns; only the message
  differs, and the device's input is not modelled as bytes.
- The LED, `gc`, the `time.sleep` calls and the `epaper7in5` driver on the
  device are left out. They are hardware. `Hardware` only says which driver
  step raises, which gives `FATAL:<reason>`; an image given to the panel is
  recorded as `shown`.
- The exception texts are representative. The wording of
  `unhexlify`'s and the memoryview's messages is the runtime's and is not
  part of these programs, so `Firmware.CauseText` fixes one text per cause.
- The device's final `while True: sleep(1)` loop is the halted state `Idle`.
- The unbounded `while True` waits for `READY` and `DONE` never end in the
  source when the device stays silent. They are outcomes of the model
  (`AwaitingReady`, `AwaitingDone`).
- `server/calendar_api.py` and `server/generate_image.py` are not part of
  this model. They fetch data and render the picture.
