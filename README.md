# Camera controller firmware: framing, capture cycle and photo store

This project models the controller firmware of a camera link. The firmware runs on an
nRF board (CameraServerTest/MDBT53/src/main.c). It asks a camera for a picture over a
serial line, takes in the image through a small framed protocol, checks a one-byte XOR
checksum, and stores the image on an SD card as `photo_NNNN.jpg`.

The protocol has three parts:

- a text header `IMG:<decimal length>\n`, or an error line starting with `ERR:`;
- the image bytes, read in binary mode;
- a trailer `\nEND:<two hex digits>\n`.

The model has six modules:

- `Bytes`: the C-library functions the firmware relies on, as pure functions over byte
  sequences. These are C strings, `strstr`/`strchr`/`memcmp`, `atoi`,
  `sscanf("%d")`, `sscanf("%02hhX")` and `printf("%04d")`, plus the 32-bit conversions.
  `Bytes.HexByte` writes the two upper-case hex digits a camera sends in its trailer.
- `Errno`: the return codes (`0`, `-EINVAL`, `-EIO`, `-ETIMEDOUT`, `-ENODATA`, file
  system codes).
- `Checksum`: `calculate_checksum` and the XOR fold it computes.
- `Framing`: the reference definition of the receive protocol, as functions of the
  bytes that arrive. It covers:
  - byte classification in text and binary mode;
  - the header wait;
  - the wait for the image bytes;
  - the trailer scan and the checksum verdict;
  - a whole `receive_jpeg`.
- `Storage`: the reference definition of the photo store. It covers photo names, the
  recovery of the photo counter from a directory listing, and the chunked write.
- `Controller`: the class `CameraController`. Its fields are the firmware's globals:
  - the two buffers and their counts;
  - `receiving_jpeg`, `jpeg_complete` and `expected_jpeg_len`;
  - `file_counter`.

  Its methods are the firmware's functions, written as loops over those fields. Each
  method is proved against the matching `Framing` or `Storage` definition.
- `Scenarios`: whole receptions, from the header line to the trailer.

Time and the interrupt handler are modelled by polls. `arrivals[k]` is the batch of bytes
that comes in while the controller sleeps before its k-th 10 ms poll of a cycle. The poll
count runs on across the header wait into the image wait. The 100 ms wait before the
trailer scan takes in one more batch.

The file system is an oracle, passed in as values:

- directory entries for `fs_readdir`;
- the result code of `fs_opendir` and of `fs_open`;
- the replies of successive `fs_write` calls.

The SD card is a map from path to content.

Four behaviours of the firmware are easy to miss:

- The trailer checksum is read as `sscanf("%02hhX")` reads it. Leading white space, a
  sign and a single digit are accepted. The digits may lie past the received count,
  since they are read from the buffer.
- With no marker, every received byte is kept. This is the declared length plus whatever
  came with it, not exactly the declared length.
- The counter recovery compares as `uint32_t`. A name printed for a counter above
  `INT_MAX` is read back as a negative number. The comparison converts it back to the
  counter it was printed for, and the counter moves one past it (`Storage.ListedPhotoStep`).
  Only the name for 0xFFFFFFFF (`photo_-001.jpg`) wraps the counter to 0, as
  `file_counter++` would (`Storage.NegativeNameResetsCounter`).
- `fs_open` is called without truncation. If a file with that name already exists, it is
  overwritten from the start, and any longer old content stays behind new bytes
  (`Storage.Overlay`).

## Model

| member | source | states |
|---|---|---|
| Controller.CameraController.constructor | CameraServerTest/MDBT53/src/main.c:55-75 | static storage starts zeroed: both buffers all NUL, counts and counter 0, flags false |
| Controller.CameraController.OnByte | CameraServerTest/MDBT53/src/main.c:119-130 | in binary mode the byte goes to the binary buffer (dropped when full) and the text buffer is untouched; in text mode it goes to the text buffer followed by a NUL, the count grows only below 2047, the binary buffer is untouched, and NUL-termination is kept |
| Controller.CameraController.UartIsr | CameraServerTest/MDBT53/src/main.c:111-134 | a batch of FIFO bytes does to the buffers exactly what `Framing.Absorb` or `Framing.Fill` say, and leaves the other buffer unchanged |
| Framing.FillIsCappedAppend | CameraServerTest/MDBT53/src/main.c:126-129 | text mode appends the batch and cuts everything past 2047 bytes |
| Framing.AbsorbIsCappedAppend | CameraServerTest/MDBT53/src/main.c:119-123 | binary mode: the count grows by the batch length up to 512 KiB; the batch bytes land after the old count in order as far as they fit; every other byte is unchanged |
| Controller.CameraController.RequestCapture | CameraServerTest/MDBT53/src/main.c:201-217 | clears the text buffer to all NUL, zeroes both counts, the flags and the expected length, keeps the counter, returns 0 |
| Controller.CameraController.ParseHeader | CameraServerTest/MDBT53/src/main.c:235-240 | the poll checks (strstr for "IMG:", strchr for a newline after it, atoi after the marker, strstr for "ERR:") on the NUL-terminated array equal `Framing.PollText` of the received text, whose meaning `Framing.PollTextSpec` states |
| Controller.CameraController.PollForHeader | CameraServerTest/MDBT53/src/main.c:230-260 | one pass of the header loop ends in the state `Framing.HeaderPoll` gives: another poll with the new text; or binary mode with both counts 0 and the length stored; or -EINVAL with the length stored and text mode kept; or -EIO |
| Framing.PutText | CameraServerTest/MDBT53/src/main.c:126-129 | a text-mode byte is appended while the text is below 2047 bytes and dropped otherwise; `Framing.FillIsCappedAppend` states a whole batch |
| Framing.Put | CameraServerTest/MDBT53/src/main.c:121-123 | a binary-mode byte is stored at the count while the count is below 512 KiB and dropped otherwise; the buffer keeps its size and bound |
| Framing.PollText | CameraServerTest/MDBT53/src/main.c:235-259 | one poll of the text buffer as a C string: strstr for "IMG:", strchr for a newline after it, atoi after the marker, then strstr for "ERR:"; `Framing.PollTextSpec` states what it finds |
| Framing.PollTextSpec | CameraServerTest/MDBT53/src/main.c:235-259 | a poll finds a header exactly when some "IMG:" has a newline at or after it, and the length is then atoi of what follows the first "IMG:"; it finds a remote error exactly when there is no such header and "ERR:" occurs; otherwise nothing |
| Framing.HeaderPoll | CameraServerTest/MDBT53/src/main.c:235-260 | a poll that ends the wait never times out; an accepted length is in 1..512 KiB; a rejected one is 0 or above 512 KiB |
| Controller.CameraController.WaitForHeader | CameraServerTest/MDBT53/src/main.c:224-266 | the loop's result and state are those of `Framing.HeaderWait` from the text on entry; the binary buffer is untouched; on acceptance the number of polls made is returned |
| Framing.HeaderWait | CameraServerTest/MDBT53/src/main.c:229-266 | an accepted header has a length in 1..512 KiB and was found within the 3000 polls |
| Framing.HeaderTimeoutIff | CameraServerTest/MDBT53/src/main.c:230-266 | the header wait times out exactly when none of the 3000 polls sees a header line or an error line |
| Framing.TimeoutMeansAllPending | CameraServerTest/MDBT53/src/main.c:230-261 | a timed-out wait saw neither a header nor an error line at any later poll |
| Framing.AllPendingMeansTimeout | CameraServerTest/MDBT53/src/main.c:263-266 | a wait whose every poll sees neither a header nor an error line ends in -ETIMEDOUT |
| Framing.AcceptedWasAnnounced | CameraServerTest/MDBT53/src/main.c:235-243 | an accepted length is what atoi read, stored as size_t, at the poll that accepted it |
| Framing.AcceptedAtFirstHeader | CameraServerTest/MDBT53/src/main.c:230-261 | every poll before the accepting one saw neither a header nor an error line |
| Framing.RefusedWasError | CameraServerTest/MDBT53/src/main.c:256-260 | a wait that ends in -EIO ended at the first poll that saw an answer; that poll's text is the reported text, and its poll is a remote error, so "ERR:" occurs and no header line does |
| Framing.RejectedWasAnnounced | CameraServerTest/MDBT53/src/main.c:235-246 | a wait that ends in -EINVAL ended at the first poll that saw an answer; that poll saw a header line whose length, stored as size_t, is the rejected one |
| Controller.CameraController.PollForPayload | CameraServerTest/MDBT53/src/main.c:270-320 | one pass of the image loop: below the declared length, the rest of the wait goes on from the new buffer; at or above it, binary mode ends, `jpeg_complete` is set, and the length and verdict are those of `Framing.Finish` of the buffer after the 100 ms wait |
| Framing.PayloadPoll | CameraServerTest/MDBT53/src/main.c:270-277 | a poll that goes on is below the declared length; one that completes is at or above it |
| Controller.CameraController.WaitForPayload | CameraServerTest/MDBT53/src/main.c:268-334 | the loop ends as `Framing.PayloadWait` says: either 0 with `jpeg_complete` set and the buffer cut as `Finish` says (lenient acceptance), or -ETIMEDOUT with the buffer as received and `jpeg_complete` unchanged; binary mode is off either way |
| Framing.PayloadWait | CameraServerTest/MDBT53/src/main.c:269-334 | the wait ends with at least the declared count, or with less after all 3000 polls |
| Framing.PayloadTimeoutIff | CameraServerTest/MDBT53/src/main.c:270-275 | the image wait times out exactly when the count stays below the declared length at every poll |
| Controller.CameraController.FindTrailer | CameraServerTest/MDBT53/src/main.c:284-294 | the scan loop over i from len-10 to len-5 returns `Framing.TrailerAt` of the buffer |
| Framing.TrailerAt | CameraServerTest/MDBT53/src/main.c:284-294 | a marker is found only when more than 10 bytes were received; it starts in the last 10 bytes, ends within the received bytes, and the 5 bytes there are "\nEND:" |
| Framing.TrailerIsFirstMarker | CameraServerTest/MDBT53/src/main.c:287-293 | the scan returns the first marker in the window, and none only when the window holds none |
| Controller.CameraController.CheckTrailer | CameraServerTest/MDBT53/src/main.c:284-319 | the count is cut and the verdict chosen as `Framing.Finish` of the buffer on entry says |
| Framing.Judge | CameraServerTest/MDBT53/src/main.c:296-311 | the checksum check at a marker: sscanf "%02hhX" on the bytes after the marker, compared with the XOR of the bytes before it; `Framing.FinishVerdict` states the verdicts |
| Framing.Finish | CameraServerTest/MDBT53/src/main.c:284-291 | the trailer step never lengthens the received count |
| Framing.FinishVerdict | CameraServerTest/MDBT53/src/main.c:284-319 | no marker means every byte is kept; otherwise the count is cut to the marker; the checksum is good exactly when sscanf reads a byte after the marker and it equals the XOR of the kept bytes; it is unreadable exactly when a marker is found but no byte is read |
| Framing.Receive | CameraServerTest/MDBT53/src/main.c:222-334 | a received image has a declared length in 1..512 KiB; a timed-out one holds fewer bytes than declared |
| Framing.ReceivedIsNonEmpty | CameraServerTest/MDBT53/src/main.c:274-319 | receive_jpeg returns 0 exactly when the image was taken in, whatever the trailer says; such an image is never empty; with no marker it holds at least the declared count |
| Controller.CameraController.ReceiveJpeg | CameraServerTest/MDBT53/src/main.c:222-334 | the return code, completion flag, verdict, buffer, expected length and text are those of `Framing.Receive` on the text and buffer at entry, for each of the five outcomes; a header that fails leaves the binary buffer and count as they were |
| Checksum.CalculateChecksum | CameraServerTest/MDBT53/src/main.c:384-391 | the loop returns the XOR fold of `data[0..len)` |
| Checksum.XorFoldAppend | CameraServerTest/MDBT53/src/main.c:384-391 | the checksum of a concatenation is the XOR of the parts' checksums |
| Checksum.SingleByteErrorDetected | CameraServerTest/MDBT53/src/main.c:384-391 | changing any one byte changes the checksum |
| Checksum.SwappedBlocksUndetected | CameraServerTest/MDBT53/src/main.c:384-391 | swapping two blocks leaves the checksum unchanged |
| Bytes.CStringSpec | CameraServerTest/MDBT53/src/main.c:235 | the C string of a buffer is its NUL-free prefix, ended by the first NUL or the buffer's end |
| Bytes.FindFromSpec | CameraServerTest/MDBT53/src/main.c:235-237 | the search returns the first occurrence at or after the start, and none only when there is none |
| Bytes.ScanDecimal | CameraServerTest/MDBT53/src/main.c:240 | a decimal number followed by a non-digit reads back as itself |
| Bytes.HexByteRoundTrip | CameraServerTest/MDBT53/src/main.c:299 | two upper-case hex digits of a byte read back with "%02hhX" as that byte, whatever follows |
| Bytes.ScanInt | CameraServerTest/MDBT53/src/main.c:184 | sscanf "%d": white space, an optional sign, then digits; none when no digit follows; `Bytes.ScanDecimal` and `Bytes.ScanPrinted` state its round trips |
| Bytes.Atoi | CameraServerTest/MDBT53/src/main.c:240 | atoi: the number "%d" reads, or 0 when there is none |
| Bytes.ScanHexByte | CameraServerTest/MDBT53/src/main.c:299 | sscanf "%02hhX": white space, then at most two characters, an optional sign and hex digits of either case; starting at a hex digit it reads one or two digits |
| Bytes.Print04 | CameraServerTest/MDBT53/src/main.c:347 | printf "%04d": a minus sign for a negative value, then digits zero-padded to a width of at least four |
| Bytes.ToU32 | CameraServerTest/MDBT53/src/main.c:240 | storing an int in the 32-bit size_t keeps non-negative values below 2^32 and adds 2^32 to small negative ones |
| Controller.CameraController.ScanPhotoDirectory | CameraServerTest/MDBT53/src/main.c:178-192 | when the directory opens, the counter ends as `Storage.Recover` of the numbers in the listing up to its end; otherwise it is unchanged |
| Storage.PhotoName | CameraServerTest/MDBT53/src/main.c:347 | the entry name of photo n: "photo_", n printed with "%04d" as an int, ".jpg"; `Storage.PhotoNumberOfName` and `Storage.PhotoNameInjective` state its round trip |
| Storage.PhotoPath | CameraServerTest/MDBT53/src/main.c:347 | the path photo n is opened under: "/SD:/" and its entry name |
| Storage.PhotoNumber | CameraServerTest/MDBT53/src/main.c:182-184 | an entry's number: it must contain "photo_", and sscanf with "photo_%d.jpg" must convert a number after a leading "photo_"; `Storage.PhotoNumberOf` states it |
| Storage.PhotoNumberOf | CameraServerTest/MDBT53/src/main.c:182-184 | an entry "photo_" + tail yields the number "%d" reads from the tail |
| Storage.PhotoNumberOfName | CameraServerTest/MDBT53/src/main.c:184 | the number read back from a saved photo's name is the counter it was saved under, as printed by "%d", and it converts back to that counter |
| Storage.PhotoNameInjective | CameraServerTest/MDBT53/src/main.c:347 | distinct counters give distinct names |
| Storage.NumbersAt | CameraServerTest/MDBT53/src/main.c:181 | the scan sees exactly the entries before the first empty name, each with its own number |
| Storage.CounterStep | CameraServerTest/MDBT53/src/main.c:185-187 | one entry: a number that, as uint32_t, is at or above the counter moves the counter to that number plus one |
| Storage.Recover | CameraServerTest/MDBT53/src/main.c:181-190 | the counter after the scan has seen the listed numbers in order; `Storage.RecoverIsAbove`, `Storage.RecoverIsReached` and `Storage.RecoverIsMax` state its value |
| Storage.RecoverStep | CameraServerTest/MDBT53/src/main.c:181-190 | each entry is one counter step followed by the rest of the listing |
| Storage.RecoverIsAbove | CameraServerTest/MDBT53/src/main.c:185-187 | with ordinary numbers, the recovered counter exceeds every number seen and never falls below its start |
| Storage.RecoverIsReached | CameraServerTest/MDBT53/src/main.c:185-187 | the recovered counter is its start or one past a number seen; for ordinary numbers `Storage.RecoverIsMax` and `Storage.RecoverWithoutNumbers` draw the boot-time value from it |
| Storage.RecoverIsMax | CameraServerTest/MDBT53/src/main.c:181-187 | when every listed number is ordinary (0..INT_MAX-1), the counter recovered from 0 is the largest listed number plus one |
| Storage.RecoverWithoutNumbers | CameraServerTest/MDBT53/src/main.c:181-187 | with no number listed, the counter recovered from 0 stays 0 |
| Storage.RecoveredPastSaved | CameraServerTest/MDBT53/src/main.c:181-187 | after a restart, a listed photo `n` makes the recovered counter exceed `n` |
| Storage.NegativeNameResetsCounter | CameraServerTest/MDBT53/src/main.c:185-186 | the uint32_t comparison lets the name printed for 0xFFFFFFFF send the counter back to 0 |
| Storage.ListedPhotoStep | CameraServerTest/MDBT53/src/main.c:185-186 | scanning the name of photo n moves a counter at or below n to n+1 modulo 2^32, and leaves a larger one alone |
| Storage.Save | CameraServerTest/MDBT53/src/main.c:339-379 | save_jpeg_to_sd on the completion flag, the received bytes and the counter: -ENODATA, the fs_open error, or the chunked write to "/SD:/photo_%04d.jpg" and the counter moved on when it succeeds; `Storage.SaveRules` states it |
| Controller.CameraController.SaveJpegToSd | CameraServerTest/MDBT53/src/main.c:339-379 | return code, card and counter are those of `Storage.Save` on the completion flag, the received bytes and the counter |
| Controller.WriteChunks | CameraServerTest/MDBT53/src/main.c:358-371 | the write loop's error and the file's new content are those of `Storage.WriteFrom`: the written bytes over the old content |
| Storage.WriteFrom | CameraServerTest/MDBT53/src/main.c:362-371 | the loop ends with no error exactly when every byte is written, and any error it reports is negative |
| Storage.ChunksCover | CameraServerTest/MDBT53/src/main.c:362-364 | there is a write call exactly when bytes are left; the first starts where the loop stands; each asks for min(4096, bytes left) |
| Storage.ChunksTile | CameraServerTest/MDBT53/src/main.c:362-370 | each call starts where the previous call's written bytes end |
| Storage.ChunksEnd | CameraServerTest/MDBT53/src/main.c:362-371 | on success the last call's bytes end at the image's end |
| Storage.ChunksFail | CameraServerTest/MDBT53/src/main.c:364-369 | on failure the last call is the one whose negative reply stopped the loop, at the count reached |
| Storage.WriteNextChunk | CameraServerTest/MDBT53/src/main.c:364-370 | writing the next chunk at the written count extends the overlay by exactly that chunk |
| Storage.SaveRules | CameraServerTest/MDBT53/src/main.c:339-379 | the counter moves on by one exactly when the save succeeds; -ENODATA exactly when nothing complete is there, and then the card is unchanged; on success the photo's file holds the whole image over what it held before; a failed write leaves a prefix of the image there; every failure leaves every other file alone |
| Storage.SavedPhotoIsPayload | CameraServerTest/MDBT53/src/main.c:352-377 | a successful save under a new name stores exactly the received bytes |
| Controller.CameraController.CaptureAndSave | CameraServerTest/MDBT53/src/main.c:396-422 | a cycle that fails to receive returns that code and leaves the card and counter alone; otherwise it returns what the save returns, with its card and counter; the controller ends out of binary mode, complete exactly when the image was received, with the buffer, expected length and text that `Framing.Receive` gives, and a header failure leaves the binary bytes as they were with the count 0 |
| Scenarios.HeaderLineAnnounces | CameraServerTest/MDBT53/src/main.c:235-240 | a header line "IMG:<n>\n" on its own announces `n` |
| Scenarios.HeaderAccepted | CameraServerTest/MDBT53/src/main.c:235-252 | a header line for a length in 1..512 KiB arriving before the first poll is accepted at that poll |
| Scenarios.ErrorLineRefused | CameraServerTest/MDBT53/src/main.c:256-260 | an "ERR:" line whose reason holds no NUL and no "I" makes receive_jpeg return -EIO with the line as the text |
| Scenarios.ErrorThenHeaderPolled | CameraServerTest/MDBT53/src/main.c:235-257 | "ERR:" followed by a header line polls as the header: the header is checked first |
| Scenarios.HeaderBeatsError | CameraServerTest/MDBT53/src/main.c:235-257 | "ERR:" followed by a header line in the first batch still has the header accepted at the first poll |
| Scenarios.BadLengthRejected | CameraServerTest/MDBT53/src/main.c:243-246 | a header for length 0, or for one above 512 KiB but below 2^32, gives -EINVAL |
| Scenarios.SilentCameraTimesOut | CameraServerTest/MDBT53/src/main.c:230-266 | a camera that never answers gives -ETIMEDOUT on the header wait |
| Scenarios.MarkerFoundFromTwoBefore | CameraServerTest/MDBT53/src/main.c:287-293 | a scan that starts two bytes before a marker finds that marker |
| Scenarios.FrameTrailer | CameraServerTest/MDBT53/src/main.c:284-311 | a framed image is always cut at its own marker, whatever its bytes; its verdict compares the declared checksum with the image's own |
| Scenarios.FramedTransferReceived | CameraServerTest/MDBT53/src/main.c:222-311 | header then framed image: the image is taken in with its declared length and bytes; it is verified exactly when the trailer's checksum matches, and otherwise still accepted with a mismatch |
| Scenarios.ShortTransferTimesOut | CameraServerTest/MDBT53/src/main.c:268-334 | a camera that sends fewer bytes than it announced gives -ETIMEDOUT, with those bytes in the buffer |

## Left out

- `CameraServerTest/Raspberry/rpi_server.py` is not part of this model. It is the receiving server: HTTP, network upload, a thread, the clock and file-existence checks.
- `init_uart`, `uart_send` (the bytes of "CAP\n"), disk and mount bring-up, the button handler, the 60 s main loop and every `LOG_*` call are left out. So is the progress percentage at main.c:322-328, which only logs. These are driver calls, I/O and observability.
- The interrupt handler runs only between polls, on a whole batch. The model does not cover a byte arriving in the middle of a poll's checks, or the mode flag changing while the handler runs. The driver calls `uart_irq_update`, `uart_irq_is_pending` and `uart_fifo_read` are modelled as the batch's byte sequence.
- Sleeping is not modelled. `k_msleep(10)` is one batch of arrivals, and `k_msleep(100)` is one more batch.
- `fs_readdir` failing is modelled as the end of the `entries` oracle: both end the scan.
- `fs_closedir` and `fs_close` results are ignored, as the firmware ignores them.
- Bytes.Atoi: a decimal number outside `int` is read at full precision and then reduced modulo 2^32 when stored as `size_t`. For the C library this is undefined behaviour.
- Storage.PhotoNumber: `sscanf("%d")` on an entry name reads through the same `Bytes.ScanInt`, so a number outside `int` is read at full precision, which is undefined behaviour in C. `num + 1` at `INT_MAX` (main.c:186) also overflows in C; `Storage.CounterStep` computes it at full precision and then reduces it modulo 2^32.
- Bytes.ScanHexByte: `sscanf("%02hhX")` is modelled for white space, a sign and one or two hex digits. A "0x" prefix is not modelled, and neither is reading past the end of the array.
- Storage.WrittenBy: a reply larger than the request is clamped to the request. The firmware adds such a reply unclamped (`written += result`).
- Storage.Reply: once the oracle's replies run out, every further write completes. A file system that returns 0 forever would make the firmware's loop spin forever, and that is not modelled.
- Controller.CameraController.FindTrailer scans a copy of the received bytes taken on entry. Controller.WriteChunks writes from a copy of the received bytes. This is equivalent here because nothing else changes the buffer meanwhile.
- Controller.CameraController.WaitForPayload does not state that the text buffer is left alone during the image wait.
- The card is a map from path to content. Directory entries are whatever the `entries` oracle lists; they are not derived from the map.
