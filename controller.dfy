/** The controller firmware's state and the steps of one capture cycle. The fields are the
    globals of main.c:55-75; the methods are uart_isr, request_capture, receive_jpeg (as its
    two waiting loops and its trailer check), the directory scan of init_sd_card,
    save_jpeg_to_sd, calculate_checksum (module Checksum) and capture_and_save. Every 10 ms
    sleep lets the interrupt handler run on one batch of arrived bytes; fs_opendir,
    fs_readdir, fs_open and fs_write are oracles; the card is a value passed in and out. */
module Controller {
  import opened Bytes
  import opened Errno
  import opened Checksum
  import opened Framing
  import opened Storage

  class CameraController {
    /** uart_rx_buf and uart_rx_len: the NUL-terminated text buffer. */
    const rxBuf: array<byte>
    var rxLen: nat
    /** jpeg_buffer and jpeg_len: the binary buffer and the count of bytes received. */
    const jpegBuf: array<byte>
    var jpegLen: nat
    /** file_counter: the number the next photo is saved under. */
    var fileCounter: u32
    /** receiving_jpeg, jpeg_complete, expected_jpeg_len. */
    var receivingJpeg: bool
    var jpegComplete: bool
    var expectedJpegLen: nat

    ghost predicate Valid()
      reads this
    {
      && rxBuf.Length == UART_BUF_SIZE
      && jpegBuf.Length == JPEG_MAX_SIZE
      && rxLen < UART_BUF_SIZE
      && jpegLen <= JPEG_MAX_SIZE
    }

    /** Every byte from the text count on is NUL, so the C string functions see exactly the
        received text. */
    ghost predicate Terminated()
      requires Valid()
      reads this, rxBuf
    {
      forall i :: rxLen <= i < rxBuf.Length ==> rxBuf[i] == NUL
    }

    /** The text received so far. */
    ghost function Text(): seq<byte>
      requires Valid()
      reads this, rxBuf
    {
      rxBuf[..rxLen]
    }

    /** The binary buffer as the specification sees it. */
    ghost function Buffer(): (b: Binary)
      requires Valid()
      reads this, jpegBuf
      ensures WellFormed(b)
    {
      Binary(jpegBuf[..], jpegLen)
    }

    /** Power-on state: static storage is zero. */
    constructor ()
      ensures Valid() && Terminated()
      ensures rxLen == 0 && jpegLen == 0 && fileCounter == 0
      ensures !receivingJpeg && !jpegComplete && expectedJpegLen == 0
      ensures fresh(rxBuf) && fresh(jpegBuf)
      ensures rxBuf[..] == seq(UART_BUF_SIZE, _ => NUL) && jpegBuf[..] == seq(JPEG_MAX_SIZE, _ => NUL)
    {
      rxBuf := new byte[UART_BUF_SIZE](_ => NUL);
      jpegBuf := new byte[JPEG_MAX_SIZE](_ => NUL);
      rxLen := 0;
      jpegLen := 0;
      fileCounter := 0;
      receivingJpeg := false;
      jpegComplete := false;
      expectedJpegLen := 0;
    }

    // -------------------------------------------------------------------------
    // uart_isr

    /** One byte read from the receive FIFO: into the binary buffer while an image is being
        received, into the text buffer (followed by a NUL) otherwise; dropped when the
        buffer is full. */
    method OnByte(c: byte)
      requires Valid()
      modifies rxBuf, jpegBuf, this`rxLen, this`jpegLen
      ensures Valid()
      ensures receivingJpeg ==>
        && Buffer() == Put(old(Buffer()), c)
        && rxLen == old(rxLen) && rxBuf[..] == old(rxBuf[..])
      ensures !receivingJpeg ==>
        && jpegLen == old(jpegLen) && jpegBuf[..] == old(jpegBuf[..])
        && rxLen == (if old(rxLen) < UART_BUF_SIZE - 1 then old(rxLen) + 1 else old(rxLen))
        && rxBuf[..] == (if old(rxLen) < UART_BUF_SIZE - 1
                         then old(rxBuf[..])[old(rxLen) := c][old(rxLen) + 1 := NUL]
                         else old(rxBuf[..]))
        && Text() == PutText(old(Text()), c)
      ensures !receivingJpeg && old(Terminated()) ==> Terminated()
    {
      if receivingJpeg {
        if jpegLen < JPEG_MAX_SIZE {
          jpegBuf[jpegLen] := c;
          jpegLen := jpegLen + 1;
        }
      } else {
        if rxLen < UART_BUF_SIZE - 1 {
          rxBuf[rxLen] := c;
          rxLen := rxLen + 1;
          rxBuf[rxLen] := NUL;
        }
      }
    }

    /** uart_isr on the bytes that arrived while the controller slept. */
    method UartIsr(batch: seq<byte>)
      requires Valid()
      modifies rxBuf, jpegBuf, this`rxLen, this`jpegLen
      ensures Valid()
      ensures receivingJpeg ==>
        && Buffer() == Absorb(old(Buffer()), batch)
        && rxLen == old(rxLen) && rxBuf[..] == old(rxBuf[..])
      ensures !receivingJpeg ==>
        && jpegLen == old(jpegLen) && jpegBuf[..] == old(jpegBuf[..])
        && Text() == Fill(old(Text()), batch)
      ensures !receivingJpeg && old(Terminated()) ==> Terminated()
    {
      var i := 0;
      while i < |batch|
        invariant 0 <= i <= |batch|
        invariant Valid()
        invariant receivingJpeg ==>
          && Buffer() == Absorb(old(Buffer()), batch[..i])
          && rxLen == old(rxLen) && rxBuf[..] == old(rxBuf[..])
        invariant !receivingJpeg ==>
          && jpegLen == old(jpegLen) && jpegBuf[..] == old(jpegBuf[..])
          && Text() == Fill(old(Text()), batch[..i])
        invariant !receivingJpeg && old(Terminated()) ==> Terminated()
      {
        assert batch[..i + 1][..i] == batch[..i];
        OnByte(batch[i]);
        i := i + 1;
      }
      assert batch[..i] == batch;
    }

    // -------------------------------------------------------------------------
    // request_capture

    /** Clears both buffers and the flags; sending "CAP\n" is not modelled. It always
        succeeds. */
    method RequestCapture() returns (status: Status)
      requires Valid()
      modifies this, rxBuf
      ensures Valid() && Terminated()
      ensures status == Ok
      ensures rxLen == 0 && rxBuf[..] == seq(UART_BUF_SIZE, _ => NUL) && Text() == []
      ensures jpegLen == 0 && !receivingJpeg && !jpegComplete && expectedJpegLen == 0
      ensures fileCounter == old(fileCounter)
    {
      rxLen := 0;
      forall i | 0 <= i < rxBuf.Length {
        rxBuf[i] := NUL;
      }
      jpegLen := 0;
      receivingJpeg := false;
      jpegComplete := false;
      expectedJpegLen := 0;
      status := Ok;
    }

    // -------------------------------------------------------------------------
    // receive_jpeg

    /** The state in which the header wait ends with `o`, when it started with
        `expected0` as the announced length and `len0` as the binary count. */
    ghost predicate EndedAs(o: HeaderOutcome, status: Status, expected0: nat, len0: nat)
      requires Valid()
      reads this, rxBuf
    {
      match o
      case Accepted(n, _) =>
        status == Ok && receivingJpeg && expectedJpegLen == n && jpegLen == 0 && rxLen == 0
      case Rejected(n, t) =>
        status == EInval && !receivingJpeg && expectedJpegLen == n && Text() == t && jpegLen == len0
      case Refused(t) =>
        status == EIo && !receivingJpeg && expectedJpegLen == expected0 && Text() == t && jpegLen == len0
      case HeaderTimeout(t) =>
        status == ETimedOut && !receivingJpeg && expectedJpegLen == expected0 && Text() == t && jpegLen == len0
    }

    /** The first loop of receive_jpeg: poll the text buffer every 10 ms for 30 s for a
        header line or an error line. `polls` is the number of polls made. */
    method WaitForHeader(arrivals: seq<seq<byte>>) returns (status: Status, polls: nat)
      requires Valid() && Terminated() && !receivingJpeg
      modifies rxBuf, jpegBuf, this`rxLen, this`jpegLen, this`receivingJpeg, this`expectedJpegLen
      ensures Valid() && jpegBuf[..] == old(jpegBuf[..])
      ensures var o := HeaderWait(old(Text()), arrivals, 0);
        && EndedAs(o, status, old(expectedJpegLen), old(jpegLen))
        && (o.Accepted? ==> polls == o.polls)
    {
      ghost var outcome := HeaderWait(Text(), arrivals, 0);
      var elapsed := 0;
      var k := 0;
      while elapsed < RECEIVE_TIMEOUT_MS
        invariant Valid() && Terminated() && !receivingJpeg
        invariant 0 <= k <= POLLS && elapsed == k * POLL_INTERVAL_MS
        invariant HeaderWait(Text(), arrivals, k) == outcome
        invariant jpegBuf[..] == old(jpegBuf[..]) && jpegLen == old(jpegLen)
        invariant expectedJpegLen == old(expectedJpegLen)
        decreases RECEIVE_TIMEOUT_MS - elapsed
      {
        ghost var step := HeaderPoll(Text(), Batch(arrivals, k), k);
        assert HeaderWait(Text(), arrivals, k) == if step.Waiting? then HeaderWait(step.text, arrivals, k + 1) else step.outcome;
        var done;
        status, done := PollForHeader(Batch(arrivals, k), k);
        elapsed := elapsed + POLL_INTERVAL_MS;
        k := k + 1;
        if done {
          if status != Ok {
            return status, k;
          }
          break;
        }
      }
      if !receivingJpeg {
        return ETimedOut, k;
      }
      return Ok, k;
    }

    /** One pass of the first loop of receive_jpeg: the interrupt handler takes in `batch`
        while the controller sleeps, then the text buffer is polled; a header switches to
        binary mode. `done` says the loop is left. */
    method PollForHeader(batch: seq<byte>, k: nat) returns (status: Status, done: bool)
      requires Valid() && Terminated() && !receivingJpeg
      modifies rxBuf, jpegBuf, this`rxLen, this`jpegLen, this`receivingJpeg, this`expectedJpegLen
      ensures Valid() && jpegBuf[..] == old(jpegBuf[..])
      ensures match HeaderPoll(old(Text()), batch, k)
        case Waiting(t) =>
          && !done && Terminated() && !receivingJpeg && Text() == t
          && expectedJpegLen == old(expectedJpegLen) && jpegLen == old(jpegLen)
        case Done(o) => done && EndedAs(o, status, old(expectedJpegLen), old(jpegLen))
    {
      UartIsr(batch);
      var poll := ParseHeader();
      if poll.Header? {
        expectedJpegLen := ToU32(poll.declared);
        if expectedJpegLen == 0 || expectedJpegLen > JPEG_MAX_SIZE {
          return EInval, true;
        }
        receivingJpeg := true;
        jpegLen := 0;
        rxLen := 0;
        return Ok, true;
      }
      if poll.RemoteError? {
        return EIo, true;
      }
      return Ok, false;
    }

    /** One poll of the text buffer in receive_jpeg: strstr for "IMG:", strchr for the
        newline after it and atoi of what follows the marker; failing that, strstr for
        "ERR:". */
    method ParseHeader() returns (poll: Poll)
      requires Valid() && Terminated()
      ensures poll == PollText(Text())
    {
      CStringTerminated(rxBuf[..], rxLen);
      assert rxBuf[..][..rxLen] == Text();
      var text := CString(rxBuf[..]);
      var img := Find(text, IMG_MARKER);
      if img.Some? && Find(text[img.value..], [LF]).Some? {
        return Header(Atoi(text[img.value + |IMG_MARKER|..]));
      }
      if Find(text, ERR_MARKER).Some? {
        return RemoteError;
      }
      return Pending;
    }

    /** The state in which the wait for the image bytes ends with `o`: the status, the
        verdict, the completion flag `complete` (which was `complete0` before) and the binary
        buffer `buffer`. */
    static ghost predicate PayloadEndedAs(o: PayloadOutcome, status: Status, verdict: Option<Verdict>,
                                          complete0: bool, complete: bool, buffer: Binary)
    {
      match o
      case Arrived(b) =>
        WellFormed(b) && status == Ok && complete && buffer == Binary(b.mem, Finish(b).len)
        && verdict == Some(Finish(b).verdict)
      case PayloadTimeout(b) =>
        status == ETimedOut && complete == complete0 && buffer == b && verdict.None?
    }

    /** The second loop of receive_jpeg: poll the binary count every 10 ms for 30 s; once
        the declared length has arrived, wait 100 ms more and check the trailer. Poll `k`
        of this loop sees batch `start + k`. The verdict is what the firmware only logs. */
    method WaitForPayload(arrivals: seq<seq<byte>>, start: nat) returns (status: Status, verdict: Option<Verdict>)
      requires Valid() && receivingJpeg
      modifies rxBuf, jpegBuf, this`rxLen, this`jpegLen, this`receivingJpeg, this`jpegComplete
      ensures Valid() && !receivingJpeg
      ensures PayloadEndedAs(PayloadWait(old(Buffer()), expectedJpegLen, arrivals, start, 0), status, verdict,
                             old(jpegComplete), jpegComplete, Buffer())
    {
      ghost var outcome := PayloadWait(Buffer(), expectedJpegLen, arrivals, start, 0);
      var elapsed := 0;
      var k := 0;
      while elapsed < RECEIVE_TIMEOUT_MS
        invariant Valid() && receivingJpeg && jpegComplete == old(jpegComplete)
        invariant 0 <= k <= POLLS && elapsed == k * POLL_INTERVAL_MS
        invariant PayloadWait(Buffer(), expectedJpegLen, arrivals, start, k) == outcome
        decreases RECEIVE_TIMEOUT_MS - elapsed
      {
        var done, v := PollForPayload(arrivals, start, k);
        elapsed := elapsed + POLL_INTERVAL_MS;
        if done {
          return Ok, Some(v);
        }
        k := k + 1;
      }
      receivingJpeg := false;
      return ETimedOut, None;
    }

    /** Pass `k` of the second loop of receive_jpeg: the interrupt handler takes in batch
        `start + k` while the controller sleeps; once the declared length has arrived, the
        next batch comes in during the 100 ms wait, binary mode ends, the trailer is checked
        and the image is marked complete whatever the verdict. `done` says the loop is left;
        otherwise the rest of the wait goes on from the new buffer. */
    method PollForPayload(arrivals: seq<seq<byte>>, start: nat, k: nat) returns (done: bool, verdict: Verdict)
      requires Valid() && receivingJpeg && k < POLLS
      modifies rxBuf, jpegBuf, this`rxLen, this`jpegLen, this`receivingJpeg, this`jpegComplete
      ensures Valid()
      ensures done ==> !receivingJpeg
      ensures done ==> PayloadEndedAs(PayloadWait(old(Buffer()), expectedJpegLen, arrivals, start, k), Ok,
                                      Some(verdict), old(jpegComplete), jpegComplete, Buffer())
      ensures !done ==> receivingJpeg && jpegComplete == old(jpegComplete)
      ensures !done ==> PayloadWait(Buffer(), expectedJpegLen, arrivals, start, k + 1)
                        == PayloadWait(old(Buffer()), expectedJpegLen, arrivals, start, k)
    {
      UartIsr(Batch(arrivals, start + k));
      done := false;
      verdict := MarkerMissing;
      if jpegLen >= expectedJpegLen {
        UartIsr(Batch(arrivals, start + k + 1));
        receivingJpeg := false;
        verdict := CheckTrailer();
        jpegComplete := true;
        done := true;
      }
    }

    /** The trailer scan of receive_jpeg: look for "\nEND:" starting in the last 10
        received bytes and ending within them. */
    method FindTrailer() returns (marker: Option<nat>)
      requires Valid()
      ensures marker == TrailerAt(Buffer())
    {
      marker := None;
      if jpegLen > TRAILER_WINDOW {
        var received := jpegBuf[..jpegLen];
        assert jpegBuf[..][..jpegLen] == received;
        var n := jpegLen;
        var i: nat := n - TRAILER_WINDOW;
        while i < n - 4
          invariant n - TRAILER_WINDOW <= i <= n - 4
          invariant FindFrom(received, END_MARKER, i) == FindFrom(received, END_MARKER, n - TRAILER_WINDOW)
          decreases n - 4 - i
        {
          if received[i..i + |END_MARKER|] == END_MARKER {
            return Some(i);
          }
          FindFromSkip(received, END_MARKER, i);
          i := i + 1;
        }
      }
    }

    /** The end of receive_jpeg: cut the count back to the marker, if any, and compare the
        checksum after it with the checksum of the bytes kept. */
    method CheckTrailer() returns (verdict: Verdict)
      requires Valid()
      modifies this`jpegLen
      ensures Valid()
      ensures Finish(old(Buffer())) == Finished(jpegLen, verdict)
    {
      var marker := FindTrailer();
      verdict := MarkerMissing;
      if marker.Some? {
        jpegLen := marker.value;
        var declared := ScanHexByte(jpegBuf[jpegLen + |END_MARKER|..]);
        assert jpegBuf[..][jpegLen + |END_MARKER|..] == jpegBuf[jpegLen + |END_MARKER|..];
        if declared.Some? {
          var computed := CalculateChecksum(jpegBuf, jpegLen);
          assert jpegBuf[..][..jpegLen] == jpegBuf[..jpegLen];
          verdict := if computed == declared.value then ChecksumOk
                     else ChecksumMismatch(declared.value, computed);
        } else {
          verdict := ChecksumUnreadable;
        }
      }
    }

    /** receive_jpeg: the header wait, then the wait for the image bytes. */
    method ReceiveJpeg(arrivals: seq<seq<byte>>) returns (status: Status, verdict: Option<Verdict>)
      requires Valid() && Terminated() && !receivingJpeg
      modifies rxBuf, jpegBuf, this`rxLen, this`jpegLen, this`receivingJpeg, this`expectedJpegLen,
               this`jpegComplete
      ensures Valid() && !receivingJpeg
      ensures var r := Receive(old(Text()), old(jpegBuf[..]), arrivals);
        && status == StatusOf(r)
        && (r.Received? ==>
              jpegComplete && Buffer() == r.buffer && verdict == Some(r.verdict) && expectedJpegLen == r.declared)
        && (!r.Received? ==> jpegComplete == old(jpegComplete) && verdict.None?)
        && (r.InvalidHeader? ==> expectedJpegLen == r.declared && Text() == r.text)
        && (r.RemoteFailure? ==> Text() == r.text)
        && (r.HeaderTimedOut? ==> Text() == r.text)
        && (r.PayloadTimedOut? ==> Buffer() == r.buffer && expectedJpegLen == r.declared)
        && (r.InvalidHeader? || r.RemoteFailure? || r.HeaderTimedOut? ==>
              jpegBuf[..] == old(jpegBuf[..]) && jpegLen == old(jpegLen))
        && (r.RemoteFailure? || r.HeaderTimedOut? ==> expectedJpegLen == old(expectedJpegLen))
    {
      var polls;
      status, polls := WaitForHeader(arrivals);
      if status != Ok {
        return status, None;
      }
      status, verdict := WaitForPayload(arrivals, polls);
    }

    // -------------------------------------------------------------------------
    // init_sd_card (directory scan)

    /** The directory scan of init_sd_card: when the mount point opens (`openResult` is 0),
        read entries until the listing ends, and move the counter past every photo number
        found. */
    method ScanPhotoDirectory(openResult: int, entries: seq<seq<byte>>)
      modifies this`fileCounter
      ensures fileCounter == if openResult == 0 then Recover(old(fileCounter), Numbers(entries)) else old(fileCounter)
    {
      if openResult == 0 {
        var i := 0;
        while i < |entries| && !EndOfListing(entries[i])
          invariant 0 <= i <= |entries|
          invariant Recover(fileCounter, Numbers(entries[i..])) == Recover(old(fileCounter), Numbers(entries))
        {
          RecoverStep(fileCounter, entries, i);
          var num := PhotoNumber(entries[i]);
          if num.Some? && ToU32(num.value) >= fileCounter {
            fileCounter := ToU32(num.value + 1);
          }
          i := i + 1;
        }
      }
    }

    // -------------------------------------------------------------------------
    // save_jpeg_to_sd

    /** save_jpeg_to_sd: write the received bytes to "/SD:/photo_%04d.jpg" in chunks of at
        most 4096 bytes; the counter moves on only when every byte is written. */
    method SaveJpegToSd(files: Files, openResult: int, writes: seq<int>) returns (status: Status, files': Files)
      requires Valid()
      modifies this`fileCounter
      ensures var o := Save(jpegComplete, jpegBuf[..jpegLen], old(fileCounter), files, openResult, writes);
        status == o.status && files' == o.files && fileCounter == o.counter
    {
      var payload := jpegBuf[..jpegLen];
      if !jpegComplete || |payload| == 0 {
        return ENoData, files;
      }
      var path := PhotoPath(fileCounter);
      if openResult != 0 {
        return FsError(openResult), files;
      }
      var existing := if path in files then files[path] else [];
      var error, content := WriteChunks(existing, payload, writes);
      files' := files[path := content];
      if error.Some? {
        return FsError(error.value), files';
      }
      fileCounter := ToU32(fileCounter + 1);
      return Ok, files';
    }

    // -------------------------------------------------------------------------
    // capture_and_save

    /** One capture cycle: request, receive, save; the first failure is returned. */
    method CaptureAndSave(arrivals: seq<seq<byte>>, files: Files, openResult: int, writes: seq<int>)
      returns (status: Status, files': Files)
      requires Valid()
      modifies this, rxBuf, jpegBuf
      ensures Valid() && !receivingJpeg
      ensures var r := Receive([], old(jpegBuf[..]), arrivals);
        && (!r.Received? ==> status == StatusOf(r) && files' == files && fileCounter == old(fileCounter))
        && (r.Received? ==>
              var o := Save(true, r.buffer.mem[..r.buffer.len], old(fileCounter), files, openResult, writes);
              status == o.status && files' == o.files && fileCounter == o.counter)
        && (jpegComplete <==> r.Received?)
        && (r.Received? || r.PayloadTimedOut? ==> Buffer() == r.buffer && expectedJpegLen == r.declared)
        && (r.InvalidHeader? ==> expectedJpegLen == r.declared && Text() == r.text)
        && (r.RemoteFailure? || r.HeaderTimedOut? ==> expectedJpegLen == 0 && Text() == r.text)
        && (r.InvalidHeader? || r.RemoteFailure? || r.HeaderTimedOut? ==>
              jpegBuf[..] == old(jpegBuf[..]) && jpegLen == 0)
    {
      status := RequestCapture();
      var verdict;
      status, verdict := ReceiveJpeg(arrivals);
      if status != Ok {
        return status, files;
      }
      status, files' := SaveJpegToSd(files, openResult, writes);
    }
  }

  /** The write loop of save_jpeg_to_sd on the opened file, which held `existing`: fs_write
      the received bytes from offset 0 in chunks of at most 4096 bytes until all are written
      or a call fails. The file then holds the bytes written over what it held before. */
  method WriteChunks(existing: seq<byte>, payload: seq<byte>, writes: seq<int>)
    returns (error: Option<int>, content: seq<byte>)
    ensures var t := WriteFrom(|payload|, writes, 0, 0);
      error == t.error && content == Overlay(existing, payload[..t.written])
  {
    ghost var t := WriteFrom(|payload|, writes, 0, 0);
    content := existing;
    assert payload[..0] == [] && content == Overlay(existing, payload[..0]);
    var written: nat := 0;
    var j: nat := 0;
    while written < |payload|
      invariant written <= |payload|
      invariant WriteFrom(|payload|, writes, j, written).written == t.written
      invariant WriteFrom(|payload|, writes, j, written).error == t.error
      invariant content == Overlay(existing, payload[..written])
      decreases if j < |writes| then |writes| - j else 0, |payload| - written
    {
      var toWrite := Min(CHUNK_SIZE, |payload| - written);
      var result := Reply(writes, j, toWrite);
      j := j + 1;
      if result < 0 {
        return Some(result), content;
      }
      var n := WrittenBy(result, toWrite);
      WriteFromStep(|payload|, writes, j - 1, written);
      WriteNextChunk(existing, payload, written, n);
      content := WriteAt(content, written, payload[written..written + n]);
      written := written + n;
    }
    assert WriteFrom(|payload|, writes, j, written) == Transfer(|payload|, None, []);
    return None, content;
  }
}
