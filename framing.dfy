/** The serial framing protocol between controller and camera, as pure functions of the
    bytes that arrive: a text line `IMG:<decimal length>\n` (or `ERR:<reason>`), then the
    image bytes followed by `\nEND:<2 hex digits>\n`. The controller polls every 10 ms;
    `arrivals[k]` is the batch of bytes the interrupt handler receives while the controller
    sleeps before its k-th poll of the cycle (counting across both waits). */
module Framing {
  import opened Bytes
  import opened Errno
  import opened Checksum

  const UART_BUF_SIZE: nat := 2048
  const JPEG_MAX_SIZE: nat := 524288  // 512 * 1024
  const POLL_INTERVAL_MS: nat := 10
  const RECEIVE_TIMEOUT_MS: nat := 30000
  /** The number of polls a 30 s wait makes. */
  const POLLS: nat := 3000  // RECEIVE_TIMEOUT_MS / POLL_INTERVAL_MS
  /** The trailer is searched for in the last 10 received bytes. */
  const TRAILER_WINDOW: nat := 10

  const IMG_MARKER: seq<byte> := [0x49, 0x4D, 0x47, 0x3A]       // "IMG:"
  const ERR_MARKER: seq<byte> := [0x45, 0x52, 0x52, 0x3A]       // "ERR:"
  const END_MARKER: seq<byte> := [0x0A, 0x45, 0x4E, 0x44, 0x3A] // "\nEND:"

  /** The bytes that arrive before poll `k`; none once the camera has gone quiet. */
  function Batch(arrivals: seq<seq<byte>>, k: nat): seq<byte> {
    if k < |arrivals| then arrivals[k] else []
  }

  // ---------------------------------------------------------------------------
  // Byte classification (uart_isr)

  /** Text mode: a byte is appended while there is room for it and its NUL terminator;
      otherwise it is dropped. */
  function PutText(text: seq<byte>, c: byte): seq<byte> {
    if |text| < UART_BUF_SIZE - 1 then text + [c] else text
  }

  /** Text mode, a whole batch, byte by byte. */
  function Fill(text: seq<byte>, batch: seq<byte>): seq<byte> {
    if |batch| == 0 then text
    else PutText(Fill(text, batch[..|batch| - 1]), batch[|batch| - 1])
  }

  /** What byte-by-byte text appends amount to: the batch is appended and everything past
      the capacity of UART_BUF_SIZE - 1 bytes is cut off. */
  lemma {:induction false} FillIsCappedAppend(text: seq<byte>, batch: seq<byte>)
    requires |text| <= UART_BUF_SIZE - 1
    ensures Fill(text, batch) == Take(text + batch, UART_BUF_SIZE - 1)
  {
    if |batch| > 0 {
      var init := batch[..|batch| - 1];
      FillIsCappedAppend(text, init);
      assert text + batch == (text + init) + [batch[|batch| - 1]];
    } else {
      assert text + batch == text;
    }
  }

  /** The binary buffer: all JPEG_MAX_SIZE bytes of it (bytes past `len` are left over from
      earlier cycles) and the count of bytes received. */
  datatype Binary = Binary(mem: seq<byte>, len: nat)

  predicate WellFormed(b: Binary) {
    |b.mem| == JPEG_MAX_SIZE && b.len <= JPEG_MAX_SIZE
  }

  /** Binary mode: a byte is stored while the buffer has room; otherwise it is dropped. */
  function Put(b: Binary, c: byte): (r: Binary)
    requires WellFormed(b)
    ensures WellFormed(r)
  {
    if b.len < JPEG_MAX_SIZE then Binary(b.mem[b.len := c], b.len + 1) else b
  }

  /** Binary mode, a whole batch, byte by byte. */
  function Absorb(b: Binary, batch: seq<byte>): (r: Binary)
    requires WellFormed(b)
    ensures WellFormed(r) && r.len >= b.len
  {
    if |batch| == 0 then b
    else Put(Absorb(b, batch[..|batch| - 1]), batch[|batch| - 1])
  }

  /** What byte-by-byte binary appends amount to: the count grows by the batch's length up
      to the capacity, the batch's bytes land right after the old count, in order, as far as
      they fit, and every other byte of the buffer is untouched. */
  lemma {:induction false} AbsorbIsCappedAppend(b: Binary, batch: seq<byte>)
    requires WellFormed(b)
    ensures var r := Absorb(b, batch);
      && r.len == (if b.len + |batch| < JPEG_MAX_SIZE then b.len + |batch| else JPEG_MAX_SIZE)
      && forall i :: 0 <= i < JPEG_MAX_SIZE ==>
           r.mem[i] == if b.len <= i < r.len then batch[i - b.len] else b.mem[i]
  {
    if |batch| > 0 {
      var init := batch[..|batch| - 1];
      AbsorbIsCappedAppend(b, init);
    }
  }

  // ---------------------------------------------------------------------------
  // Waiting for the header (receive_jpeg, first loop)

  /** What one poll of the text buffer finds; the length is what atoi returns. */
  datatype Poll = Pending | Header(declared: int) | RemoteError

  /** One poll: the first "IMG:" with a newline after it announces the length atoi reads
      after the marker; otherwise any "ERR:" is a remote error. Both searches see the buffer
      as a C string. */
  function PollText(text: seq<byte>): Poll {
    var c := CString(text);
    var img := Find(c, IMG_MARKER);
    if img.Some? && Find(c[img.value..], [LF]).Some? then
      Header(Atoi(c[img.value + |IMG_MARKER|..]))
    else if Find(c, ERR_MARKER).Some? then RemoteError
    else Pending
  }

  /** Some "IMG:" in `c` has a newline at or after it. */
  ghost predicate HasHeaderLine(c: seq<byte>) {
    exists i: nat, j: nat :: i <= j < |c| && OccursAt(c, IMG_MARKER, i) && c[j] == LF
  }

  /** `pat` occurs in `c`. */
  ghost predicate Contains(c: seq<byte>, pat: seq<byte>) {
    exists i: nat :: OccursAt(c, pat, i)
  }

  /** `pat` occurs at `i` and nowhere before it. */
  ghost predicate FirstAt(c: seq<byte>, pat: seq<byte>, i: nat) {
    OccursAt(c, pat, i) && forall j: nat :: j < i ==> !OccursAt(c, pat, j)
  }

  /** What a poll finds, stated on the C string of the buffer: a header exactly when some
      "IMG:" has a newline after it, and then the length is atoi of what follows the first
      "IMG:"; failing that, a remote error exactly when "ERR:" occurs; otherwise nothing. */
  lemma PollTextSpec(text: seq<byte>)
    ensures var c := CString(text);
      var p := PollText(text);
      && (p.Header? <==> HasHeaderLine(c))
      && (p.Header? ==> exists i: nat :: FirstAt(c, IMG_MARKER, i) && p.declared == Atoi(c[i + |IMG_MARKER|..]))
      && (p.RemoteError? <==> !HasHeaderLine(c) && Contains(c, ERR_MARKER))
      && (p.Pending? <==> !HasHeaderLine(c) && !Contains(c, ERR_MARKER))
  {
    var c := CString(text);
    var img := Find(c, IMG_MARKER);
    FindFromSpec(c, IMG_MARKER, 0);
    FindFromSpec(c, ERR_MARKER, 0);
    if img.Some? {
      var i := img.value;
      assert FirstAt(c, IMG_MARKER, i);
      var nl := Find(c[i..], [LF]);
      FindFromSpec(c[i..], [LF], 0);
      if nl.Some? {
        assert c[i + nl.value] == c[i..][nl.value..nl.value + 1][0];
        assert HasHeaderLine(c);
      } else if HasHeaderLine(c) {
        var i': nat, j: nat :| i' <= j < |c| && OccursAt(c, IMG_MARKER, i') && c[j] == LF;
        assert i <= i';
        assert c[i..][j - i..j - i + 1] == [LF];
        assert OccursAt(c[i..], [LF], j - i);
        assert false;
      }
    } else {
      assert !HasHeaderLine(c);
    }
  }

  /** How the wait for the header ends. `text` is the content of the text buffer at that
      point; `declared` is the announced length as stored in the size_t variable. */
  datatype HeaderOutcome =
    | Accepted(declared: nat, polls: nat)   // switched to binary mode after `polls` polls
    | Rejected(declared: nat, text: seq<byte>)
    | Refused(text: seq<byte>)
    | HeaderTimeout(text: seq<byte>)

  /** What one poll of the header wait leads to: another poll with the buffer as it now
      is, or the end of the wait. */
  datatype HeaderStep = Waiting(text: seq<byte>) | Done(outcome: HeaderOutcome)

  /** Poll `k` of the header wait: the bytes of `batch` reach the text buffer, then the
      buffer is polled. A header's length goes through the size_t variable and must be
      between 1 and JPEG_MAX_SIZE. */
  function HeaderPoll(text: seq<byte>, batch: seq<byte>, k: nat): (r: HeaderStep)
    ensures r.Done? ==> !r.outcome.HeaderTimeout?
    ensures r.Done? && r.outcome.Accepted? ==> 0 < r.outcome.declared <= JPEG_MAX_SIZE && r.outcome.polls == k + 1
    ensures r.Done? && r.outcome.Rejected? ==> r.outcome.declared == 0 || r.outcome.declared > JPEG_MAX_SIZE
  {
    var t := Fill(text, batch);
    match PollText(t)
    case Header(n) =>
      var size := ToU32(n);
      Done(if size == 0 || size > JPEG_MAX_SIZE then Rejected(size, t) else Accepted(size, k + 1))
    case RemoteError => Done(Refused(t))
    case Pending => Waiting(t)
  }

  /** The wait for the header from poll `k` on, with `text` in the text buffer. */
  function HeaderWait(text: seq<byte>, arrivals: seq<seq<byte>>, k: nat): (r: HeaderOutcome)
    decreases POLLS - k
    ensures r.Accepted? ==> 0 < r.declared <= JPEG_MAX_SIZE && k < r.polls <= POLLS
    ensures r.Rejected? ==> r.declared == 0 || r.declared > JPEG_MAX_SIZE
  {
    if k >= POLLS then HeaderTimeout(text)
    else
      match HeaderPoll(text, Batch(arrivals, k), k)
      case Waiting(t) => HeaderWait(t, arrivals, k + 1)
      case Done(o) => o
  }

  /** The text buffer after polls `0..k` (its content at poll `k`, for k >= 1). */
  function TextAfter(text0: seq<byte>, arrivals: seq<seq<byte>>, k: nat): seq<byte> {
    if k == 0 then text0 else Fill(TextAfter(text0, arrivals, k - 1), Batch(arrivals, k - 1))
  }

  /** The text after one more poll. */
  lemma TextAfterStep(text0: seq<byte>, arrivals: seq<seq<byte>>, k: nat)
    ensures TextAfter(text0, arrivals, k + 1) == Fill(TextAfter(text0, arrivals, k), Batch(arrivals, k))
  {
  }

  /** No poll after poll `k` sees a header line or an error line. */
  predicate AllPending(text0: seq<byte>, arrivals: seq<seq<byte>>, k: nat) {
    forall j :: k < j <= POLLS ==> PollText(TextAfter(text0, arrivals, j)).Pending?
  }

  /** A wait that times out saw neither a header line nor an error line at any poll. */
  lemma {:induction false} TimeoutMeansAllPending(text0: seq<byte>, arrivals: seq<seq<byte>>, k: nat)
    requires k <= POLLS
    requires HeaderWait(TextAfter(text0, arrivals, k), arrivals, k).HeaderTimeout?
    ensures AllPending(text0, arrivals, k)
    decreases POLLS - k
  {
    if k < POLLS {
      TextAfterStep(text0, arrivals, k);
      TimeoutMeansAllPending(text0, arrivals, k + 1);
    }
  }

  /** A wait whose every poll sees neither a header line nor an error line times out. */
  lemma {:induction false} AllPendingMeansTimeout(text0: seq<byte>, arrivals: seq<seq<byte>>, k: nat)
    requires k <= POLLS
    requires AllPending(text0, arrivals, k)
    ensures HeaderWait(TextAfter(text0, arrivals, k), arrivals, k).HeaderTimeout?
    decreases POLLS - k
  {
    if k < POLLS {
      TextAfterStep(text0, arrivals, k);
      AllPendingMeansTimeout(text0, arrivals, k + 1);
    }
  }

  /** The wait times out exactly when no poll finds a header line or an error line. */
  lemma HeaderTimeoutIff(text0: seq<byte>, arrivals: seq<seq<byte>>)
    ensures HeaderWait(text0, arrivals, 0).HeaderTimeout? <==> AllPending(text0, arrivals, 0)
  {
    assert TextAfter(text0, arrivals, 0) == text0;
    if HeaderWait(text0, arrivals, 0).HeaderTimeout? {
      TimeoutMeansAllPending(text0, arrivals, 0);
    } else if AllPending(text0, arrivals, 0) {
      AllPendingMeansTimeout(text0, arrivals, 0);
    }
  }

  /** Poll `p` sees a header line whose length, stored in the size_t variable, is `n`. */
  predicate Announces(text0: seq<byte>, arrivals: seq<seq<byte>>, p: nat, n: nat) {
    var poll := PollText(TextAfter(text0, arrivals, p));
    poll.Header? && ToU32(poll.declared) == n
  }

  /** A header accepted after `p` polls was announced at poll `p`. */
  lemma {:induction false} AcceptedWasAnnounced(text0: seq<byte>, arrivals: seq<seq<byte>>, k: nat)
    requires k <= POLLS
    ensures var r := HeaderWait(TextAfter(text0, arrivals, k), arrivals, k);
      r.Accepted? ==> Announces(text0, arrivals, r.polls, r.declared)
    decreases POLLS - k
  {
    if k < POLLS {
      TextAfterStep(text0, arrivals, k);
      AcceptedWasAnnounced(text0, arrivals, k + 1);
    }
  }

  /** Every poll before the one that accepted a header saw neither a header line nor an
      error line. */
  lemma {:induction false} AcceptedAtFirstHeader(text0: seq<byte>, arrivals: seq<seq<byte>>, k: nat)
    requires k <= POLLS
    ensures var r := HeaderWait(TextAfter(text0, arrivals, k), arrivals, k);
      r.Accepted? ==> forall j :: k < j < r.polls ==> PollText(TextAfter(text0, arrivals, j)).Pending?
    decreases POLLS - k
  {
    if k < POLLS {
      TextAfterStep(text0, arrivals, k);
      AcceptedAtFirstHeader(text0, arrivals, k + 1);
    }
  }

  /** Poll `p` is the first poll after poll `k` that sees an answer: every poll between
      them saw neither a header line nor an error line. */
  predicate FirstAnswerAt(text0: seq<byte>, arrivals: seq<seq<byte>>, k: nat, p: nat) {
    k < p <= POLLS && forall j :: k < j < p ==> PollText(TextAfter(text0, arrivals, j)).Pending?
  }

  /** A wait that ends in -EIO ended at the first answer, and that answer was an error line
      with no header line before it in the buffer; the text it reports is the text polled. */
  lemma {:induction false} RefusedWasError(text0: seq<byte>, arrivals: seq<seq<byte>>, k: nat)
    requires k <= POLLS
    ensures var r := HeaderWait(TextAfter(text0, arrivals, k), arrivals, k);
      r.Refused? ==> exists p :: FirstAnswerAt(text0, arrivals, k, p)
                       && TextAfter(text0, arrivals, p) == r.text && PollText(r.text).RemoteError?
    decreases POLLS - k
  {
    if k < POLLS {
      TextAfterStep(text0, arrivals, k);
      RefusedWasError(text0, arrivals, k + 1);
      var r := HeaderWait(TextAfter(text0, arrivals, k), arrivals, k);
      if r.Refused? {
        if PollText(TextAfter(text0, arrivals, k + 1)).Pending? {
          var p :| FirstAnswerAt(text0, arrivals, k + 1, p)
                   && TextAfter(text0, arrivals, p) == r.text && PollText(r.text).RemoteError?;
          assert FirstAnswerAt(text0, arrivals, k, p);
        } else {
          assert FirstAnswerAt(text0, arrivals, k, k + 1);
        }
      }
    }
  }

  /** A wait that ends in -EINVAL ended at the first answer, a header line whose length,
      stored in the size_t variable, is the rejected one. */
  lemma {:induction false} RejectedWasAnnounced(text0: seq<byte>, arrivals: seq<seq<byte>>, k: nat)
    requires k <= POLLS
    ensures var r := HeaderWait(TextAfter(text0, arrivals, k), arrivals, k);
      r.Rejected? ==> exists p :: FirstAnswerAt(text0, arrivals, k, p)
                        && TextAfter(text0, arrivals, p) == r.text && Announces(text0, arrivals, p, r.declared)
    decreases POLLS - k
  {
    if k < POLLS {
      TextAfterStep(text0, arrivals, k);
      RejectedWasAnnounced(text0, arrivals, k + 1);
      var r := HeaderWait(TextAfter(text0, arrivals, k), arrivals, k);
      if r.Rejected? {
        if PollText(TextAfter(text0, arrivals, k + 1)).Pending? {
          var p :| FirstAnswerAt(text0, arrivals, k + 1, p)
                   && TextAfter(text0, arrivals, p) == r.text && Announces(text0, arrivals, p, r.declared);
          assert FirstAnswerAt(text0, arrivals, k, p);
        } else {
          assert FirstAnswerAt(text0, arrivals, k, k + 1);
        }
      }
    }
  }

  // ---------------------------------------------------------------------------
  // Waiting for the image bytes (receive_jpeg, second loop)

  /** How the wait for the image bytes ends: with the buffer as it is when the trailer scan
      starts (after the extra 100 ms of arrivals), or as it is when 30 s have passed. */
  datatype PayloadOutcome = Arrived(buffer: Binary) | PayloadTimeout(buffer: Binary)

  /** What one poll of the wait for the image bytes leads to: another poll with the buffer
      as it now is, or the trailer check on the buffer as the extra wait leaves it. */
  datatype PayloadStep = Polling(buffer: Binary) | Complete(buffer: Binary)

  /** One poll of the wait for `expected` image bytes: `batch` arrives during the 10 ms
      sleep; once the count has reached `expected`, `extra` arrives during the 100 ms
      sleep. */
  function PayloadPoll(b: Binary, expected: nat, batch: seq<byte>, extra: seq<byte>): (r: PayloadStep)
    requires WellFormed(b)
    ensures WellFormed(r.buffer)
    ensures r.Polling? ==> r.buffer.len < expected
    ensures r.Complete? ==> r.buffer.len >= expected
  {
    var polled := Absorb(b, batch);
    if polled.len >= expected then Complete(Absorb(polled, extra)) else Polling(polled)
  }

  /** The wait for `expected` image bytes from poll `k` of this wait on; poll `k` reads batch
      `start + k`, and the extra wait after the threshold reads one more batch. */
  function PayloadWait(b: Binary, expected: nat, arrivals: seq<seq<byte>>, start: nat, k: nat)
    : (r: PayloadOutcome)
    requires WellFormed(b)
    decreases POLLS - k
    ensures WellFormed(r.buffer)
    ensures r.Arrived? ==> r.buffer.len >= expected
    ensures r.PayloadTimeout? ==> r.buffer.len < expected || POLLS <= k
  {
    if k >= POLLS then PayloadTimeout(b)
    else
      match PayloadPoll(b, expected, Batch(arrivals, start + k), Batch(arrivals, start + k + 1))
      case Polling(b') => PayloadWait(b', expected, arrivals, start, k + 1)
      case Complete(b') => Arrived(b')
  }

  /** The binary buffer after polls `0..k` of the wait for the image bytes. */
  function BufferAfter(b0: Binary, arrivals: seq<seq<byte>>, start: nat, k: nat): (r: Binary)
    requires WellFormed(b0)
    ensures WellFormed(r)
  {
    if k == 0 then b0
    else Absorb(BufferAfter(b0, arrivals, start, k - 1), Batch(arrivals, start + k - 1))
  }

  /** The wait for the image bytes times out exactly when the count stays below the declared
      length at every poll. */
  lemma {:induction false} PayloadTimeoutIff(b0: Binary, expected: nat, arrivals: seq<seq<byte>>,
                                             start: nat, k: nat)
    requires WellFormed(b0) && k <= POLLS
    ensures PayloadWait(BufferAfter(b0, arrivals, start, k), expected, arrivals, start, k).PayloadTimeout?
        <==> forall j :: k < j <= POLLS ==> BufferAfter(b0, arrivals, start, j).len < expected
    decreases POLLS - k
  {
    if k < POLLS {
      PayloadTimeoutIff(b0, expected, arrivals, start, k + 1);
    }
  }

  // ---------------------------------------------------------------------------
  // Trailer and checksum

  /** What the trailer check reports; every one of them is accepted. */
  datatype Verdict =
    | ChecksumOk
    | ChecksumMismatch(declared: byte, computed: byte)
    | ChecksumUnreadable   // marker found, but no hex digit after it
    | MarkerMissing        // no marker in the last 10 bytes, or 10 bytes or fewer received

  datatype Finished = Finished(len: nat, verdict: Verdict)

  /** Where the trailer scan finds "\nEND:": the first occurrence that starts in the last
      10 received bytes and ends within them; none when 10 bytes or fewer were received. */
  function TrailerAt(b: Binary): (r: Option<nat>)
    requires WellFormed(b)
    ensures r.Some? ==>
      && TRAILER_WINDOW < b.len
      && b.len - TRAILER_WINDOW <= r.value <= b.len - |END_MARKER|
      && b.mem[r.value..r.value + |END_MARKER|] == END_MARKER
  {
    if b.len > TRAILER_WINDOW then
      var m := FindFrom(b.mem[..b.len], END_MARKER, b.len - TRAILER_WINDOW);
      if m.Some? then
        FindFromSpec(b.mem[..b.len], END_MARKER, b.len - TRAILER_WINDOW);
        assert m.value + |END_MARKER| <= b.len;
        assert b.mem[..b.len][m.value..m.value + |END_MARKER|] == b.mem[m.value..m.value + |END_MARKER|];
        m
      else m
    else None
  }

  /** The scan finds the first marker in the window, and reports none only when there is
      none in the window. */
  lemma TrailerIsFirstMarker(b: Binary)
    requires WellFormed(b) && b.len > TRAILER_WINDOW
    ensures TrailerAt(b).Some? ==>
      forall j: nat :: b.len - TRAILER_WINDOW <= j < TrailerAt(b).value ==> !OccursAt(b.mem[..b.len], END_MARKER, j)
    ensures TrailerAt(b).None? ==>
      forall j: nat :: b.len - TRAILER_WINDOW <= j ==> !OccursAt(b.mem[..b.len], END_MARKER, j)
  {
    FindFromSpec(b.mem[..b.len], END_MARKER, b.len - TRAILER_WINDOW);
  }

  /** The checksum check for a marker at `i`: sscanf "%02hhX" on the bytes after the marker
      (read from the buffer, even past the received count), compared with the XOR of the
      bytes before the marker. */
  function Judge(mem: seq<byte>, i: nat): Verdict
    requires i + |END_MARKER| <= |mem|
  {
    match ScanHexByte(mem[i + |END_MARKER|..])
    case Some(declared) =>
      var computed := XorFold(mem[..i]);
      if computed == declared then ChecksumOk else ChecksumMismatch(declared, computed)
    case None => ChecksumUnreadable
  }

  /** The trailer scan and checksum check on the received bytes: a marker found cuts the
      length back to where it starts. */
  function Finish(b: Binary): (r: Finished)
    requires WellFormed(b)
    ensures r.len <= b.len
  {
    match TrailerAt(b)
    case Some(i) => Finished(i, Judge(b.mem, i))
    case None => Finished(b.len, MarkerMissing)
  }

  /** The verdicts: a missing marker keeps every received byte; otherwise the length is cut
      to the marker, and the checksum is good exactly when the declared byte is readable and
      equals the XOR of the kept bytes. */
  lemma FinishVerdict(b: Binary)
    requires WellFormed(b)
    ensures var r := Finish(b);
      var declared := if r.len + |END_MARKER| <= |b.mem| then ScanHexByte(b.mem[r.len + |END_MARKER|..]) else None;
      && (r.verdict == MarkerMissing <==> TrailerAt(b).None?)
      && (r.verdict == MarkerMissing ==> r.len == b.len)
      && (r.verdict != MarkerMissing ==> TrailerAt(b) == Some(r.len))
      && (r.verdict == ChecksumOk <==>
            r.verdict != MarkerMissing && declared.Some? && declared.value == XorFold(b.mem[..r.len]))
      && (r.verdict == ChecksumUnreadable <==> r.verdict != MarkerMissing && declared.None?)
  {
  }

  // ---------------------------------------------------------------------------
  // A whole reception (receive_jpeg)

  /** How receive_jpeg ends. `Received` carries the buffer with its final (possibly
      truncated) length. */
  datatype Reception =
    | Received(declared: nat, buffer: Binary, verdict: Verdict)
    | InvalidHeader(declared: nat, text: seq<byte>)
    | RemoteFailure(text: seq<byte>)
    | HeaderTimedOut(text: seq<byte>)
    | PayloadTimedOut(declared: nat, buffer: Binary)

  /** receive_jpeg from text buffer contents `text0` and binary buffer memory `mem0`. */
  function Receive(text0: seq<byte>, mem0: seq<byte>, arrivals: seq<seq<byte>>): (r: Reception)
    requires |mem0| == JPEG_MAX_SIZE
    ensures r.Received? ==> WellFormed(r.buffer) && 0 < r.declared <= JPEG_MAX_SIZE
    ensures r.PayloadTimedOut? ==> WellFormed(r.buffer) && r.buffer.len < r.declared
  {
    match HeaderWait(text0, arrivals, 0)
    case Accepted(n, polls) =>
      (match PayloadWait(Binary(mem0, 0), n, arrivals, polls, 0)
       case Arrived(b) =>
         var f := Finish(b);
         Received(n, Binary(b.mem, f.len), f.verdict)
       case PayloadTimeout(b) => PayloadTimedOut(n, b))
    case Rejected(n, t) => InvalidHeader(n, t)
    case Refused(t) => RemoteFailure(t)
    case HeaderTimeout(t) => HeaderTimedOut(t)
  }

  /** The code receive_jpeg returns. */
  function StatusOf(r: Reception): Status {
    match r
    case Received(_, _, _) => Ok
    case InvalidHeader(_, _) => EInval
    case RemoteFailure(_) => EIo
    case HeaderTimedOut(_) => ETimedOut
    case PayloadTimedOut(_, _) => ETimedOut
  }

  /** Lenient acceptance: once the declared number of bytes has arrived, the reception
      succeeds whatever the trailer check says, and it never hands on an empty image (so
      the -ENODATA guard of the save step is never hit after a successful reception). */
  lemma ReceivedIsNonEmpty(text0: seq<byte>, mem0: seq<byte>, arrivals: seq<seq<byte>>)
    requires |mem0| == JPEG_MAX_SIZE
    ensures var r := Receive(text0, mem0, arrivals);
      && (StatusOf(r) == Ok <==> r.Received?)
      && (r.Received? ==> r.buffer.len > 0)
      && (r.Received? && r.verdict == MarkerMissing ==> r.buffer.len >= r.declared)
  {
  }
}
