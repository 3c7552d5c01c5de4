/** Whole receptions: what receive_jpeg makes of the byte streams a camera sends, from the
    header line to the trailer, for a well-framed image, a bad length, an error line (alone
    and before a header), a short image and a camera that never answers. */
module Scenarios {
  import opened Bytes
  import opened Checksum
  import opened Framing

  /** The header line a camera sends before an image of `n` bytes: "IMG:<n>\n". */
  function HeaderLine(n: nat): seq<byte> {
    IMG_MARKER + Decimal(n) + [LF]
  }

  /** An image as the camera frames it: the bytes, "\nEND:", the checksum as two upper-case
      hex digits, and a newline. */
  function Frame(payload: seq<byte>, declared: byte): seq<byte> {
    payload + END_MARKER + HexByte(declared) + [LF]
  }

  /** A header line holds no NUL, so the C string functions see all of it. */
  lemma HeaderLineNulFree(n: nat)
    ensures NulFree(HeaderLine(n))
  {
    var line := HeaderLine(n);
    var digits := Decimal(n);
    forall i | 0 <= i < |line| ensures line[i] != NUL {
      if 4 <= i < 4 + |digits| {
        assert line[i] == digits[i - 4];
      }
    }
  }

  /** A header line polled on its own announces the length written in it. */
  lemma HeaderLineAnnounces(n: nat)
    ensures PollText(HeaderLine(n)) == Header(n)
  {
    var line := HeaderLine(n);
    assert line == IMG_MARKER + (Decimal(n) + [LF]);
    HeaderLineNulFree(n);
    CStringAppend(line, []);
    assert line + [] == line;
    assert OccursAt(line, IMG_MARKER, 0);
    FindFromAt(line, IMG_MARKER, 0, 0);
    assert line[0..] == line;
    assert OccursAt(line, [LF], |line| - 1);
    FindFromSpec(line, [LF], 0);
    assert line[|IMG_MARKER|..] == Decimal(n) + [LF];
    ScanDecimal(n, [LF]);
  }

  /** A header line for any 32-bit length fits the text buffer. */
  lemma HeaderLineFits(n: nat)
    requires n < U32_MOD
    ensures Fill([], HeaderLine(n)) == HeaderLine(n)
  {
    assert Pow10(10) == 10_000_000_000;
    DecimalLength(n, 10);
    FillIsCappedAppend([], HeaderLine(n));
    assert [] + HeaderLine(n) == HeaderLine(n);
  }

  /** An empty binary buffer holds what one batch brings, as far as it fits. */
  lemma AbsorbedIntoEmpty(mem0: seq<byte>, batch: seq<byte>)
    requires |mem0| == JPEG_MAX_SIZE && |batch| <= JPEG_MAX_SIZE
    ensures var b := Absorb(Binary(mem0, 0), batch);
      b.len == |batch| && b.mem[..|batch|] == batch
  {
    AbsorbIsCappedAppend(Binary(mem0, 0), batch);
  }

  /** The bytes of a frame from the end of the image on: the marker, then the two hex
      digits. */
  lemma FrameBytes(payload: seq<byte>, declared: byte)
    ensures var f := Frame(payload, declared);
      var n := |payload|;
      && |f| == n + 8 && f[..n] == payload
      && f[n..n + 5] == END_MARKER && f[n + 5..n + 7] == HexByte(declared)
  {
    var f := Frame(payload, declared);
    assert f == payload + (END_MARKER + HexByte(declared) + [LF]);
  }

  /** A scan that starts two bytes before a marker finds that marker: no marker can start
      at either of those two bytes, since the one at the marker's start is a newline and
      "\nEND:" has none after its first byte. */
  lemma MarkerFoundFromTwoBefore(s: seq<byte>, n: nat)
    requires 2 <= n && n + |END_MARKER| <= |s| && s[n..n + |END_MARKER|] == END_MARKER
    ensures FindFrom(s, END_MARKER, n - 2) == Some(n)
  {
    assert s[n] == LF by {
      assert s[n..n + 5][0] == s[n];
    }
    assert s[n - 2..n + 3][2] == s[n] && END_MARKER[2] != LF;
    assert s[n - 1..n + 4][1] == s[n] && END_MARKER[1] != LF;
    FindFromAt(s, END_MARKER, n - 2, n);
  }

  /** In a buffer holding an image of `n` bytes and its trailer, the trailer scan stops at
      the image's end, whatever the image bytes are. */
  lemma FrameMarkerFound(mem: seq<byte>, n: nat)
    requires |mem| == JPEG_MAX_SIZE && 2 < n && n + 8 <= JPEG_MAX_SIZE
    requires mem[n..n + |END_MARKER|] == END_MARKER
    ensures TrailerAt(Binary(mem, n + 8)) == Some(n)
  {
    var s := mem[..n + 8];
    assert s[n..n + 5] == mem[n..n + 5];
    MarkerFoundFromTwoBefore(s, n);
  }

  /** The checksum check of a marker followed by the two hex digits of `declared`
      compares `declared` with the XOR of the image bytes. */
  lemma FrameJudged(mem: seq<byte>, payload: seq<byte>, declared: byte)
    requires |payload| + 7 <= |mem| && mem[..|payload|] == payload
    requires mem[|payload| + 5..|payload| + 7] == HexByte(declared)
    ensures Judge(mem, |payload|)
         == if declared == XorFold(payload) then ChecksumOk else ChecksumMismatch(declared, XorFold(payload))
  {
    var n := |payload|;
    var hex := mem[n + 5..n + 7];
    assert mem[n + 5..][0] == hex[0] && mem[n + 5..][1] == hex[1];
    HexByteRead(mem[n + 5..], declared);
  }

  /** The trailer of a framed image is always found at the image's end, whatever the image
      bytes are, and the verdict compares the declared checksum with the image's own. */
  lemma FrameTrailer(mem: seq<byte>, payload: seq<byte>, declared: byte)
    requires |mem| == JPEG_MAX_SIZE && 2 < |payload| && |payload| + 8 <= JPEG_MAX_SIZE
    requires mem[..|payload|] == payload && mem[|payload|..|payload| + 5] == END_MARKER
    requires mem[|payload| + 5..|payload| + 7] == HexByte(declared)
    ensures Finish(Binary(mem, |payload| + 8))
         == Finished(|payload|, if declared == XorFold(payload) then ChecksumOk
                                else ChecksumMismatch(declared, XorFold(payload)))
  {
    FrameMarkerFound(mem, |payload|);
    FrameJudged(mem, payload, declared);
  }

  /** A header line for a length the buffer can hold, arriving before the first poll, is
      accepted at that poll. */
  lemma HeaderAccepted(n: nat, arrivals: seq<seq<byte>>)
    requires 0 < n <= JPEG_MAX_SIZE && |arrivals| > 0 && arrivals[0] == HeaderLine(n)
    ensures HeaderWait([], arrivals, 0) == Accepted(n, 1)
  {
    HeaderLineFits(n);
    HeaderLineAnnounces(n);
  }

  /** A buffer that starts with a frame holds the image, the marker and the hex digits at
      their places. */
  lemma FrameInBuffer(mem: seq<byte>, payload: seq<byte>, declared: byte)
    requires |payload| + 8 <= |mem| && mem[..|payload| + 8] == Frame(payload, declared)
    ensures var n := |payload|;
      && mem[..n] == payload && mem[n..n + 5] == END_MARKER && mem[n + 5..n + 7] == HexByte(declared)
  {
    var n := |payload|;
    var m := mem[..n + 8];
    FrameBytes(payload, declared);
    assert forall i :: 0 <= i < n + 8 ==> mem[i] == m[i];
    assert mem[..n] == m[..n];
    assert mem[n..n + 5] == m[n..n + 5];
    assert mem[n + 5..n + 7] == m[n + 5..n + 7];
  }

  /** A framed image arriving in one batch right after the header line completes the wait
      for the image bytes at its first poll, with the frame at the start of the buffer. */
  lemma FrameArrives(mem0: seq<byte>, payload: seq<byte>, declared: byte)
    requires |mem0| == JPEG_MAX_SIZE && 2 < |payload| && |payload| + 8 <= JPEG_MAX_SIZE
    ensures var n := |payload|;
      var o := PayloadWait(Binary(mem0, 0), n, [HeaderLine(n), Frame(payload, declared)], 1, 0);
      && o.Arrived? && o.buffer.len == n + 8
      && o.buffer.mem[..n] == payload && o.buffer.mem[n..n + 5] == END_MARKER
      && o.buffer.mem[n + 5..n + 7] == HexByte(declared)
  {
    var n := |payload|;
    var frame := Frame(payload, declared);
    var arrivals := [HeaderLine(n), frame];
    var polled := Absorb(Binary(mem0, 0), frame);
    FrameBytes(payload, declared);
    AbsorbedIntoEmpty(mem0, frame);
    FrameInBuffer(polled.mem, payload, declared);
    assert Batch(arrivals, 2) == [];
  }

  /** A camera that sends the header line and then the framed image gets the image taken
      in: the length is cut back to the image, the image bytes are in the buffer, and the
      verdict is the checksum comparison. */
  lemma FramedTransferReceived(mem0: seq<byte>, payload: seq<byte>, declared: byte)
    requires |mem0| == JPEG_MAX_SIZE && 2 < |payload| && |payload| + 8 <= JPEG_MAX_SIZE
    ensures var r := Receive([], mem0, [HeaderLine(|payload|), Frame(payload, declared)]);
      && r.Received? && r.declared == |payload|
      && r.buffer.len == |payload| && r.buffer.mem[..|payload|] == payload
      && r.verdict == if declared == XorFold(payload) then ChecksumOk
                      else ChecksumMismatch(declared, XorFold(payload))
  {
    var n := |payload|;
    var arrivals := [HeaderLine(n), Frame(payload, declared)];
    HeaderAccepted(n, arrivals);
    FrameArrives(mem0, payload, declared);
    var o := PayloadWait(Binary(mem0, 0), n, arrivals, 1, 0);
    FrameTrailer(o.buffer.mem, payload, declared);
  }

  /** A camera that announces a length of 0, or one larger than the buffer but below
      2^32, has its header refused with the text buffer as it was polled. */
  lemma BadLengthRejected(mem0: seq<byte>, n: nat)
    requires |mem0| == JPEG_MAX_SIZE
    requires n == 0 || JPEG_MAX_SIZE < n < U32_MOD
    ensures Receive([], mem0, [HeaderLine(n)]) == InvalidHeader(n, HeaderLine(n))
  {
    HeaderLineFits(n);
    HeaderLineAnnounces(n);
    assert HeaderPoll([], HeaderLine(n), 0) == Done(Rejected(n, HeaderLine(n)));
  }

  /** A line short enough for the text buffer fills an empty one unchanged. */
  lemma ShortLineFits(line: seq<byte>)
    requires |line| < UART_BUF_SIZE
    ensures Fill([], line) == line
  {
    FillIsCappedAppend([], line);
    assert [] + line == line;
  }

  /** "ERR:" and a reason with no NUL and no "I" polls as a remote error. */
  lemma ErrorLinePolled(reason: seq<byte>)
    requires forall i :: 0 <= i < |reason| ==> reason[i] != NUL && reason[i] != IMG_MARKER[0]
    ensures PollText(ERR_MARKER + reason) == RemoteError
  {
    var line := ERR_MARKER + reason;
    assert forall i :: 4 <= i < |line| ==> line[i] == reason[i - 4];
    assert NulFree(line);
    CStringAppend(line, []);
    assert line + [] == line;
    forall i: nat | i + 4 <= |line| ensures !OccursAt(line, IMG_MARKER, i) {
      assert line[i..i + 4][0] == line[i];
    }
    FindFromSpec(line, IMG_MARKER, 0);
    assert line[..4] == ERR_MARKER;
    FindFromAt(line, ERR_MARKER, 0, 0);
  }

  /** A camera that answers with an error line ("ERR:" and a reason holding no NUL and no
      "I", so no "IMG:") makes receive_jpeg return -EIO with the line in the text buffer. */
  lemma ErrorLineRefused(mem0: seq<byte>, reason: seq<byte>)
    requires |mem0| == JPEG_MAX_SIZE && |reason| < 2000
    requires forall i :: 0 <= i < |reason| ==> reason[i] != NUL && reason[i] != IMG_MARKER[0]
    ensures Receive([], mem0, [ERR_MARKER + reason]) == RemoteFailure(ERR_MARKER + reason)
  {
    ErrorLinePolled(reason);
    ShortLineFits(ERR_MARKER + reason);
  }

  /** In "ERR:" followed by a header line, the C string is the whole line and the first
      "IMG:" is the header's. */
  lemma ErrorThenHeaderFound(n: nat)
    ensures CString(ERR_MARKER + HeaderLine(n)) == ERR_MARKER + HeaderLine(n)
    ensures Find(ERR_MARKER + HeaderLine(n), IMG_MARKER) == Some(|ERR_MARKER|)
  {
    var h := HeaderLine(n);
    var line := ERR_MARKER + h;
    HeaderLineNulFree(n);
    assert NulFree(ERR_MARKER);
    NulFreeAppend(ERR_MARKER, h);
    CStringAppend(line, []);
    assert line + [] == line;
    assert line[4..8] == IMG_MARKER;
    forall j: nat | j < 4 ensures !OccursAt(line, IMG_MARKER, j) {
      assert line[j..j + 4][0] == line[j] == ERR_MARKER[j];
    }
    FindFromAt(line, IMG_MARKER, 0, 4);
  }

  /** "ERR:" followed by a header line polls as that header: the header is checked first. */
  lemma ErrorThenHeaderPolled(n: nat)
    ensures PollText(ERR_MARKER + HeaderLine(n)) == Header(n)
  {
    var h := HeaderLine(n);
    var line := ERR_MARKER + h;
    ErrorThenHeaderFound(n);
    assert line[4..] == h;
    assert OccursAt(h, [LF], |h| - 1);
    FindFromSpec(h, [LF], 0);
    assert line[8..] == Decimal(n) + [LF];
    ScanDecimal(n, [LF]);
  }

  /** A complete header line takes priority over an "ERR:" polled with it: the header is
      accepted. */
  lemma HeaderBeatsError(n: nat)
    requires 0 < n <= JPEG_MAX_SIZE
    ensures HeaderWait([], [ERR_MARKER + HeaderLine(n)], 0) == Accepted(n, 1)
  {
    ErrorThenHeaderPolled(n);
    assert Pow10(6) == 1_000_000;
    DecimalLength(n, 6);
    ShortLineFits(ERR_MARKER + HeaderLine(n));
  }

  /** With nothing arriving, the text buffer stays as it is and the header wait runs out. */
  lemma {:induction false} QuietHeaderWait(text: seq<byte>, k: nat)
    requires PollText(text).Pending?
    ensures HeaderWait(text, [], k) == HeaderTimeout(text)
    decreases POLLS - k
  {
    if k < POLLS {
      assert Fill(text, Batch([], k)) == text;
      QuietHeaderWait(text, k + 1);
    }
  }

  /** A camera that never answers leaves receive_jpeg timing out on the header. */
  lemma SilentCameraTimesOut(mem0: seq<byte>)
    requires |mem0| == JPEG_MAX_SIZE
    ensures Receive([], mem0, []) == HeaderTimedOut([])
  {
    assert CString([]) == [];
    assert PollText([]).Pending?;
    QuietHeaderWait([], 0);
  }

  /** With nothing more arriving, the count stays below the declared length and the wait
      for the image bytes runs out. */
  lemma {:induction false} QuietPayloadWait(b: Binary, expected: nat, arrivals: seq<seq<byte>>,
                                            start: nat, k: nat)
    requires WellFormed(b) && b.len < expected && |arrivals| <= start + k
    ensures PayloadWait(b, expected, arrivals, start, k) == PayloadTimeout(b)
    decreases POLLS - k
  {
    if k < POLLS {
      assert Batch(arrivals, start + k) == [];
      QuietPayloadWait(b, expected, arrivals, start, k + 1);
    }
  }

  /** A camera that announces more bytes than it sends leaves receive_jpeg timing out with
      the bytes it did send in the buffer. */
  lemma ShortTransferTimesOut(mem0: seq<byte>, n: nat, part: seq<byte>)
    requires |mem0| == JPEG_MAX_SIZE && 0 < n <= JPEG_MAX_SIZE && |part| < n
    ensures var r := Receive([], mem0, [HeaderLine(n), part]);
      && r.PayloadTimedOut? && r.declared == n
      && r.buffer.len == |part| && r.buffer.mem[..|part|] == part
  {
    var arrivals := [HeaderLine(n), part];
    HeaderLineFits(n);
    HeaderLineAnnounces(n);
    assert HeaderWait([], arrivals, 0) == Accepted(n, 1);
    var b0 := Binary(mem0, 0);
    var polled := Absorb(b0, part);
    AbsorbedIntoEmpty(mem0, part);
    QuietPayloadWait(polled, n, arrivals, 1, 1);
    assert PayloadWait(b0, n, arrivals, 1, 0) == PayloadTimeout(polled);
  }
}
