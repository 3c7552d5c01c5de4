/** The photo store on the SD card: the names photos are saved under, the recovery of the
    next photo number from the names already on the card (init_sd_card, main.c:174-192),
    and the chunked write of one photo (save_jpeg_to_sd, main.c:339-379). The card is a map
    from path to content; fs_open and fs_write are oracles. */
module Storage {
  import opened Bytes
  import opened Errno

  const MOUNT_DIR: seq<byte> := [0x2F, 0x53, 0x44, 0x3A, 0x2F]             // "/SD:/"
  const PHOTO_PREFIX: seq<byte> := [0x70, 0x68, 0x6F, 0x74, 0x6F, 0x5F]    // "photo_"
  const PHOTO_SUFFIX: seq<byte> := [0x2E, 0x6A, 0x70, 0x67]                // ".jpg"
  const CHUNK_SIZE: nat := 4096

  type Files = map<seq<byte>, seq<byte>>

  // ---------------------------------------------------------------------------
  // Names

  /** The directory entry name of photo `n`: "photo_%04d.jpg" with the uint32_t counter
      passed as an int. */
  function PhotoName(n: u32): seq<byte> {
    PHOTO_PREFIX + Print04(AsInt32(n)) + PHOTO_SUFFIX
  }

  /** The path photo `n` is opened under: "/SD:/photo_%04d.jpg". */
  function PhotoPath(n: u32): seq<byte> {
    MOUNT_DIR + PhotoName(n)
  }

  /** The number a directory entry contributes: the entry contains "photo_" and
      sscanf(name, "photo_%d.jpg") converts a number, which needs the name to start with
      "photo_"; what comes after the number is not checked. */
  function PhotoNumber(name: seq<byte>): Option<int> {
    var c := CString(name);
    var p := |PHOTO_PREFIX|;
    if Find(c, PHOTO_PREFIX).Some? && p <= |c| && c[..p] == PHOTO_PREFIX then ScanInt(c[p..])
    else None
  }

  /** An entry "photo_<tail>" yields the number "%d" reads from the tail. */
  lemma PhotoNumberOf(tail: seq<byte>)
    requires NulFree(tail)
    ensures PhotoNumber(PHOTO_PREFIX + tail) == ScanInt(tail)
  {
    var name := PHOTO_PREFIX + tail;
    assert NulFree(PHOTO_PREFIX);
    NulFreeAppend(PHOTO_PREFIX, tail);
    CStringAppend(name, []);
    assert name + [] == name;
    assert CString([]) == [];
    assert CString(name) == name;
    assert OccursAt(name, PHOTO_PREFIX, 0);
    assert name[..|PHOTO_PREFIX|] == PHOTO_PREFIX;
    assert name[|PHOTO_PREFIX|..] == tail;
  }

  /** Round trip: the number recovered from a saved photo's name is the number it was
      saved under, as the int it was printed as. */
  lemma PhotoNumberOfName(n: u32)
    ensures PhotoNumber(PhotoName(n)) == Some(AsInt32(n))
    ensures ToU32(PhotoNumber(PhotoName(n)).value) == n
  {
    var printed := Print04(AsInt32(n));
    assert NulFree(printed) by {
      if AsInt32(n) < 0 {
        assert printed == [MINUS] + ZeroPadded(-AsInt32(n), 3);
        assert forall i :: 1 <= i < |printed| ==> printed[i] == ZeroPadded(-AsInt32(n), 3)[i - 1];
      }
    }
    assert NulFree(PHOTO_SUFFIX);
    NulFreeAppend(printed, PHOTO_SUFFIX);
    assert PhotoName(n) == PHOTO_PREFIX + (printed + PHOTO_SUFFIX);
    PhotoNumberOf(printed + PHOTO_SUFFIX);
    ScanPrinted(AsInt32(n), PHOTO_SUFFIX);
  }

  /** Distinct numbers give distinct names, so no save overwrites an earlier photo of the
      same run. */
  lemma PhotoNameInjective(a: u32, b: u32)
    requires PhotoName(a) == PhotoName(b)
    ensures a == b
  {
    PhotoNumberOfName(a);
    PhotoNumberOfName(b);
  }

  // ---------------------------------------------------------------------------
  // Counter recovery

  /** `fs_readdir` reports the end of the directory with an empty name. */
  predicate EndOfListing(name: seq<byte>) {
    |name| == 0 || name[0] == NUL
  }

  /** What the scan sees of the listing: the number (if any) of each entry before the one
      that ends the listing. */
  function Numbers(entries: seq<seq<byte>>): (r: seq<Option<int>>)
    ensures |r| <= |entries|
  {
    if |entries| == 0 || EndOfListing(entries[0]) then []
    else [PhotoNumber(entries[0])] + Numbers(entries[1..])
  }

  /** The scan sees every entry before the first one that ends the listing, each with its
      own number, and nothing after it. */
  lemma {:induction false} NumbersAt(entries: seq<seq<byte>>, j: nat)
    requires j < |entries|
    ensures j < |Numbers(entries)| <==> forall k :: 0 <= k <= j ==> !EndOfListing(entries[k])
    ensures j < |Numbers(entries)| ==> Numbers(entries)[j] == PhotoNumber(entries[j])
  {
    if j > 0 && !EndOfListing(entries[0]) {
      NumbersAt(entries[1..], j - 1);
      assert forall k :: 1 <= k <= j ==> entries[1..][k - 1] == entries[k];
    }
  }

  /** One directory entry: a number that, converted to uint32_t, is at or above the counter
      moves the counter to that number plus one, converted back. */
  function CounterStep(counter: u32, num: Option<int>): u32 {
    match num
    case Some(n) => if ToU32(n) >= counter then ToU32(n + 1) else counter
    case None => counter
  }

  /** The counter after the scan has seen the numbers `nums`, in order. */
  function Recover(counter: u32, nums: seq<Option<int>>): u32
    decreases |nums|
  {
    if |nums| == 0 then counter else Recover(CounterStep(counter, nums[0]), nums[1..])
  }

  /** The scan of a listing past an entry that does not end it: one counter step, then the
      rest of the listing. */
  lemma RecoverStep(counter: u32, entries: seq<seq<byte>>, i: nat)
    requires i < |entries| && !EndOfListing(entries[i])
    ensures Recover(counter, Numbers(entries[i..]))
         == Recover(CounterStep(counter, PhotoNumber(entries[i])), Numbers(entries[i + 1..]))
  {
    assert entries[i..][1..] == entries[i + 1..];
  }

  /** A number the counter can step past without wrapping, or no number. */
  predicate Ordinary(num: Option<int>) {
    num.Some? ==> 0 <= num.value < I32_MAX
  }

  /** When every number seen is an ordinary one, the scan leaves the counter above all of
      them and never below where it started. */
  lemma {:induction false} RecoverIsAbove(counter: u32, nums: seq<Option<int>>)
    requires counter <= I32_MAX
    requires forall k :: 0 <= k < |nums| ==> Ordinary(nums[k])
    ensures counter <= Recover(counter, nums) <= I32_MAX
    ensures forall k :: 0 <= k < |nums| && nums[k].Some? ==> Recover(counter, nums) > nums[k].value
    decreases |nums|
  {
    if |nums| > 0 {
      var c := CounterStep(counter, nums[0]);
      RecoverIsAbove(c, nums[1..]);
      assert forall k :: 1 <= k < |nums| ==> nums[k] == nums[1..][k - 1];
    }
  }

  /** After the scan the counter is either where it started or, converted, one past a
      number seen. For ordinary numbers, together with RecoverIsAbove, this makes the
      counter recovered from the boot value 0 the largest number plus one (RecoverIsMax);
      numbers that are not ordinary can wrap it. */
  lemma {:induction false} RecoverIsReached(counter: u32, nums: seq<Option<int>>)
    ensures var r := Recover(counter, nums);
      r == counter || exists k :: 0 <= k < |nums| && nums[k].Some? && r == ToU32(nums[k].value + 1)
    decreases |nums|
  {
    if |nums| > 0 {
      var c := CounterStep(counter, nums[0]);
      RecoverIsReached(c, nums[1..]);
      var r := Recover(c, nums[1..]);
      if r != c {
        var k :| 0 <= k < |nums[1..]| && nums[1..][k].Some? && r == ToU32(nums[1..][k].value + 1);
        assert nums[k + 1] == nums[1..][k];
      } else if c != counter {
        assert nums[0].Some? && r == ToU32(nums[0].value + 1);
      }
    }
  }

  /** The boot-time scan of ordinary numbers leaves the counter one past the largest
      number listed. */
  lemma RecoverIsMax(nums: seq<Option<int>>, k: nat)
    requires forall i :: 0 <= i < |nums| ==> Ordinary(nums[i])
    requires k < |nums| && nums[k].Some?
    requires forall i :: 0 <= i < |nums| && nums[i].Some? ==> nums[i].value <= nums[k].value
    ensures Recover(0, nums) == nums[k].value + 1
  {
    RecoverIsAbove(0, nums);
    RecoverIsReached(0, nums);
  }

  /** With no number listed, the boot-time scan leaves the counter at 0. */
  lemma RecoverWithoutNumbers(nums: seq<Option<int>>)
    requires forall i :: 0 <= i < |nums| ==> nums[i].None?
    ensures Recover(0, nums) == 0
  {
    RecoverIsReached(0, nums);
  }

  /** Restart after a save: an entry for photo `n` before the end of a listing of ordinary
      entries makes the recovered counter exceed `n`. */
  lemma RecoveredPastSaved(entries: seq<seq<byte>>, n: u32, j: nat)
    requires n < I32_MAX
    requires j < |Numbers(entries)| && entries[j] == PhotoName(n)
    requires forall k :: 0 <= k < |Numbers(entries)| ==> Ordinary(Numbers(entries)[k])
    ensures Recover(0, Numbers(entries)) > n
  {
    NumbersAt(entries, j);
    PhotoNumberOfName(n);
    RecoverIsAbove(0, Numbers(entries));
  }

  /** Scanning the name of photo `n` compares `n` itself with the counter: a name printed
      as a negative int converts back to the counter it was printed for, and the counter
      moves one past it, wrapping to 0 only past 0xFFFFFFFF as file_counter++ does. */
  lemma ListedPhotoStep(counter: u32, n: u32)
    ensures CounterStep(counter, PhotoNumber(PhotoName(n)))
         == if n >= counter then ToU32(n + 1) else counter
  {
    PhotoNumberOfName(n);
    var v := AsInt32(n);
    assert ToU32(v + 1) == ToU32(n + 1) by {
      if n > I32_MAX {
        assert v == n - U32_MOD;
      }
    }
  }

  /** The comparison is made in uint32_t: a listed negative number counts as a huge one,
      so the name printed for counter 0xFFFFFFFF ("photo_-001.jpg") sends the counter back
      to 0 even after photo 5 has been listed. */
  lemma NegativeNameResetsCounter()
    ensures var entries := [PhotoName(5), PhotoName(0xFFFF_FFFF)];
      Numbers(entries) == [Some(5), Some(-1)] && Recover(0, Numbers(entries)) == 0
  {
    PhotoNumberOfName(5);
    PhotoNumberOfName(0xFFFF_FFFF);
    var entries := [PhotoName(5), PhotoName(0xFFFF_FFFF)];
    assert Numbers(entries) == [Some(5), Some(-1)] by {
      assert !EndOfListing(entries[0]) && !EndOfListing(entries[1]);
      assert entries[1..][1..] == [];
    }
    assert CounterStep(0, Some(5)) == 6;
    assert CounterStep(6, Some(-1)) == 0;
    assert [Some(5), Some(-1)][1..] == [Some(-1)];
  }

  // ---------------------------------------------------------------------------
  // Chunked write

  /** One fs_write call: where it starts, how much it asks for and what it returned. */
  datatype Chunk = Chunk(offset: nat, size: nat, reply: int)

  /** The write loop's end: the bytes written, the error that stopped it, and its calls. */
  datatype Transfer = Transfer(written: nat, error: Option<int>, chunks: seq<Chunk>)

  function Min(a: nat, b: nat): nat {
    if a < b then a else b
  }

  /** The oracle's reply to the `j`-th fs_write of `size` bytes; once the oracle has no more
      replies every write completes. */
  function Reply(writes: seq<int>, j: nat, size: nat): int {
    if j < |writes| then writes[j] else size
  }

  /** The bytes a non-negative reply accounts for; a file system never reports more than
      it was asked to write. */
  function WrittenBy(reply: int, size: nat): nat
    requires reply >= 0
  {
    if reply > size then size else reply
  }

  /** The write loop of save_jpeg_to_sd from `written` bytes and the `j`-th call on. */
  function WriteFrom(len: nat, writes: seq<int>, j: nat, written: nat): (t: Transfer)
    requires written <= len
    decreases if j < |writes| then |writes| - j else 0, len - written
    ensures written <= t.written <= len
    ensures t.error.None? <==> t.written == len
    ensures t.error.Some? ==> t.error.value < 0
  {
    if written >= len then Transfer(written, None, [])
    else
      var size := Min(CHUNK_SIZE, len - written);
      var reply := Reply(writes, j, size);
      if reply < 0 then Transfer(written, Some(reply), [Chunk(written, size, reply)])
      else
        var t := WriteFrom(len, writes, j + 1, written + WrittenBy(reply, size));
        Transfer(t.written, t.error, [Chunk(written, size, reply)] + t.chunks)
  }

  /** A call that succeeds hands the rest of the transfer on to the next call. */
  lemma WriteFromStep(len: nat, writes: seq<int>, j: nat, written: nat)
    requires written < len
    requires Reply(writes, j, Min(CHUNK_SIZE, len - written)) >= 0
    ensures var n := WrittenBy(Reply(writes, j, Min(CHUNK_SIZE, len - written)), Min(CHUNK_SIZE, len - written));
      && written + n <= len
      && WriteFrom(len, writes, j, written).written == WriteFrom(len, writes, j + 1, written + n).written
      && WriteFrom(len, writes, j, written).error == WriteFrom(len, writes, j + 1, written + n).error
  {
  }

  /** The calls cover what is left of the image: there is one exactly when bytes are
      left, the first starts where the loop stands, and each asks for min(4096, bytes left
      at its offset). */
  lemma {:induction false} ChunksCover(len: nat, writes: seq<int>, j: nat, written: nat)
    requires written <= len
    decreases if j < |writes| then |writes| - j else 0, len - written
    ensures var cs := WriteFrom(len, writes, j, written).chunks;
      && (written < len <==> |cs| > 0)
      && (|cs| > 0 ==> cs[0].offset == written)
      && (forall k :: 0 <= k < |cs| ==>
            written <= cs[k].offset < len && cs[k].size == Min(CHUNK_SIZE, len - cs[k].offset))
  {
    if written < len {
      var size := Min(CHUNK_SIZE, len - written);
      var reply := Reply(writes, j, size);
      if reply >= 0 {
        ChunksCover(len, writes, j + 1, written + WrittenBy(reply, size));
      }
    }
  }

  /** The calls tile the image: the first starts where the loop stands and each starts
      where the previous one's written bytes end. */
  lemma {:induction false} ChunksTile(len: nat, writes: seq<int>, j: nat, written: nat)
    requires written <= len
    decreases if j < |writes| then |writes| - j else 0, len - written
    ensures var cs := WriteFrom(len, writes, j, written).chunks;
      && (|cs| > 0 ==> cs[0].offset == written)
      && (forall k :: 0 <= k < |cs| - 1 ==>
            cs[k].reply >= 0 && cs[k + 1].offset == cs[k].offset + WrittenBy(cs[k].reply, cs[k].size))
  {
    if written < len {
      var size := Min(CHUNK_SIZE, len - written);
      var reply := Reply(writes, j, size);
      if reply >= 0 {
        ChunksTile(len, writes, j + 1, written + WrittenBy(reply, size));
      }
    }
  }

  /** On success the last call's written bytes end at the image's end. */
  lemma {:induction false} ChunksEnd(len: nat, writes: seq<int>, j: nat, written: nat)
    requires written <= len
    decreases if j < |writes| then |writes| - j else 0, len - written
    ensures var t := WriteFrom(len, writes, j, written);
      var cs := t.chunks;
      |cs| > 0 && t.error.None? ==>
        cs[|cs| - 1].reply >= 0 && cs[|cs| - 1].offset + WrittenBy(cs[|cs| - 1].reply, cs[|cs| - 1].size) == len
  {
    if written < len {
      var size := Min(CHUNK_SIZE, len - written);
      var reply := Reply(writes, j, size);
      if reply >= 0 {
        var n := written + WrittenBy(reply, size);
        ChunksEnd(len, writes, j + 1, n);
        ChunksCover(len, writes, j + 1, n);
      }
    }
  }

  /** On failure the last call is the one whose negative reply stopped the loop, at the
      count reached. */
  lemma {:induction false} ChunksFail(len: nat, writes: seq<int>, j: nat, written: nat)
    requires written <= len
    decreases if j < |writes| then |writes| - j else 0, len - written
    ensures var t := WriteFrom(len, writes, j, written);
      var cs := t.chunks;
      t.error.Some? ==> |cs| > 0 && cs[|cs| - 1].reply == t.error.value && cs[|cs| - 1].offset == t.written
  {
    if written < len {
      var size := Min(CHUNK_SIZE, len - written);
      var reply := Reply(writes, j, size);
      if reply >= 0 {
        ChunksFail(len, writes, j + 1, written + WrittenBy(reply, size));
      }
    }
  }

  /** A file opened for writing without truncation and written from offset 0: the new
      bytes replace the start of what was there. */
  function Overlay(existing: seq<byte>, data: seq<byte>): (r: seq<byte>)
    ensures |r| >= |data| && r[..|data|] == data
  {
    if |existing| > |data| then data + existing[|data|..] else data
  }

  /** fs_write at `offset` (never past the current end): `data` replaces the bytes there
      and the file grows if needed. */
  function WriteAt(content: seq<byte>, offset: nat, data: seq<byte>): (r: seq<byte>)
    requires offset <= |content|
    ensures |r| >= offset + |data|
    ensures r[..offset] == content[..offset] && r[offset..offset + |data|] == data
  {
    var end := offset + |data|;
    content[..offset] + data + (if |content| > end then content[end..] else [])
  }

  /** Writing the image's bytes in order, chunk after chunk, leaves the file holding the
      bytes written so far over what it held before. */
  lemma WriteNextChunk(existing: seq<byte>, payload: seq<byte>, w: nat, n: nat)
    requires w + n <= |payload|
    ensures WriteAt(Overlay(existing, payload[..w]), w, payload[w..w + n]) == Overlay(existing, payload[..w + n])
  {
    var cur := Overlay(existing, payload[..w]);
    var r := WriteAt(cur, w, payload[w..w + n]);
    var want := Overlay(existing, payload[..w + n]);
    assert |r| == |want|;
    forall i | 0 <= i < |r| ensures r[i] == want[i] {
      if i < w {
        assert r[i] == cur[i] == payload[i];
      } else if i < w + n {
        assert r[i] == payload[w..w + n][i - w] == payload[i];
      } else {
        assert r[i] == existing[i];
      }
    }
  }

  // ---------------------------------------------------------------------------
  // Saving one photo

  datatype Outcome = Outcome(status: Status, files: Files, counter: u32)

  /** save_jpeg_to_sd with the completion flag, the received bytes and the counter. */
  function Save(complete: bool, payload: seq<byte>, counter: u32, files: Files,
                openResult: int, writes: seq<int>): Outcome
  {
    if !complete || |payload| == 0 then Outcome(ENoData, files, counter)
    else if openResult != 0 then Outcome(FsError(openResult), files, counter)
    else
      var path := PhotoPath(counter);
      var existing := if path in files then files[path] else [];
      var t := WriteFrom(|payload|, writes, 0, 0);
      var files' := files[path := Overlay(existing, payload[..t.written])];
      match t.error
      case None => Outcome(Ok, files', ToU32(counter + 1))
      case Some(code) => Outcome(FsError(code), files', counter)
  }

  /** The counter moves on by one exactly when the save succeeds; a save that fails leaves
      every other file alone and leaves at most a partly written photo. */
  lemma SaveRules(complete: bool, payload: seq<byte>, counter: u32, files: Files,
                  openResult: int, writes: seq<int>)
    ensures var o := Save(complete, payload, counter, files, openResult, writes);
      var path := PhotoPath(counter);
      var existing := if path in files then files[path] else [];
      && o.counter == (if o.status == Ok then ToU32(counter + 1) else counter)
      && (o.status == ENoData <==> !complete || |payload| == 0)
      && (o.status == ENoData ==> o.files == files)
      && (o.status == Ok ==>
            complete && openResult == 0 && o.files == files[path := Overlay(existing, payload)])
      && (o.status.FsError? && openResult == 0 ==>
            && o.status.code < 0
            && exists w :: 0 <= w < |payload| && o.files == files[path := Overlay(existing, payload[..w])])
      && (o.status.FsError? && openResult != 0 ==>
            o.status.code == openResult && o.files == files)
  {
    if complete && |payload| > 0 && openResult == 0 {
      var t := WriteFrom(|payload|, writes, 0, 0);
      assert payload[..|payload|] == payload;
    }
  }

  /** A successful save of a photo under a new path stores exactly the received bytes. */
  lemma SavedPhotoIsPayload(payload: seq<byte>, counter: u32, files: Files, writes: seq<int>)
    requires |payload| > 0 && PhotoPath(counter) !in files
    requires Save(true, payload, counter, files, 0, writes).status == Ok
    ensures Save(true, payload, counter, files, 0, writes).files[PhotoPath(counter)] == payload
  {
    SaveRules(true, payload, counter, files, 0, writes);
  }
}
