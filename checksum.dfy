/** The single-byte XOR checksum carried in the trailer of every image transfer
    (calculate_checksum, main.c:384-391). */
module Checksum {
  import opened Bytes

  /** The XOR of all bytes of `s`, folded from the first byte to the last. */
  function XorFold(s: seq<byte>): byte {
    if |s| == 0 then 0 else XorFold(s[..|s| - 1]) ^ s[|s| - 1]
  }

  /** The checksum of a concatenation is the XOR of the checksums of its parts, so the
      checksum can be computed chunk by chunk. */
  lemma {:induction false} XorFoldAppend(a: seq<byte>, b: seq<byte>)
    ensures XorFold(a + b) == XorFold(a) ^ XorFold(b)
  {
    if |b| == 0 {
      assert a + b == a;
    } else {
      assert (a + b)[..|a + b| - 1] == a + b[..|b| - 1];
      XorFoldAppend(a, b[..|b| - 1]);
    }
  }

  /** Any single corrupted byte changes the checksum. */
  lemma SingleByteErrorDetected(s: seq<byte>, i: nat, x: byte)
    requires i < |s| && x != s[i]
    ensures XorFold(s[i := x]) != XorFold(s)
  {
    var t := s[i := x];
    assert s == s[..i] + [s[i]] + s[i + 1..];
    assert t == s[..i] + [x] + s[i + 1..];
    XorFoldAppend(s[..i] + [s[i]], s[i + 1..]);
    XorFoldAppend(s[..i], [s[i]]);
    XorFoldAppend(s[..i] + [x], s[i + 1..]);
    XorFoldAppend(s[..i], [x]);
    assert XorFold([s[i]]) == s[i] && XorFold([x]) == x by {
      assert [s[i]][..0] == [] && [x][..0] == [];
    }
  }

  /** The checksum is blind to the order of the parts: swapping two blocks of the image
      goes undetected (the weakness of a one-byte XOR). */
  lemma SwappedBlocksUndetected(a: seq<byte>, b: seq<byte>)
    ensures XorFold(a + b) == XorFold(b + a)
  {
    XorFoldAppend(a, b);
    XorFoldAppend(b, a);
  }

  /** calculate_checksum: XOR of `data[0..len)`, accumulated in a loop. */
  method CalculateChecksum(data: array<byte>, len: nat) returns (checksum: byte)
    requires len <= data.Length
    ensures checksum == XorFold(data[..len])
  {
    checksum := 0;
    var i := 0;
    while i < len
      invariant 0 <= i <= len
      invariant checksum == XorFold(data[..i])
    {
      assert data[..i + 1][..i] == data[..i];
      checksum := checksum ^ data[i];
      i := i + 1;
    }
    assert data[..len] == data[..i];
  }
}
