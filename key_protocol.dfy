/**
  The key server's wire protocol, shared by KeyServer and KeyClient.
  Request: the subject name in US-ASCII followed by one zero byte.
  Response: u32 big-endian key length | key bytes | u32 big-endian cert length | cert bytes.
*/
module KeyProtocol {
  import opened Wrappers
  import opened Bytes

  /** The longest name the server accepts; one more byte closes the connection. */
  const MaxNameLength := 4096

  /** A Java String: its length is an int, so below 2^31. */
  type Pem = s: string | |s| < 0x8000_0000

  /** KeyResult: the generated private key (PKCS#8) and certificate (X.509), as PEM text. */
  datatype KeyResult = KeyResult(privateKeyPem: Pem, certPem: Pem)

  /** The response frame for key bytes and certificate bytes. */
  function ResponseFrame(key: seq<byte>, cert: seq<byte>): seq<byte>
    requires |key| < 0x8000_0000 && |cert| < 0x8000_0000
  {
    PutInt(|key|) + key + PutInt(|cert|) + cert
  }

  /** The frame the server sends for a result: both PEM texts as US-ASCII bytes. */
  function FrameOf(res: KeyResult): seq<byte>
  {
    ResponseFrame(AsciiBytes(res.privateKeyPem), AsciiBytes(res.certPem))
  }

  /** Where each field of a frame lies: 8 + |key| + |cert| bytes in all. */
  lemma ResponseFrameLayout(key: seq<byte>, cert: seq<byte>)
    requires |key| < 0x8000_0000 && |cert| < 0x8000_0000
    ensures var f := ResponseFrame(key, cert);
      && |f| == 8 + |key| + |cert|
      && f[..4] == PutInt(|key|)
      && f[4..4 + |key|] == key
      && f[4 + |key|..8 + |key|] == PutInt(|cert|)
      && f[8 + |key|..] == cert
  {
  }

  /** The largest |key| + |cert| for which the int `total = 4 + |key| + 4 + |cert|` does not overflow. */
  const MaxPemPairLength := 0x7FFF_FFF7

  /** Java int arithmetic: the exact value wrapped into -2^31 .. 2^31 - 1. */
  function Int32(n: int): (v: int)
    ensures -0x8000_0000 <= v < 0x8000_0000
    ensures (n - v) % 0x1_0000_0000 == 0
    ensures -0x8000_0000 <= n < 0x8000_0000 ==> v == n
  {
    (n + 0x8000_0000) % 0x1_0000_0000 - 0x8000_0000
  }

  /** Whether the frame for a result can be built: its length is a Java int. */
  predicate FrameFits(res: KeyResult)
  {
    |res.privateKeyPem| + |res.certPem| <= MaxPemPairLength
  }

  /**
    The int total is the frame's length exactly when the frame fits. Otherwise
    it is negative, and ByteBuffer.allocate throws, or it lies in 0..6, and
    the put of the key bytes overflows the buffer.
  */
  lemma FrameTotalOverflow(res: KeyResult)
    ensures var n := |res.privateKeyPem| + |res.certPem|;
      FrameFits(res) <==> Int32(4 + n + 4) == 8 + n
    ensures !FrameFits(res) ==>
      Int32(8 + |res.privateKeyPem| + |res.certPem|) < 0
      || 4 + |res.privateKeyPem| > Int32(8 + |res.privateKeyPem| + |res.certPem|)
  {
    var n := |res.privateKeyPem| + |res.certPem|;
    if n > MaxPemPairLength {
      if 8 + n < 0x1_0000_0000 {
        assert Int32(8 + n) == 8 + n - 0x1_0000_0000;
      } else {
        assert Int32(8 + n) == 8 + n - 0x1_0000_0000;
      }
    }
  }

  /**
    Copies src into buf at pos, as ByteBuffer.put does, and returns the new position.
  */
  method Put(buf: array<byte>, pos: nat, src: seq<byte>) returns (next: nat)
    requires pos + |src| <= buf.Length
    modifies buf
    ensures next == pos + |src|
    ensures buf[..next] == old(buf[..pos]) + src
  {
    var k := 0;
    while k < |src|
      invariant 0 <= k <= |src|
      invariant buf[..pos + k] == old(buf[..pos]) + src[..k]
    {
      buf[pos + k] := src[k];
      k := k + 1;
    }
    next := pos + |src|;
  }

  /**
    The frame built as deliverResultToWaitingClients does: a buffer of the
    int total 4 + |key| + 4 + |cert| bytes, filled by putInt, put, putInt,
    put. None stands for the exception thrown when total overflows.
  */
  method BuildFrame(res: KeyResult) returns (frame: Option<seq<byte>>)
    ensures frame.Some? <==> FrameFits(res)
    ensures frame.Some? ==> frame.value == FrameOf(res) && |frame.value| == 8 + |res.privateKeyPem| + |res.certPem|
  {
    var keyBytes := AsciiBytes(res.privateKeyPem);
    var certBytes := AsciiBytes(res.certPem);
    var total := Int32(4 + |keyBytes| + 4 + |certBytes|);
    FrameTotalOverflow(res);
    if total < 0 {
      // ByteBuffer.allocate: IllegalArgumentException
      return None;
    }
    var combined := new byte[total];
    if 4 > total {
      // putInt: BufferOverflowException
      return None;
    }
    var pos := Put(combined, 0, PutInt(|keyBytes|));
    assert combined[..pos] == PutInt(|keyBytes|);
    if pos + |keyBytes| > total {
      // put: BufferOverflowException
      return None;
    }
    pos := Put(combined, pos, keyBytes);
    assert combined[..pos] == PutInt(|keyBytes|) + keyBytes;
    assert total == 8 + |keyBytes| + |certBytes|;
    pos := Put(combined, pos, PutInt(|certBytes|));
    assert combined[..pos] == PutInt(|keyBytes|) + keyBytes + PutInt(|certBytes|);
    pos := Put(combined, pos, certBytes);
    assert combined[..pos] == PutInt(|keyBytes|) + keyBytes + PutInt(|certBytes|) + certBytes;
    assert combined[..] == combined[..pos];
    frame := Some(combined[..]);
  }

  /** The index of the first zero byte, or |bs| when there is none. */
  function FirstZero(bs: seq<byte>): (z: nat)
    ensures z <= |bs|
    ensures z < |bs| ==> bs[z] == 0
    ensures forall k :: 0 <= k < z ==> bs[k] != 0
  {
    if bs == [] then 0 else if bs[0] == 0 then 0 else 1 + FirstZero(bs[1..])
  }

  /** What one read does to a connection that has not yet received its name. */
  datatype ScanOutcome =
    | NeedMore(buffer: seq<byte>)      // no terminator yet: the bytes are kept
    | NameComplete(name: seq<byte>)    // the terminator arrived: these are the name's bytes
    | TooLong(buffer: seq<byte>)       // the name passed MaxNameLength: the connection is closed

  /**
    Scanning bytes one at a time after the already buffered ones: non-zero
    bytes accumulate, the first zero ends the name, and the byte that takes
    the buffer past MaxNameLength closes the connection.
  */
  function ScanName(buffer: seq<byte>, bytes: seq<byte>): ScanOutcome
    requires |buffer| <= MaxNameLength
  {
    var z := FirstZero(bytes);
    if |buffer| + z > MaxNameLength then TooLong(buffer + bytes[..MaxNameLength + 1 - |buffer|])
    else if z < |bytes| then NameComplete(buffer + bytes[..z])
    else NeedMore(buffer + bytes)
  }

  /** What ScanName promises: a completed name has no zero byte and at most MaxNameLength bytes. */
  lemma ScanNameBounds(buffer: seq<byte>, bytes: seq<byte>)
    requires |buffer| <= MaxNameLength && forall k :: 0 <= k < |buffer| ==> buffer[k] != 0
    ensures ScanName(buffer, bytes).NameComplete? ==>
      var n := ScanName(buffer, bytes).name;
      |n| <= MaxNameLength && (forall k :: 0 <= k < |n| ==> n[k] != 0) && buffer <= n
    ensures ScanName(buffer, bytes).NeedMore? ==>
      var b := ScanName(buffer, bytes).buffer;
      |b| <= MaxNameLength && (forall k :: 0 <= k < |b| ==> b[k] != 0) && b == buffer + bytes
    ensures ScanName(buffer, bytes).TooLong? ==>
      |ScanName(buffer, bytes).buffer| == MaxNameLength + 1
  {
  }

  lemma {:induction false} FirstZeroAppend(a: seq<byte>, b: seq<byte>)
    requires FirstZero(a) == |a|
    ensures FirstZero(a + b) == |a| + FirstZero(b)
  {
    if a != [] {
      assert a[0] != 0 && (a + b)[0] == a[0];
      assert (a + b)[1..] == a[1..] + b;
      FirstZeroAppend(a[1..], b);
    } else {
      assert a + b == b;
    }
  }

  lemma FirstZeroPrefix(a: seq<byte>, b: seq<byte>)
    requires FirstZero(a) < |a|
    ensures FirstZero(a + b) == FirstZero(a)
  {
    var z := FirstZero(a);
    assert (a + b)[z] == 0;
  }

  /**
    How the name arrives over several reads does not matter: scanning b1 and
    then b2 ends the same way as scanning b1 + b2 in one read.
  */
  lemma ScanNameSegments(buffer: seq<byte>, b1: seq<byte>, b2: seq<byte>)
    requires |buffer| <= MaxNameLength
    requires ScanName(buffer, b1).NeedMore?
    ensures |ScanName(buffer, b1).buffer| <= MaxNameLength
    ensures ScanName(ScanName(buffer, b1).buffer, b2) == ScanName(buffer, b1 + b2)
  {
    assert FirstZero(b1) == |b1| && ScanName(buffer, b1).buffer == buffer + b1;
    FirstZeroAppend(b1, b2);
    var z := FirstZero(b2);
    if |buffer| + |b1| + z > MaxNameLength {
      PrefixOfAppend(buffer, b1, b2, MaxNameLength + 1 - |buffer|);
    } else if z < |b2| {
      PrefixOfAppend(buffer, b1, b2, |b1| + z);
    }
  }

  /** Cutting b1 + b2 at k past the end of b1, behind a fixed head. */
  lemma PrefixOfAppend(head: seq<byte>, b1: seq<byte>, b2: seq<byte>, k: nat)
    requires |b1| <= k <= |b1| + |b2|
    ensures head + (b1 + b2)[..k] == head + b1 + b2[..k - |b1|]
  {
    assert (b1 + b2)[..k] == b1 + b2[..k - |b1|];
  }

  /** Bytes after the terminator in the same read are ignored. */
  lemma ScanNameIgnoresTrailing(buffer: seq<byte>, b1: seq<byte>, b2: seq<byte>)
    requires |buffer| <= MaxNameLength
    requires ScanName(buffer, b1).NameComplete?
    ensures ScanName(buffer, b1 + b2) == ScanName(buffer, b1)
  {
    FirstZeroPrefix(b1, b2);
    var z := FirstZero(b1);
    assert (b1 + b2)[..z] == b1[..z];
  }

  /** Scanning one more byte of a read whose prefix left the name incomplete. */
  lemma ScanNameStep(buffer: seq<byte>, bytes: seq<byte>, k: nat)
    requires |buffer| <= MaxNameLength && k < |bytes|
    requires ScanName(buffer, bytes[..k]).NeedMore?
    ensures var nb := ScanName(buffer, bytes[..k]).buffer;
      && |nb| <= MaxNameLength
      && ScanName(buffer, bytes[..k + 1]) ==
        if bytes[k] == 0 then NameComplete(nb)
        else if |nb| + 1 > MaxNameLength then TooLong(nb + [bytes[k]])
        else NeedMore(nb + [bytes[k]])
  {
    assert bytes[..k + 1] == bytes[..k] + [bytes[k]];
    ScanNameSegments(buffer, bytes[..k], [bytes[k]]);
  }

  /** Once a prefix of a read has completed the name or overflowed, the rest of the read does not matter. */
  lemma ScanNameSettled(buffer: seq<byte>, bytes: seq<byte>, k: nat)
    requires |buffer| <= MaxNameLength && k <= |bytes|
    requires !ScanName(buffer, bytes[..k]).NeedMore?
    ensures ScanName(buffer, bytes) == ScanName(buffer, bytes[..k])
  {
    assert bytes == bytes[..k] + bytes[k..];
    if ScanName(buffer, bytes[..k]).NameComplete? {
      ScanNameIgnoresTrailing(buffer, bytes[..k], bytes[k..]);
    } else {
      var z := FirstZero(bytes[..k]);
      var cut := MaxNameLength + 1 - |buffer|;
      if z < k {
        FirstZeroPrefix(bytes[..k], bytes[k..]);
      } else {
        FirstZeroAppend(bytes[..k], bytes[k..]);
      }
      assert bytes[..k][..cut] == bytes[..cut];
    }
  }

  /**
    The length cap is inclusive: a zero-terminated name of at most
    MaxNameLength bytes is accepted whole, and a longer one closes the
    connection one byte past the cap.
  */
  lemma NameLengthCap(n: seq<byte>)
    requires forall k :: 0 <= k < |n| ==> n[k] != 0
    ensures |n| <= MaxNameLength ==> ScanName([], n + [0]) == NameComplete(n)
    ensures |n| > MaxNameLength ==> ScanName([], n + [0]) == TooLong(n[..MaxNameLength + 1])
  {
    FirstZeroAppend(n, [0]);
    assert (n + [0])[..|n|] == n;
    if |n| > MaxNameLength {
      assert (n + [0])[..MaxNameLength + 1] == n[..MaxNameLength + 1];
    }
  }
}
