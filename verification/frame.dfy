/** The wire format of the bus (bull.c, lines 16-22 and 63-124): a frame is
    `[address, command, parameter, length, payload..., checksum]`, where the
    checksum is the 8-bit wrapping sum of every byte before it. */
module Frame {
  import opened Bytes

  const Broadcast: byte := 0xFF
  const CmdRead: byte := 0x01
  const CmdWrite: byte := 0x81
  /** Command byte of an error reply. */
  const CmdError: byte := 0xFF

  /** `is_bull`: a buffer holds a complete frame once it has at least five
      bytes and at least as many as its length field announces plus five. */
  predicate IsBull(data: seq<byte>)
  {
    |data| >= 5 && |data| >= data[3] as int + 5
  }

  /** The last byte of the buffer is the wrapping sum of all bytes before it. */
  predicate SumMatches(data: seq<byte>)
    requires |data| >= 1
  {
    Sum8(data[..|data| - 1]) == data[|data| - 1]
  }

  /** `checksum_ok`: sums the first `length - 1` bytes with an 8-bit
      accumulator and compares with the last byte of the buffer. */
  method ChecksumOk(data: seq<byte>) returns (ok: bool)
    requires |data| >= 1
    ensures ok <==> SumMatches(data)
  {
    var sum: byte := 0;
    var i := 0;
    while i < |data| - 1
      invariant 0 <= i <= |data| - 1
      invariant sum == Sum8(data[..i])
    {
      assert data[..i + 1][..i] == data[..i];
      sum := (sum + data[i]) % 256;
      i := i + 1;
    }
    assert data[..i] == data[..|data| - 1];
    ok := sum == data[|data| - 1];
  }

  /** The bytes of one frame, checksum included, as the reply builders emit
      them and as the host tool builds its requests. */
  function Frame(address: byte, command: byte, param: byte, payload: seq<byte>): seq<byte>
    requires |payload| < 256
  {
    var body := [address, command, param, |payload|] + payload;
    body + [Sum8(body)]
  }

  /** Every frame built by `Frame` is complete, carries a matching checksum,
      and its fields read back as the values it was built from. */
  lemma FrameWellFormed(address: byte, command: byte, param: byte, payload: seq<byte>)
    requires |payload| < 256
    ensures var f := Frame(address, command, param, payload);
      && |f| == |payload| + 5
      && IsBull(f) && SumMatches(f)
      && f[0] == address && f[1] == command && f[2] == param && f[3] == |payload|
      && f[4..|f| - 1] == payload
  {
    var f := Frame(address, command, param, payload);
    assert f[..|f| - 1] == [address, command, param, |payload|] + payload;
  }

  /** Completion is decided by the first four bytes alone and, once reached,
      survives any further bytes appended to the buffer. */
  lemma IsBullStable(data: seq<byte>, more: seq<byte>)
    requires IsBull(data)
    ensures IsBull(data + more)
  {
    assert (data + more)[3] == data[3];
  }

  /** Changing any single byte of a frame whose checksum matches makes the
      checksum fail: the wrapping sum detects every one-byte corruption. */
  lemma {:induction false} SingleByteChangeDetected(f: seq<byte>, g: seq<byte>, k: nat)
    requires |f| == |g| && k < |f|
    requires SumMatches(f)
    requires f[k] != g[k]
    requires forall j :: 0 <= j < |f| && j != k ==> f[j] == g[j]
    ensures !SumMatches(g)
  {
    var n := |f| - 1;
    if k == n {
      assert f[..n] == g[..n];
    } else {
      assert f[n] == g[n];
      var a, b := f[..k], f[k + 1..n];
      assert f[..n] == (a + [f[k]]) + b;
      assert g[..n] == (a + [g[k]]) + b;
      ChangeInside(a, f[k], g[k], b);
    }
  }

  /** Sums of bytes that differ in one place differ. */
  lemma ChangeInside(a: seq<byte>, x: byte, y: byte, b: seq<byte>)
    requires x != y
    ensures Sum8((a + [x]) + b) != Sum8((a + [y]) + b)
  {
    var c := Sum8(a);
    assert Sum8(a + [x]) == (c + x) % 256 by {
      assert (a + [x])[..|a|] == a;
    }
    assert Sum8(a + [y]) == (c + y) % 256 by {
      assert (a + [y])[..|a|] == a;
    }
    Sum8Append(a + [x], b);
    Sum8Append(a + [y], b);
    WrapInjective(c, x, y, Sum8(b));
  }

  /** Adding different bytes to the same wrapping sum gives different sums. */
  lemma WrapInjective(c: byte, x: byte, y: byte, d: byte)
    requires x != y
    ensures ((c + x) % 256 + d) % 256 != ((c + y) % 256 + d) % 256
  {
  }
}
