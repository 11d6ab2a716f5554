/** Outgoing command frames `[0xAB, len, payload..., chk]` and the
    checksum test for incoming frames. */
module Frame {
  import opened Bytes

  /** The byte every frame starts with. */
  const StartByte: byte := 0xAB

  /** Size of the command buffer in `sendwrcmd`. */
  const CommandBufferSize: nat := 128

  /** `chksum`: the byte that, added to the first `buf[1] as int + 2` bytes of
      `buf` (start byte, length and payload), makes the sum vanish modulo
      256.  Computed as in the C, by subtracting every byte from a `uchar`
      that starts at 0. */
  method Chksum(buf: array<byte>) returns (c: byte)
    requires 2 <= buf.Length && buf[1] as int + 2 <= buf.Length
    ensures (ByteSum(buf[..buf[1] as int + 2]) + c) % 0x100 == 0
  {
    ghost var b := buf[..];
    c := 0;
    var i: nat := 0;
    assert c == Negate(SumRange(b, 0, i));
    while i < buf[1] as int + 2
      invariant 0 <= i <= buf[1] as int + 2
      invariant c == Negate(SumRange(b, 0, i))
    {
      NegateStep(SumRange(b, 0, i), buf[i]);
      c := (c - buf[i]) % 0x100;
      i := i + 1;
      assert c == Negate(SumRange(b, 0, i));
    }
    SliceSum(b, 0, i);
    assert b[0..i] == buf[..i];
  }

  /** Frame sums to zero: the property every frame on the wire has. */
  predicate SumsToZero(frame: seq<byte>)
  {
    ByteSum(frame) % 0x100 == 0
  }

  /** `sendrdcmd`, frame construction only: the four bytes
      `[0xAB, 1, cmd, chk]` handed to the transport. */
  method SendRdCmd(cmd: byte) returns (frame: seq<byte>)
    ensures |frame| == 4 && frame[..3] == [StartByte, 1, cmd]
    ensures SumsToZero(frame)
  {
    var buf := new byte[4];
    buf[0] := StartByte;
    buf[1] := 1;
    buf[2] := cmd;
    var c := Chksum(buf);
    assert buf[..3] == buf[..buf[1] as int + 2];
    buf[3] := c;
    frame := buf[..];
    assert frame == frame[..3] + [c];
    ByteSumAppend(frame[..3], [c]);
  }

  /** `sendwrcmd`, frame construction only: `[0xAB, cmdlen, cmd...,
      chk]`, `cmdlen + 3` bytes.  The C copies into a 128-byte local
      buffer without checking, so callers must keep `cmdlen <= 125`. */
  method SendWrCmd(cmd: array<byte>, cmdlen: nat) returns (frame: seq<byte>)
    requires cmdlen <= cmd.Length
    requires cmdlen + 3 <= CommandBufferSize
    ensures |frame| == cmdlen + 3
    ensures frame[0] == StartByte && frame[1] == cmdlen
    ensures frame[2..cmdlen + 2] == cmd[..cmdlen]
    ensures SumsToZero(frame)
  {
    var buf := new byte[CommandBufferSize];
    buf[0] := StartByte;
    buf[1] := cmdlen;
    forall k | 0 <= k < cmdlen {
      buf[2 + k] := cmd[k];
    }
    var c := Chksum(buf);
    buf[2 + cmdlen] := c;
    frame := buf[..2 + cmdlen + 1];
    assert frame == buf[..cmdlen + 2] + [c] by {
      assert buf[..cmdlen + 2] == frame[..cmdlen + 2];
    }
    ByteSumAppend(buf[..cmdlen + 2], [c]);
  }

  /** The checksum test of `validpkt` on a response frame
      `[0xAB, op, len, seq, payload..., chk]`: its first `5 + pkt[2] as int` bytes
      sum to zero modulo 256. */
  predicate PacketValid(pkt: seq<byte>)
    requires 3 <= |pkt| && 5 + pkt[2] as int <= |pkt|
  {
    SumsToZero(pkt[..5 + pkt[2] as int])
  }

  /** `validpkt`: adds the first `5 + pkt[2] as int` bytes into a `uchar` and
      tests it for zero.  The C reads those bytes unchecked, so the packet
      must hold them. */
  method ValidPkt(pkt: array<byte>) returns (ok: bool)
    requires 3 <= pkt.Length && 5 + pkt[2] as int <= pkt.Length
    ensures ok == PacketValid(pkt[..])
  {
    ghost var b := pkt[..];
    var c: byte := 0;
    var i: nat := 0;
    while i < 5 + pkt[2] as int
      invariant 0 <= i <= 5 + pkt[2] as int
      invariant c == SumRange(b, 0, i) % 0x100
    {
      ModAddStep(SumRange(b, 0, i), pkt[i]);
      c := AddByte(c, pkt[i]);
      i := i + 1;
    }
    SliceSum(b, 0, i);
    assert b[0..i] == pkt[..i];
    ok := c == 0;
  }
}
