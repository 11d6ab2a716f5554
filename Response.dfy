/** The response decoder `readresp`: a resynchronising, fragment
    reassembling reader of frames `[0xAB, op, len, seq, payload..., chk]`
    from a byte stream. */
module Response {
  import opened Results
  import opened Bytes
  import opened Frame

  /** Bit of the sequence byte that marks the last fragment. */
  const LastFragmentBit: byte := 0x80

  /** Why a read fails (the C returns -1 for all three). */
  datatype Error =
    | StreamClosed      // `Bgetc` hit the end of the stream
    | ResponseTooLarge  // a payload byte would land at or past `buf + buflen`
    | CorruptFrame      // the running sum of a frame was not zero

  /** Outcome of a whole read: the reassembled payload and the stream
      position after the last frame, or the error. */
  datatype Reply = Done(payload: seq<byte>, next: nat) | Failed(error: Error)

  /** What one frame, found at a start byte, does to the read. */
  datatype Step =
    | Resync(next: nat)                                // stray opcode: rescan from `next`
    | Fatal(error: Error)                              // the read fails
    | Accept(payload: seq<byte>, last: bool, next: nat) // payload to keep

  /** The echo test of the C (`c != cmd - 0x30` in `int`): the opcode byte
      of a response is the request opcode minus 0x30, without wrap-around,
      so no byte answers a request below 0x30. */
  predicate Echoes(c: byte, cmd: byte)
  {
    c as int == cmd as int - 0x30
  }

  /** The position of the first start byte at or after `i`. */
  function FindStart(s: seq<byte>, i: nat): (r: Option<nat>)
    requires i <= |s|
    ensures r.Some? ==> i <= r.value < |s| && s[r.value] == StartByte
    decreases |s| - i
  {
    if i == |s| then None
    else if s[i] == StartByte then Some(i)
    else FindStart(s, i + 1)
  }

  /** `FindStart` finds the first start byte: none lies before it, and
      when it finds none there is none. */
  lemma {:induction false} FindStartFirst(s: seq<byte>, i: nat)
    requires i <= |s|
    ensures FindStart(s, i).Some? ==> forall k :: i <= k < FindStart(s, i).value ==> s[k] != StartByte
    ensures FindStart(s, i).None? ==> forall k :: i <= k < |s| ==> s[k] != StartByte
    decreases |s| - i
  {
    if i < |s| && s[i] != StartByte {
      FindStartFirst(s, i + 1);
    }
  }

  /** The frame whose start byte is at `j`, when at most `room` more
      payload bytes fit into the caller's buffer.  Bytes are read in
      stream order; the buffer bound is checked before each payload byte
      is read, so a too-long payload fails with `ResponseTooLarge` exactly
      when the stream still holds the byte that does not fit. */
  function FrameAt(s: seq<byte>, j: nat, cmd: byte, room: nat): (r: Step)
    requires j < |s| && s[j] == StartByte
    ensures r.Resync? ==> r.next == j + 2 <= |s|
    ensures r.Accept? ==> j < r.next <= |s| && |r.payload| <= room
  {
    if j + 1 >= |s| then Fatal(StreamClosed)
    else if !Echoes(s[j + 1], cmd) then Resync(j + 2)
    else if j + 3 >= |s| then Fatal(StreamClosed)
    else
      var len := s[j + 2] as int;
      var avail := |s| - (j + 4);
      if len > room && room <= avail then Fatal(ResponseTooLarge)
      else if j + 4 + len >= |s| then Fatal(StreamClosed)
      else if SumRange(s, j, j + 5 + len) % 0x100 != 0 then Fatal(CorruptFrame)
      else Accept(s[j + 4..j + 4 + len], s[j + 3] >= LastFragmentBit, j + 5 + len)
  }

  /** A frame that answers `cmd`, fits, is complete and sums to zero is
      accepted. */
  lemma FrameAtAccept(s: seq<byte>, j: nat, cmd: byte, room: nat)
    requires j + 4 < |s| && s[j] == StartByte && Echoes(s[j + 1], cmd)
    requires s[j + 2] <= room && j + 4 + s[j + 2] < |s|
    requires SumRange(s, j, j + 5 + s[j + 2]) % 0x100 == 0
    ensures FrameAt(s, j, cmd, room) ==
      Accept(s[j + 4..j + 4 + s[j + 2]], s[j + 3] >= LastFragmentBit, j + 5 + s[j + 2])
  {
  }

  /** The read from position `i` of the stream `s`, with `acc` already in
      the caller's buffer of `buflen` bytes (the cursor `bp` is never
      reset, so payloads of successive fragments are concatenated). */
  function Decode(s: seq<byte>, i: nat, cmd: byte, acc: seq<byte>, buflen: nat): (r: Reply)
    requires i <= |s| && |acc| <= buflen
    decreases |s| - i
  {
    match FindStart(s, i)
    case None => Failed(StreamClosed)
    case Some(j) =>
      match FrameAt(s, j, cmd, buflen - |acc|)
      case Resync(n) => Decode(s, n, cmd, acc, buflen)
      case Fatal(e) => Failed(e)
      case Accept(p, last, n) =>
        if last then Done(acc + p, n) else Decode(s, n, cmd, acc + p, buflen)
  }

  /** One round of `Decode`, from the start byte found at `j`. */
  lemma DecodeFrom(s: seq<byte>, i: nat, cmd: byte, acc: seq<byte>, buflen: nat, j: nat)
    requires i <= |s| && |acc| <= buflen && FindStart(s, i) == Some(j)
    ensures Decode(s, i, cmd, acc, buflen) ==
      match FrameAt(s, j, cmd, buflen - |acc|)
      case Resync(n) => Decode(s, n, cmd, acc, buflen)
      case Fatal(e) => Failed(e)
      case Accept(p, last, n) =>
        if last then Done(acc + p, n) else Decode(s, n, cmd, acc + p, buflen)
  {
  }

  /** A round that resynchronises continues from the next position. */
  lemma DecodeResync(s: seq<byte>, i: nat, cmd: byte, acc: seq<byte>, buflen: nat, j: nat, n: nat)
    requires i <= |s| && |acc| <= buflen && FindStart(s, i) == Some(j)
    requires FrameAt(s, j, cmd, buflen - |acc|) == Resync(n)
    ensures n <= |s| && Decode(s, i, cmd, acc, buflen) == Decode(s, n, cmd, acc, buflen)
  {
  }

  /** A round that accepts a frame ends the read or continues after it. */
  lemma DecodeAccept(s: seq<byte>, i: nat, cmd: byte, acc: seq<byte>, buflen: nat, j: nat,
                     p: seq<byte>, last: bool, n: nat)
    requires i <= |s| && |acc| <= buflen && FindStart(s, i) == Some(j)
    requires FrameAt(s, j, cmd, buflen - |acc|) == Accept(p, last, n)
    ensures n <= |s| && |acc + p| <= buflen
    ensures last ==> Decode(s, i, cmd, acc, buflen) == Done(acc + p, n)
    ensures !last ==> Decode(s, i, cmd, acc, buflen) == Decode(s, n, cmd, acc + p, buflen)
  {
  }

  /** A `Biobuf` opened for reading: the bytes the device sends and the
      read position. */
  class Biobuf {
    const data: seq<byte>
    var pos: nat

    predicate Valid()
      reads this
    {
      pos <= |data|
    }

    constructor (data: seq<byte>)
      ensures Valid() && this.data == data && pos == 0
    {
      this.data := data;
      pos := 0;
    }

    /** `Bgetc`: the next byte, or -1 at the end of the stream. */
    method Getc() returns (c: int)
      requires Valid()
      modifies this
      ensures Valid()
      ensures old(pos) < |data| ==> c == data[old(pos)] && pos == old(pos) + 1
      ensures old(pos) == |data| ==> c == -1 && pos == old(pos)
    {
      if pos < |data| {
        c := data[pos];
        pos := pos + 1;
      } else {
        c := -1;
      }
    }
  }

  /** One step of the running `uchar` sum of `readresp`. */
  lemma SumStep(s: seq<byte>, j: nat, k: nat, sum: byte)
    requires j <= k < |s| && sum == SumRange(s, j, k) % 0x100
    ensures AddByte(sum, s[k]) == SumRange(s, j, k + 1) % 0x100
  {
    ModAddStep(SumRange(s, j, k), s[k]);
  }

  /** The payload loop of `readresp` (`while(pktlen-- > 0)`): stores `len`
      bytes at `buf[bp..]`, checking the bound before each byte is read,
      and adds them to the running sum of the frame starting at `j`. */
  method ReadPayload(bio: Biobuf, buf: array<byte>, bp: nat, buflen: nat, len: nat, sum: byte, ghost j: nat)
    returns (ok: bool, bp': nat, sum': byte)
    requires bio.Valid() && j <= bio.pos && bp <= buflen <= buf.Length
    requires sum == SumRange(bio.data, j, bio.pos) % 0x100
    modifies bio, buf
    ensures bio.Valid() && bp <= bp' <= buflen
    ensures buf[..bp] == old(buf[..bp]) && forall k :: buflen <= k < buf.Length ==> buf[k] == old(buf[k])
    ensures ok <==> len <= buflen - bp && len <= |bio.data| - old(bio.pos)
    ensures ok ==> bp' == bp + len && bio.pos == old(bio.pos) + len
    ensures ok ==> buf[..bp'] == old(buf[..bp]) + bio.data[old(bio.pos)..bio.pos]
    ensures ok ==> sum' == SumRange(bio.data, j, bio.pos) % 0x100
    ensures forall k :: bp' <= k < buf.Length ==> buf[k] == old(buf[k])
  {
    ghost var s := bio.data;
    ghost var pos0 := bio.pos;
    ghost var acc := buf[..bp];
    var pktlen := len;
    bp', sum' := bp, sum;
    while pktlen > 0
      invariant bio.Valid() && bp <= bp' <= buflen
      invariant bio.pos == pos0 + (bp' - bp) && pktlen == len - (bp' - bp) >= 0
      invariant buf[..bp'] == acc + s[pos0..bio.pos]
      invariant forall k :: bp' <= k < buf.Length ==> buf[k] == old(buf[k])
      invariant sum' == SumRange(s, j, bio.pos) % 0x100
      decreases pktlen
    {
      pktlen := pktlen - 1;
      if bp' >= buflen {
        return false, bp', sum';
      }
      var c := bio.Getc();
      if c < 0 {
        return false, bp', sum';
      }
      SumStep(s, j, bio.pos - 1, sum');
      assert s[pos0..bio.pos] == s[pos0..bio.pos - 1] + [c];
      buf[bp'] := c;
      bp' := bp' + 1;
      sum' := AddByte(sum', c);
    }
    assert buf[..bp] == acc;
    ok := true;
  }

  /** What `readresp` does after reading one frame. */
  datatype Verdict = Rescan | Abort | Complete

  /** The body of `readresp` after the start byte: the opcode, length and
      sequence bytes, the payload stored at `buf[bp..]`, and the checksum
      byte, with the running `uchar` sum over all of them. */
  method ReadFrame(bio: Biobuf, cmd: byte, buf: array<byte>, bp: nat, buflen: nat)
    returns (verdict: Verdict, bp': nat)
    requires bio.Valid() && 0 < bio.pos && bio.data[bio.pos - 1] == StartByte
    requires bp <= buflen <= buf.Length
    modifies bio, buf
    ensures bio.Valid() && bp <= bp' <= buflen
    ensures buf[..bp] == old(buf[..bp]) && forall k :: buflen <= k < buf.Length ==> buf[k] == old(buf[k])
    ensures match FrameAt(bio.data, old(bio.pos) - 1, cmd, buflen - bp)
      case Resync(n) => verdict == Rescan && bio.pos == n && bp' == bp
      case Fatal(_) => verdict == Abort
      case Accept(p, last, n) =>
        && verdict == (if last then Complete else Rescan)
        && bio.pos == n && buf[..bp'] == old(buf[..bp]) + p
    ensures forall k :: bp' <= k < buf.Length ==> buf[k] == old(buf[k])
  {
    ghost var s := bio.data;
    ghost var j := bio.pos - 1;
    ghost var acc := buf[..bp];
    ghost var step := FrameAt(s, j, cmd, buflen - bp);
    bp' := bp;
    var sum: byte := StartByte;
    assert sum == SumRange(s, j, bio.pos) % 0x100;
    var c := bio.Getc();
    if c < 0 {
      assert step == Fatal(StreamClosed);
      return Abort, bp';
    }
    if c != cmd as int - 0x30 {
      assert step == Resync(j + 2);
      return Rescan, bp';
    }
    SumStep(s, j, bio.pos - 1, sum);
    sum := AddByte(sum, c);
    c := bio.Getc();
    if c < 0 {
      assert step == Fatal(StreamClosed);
      return Abort, bp';
    }
    var pktlen := c;
    SumStep(s, j, bio.pos - 1, sum);
    sum := AddByte(sum, c);
    c := bio.Getc();
    if c < 0 {
      assert step == Fatal(StreamClosed);
      return Abort, bp';
    }
    var seqno: byte := c;
    SumStep(s, j, bio.pos - 1, sum);
    sum := AddByte(sum, c);
    assert Echoes(s[j + 1], cmd) && pktlen == s[j + 2] && seqno == s[j + 3] && bio.pos == j + 4;
    var ok;
    ok, bp', sum := ReadPayload(bio, buf, bp, buflen, pktlen, sum, j);
    if !ok {
      assert step.Fatal?;
      return Abort, bp';
    }
    c := bio.Getc();
    if c < 0 {
      assert step == Fatal(StreamClosed);
      return Abort, bp';
    }
    SumStep(s, j, bio.pos - 1, sum);
    sum := AddByte(sum, c);
    assert bio.pos == j + 5 + pktlen;
    if sum != 0 {
      assert step == Fatal(CorruptFrame);
      return Abort, bp';
    }
    FrameAtAccept(s, j, cmd, buflen - bp);
    verdict := if seqno < LastFragmentBit then Rescan else Complete;
  }

  /** The rescan loop at the label `Next` of `readresp`: reads and drops
      bytes up to and including the first start byte. */
  method SkipToStart(bio: Biobuf) returns (found: bool)
    requires bio.Valid()
    modifies bio
    ensures bio.Valid()
    ensures match FindStart(bio.data, old(bio.pos))
      case Some(j) => found && bio.pos == j + 1
      case None => !found && bio.pos == |bio.data|
  {
    ghost var pos0 := bio.pos;
    while true
      invariant bio.Valid() && pos0 <= bio.pos
      invariant FindStart(bio.data, pos0) == FindStart(bio.data, bio.pos)
      decreases |bio.data| - bio.pos
    {
      var c := bio.Getc();
      if c < 0 {
        return false;
      }
      if c == StartByte as int {
        return true;
      }
    }
  }

  /** `readresp`: reads frames answering `cmd` from `bio` into
      `buf[0..buflen)`; returns the total payload length, or -1. */
  method ReadResp(bio: Biobuf, cmd: byte, buf: array<byte>, buflen: nat) returns (r: int)
    requires bio.Valid() && buflen <= buf.Length
    modifies bio, buf
    ensures bio.Valid()
    ensures match Decode(bio.data, old(bio.pos), cmd, [], buflen)
      case Done(p, n) => r == |p| <= buflen && buf[..r] == p && bio.pos == n
      case Failed(_) => r == -1
    ensures forall k :: buflen <= k < buf.Length ==> buf[k] == old(buf[k])
    ensures r >= 0 ==> forall k :: r <= k < buf.Length ==> buf[k] == old(buf[k])
  {
    ghost var s := bio.data;
    ghost var goal := Decode(s, bio.pos, cmd, [], buflen);
    var bp: nat := 0;
    assert buf[..bp] == [];
    while true
      invariant bio.Valid() && bp <= buflen
      invariant goal == Decode(s, bio.pos, cmd, buf[..bp], buflen)
      invariant forall k :: bp <= k < buf.Length ==> buf[k] == old(buf[k])
      decreases |s| - bio.pos
    {
      ghost var pos0 := bio.pos;
      ghost var acc := buf[..bp];
      var found := SkipToStart(bio);
      if !found {
        assert goal == Failed(StreamClosed);
        return -1;
      }
      ghost var j := bio.pos - 1;
      DecodeFrom(s, pos0, cmd, acc, buflen, j);
      ghost var step := FrameAt(s, j, cmd, buflen - bp);
      var verdict;
      verdict, bp := ReadFrame(bio, cmd, buf, bp, buflen);
      if verdict == Abort {
        assert goal.Failed? by {
          assert step.Fatal?;
        }
        return -1;
      } else if verdict == Complete {
        assert step.Accept? && step.last;
        assert goal == Done(buf[..bp], bio.pos);
        return bp;
      }
    }
  }
}
