/** What the response decoder promises: bounds, resynchronisation, fatal
    checksum failures, fragment reassembly, the failure of truncated and
    oversized replies, agreement with `validpkt`, and that a read depends
    only on the bytes it consumes. */
module ResponseProps {
  import opened Results
  import opened Bytes
  import opened Frame
  import opened Response

  // ---------------------------------------------------------------------
  // Bounds

  /** A successful read keeps what the buffer already held, never passes
      `buflen`, and consumes at least one byte of the stream. */
  lemma {:induction false} DecodeBounds(s: seq<byte>, i: nat, cmd: byte, acc: seq<byte>, buflen: nat)
    requires i <= |s| && |acc| <= buflen
    ensures Decode(s, i, cmd, acc, buflen).Done? ==>
      var r := Decode(s, i, cmd, acc, buflen);
      |acc| <= |r.payload| <= buflen && r.payload[..|acc|] == acc && i < r.next <= |s|
    decreases |s| - i
  {
    match FindStart(s, i)
    case None =>
    case Some(j) =>
      match FrameAt(s, j, cmd, buflen - |acc|)
      case Resync(n) =>
        DecodeBounds(s, n, cmd, acc, buflen);
      case Fatal(_) =>
      case Accept(p, last, n) =>
        if !last {
          DecodeBounds(s, n, cmd, acc + p, buflen);
          var r := Decode(s, n, cmd, acc + p, buflen);
          if r.Done? {
            assert r.payload[..|acc|] == r.payload[..|acc + p|][..|acc|];
          }
        }
  }

  // ---------------------------------------------------------------------
  // Resynchronisation

  /** Bytes other than the start byte are skipped. */
  lemma {:induction false} FindStartSkip(s: seq<byte>, i: nat, k: nat)
    requires i <= k <= |s|
    requires forall m :: i <= m < k ==> s[m] != StartByte
    ensures FindStart(s, i) == FindStart(s, k)
    decreases k - i
  {
    if i < k {
      FindStartSkip(s, i + 1, k);
    }
  }

  /** Noise before the start byte does not change the read. */
  lemma SkipNoise(s: seq<byte>, i: nat, k: nat, cmd: byte, acc: seq<byte>, buflen: nat)
    requires i <= k <= |s| && |acc| <= buflen
    requires forall m :: i <= m < k ==> s[m] != StartByte
    ensures Decode(s, i, cmd, acc, buflen) == Decode(s, k, cmd, acc, buflen)
  {
    FindStartSkip(s, i, k);
  }

  /** A start byte followed by a byte that is not the echo of `cmd` is
      dropped together with that byte, even when that byte is itself a
      start byte, and scanning resumes after it; this is not an error. */
  lemma MismatchDropped(s: seq<byte>, j: nat, cmd: byte, acc: seq<byte>, buflen: nat)
    requires j + 1 < |s| && s[j] == StartByte && !Echoes(s[j + 1], cmd) && |acc| <= buflen
    ensures Decode(s, j, cmd, acc, buflen) == Decode(s, j + 2, cmd, acc, buflen)
  {
  }

  /** The echo is the request opcode minus 0x30 in `int`: a second start
      byte right after a start byte is only kept for the request 0xDB. */
  lemma StartByteEchoes(cmd: byte)
    ensures Echoes(StartByte, cmd) <==> cmd == 0xDB
  {
  }

  /** A frame for another opcode is absorbed whole when no start byte
      occurs after its opcode byte. */
  lemma ForeignFrameAbsorbed(s: seq<byte>, i: nat, op: byte, tail: seq<byte>,
                             cmd: byte, acc: seq<byte>, buflen: nat)
    requires i + 2 + |tail| <= |s| && s[i..i + 2 + |tail|] == [StartByte, op] + tail
    requires !Echoes(op, cmd) && StartByte !in tail && |acc| <= buflen
    ensures Decode(s, i, cmd, acc, buflen) == Decode(s, i + 2 + |tail|, cmd, acc, buflen)
  {
    ForeignFrameBytes(s, i, op, tail);
    MismatchDropped(s, i, cmd, acc, buflen);
    SkipNoise(s, i + 2, i + 2 + |tail|, cmd, acc, buflen);
  }

  /** The bytes of a foreign frame, position by position. */
  lemma ForeignFrameBytes(s: seq<byte>, i: nat, op: byte, tail: seq<byte>)
    requires i + 2 + |tail| <= |s| && s[i..i + 2 + |tail|] == [StartByte, op] + tail
    requires StartByte !in tail
    ensures s[i] == StartByte && s[i + 1] == op
    ensures forall m :: i + 2 <= m < i + 2 + |tail| ==> s[m] != StartByte
  {
    var w := [StartByte, op] + tail;
    assert s[i] == w[0] && s[i + 1] == w[1];
    forall m | i + 2 <= m < i + 2 + |tail|
      ensures s[m] != StartByte
    {
      assert s[m] == w[m - i] == tail[m - (i + 2)];
    }
  }

  /** No byte echoes a request opcode below 0x30, so every such read fails. */
  lemma {:induction false} NoAnswerBelow0x30(s: seq<byte>, i: nat, cmd: byte, acc: seq<byte>, buflen: nat)
    requires i <= |s| && |acc| <= buflen && cmd < 0x30
    ensures Decode(s, i, cmd, acc, buflen).Failed?
    decreases |s| - i
  {
    match FindStart(s, i)
    case None =>
    case Some(j) =>
      match FrameAt(s, j, cmd, buflen - |acc|)
      case Resync(n) =>
        NoAnswerBelow0x30(s, n, cmd, acc, buflen);
      case Fatal(_) =>
      case Accept(_, _, _) =>
        assert false;
  }

  // ---------------------------------------------------------------------
  // Checksum failure and validpkt

  /** A complete, fitting frame that answers `cmd` but does not sum to
      zero fails the whole read, whatever follows it in the stream. */
  lemma CorruptFrameFatal(s: seq<byte>, i: nat, j: nat, cmd: byte, acc: seq<byte>, buflen: nat)
    requires i <= j && j + 4 < |s| && |acc| <= buflen
    requires forall m :: i <= m < j ==> s[m] != StartByte
    requires s[j] == StartByte && Echoes(s[j + 1], cmd)
    requires |acc| + s[j + 2] <= buflen && j + 4 + s[j + 2] < |s|
    requires !SumsToZero(s[j..j + 5 + s[j + 2]])
    ensures Decode(s, i, cmd, acc, buflen) == Failed(CorruptFrame)
  {
    FindStartSkip(s, i, j);
    SliceSum(s, j, j + 5 + s[j + 2]);
  }

  /** For a complete, fitting frame that answers `cmd`, the read accepts
      the frame exactly when `validpkt` holds of it, and fails with a
      corrupt frame exactly when it does not. */
  lemma ValidPktAgrees(s: seq<byte>, j: nat, cmd: byte, room: nat)
    requires j + 4 < |s| && s[j] == StartByte && Echoes(s[j + 1], cmd)
    requires s[j + 2] <= room && j + 4 + s[j + 2] < |s|
    ensures FrameAt(s, j, cmd, room).Accept? <==> PacketValid(s[j..])
    ensures FrameAt(s, j, cmd, room) == Fatal(CorruptFrame) <==> !PacketValid(s[j..])
  {
    var len := s[j + 2] as int;
    assert s[j..][2] == s[j + 2];
    assert s[j..][..5 + len] == s[j..j + 5 + len];
    SliceSum(s, j, j + 5 + len);
  }

  // ---------------------------------------------------------------------
  // Reassembly of fragments

  /** A response frame as the device sends it: start byte, echoed opcode,
      length, sequence byte, payload and a checksum that makes the frame
      sum to zero. */
  function ResponseFrame(op: byte, seqno: byte, p: seq<byte>): (f: seq<byte>)
    requires |p| < 0x100
    ensures |f| == |p| + 5 && f[0] == StartByte && f[2] == |p|
  {
    [StartByte, op, |p|, seqno] + p + [Negate(StartByte + op + |p| + seqno + ByteSum(p))]
  }

  /** Every response frame built this way passes the checksum test. */
  lemma ResponseFrameSums(op: byte, seqno: byte, p: seq<byte>)
    requires |p| < 0x100
    ensures SumsToZero(ResponseFrame(op, seqno, p))
  {
    var h: seq<byte> := [StartByte, op, |p|, seqno];
    var c := Negate(StartByte + op + |p| + seqno + ByteSum(p));
    ByteSumAppend(h, p);
    ByteSumAppend(h + p, [c]);
    assert SumRange(h, 0, 2) == StartByte + op;
    assert SumRange(h, 0, 4) == StartByte + op + |p| + seqno;
    assert SumRange([c], 0, 1) == c;
  }

  /** A frame accepted at `j`, as `FrameAt` sees a `ResponseFrame`. */
  lemma FrameAtResponseFrame(s: seq<byte>, j: nat, cmd: byte, room: nat, seqno: byte, p: seq<byte>)
    requires |p| < 0x100 && cmd >= 0x30 && |p| <= room
    requires j + |p| + 5 <= |s| && s[j..j + |p| + 5] == ResponseFrame(cmd - 0x30, seqno, p)
    ensures FrameAt(s, j, cmd, room) == Accept(p, seqno >= LastFragmentBit, j + |p| + 5)
  {
    var f := ResponseFrame(cmd - 0x30, seqno, p);
    assert s[j] == f[0] && s[j + 1] == f[1] && s[j + 2] == f[2] && s[j + 3] == f[3];
    ResponseFrameSums(cmd - 0x30, seqno, p);
    SliceSum(s, j, j + |p| + 5);
    SliceOfSlice(s, j, j + |p| + 5, 4, 4 + |p|);
    assert f[4..4 + |p|] == p;
    FrameAtAccept(s, j, cmd, room);
  }

  /** One physical frame of a reply. */
  datatype Fragment = Fragment(seqno: byte, payload: seq<byte>)

  /** Every payload of `fs` fits a length byte. */
  predicate PayloadsFit(fs: seq<Fragment>)
  {
    fs == [] || (|fs[0].payload| < 0x100 && PayloadsFit(fs[1..]))
  }

  /** A reply of one or more fragments: payloads fit a length byte, and
      only the last fragment has the last-fragment bit. */
  predicate WellFormedReply(fs: seq<Fragment>)
  {
    && |fs| > 0
    && PayloadsFit(fs)
    && (forall k :: 0 <= k < |fs| - 1 ==> fs[k].seqno < LastFragmentBit)
    && fs[|fs| - 1].seqno >= LastFragmentBit
  }

  /** The bytes on the wire for the fragments `fs`. */
  function Fragments(op: byte, fs: seq<Fragment>): seq<byte>
    requires PayloadsFit(fs)
  {
    if fs == [] then []
    else ResponseFrame(op, fs[0].seqno, fs[0].payload) + Fragments(op, fs[1..])
  }

  /** The payloads of `fs`, in order. */
  function Payloads(fs: seq<Fragment>): seq<byte>
  {
    if fs == [] then [] else fs[0].payload + Payloads(fs[1..])
  }

  /** Bytes on the wire for `fs`: five bytes of framing per fragment. */
  function WireLength(fs: seq<Fragment>): nat
  {
    if fs == [] then 0 else |fs[0].payload| + 5 + WireLength(fs[1..])
  }

  /** The fragments `fs` are accepted one after the other from `i` on,
      with `room` bytes left in the buffer. */
  predicate Carries(s: seq<byte>, i: nat, cmd: byte, room: nat, fs: seq<Fragment>)
    decreases |fs|
  {
    fs == [] ||
      var p := fs[0].payload;
      && i < |s| && s[i] == StartByte && |p| <= room
      && FrameAt(s, i, cmd, room) == Accept(p, fs[0].seqno >= LastFragmentBit, i + |p| + 5)
      && Carries(s, i + |p| + 5, cmd, room - |p|, fs[1..])
  }

  /** The fragments after the first form a reply too, and the first is
      not the last. */
  lemma WellFormedTail(fs: seq<Fragment>)
    requires WellFormedReply(fs) && |fs| > 1
    ensures WellFormedReply(fs[1..]) && fs[0].seqno < LastFragmentBit
  {
    assert forall k :: 0 <= k < |fs[1..]| ==> fs[1..][k] == fs[k + 1];
  }

  /** The payloads after what the buffer held, one fragment at a time. */
  lemma PayloadsCons(acc: seq<byte>, fs: seq<Fragment>)
    requires |fs| > 0
    ensures acc + fs[0].payload + Payloads(fs[1..]) == acc + Payloads(fs)
  {
  }

  /** The payload of a single fragment after what the buffer held. */
  lemma PayloadsSingle(acc: seq<byte>, fs: seq<Fragment>)
    requires |fs| == 1
    ensures acc + Payloads(fs) == acc + fs[0].payload && WireLength(fs) == |fs[0].payload| + 5
  {
    assert fs[1..] == [];
    assert fs[0].payload + [] == fs[0].payload;
  }

  /** One accepted fragment: the read either ends after it or goes on
      with its payload appended. */
  lemma CarriedRound(s: seq<byte>, i: nat, cmd: byte, fs: seq<Fragment>, acc: seq<byte>, buflen: nat)
    requires |acc| <= buflen && fs != [] && Carries(s, i, cmd, buflen - |acc|, fs)
    ensures |acc + fs[0].payload| <= buflen
    ensures Carries(s, i + |fs[0].payload| + 5, cmd, buflen - |acc + fs[0].payload|, fs[1..])
    ensures fs[0].seqno >= LastFragmentBit ==>
      Decode(s, i, cmd, acc, buflen) == Done(acc + fs[0].payload, i + |fs[0].payload| + 5)
    ensures fs[0].seqno < LastFragmentBit ==>
      Decode(s, i, cmd, acc, buflen) == Decode(s, i + |fs[0].payload| + 5, cmd, acc + fs[0].payload, buflen)
  {
    assert FindStart(s, i) == Some(i);
    DecodeAccept(s, i, cmd, acc, buflen, i, fs[0].payload, fs[0].seqno >= LastFragmentBit,
                 i + |fs[0].payload| + 5);
  }

  /** The last step of `ReassemblyCarried`, kept apart from `Decode`. */
  lemma ReassemblyStep(x: Reply, y: Reply, acc: seq<byte>, fs: seq<Fragment>, i: nat)
    requires |fs| > 1 && x == y
    requires y == Done(acc + fs[0].payload + Payloads(fs[1..]), i + |fs[0].payload| + 5 + WireLength(fs[1..]))
    ensures x == Done(acc + Payloads(fs), i + WireLength(fs))
  {
    PayloadsCons(acc, fs);
  }

  /** Accepted fragments read back as the in-order concatenation of their
      payloads. */
  lemma {:induction false} ReassemblyCarried(s: seq<byte>, i: nat, cmd: byte, fs: seq<Fragment>,
                                             acc: seq<byte>, buflen: nat)
    requires |acc| <= buflen && WellFormedReply(fs) && Carries(s, i, cmd, buflen - |acc|, fs)
    ensures Decode(s, i, cmd, acc, buflen) == Done(acc + Payloads(fs), i + WireLength(fs))
    decreases |fs|
  {
    CarriedRound(s, i, cmd, fs, acc, buflen);
    if |fs| == 1 {
      PayloadsSingle(acc, fs);
    } else {
      WellFormedTail(fs);
      ReassemblyCarried(s, i + |fs[0].payload| + 5, cmd, fs[1..], acc + fs[0].payload, buflen);
      ReassemblyStep(Decode(s, i, cmd, acc, buflen),
                     Decode(s, i + |fs[0].payload| + 5, cmd, acc + fs[0].payload, buflen), acc, fs, i);
    }
  }

  /** The wire bytes of `fs` split into the first frame and the rest. */
  lemma FragmentsSplit(s: seq<byte>, i: nat, op: byte, fs: seq<Fragment>)
    requires fs != [] && PayloadsFit(fs)
    requires i + |Fragments(op, fs)| <= |s| && s[i..i + |Fragments(op, fs)|] == Fragments(op, fs)
    ensures |Fragments(op, fs)| == |fs[0].payload| + 5 + |Fragments(op, fs[1..])|
    ensures s[i..i + |fs[0].payload| + 5] == ResponseFrame(op, fs[0].seqno, fs[0].payload)
    ensures var j := i + |fs[0].payload| + 5;
      s[j..j + |Fragments(op, fs[1..])|] == Fragments(op, fs[1..])
  {
    var f := ResponseFrame(op, fs[0].seqno, fs[0].payload);
    assert Fragments(op, fs) == f + Fragments(op, fs[1..]);
    SliceConcat(s, i, f, Fragments(op, fs[1..]));
  }

  /** A response frame at `i` followed by carried fragments carries them all. */
  lemma CarriesCons(s: seq<byte>, i: nat, cmd: byte, room: nat, fs: seq<Fragment>)
    requires cmd >= 0x30 && fs != [] && |fs[0].payload| < 0x100 && |fs[0].payload| <= room
    requires i + |fs[0].payload| + 5 <= |s|
    requires s[i..i + |fs[0].payload| + 5] == ResponseFrame(cmd - 0x30, fs[0].seqno, fs[0].payload)
    requires Carries(s, i + |fs[0].payload| + 5, cmd, room - |fs[0].payload|, fs[1..])
    ensures Carries(s, i, cmd, room, fs)
  {
    assert s[i] == s[i..i + |fs[0].payload| + 5][0];
    FrameAtResponseFrame(s, i, cmd, room, fs[0].seqno, fs[0].payload);
  }

  /** Fragments on the wire are accepted one after the other when their
      payloads fit the buffer. */
  lemma {:induction false} FragmentsCarried(s: seq<byte>, i: nat, cmd: byte, room: nat, fs: seq<Fragment>)
    requires cmd >= 0x30 && PayloadsFit(fs)
    requires i + |Fragments(cmd - 0x30, fs)| <= |s|
    requires s[i..i + |Fragments(cmd - 0x30, fs)|] == Fragments(cmd - 0x30, fs)
    requires |Payloads(fs)| <= room
    ensures Carries(s, i, cmd, room, fs) && |Fragments(cmd - 0x30, fs)| == WireLength(fs)
    decreases |fs|
  {
    if fs != [] {
      FragmentsSplit(s, i, cmd - 0x30, fs);
      FragmentsCarried(s, i + |fs[0].payload| + 5, cmd, room - |fs[0].payload|, fs[1..]);
      CarriesCons(s, i, cmd, room, fs);
    }
  }

  /** A reply sent as fragments reads back as the in-order concatenation
      of their payloads, appended to what the buffer held, and the read
      stops right after the last fragment. */
  lemma Reassembly(s: seq<byte>, i: nat, cmd: byte, fs: seq<Fragment>, acc: seq<byte>, buflen: nat)
    requires cmd >= 0x30 && WellFormedReply(fs)
    requires i + |Fragments(cmd - 0x30, fs)| <= |s|
    requires s[i..i + |Fragments(cmd - 0x30, fs)|] == Fragments(cmd - 0x30, fs)
    requires |acc| + |Payloads(fs)| <= buflen
    ensures Decode(s, i, cmd, acc, buflen) ==
      Done(acc + Payloads(fs), i + |Fragments(cmd - 0x30, fs)|)
  {
    FragmentsCarried(s, i, cmd, buflen - |acc|, fs);
    ReassemblyCarried(s, i, cmd, fs, acc, buflen);
  }

  // ---------------------------------------------------------------------
  // Truncated and oversized replies

  /** The header bytes of a response frame at `j`. */
  lemma ResponseFrameHeader(s: seq<byte>, j: nat, op: byte, seqno: byte, p: seq<byte>)
    requires |p| < 0x100 && j + |p| + 5 <= |s| && s[j..j + |p| + 5] == ResponseFrame(op, seqno, p)
    ensures s[j] == StartByte && s[j + 1] == op && s[j + 2] == |p| && s[j + 3] == seqno
  {
    var f := ResponseFrame(op, seqno, p);
    assert s[j] == f[0] && s[j + 1] == f[1] && s[j + 2] == f[2] && s[j + 3] == f[3];
  }

  /** A stream that ends inside a response frame fails the read, whether
      or not the payload would have fitted. */
  lemma CutFrameFails(t: seq<byte>, j: nat, cmd: byte, seqno: byte, p: seq<byte>,
                      acc: seq<byte>, buflen: nat)
    requires |p| < 0x100 && cmd >= 0x30 && |acc| <= buflen
    requires j <= |t| < j + |p| + 5 && t[j..] == ResponseFrame(cmd - 0x30, seqno, p)[..|t| - j]
    ensures Decode(t, j, cmd, acc, buflen).Failed?
  {
    var f := ResponseFrame(cmd - 0x30, seqno, p);
    if j < |t| {
      assert t[j] == t[j..][0] == f[0];
      assert FindStart(t, j) == Some(j);
      if j + 1 < |t| {
        assert t[j + 1] == t[j..][1] == f[1];
      }
      if j + 3 < |t| {
        assert t[j + 2] == t[j..][2] == f[2];
      }
      DecodeFrom(t, j, cmd, acc, buflen, j);
    }
  }

  /** A response frame at `i` that fits and is not the last fragment
      is accepted, and the read goes on after it. */
  lemma FrameContinues(t: seq<byte>, i: nat, j: nat, cmd: byte, seqno: byte, p: seq<byte>,
                       acc: seq<byte>, buflen: nat)
    requires |p| < 0x100 && cmd >= 0x30 && seqno < LastFragmentBit && |acc| + |p| <= buflen
    requires j == i + |p| + 5 <= |t| && t[i..j] == ResponseFrame(cmd - 0x30, seqno, p)
    ensures Decode(t, i, cmd, acc, buflen) == Decode(t, j, cmd, acc + p, buflen)
  {
    assert t[i] == t[i..j][0];
    FrameAtResponseFrame(t, i, cmd, buflen - |acc|, seqno, p);
    assert FindStart(t, i) == Some(i);
    DecodeAccept(t, i, cmd, acc, buflen, i, p, false, j);
  }

  /** A reply's first fragment, its payload and the fragments after it. */
  lemma ReplySplit(op: byte, fs: seq<Fragment>, acc: seq<byte>)
    requires WellFormedReply(fs)
    ensures |Fragments(op, fs)| == |fs[0].payload| + 5 + |Fragments(op, fs[1..])|
    ensures |acc + Payloads(fs)| == |acc + fs[0].payload| + |Payloads(fs[1..])|
    ensures |fs| == 1 ==> Fragments(op, fs[1..]) == [] && Payloads(fs[1..]) == []
    ensures |fs| > 1 ==> WellFormedReply(fs[1..]) && fs[0].seqno < LastFragmentBit
  {
    PayloadsCons(acc, fs);
    if |fs| > 1 {
      WellFormedTail(fs);
    }
  }

  /** A prefix of `a + b` at least as long as `a`: `a`, then a prefix of `b`. */
  lemma CutSplit(t: seq<byte>, i: nat, a: seq<byte>, b: seq<byte>)
    requires i + |a| <= |t| <= i + |a + b| && t[i..] == (a + b)[..|t| - i]
    ensures t[i..i + |a|] == a && t[i + |a|..] == b[..|t| - (i + |a|)]
  {
    assert t[i..i + |a|] == t[i..][..|a|];
    assert t[i + |a|..] == t[i..][|a|..];
  }

  /** A stream that ends, from `i` on, before the last fragment of a
      reply is complete fails the read. */
  lemma {:induction false} CutReplyFails(t: seq<byte>, i: nat, cmd: byte, fs: seq<Fragment>,
                                         acc: seq<byte>, buflen: nat)
    requires cmd >= 0x30 && WellFormedReply(fs) && |acc| + |Payloads(fs)| <= buflen
    requires i <= |t| < i + |Fragments(cmd - 0x30, fs)|
    requires t[i..] == Fragments(cmd - 0x30, fs)[..|t| - i]
    ensures Decode(t, i, cmd, acc, buflen).Failed?
    decreases |fs|
  {
    var op := cmd - 0x30;
    var p := fs[0].payload;
    var f := ResponseFrame(op, fs[0].seqno, p);
    var rest := Fragments(op, fs[1..]);
    assert Fragments(op, fs) == f + rest;
    if |t| < i + |p| + 5 {
      assert t[i..] == f[..|t| - i] by {
        assert (f + rest)[..|t| - i] == f[..|t| - i];
      }
      CutFrameFails(t, i, cmd, fs[0].seqno, p, acc, buflen);
    } else {
      var j := i + |p| + 5;
      assert |fs| > 1 && WellFormedReply(fs[1..]) && |acc + p| + |Payloads(fs[1..])| <= buflen
        && fs[0].seqno < LastFragmentBit by {
        ReplySplit(op, fs, acc);
      }
      assert t[i..j] == f && j <= |t| < j + |rest| && t[j..] == rest[..|t| - j] by {
        CutSplit(t, i, f, rest);
      }
      assert Decode(t, i, cmd, acc, buflen) == Decode(t, j, cmd, acc + p, buflen) by {
        FrameContinues(t, i, j, cmd, fs[0].seqno, p, acc, buflen);
      }
      CutReplyFails(t, j, cmd, fs[1..], acc + p, buflen);
    }
  }

  /** The stream cut `k` bytes into a reply, before its last fragment is
      complete: `readresp` never returns a partial reply. */
  lemma TruncatedReplyFails(s: seq<byte>, i: nat, cmd: byte, fs: seq<Fragment>,
                            k: nat, acc: seq<byte>, buflen: nat)
    requires cmd >= 0x30 && WellFormedReply(fs) && |acc| + |Payloads(fs)| <= buflen
    requires i + |Fragments(cmd - 0x30, fs)| <= |s|
    requires s[i..i + |Fragments(cmd - 0x30, fs)|] == Fragments(cmd - 0x30, fs)
    requires k < |Fragments(cmd - 0x30, fs)|
    ensures Decode(s[..i + k], i, cmd, acc, buflen).Failed?
  {
    var w := Fragments(cmd - 0x30, fs);
    var t := s[..i + k];
    assert t[i..] == s[i..i + |w|][..k];
    CutReplyFails(t, i, cmd, fs, acc, buflen);
  }

  /** A complete response frame whose payload does not fit the room left
      in the buffer fails as too large. */
  lemma OverflowFails(s: seq<byte>, j: nat, cmd: byte, seqno: byte, p: seq<byte>,
                      acc: seq<byte>, buflen: nat)
    requires |p| < 0x100 && cmd >= 0x30 && |acc| <= buflen && |acc| + |p| > buflen
    requires j + |p| + 5 <= |s| && s[j..j + |p| + 5] == ResponseFrame(cmd - 0x30, seqno, p)
    ensures Decode(s, j, cmd, acc, buflen) == Failed(ResponseTooLarge)
  {
    ResponseFrameHeader(s, j, cmd - 0x30, seqno, p);
    assert FindStart(s, j) == Some(j);
    DecodeFrom(s, j, cmd, acc, buflen, j);
  }

  /** A reply whose payloads, after what the buffer held, outgrow
      `buflen` fails as too large, even when every frame arrives. */
  lemma {:induction false} OverflowReplyFails(s: seq<byte>, i: nat, cmd: byte, fs: seq<Fragment>,
                                              acc: seq<byte>, buflen: nat)
    requires cmd >= 0x30 && WellFormedReply(fs) && |acc| <= buflen
    requires |acc| + |Payloads(fs)| > buflen
    requires i + |Fragments(cmd - 0x30, fs)| <= |s|
    requires s[i..i + |Fragments(cmd - 0x30, fs)|] == Fragments(cmd - 0x30, fs)
    ensures Decode(s, i, cmd, acc, buflen) == Failed(ResponseTooLarge)
    decreases |fs|
  {
    var op := cmd - 0x30;
    var p := fs[0].payload;
    var j := i + |p| + 5;
    assert j + |Fragments(op, fs[1..])| <= |s| && s[i..j] == ResponseFrame(op, fs[0].seqno, p)
      && s[j..j + |Fragments(op, fs[1..])|] == Fragments(op, fs[1..]) by {
      FragmentsSplit(s, i, op, fs);
    }
    if |acc| + |p| > buflen {
      OverflowFails(s, i, cmd, fs[0].seqno, p, acc, buflen);
    } else {
      assert |fs| > 1 && WellFormedReply(fs[1..]) && fs[0].seqno < LastFragmentBit
        && |acc + p| + |Payloads(fs[1..])| > buflen by {
        ReplySplit(op, fs, acc);
      }
      FrameContinues(s, i, j, cmd, fs[0].seqno, p, acc, buflen);
      OverflowReplyFails(s, j, cmd, fs[1..], acc + p, buflen);
    }
  }

  // ---------------------------------------------------------------------
  // A read depends only on the bytes it consumes

  /** A reply with its stream position moved by `d`. */
  function Shift(r: Reply, d: nat): Reply
  {
    match r
    case Done(p, n) => Done(p, n + d)
    case Failed(e) => Failed(e)
  }

  /** A sum over a range is the same after a prefix is put in front. */
  lemma SumRangeShift(pre: seq<byte>, s: seq<byte>, a: nat, b: nat)
    requires a <= b <= |s|
    ensures SumRange(pre + s, |pre| + a, |pre| + b) == SumRange(s, a, b)
  {
    SliceSum(pre + s, |pre| + a, |pre| + b);
    SliceSum(s, a, b);
    assert (pre + s)[|pre| + a..|pre| + b] == s[a..b];
  }

  /** The first start byte, seen after a prefix. */
  lemma {:induction false} FindStartShift(pre: seq<byte>, s: seq<byte>, i: nat)
    requires i <= |s|
    ensures FindStart(pre + s, |pre| + i) ==
      match FindStart(s, i) case None => None case Some(j) => Some(|pre| + j)
    decreases |s| - i
  {
    if i < |s| {
      assert (pre + s)[|pre| + i] == s[i];
      FindStartShift(pre, s, i + 1);
    }
  }

  /** A step with its stream positions moved by `d`. */
  function ShiftStep(st: Step, d: nat): Step
  {
    match st
    case Resync(n) => Resync(n + d)
    case Fatal(e) => Fatal(e)
    case Accept(p, last, n) => Accept(p, last, n + d)
  }

  /** A frame depends only on the stream from its start byte on. */
  lemma FrameAtLocal(s: seq<byte>, j: nat, cmd: byte, room: nat)
    requires j < |s| && s[j] == StartByte
    ensures s[j..][0] == StartByte
    ensures FrameAt(s, j, cmd, room) == ShiftStep(FrameAt(s[j..], 0, cmd, room), j)
  {
    var u := s[j..];
    assert u[0] == s[j];
    if j + 4 < |s| {
      assert u[1] == s[j + 1] && u[2] == s[j + 2] && u[3] == s[j + 3];
      var len := s[j + 2] as int;
      if j + 4 + len < |s| {
        SumRangeSlice(s, j, j + 5 + len, |s|);
        assert s[j..|s|] == u;
        assert u[4..4 + len] == s[j + 4..j + 4 + len];
      }
    } else if j + 1 < |s| {
      assert u[1] == s[j + 1];
    }
  }

  /** One frame, seen after a prefix. */
  lemma FrameAtShift(pre: seq<byte>, s: seq<byte>, j: nat, cmd: byte, room: nat)
    requires j < |s| && s[j] == StartByte
    ensures (pre + s)[|pre| + j] == StartByte
    ensures match FrameAt(s, j, cmd, room)
      case Resync(n) => FrameAt(pre + s, |pre| + j, cmd, room) == Resync(|pre| + n)
      case Fatal(e) => FrameAt(pre + s, |pre| + j, cmd, room) == Fatal(e)
      case Accept(p, last, n) => FrameAt(pre + s, |pre| + j, cmd, room) == Accept(p, last, |pre| + n)
  {
    var t := pre + s;
    assert t[|pre| + j] == s[j];
    assert t[|pre| + j..] == s[j..];
    FrameAtLocal(t, |pre| + j, cmd, room);
    FrameAtLocal(s, j, cmd, room);
  }

  /** A resynchronising round, seen with and without a prefix. */
  lemma ShiftResync(pre: seq<byte>, s: seq<byte>, i: nat, cmd: byte, acc: seq<byte>, buflen: nat,
                    j: nat, n: nat)
    requires i <= |s| && |acc| <= buflen && FindStart(s, i) == Some(j)
    requires FrameAt(s, j, cmd, buflen - |acc|) == Resync(n)
    ensures n <= |s|
    ensures Decode(pre + s, |pre| + i, cmd, acc, buflen) == Decode(pre + s, |pre| + n, cmd, acc, buflen)
  {
    FindStartShift(pre, s, i);
    FrameAtShift(pre, s, j, cmd, buflen - |acc|);
    DecodeResync(pre + s, |pre| + i, cmd, acc, buflen, |pre| + j, |pre| + n);
  }

  /** A failing round, seen with and without a prefix. */
  lemma ShiftFatal(pre: seq<byte>, s: seq<byte>, i: nat, cmd: byte, acc: seq<byte>, buflen: nat,
                   j: nat, e: Error)
    requires i <= |s| && |acc| <= buflen && FindStart(s, i) == Some(j)
    requires FrameAt(s, j, cmd, buflen - |acc|) == Fatal(e)
    ensures Decode(pre + s, |pre| + i, cmd, acc, buflen) == Failed(e)
  {
    FindStartShift(pre, s, i);
    FrameAtShift(pre, s, j, cmd, buflen - |acc|);
    DecodeFrom(pre + s, |pre| + i, cmd, acc, buflen, |pre| + j);
  }

  /** An accepting round, seen with and without a prefix. */
  lemma ShiftAccept(pre: seq<byte>, s: seq<byte>, i: nat, cmd: byte, acc: seq<byte>, buflen: nat,
                    j: nat, p: seq<byte>, last: bool, n: nat)
    requires i <= |s| && |acc| <= buflen && FindStart(s, i) == Some(j)
    requires FrameAt(s, j, cmd, buflen - |acc|) == Accept(p, last, n)
    ensures n <= |s| && |acc + p| <= buflen
    ensures last ==> Decode(pre + s, |pre| + i, cmd, acc, buflen) == Done(acc + p, |pre| + n)
    ensures !last ==>
      Decode(pre + s, |pre| + i, cmd, acc, buflen) == Decode(pre + s, |pre| + n, cmd, acc + p, buflen)
  {
    FindStartShift(pre, s, i);
    FrameAtShift(pre, s, j, cmd, buflen - |acc|);
    DecodeAccept(pre + s, |pre| + i, cmd, acc, buflen, |pre| + j, p, last, |pre| + n);
  }

  /** A read from position `i` depends only on the stream from `i` on: a
      prefix in front moves the positions and changes nothing else. */
  lemma {:induction false} DecodeShift(pre: seq<byte>, s: seq<byte>, i: nat, cmd: byte,
                                       acc: seq<byte>, buflen: nat)
    requires i <= |s| && |acc| <= buflen
    ensures Decode(pre + s, |pre| + i, cmd, acc, buflen) == Shift(Decode(s, i, cmd, acc, buflen), |pre|)
    decreases |s| - i
  {
    match FindStart(s, i)
    case None =>
      FindStartShift(pre, s, i);
    case Some(j) =>
      match FrameAt(s, j, cmd, buflen - |acc|)
      case Resync(n) =>
        DecodeResync(s, i, cmd, acc, buflen, j, n);
        ShiftResync(pre, s, i, cmd, acc, buflen, j, n);
        DecodeShift(pre, s, n, cmd, acc, buflen);
      case Fatal(e) =>
        DecodeFrom(s, i, cmd, acc, buflen, j);
        ShiftFatal(pre, s, i, cmd, acc, buflen, j, e);
      case Accept(p, last, n) =>
        DecodeAccept(s, i, cmd, acc, buflen, j, p, last, n);
        ShiftAccept(pre, s, i, cmd, acc, buflen, j, p, last, n);
        if !last {
          DecodeShift(pre, s, n, cmd, acc + p, buflen);
        }
  }

  /** Noise without a start byte in front of a stream gives the reply of
      the stream without it. */
  lemma NoisePrefix(noise: seq<byte>, s: seq<byte>, cmd: byte, buflen: nat)
    requires StartByte !in noise
    ensures Decode(noise + s, 0, cmd, [], buflen) == Shift(Decode(s, 0, cmd, [], buflen), |noise|)
  {
    var t := noise + s;
    forall m | 0 <= m < |noise|
      ensures t[m] != StartByte
    {
      assert t[m] == noise[m];
    }
    SkipNoise(t, 0, |noise|, cmd, [], buflen);
    DecodeShift(noise, s, 0, cmd, [], buflen);
  }

  /** A frame that does not fail reads the same with bytes appended to
      the stream. */
  lemma FrameAtExtend(s: seq<byte>, rest: seq<byte>, j: nat, cmd: byte, room: nat)
    requires j < |s| && s[j] == StartByte && !FrameAt(s, j, cmd, room).Fatal?
    ensures (s + rest)[j] == StartByte
    ensures FrameAt(s + rest, j, cmd, room) == FrameAt(s, j, cmd, room)
  {
    var t := s + rest;
    assert t[j] == s[j] && t[j + 1] == s[j + 1];
    if Echoes(s[j + 1], cmd) {
      assert t[j + 2] == s[j + 2] && t[j + 3] == s[j + 3];
      var len := s[j + 2] as int;
      SumRangeExtend(s, rest, j, j + 5 + len);
      assert t[j + 4..j + 4 + len] == s[j + 4..j + 4 + len];
    }
  }

  /** The stream past the last frame is never looked at. */
  lemma {:induction false} DecodeIgnoresRest(s: seq<byte>, i: nat, cmd: byte, acc: seq<byte>,
                                             buflen: nat, rest: seq<byte>)
    requires i <= |s| && |acc| <= buflen && Decode(s, i, cmd, acc, buflen).Done?
    ensures Decode(s + rest, i, cmd, acc, buflen) == Decode(s, i, cmd, acc, buflen)
    decreases |s| - i
  {
    var j := FindStart(s, i).value;
    FindStartPrefix(s, rest, i);
    DecodeFrom(s, i, cmd, acc, buflen, j);
    DecodeFrom(s + rest, i, cmd, acc, buflen, j);
    FrameAtExtend(s, rest, j, cmd, buflen - |acc|);
    match FrameAt(s, j, cmd, buflen - |acc|)
    case Resync(n) =>
      DecodeIgnoresRest(s, n, cmd, acc, buflen, rest);
    case Accept(p, last, n) =>
      if !last {
        DecodeIgnoresRest(s, n, cmd, acc + p, buflen, rest);
      }
  }

  /** A range sum is unchanged by bytes appended after the range. */
  lemma SumRangeExtend(s: seq<byte>, rest: seq<byte>, a: nat, b: nat)
    requires a <= b
    ensures b <= |s| ==> SumRange(s + rest, a, b) == SumRange(s, a, b)
  {
    if b <= |s| {
      SliceSum(s + rest, a, b);
      SliceSum(s, a, b);
      assert (s + rest)[a..b] == s[a..b];
    }
  }

  /** The first start byte, when there is one, is found again with bytes
      appended after it. */
  lemma {:induction false} FindStartPrefix(s: seq<byte>, rest: seq<byte>, i: nat)
    requires i <= |s|
    ensures FindStart(s, i).Some? ==> FindStart(s + rest, i) == FindStart(s, i)
    decreases |s| - i
  {
    if i < |s| {
      assert (s + rest)[i] == s[i];
      FindStartPrefix(s, rest, i + 1);
    }
  }
}
