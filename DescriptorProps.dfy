/** An encoder for the UPS descriptor, and what `init` reads back from
    it: the descriptor, whatever the bytes it skips hold. */
module DescriptorProps {
  import opened Results
  import opened Bytes
  import opened Descriptor

  /** The bytes of a reply that `init` skips or does not keep: the CPU
      list, the rating width flag, the phase bytes, the padding after
      the identification string, the map, alarm and statistics lists,
      and the reserved byte before the command list size. */
  datatype Filler = Filler(
    cpuInfo: seq<byte>,
    flag: byte,
    phase: seq<byte>,
    idPad: seq<byte>,
    mapInfo: seq<byte>,
    alarmInfo: seq<byte>,
    statMap: seq<byte>,
    reserved: byte)

  /** `d` can be sent with the filler `f`: the lists have the lengths
      their counts say, the rating is a whole number of units that fits
      the width the flag selects, and the identification string has no
      NUL and, with its padding (which starts with a NUL), fits a length
      byte. */
  predicate Encodable(d: Descriptor, f: Filler)
  {
    && |f.cpuInfo| == 2 * d.ncpus
    && d.va % VaPerUnit == 0
    && d.va / VaPerUnit < (if f.flag != 0 then 0x100 else 0x1_0000)
    && |f.phase| == 2
    && (forall k :: 0 <= k < |d.id| ==> d.id[k] != 0)
    && (f.idPad != [] ==> f.idPad[0] == 0)
    && |d.id| + |f.idPad| < 0x100
    && |f.mapInfo| == d.nmaps
    && |f.alarmInfo| == d.nalarms
    && |f.statMap| == d.statmapsz
  }

  /** The width flag, the rating and the phase bytes.  With a non-zero
      flag the one-byte rating is also the first phase byte. */
  function RatingBytes(flag: byte, raw: u16, phase: seq<byte>): (r: seq<byte>)
    requires |phase| == 2 && (flag != 0 ==> raw < 0x100)
    ensures |r| == if flag != 0 then 3 else 5
  {
    if flag != 0 then [flag, raw, phase[1]] else [0] + LE16(raw) + phase
  }

  /** The reply that carries `d`, field after field; each field is
      followed by the rest of the reply. */
  function Encode(d: Descriptor, f: Filler): seq<byte>
    requires Encodable(d, f)
  {
    var s := d.id + f.idPad;
    ([d.ncpus] + f.cpuInfo) +
    (RatingBytes(f.flag, d.va / VaPerUnit, f.phase) +
    (([|s|] + s) +
    (([d.nmaps] + f.mapInfo) +
    (([d.nalarms] + f.alarmInfo) +
    (LE16(d.cfgblksz) +
    (([d.statmapsz] + f.statMap) +
    (LE16(d.almlogsz) +
    (LE16(d.evtlogsz) +
    (LE16(d.topblksz) +
    ([f.reserved] +
    (LE16(d.cmdlstsz) +
    (LE16(d.outblksz) +
     LE16(d.almblksz)))))))))))))
  }

  // ---------------------------------------------------------------------
  // Reading back, field by field

  /** `strncpy` stops at the first NUL: a string without NUL followed
      by padding that starts with one is read back as the string. */
  lemma {:induction false} UntilNulPadded(s: seq<byte>, pad: seq<byte>)
    requires forall k :: 0 <= k < |s| ==> s[k] != 0
    requires pad != [] ==> pad[0] == 0
    ensures UntilNul(s + pad) == s
  {
    if s != [] {
      assert (s + pad)[1..] == s[1..] + pad;
      UntilNulPadded(s[1..], pad);
    }
  }

  /** Each field read on bytes that hold the field and then `post`
      reads the field's value and stops at `j`, where `post` starts. */
  lemma CountedSuffix(b: seq<byte>, i: nat, c: byte, skip: seq<byte>, post: seq<byte>, w: nat)
    returns (j: nat)
    requires i <= |b| && b[i..] == [c] + skip + post && |skip| == w * c
    ensures j == i + 1 + w * c && j <= |b| && b[j..] == post
    ensures Counted(b, i, w) == Ok(Read(c, j))
  {
    j := i + 1 + w * c;
    assert b[i] == b[i..][0];
    assert b[j..] == b[i..][1 + w * c..];
  }

  lemma RatingSuffix(b: seq<byte>, i: nat, flag: byte, raw: u16, phase: seq<byte>, post: seq<byte>)
    returns (j: nat)
    requires |phase| == 2 && (flag != 0 ==> raw < 0x100)
    requires i <= |b| && b[i..] == RatingBytes(flag, raw, phase) + post
    ensures j == i + |RatingBytes(flag, raw, phase)| && j <= |b| && b[j..] == post
    ensures Rating(b, i) == Ok(Read(raw, j))
  {
    var x := RatingBytes(flag, raw, phase);
    j := i + |x|;
    assert b[i] == b[i..][0] == flag;
    assert b[i + 1] == b[i..][1] == x[1];
    assert b[i + 2] == b[i..][2] == x[2];
    assert b[j..] == b[i..][|x|..];
  }

  lemma IdSuffix(b: seq<byte>, i: nat, s: seq<byte>, post: seq<byte>) returns (j: nat)
    requires |s| < 0x100 && i <= |b| && b[i..] == [|s|] + s + post
    ensures j == i + 1 + |s| && j <= |b| && b[j..] == post
    ensures IdField(b, i) == Ok(Read(UntilNul(s), j))
  {
    j := i + 1 + |s|;
    IdLayout(b, i, s, post);
    IdFieldOf(b, i, s);
  }

  lemma IdLayout(b: seq<byte>, i: nat, s: seq<byte>, post: seq<byte>)
    requires i <= |b| && b[i..] == [|s|] + s + post
    ensures i + 1 + |s| <= |b| && b[i] as int == |s|
    ensures b[i + 1..i + 1 + |s|] == s && b[i + 1 + |s|..] == post
  {
    assert b[i] == b[i..][0];
    assert b[i + 1..i + 1 + |s|] == b[i..][1..1 + |s|];
    assert b[i + 1 + |s|..] == b[i..][1 + |s|..];
  }

  lemma IdFieldOf(b: seq<byte>, i: nat, s: seq<byte>)
    requires i + 1 + |s| <= |b| && b[i] as int == |s| && b[i + 1..i + 1 + |s|] == s
    ensures IdField(b, i) == Ok(Read(UntilNul(s), i + 1 + |s|))
  {
  }

  lemma U16Suffix(b: seq<byte>, i: nat, v: u16, post: seq<byte>) returns (j: nat)
    requires i <= |b| && b[i..] == LE16(v) + post
    ensures j == i + 2 && j <= |b| && b[j..] == post
    ensures U16At(b, i) == Ok(Read(v, j))
  {
    j := i + 2;
    assert b[i] == b[i..][0] && b[i + 1] == b[i..][1];
    assert b[j..] == b[i..][2..];
  }

  lemma U16Last(b: seq<byte>, i: nat, v: u16) returns (j: nat)
    requires i <= |b| && b[i..] == LE16(v)
    ensures j == i + 2 == |b| && U16At(b, i) == Ok(Read(v, j))
  {
    j := i + 2;
    assert b[i] == b[i..][0] && b[i + 1] == b[i..][1];
  }

  lemma ByteSuffix(b: seq<byte>, i: nat, c: byte, post: seq<byte>) returns (j: nat)
    requires i <= |b| && b[i..] == [c] + post
    ensures j == i + 1 && j <= |b| && b[j..] == post
  {
    j := i + 1;
    assert b[j..] == b[i..][1..];
  }

  /** Conversely, the bytes a successful 16-bit read moves past are the
      encoding of the value it returns. */
  lemma U16AtConsumed(b: seq<byte>, i: nat)
    ensures U16At(b, i).Ok? ==> b[i..U16At(b, i).value.next] == LE16(U16At(b, i).value.value)
  {
  }

  /** ... and the bytes a rating read moves past, when the reply holds
      them, are the flag, the rating and the phase bytes encoded as
      `RatingBytes` does, whatever the flag. */
  lemma RatingConsumed(b: seq<byte>, i: nat)
    ensures Rating(b, i).Ok? && Rating(b, i).value.next <= |b| ==>
      var r := Rating(b, i).value;
      && i + 3 <= r.next && (b[i] != 0 ==> r.value < 0x100)
      && b[i..r.next] == RatingBytes(b[i], r.value, b[r.next - 2..r.next])
  {
    if Rating(b, i).Ok? && Rating(b, i).value.next <= |b| {
      var r := Rating(b, i).value;
      if b[i] != 0 {
        assert b[i..r.next] == [b[i], b[i + 1], b[i + 2]];
      } else {
        assert LE16(r.value) == b[i + 1..i + 3];
        assert b[i..r.next] == [b[i]] + b[i + 1..i + 3] + b[i + 3..i + 5];
      }
    }
  }

  /** The walk over bytes on which each field reads as `d`'s, at the
      cursors where the one before it stops, and which end where the last
      one does. */
  lemma StepsParse(b: seq<byte>, d: Descriptor, raw: u16,
                   i1: nat, i2: nat, i3: nat, i4: nat, i5: nat, i6: nat,
                   c1: nat, c2: nat, c3: nat, c4: nat, c5: nat, c6: nat, c7: nat, c8: nat)
    requires d.va == VaPerUnit * raw
    requires Counted(b, 0, 2) == Ok(Read(d.ncpus, i1))
    requires Rating(b, i1) == Ok(Read(raw, i2))
    requires IdField(b, i2) == Ok(Read(d.id, i3))
    requires Counted(b, i3, 1) == Ok(Read(d.nmaps, i4))
    requires Counted(b, i4, 1) == Ok(Read(d.nalarms, i5))
    requires U16At(b, i5) == Ok(Read(d.cfgblksz, c1))
    requires Counted(b, c1, 1) == Ok(Read(d.statmapsz, i6))
    requires U16At(b, i6) == Ok(Read(d.almlogsz, c2))
    requires U16At(b, c2) == Ok(Read(d.evtlogsz, c3))
    requires U16At(b, c3) == Ok(Read(d.topblksz, c4))
    requires c5 == c4 + 1
    requires U16At(b, c5) == Ok(Read(d.cmdlstsz, c6))
    requires U16At(b, c6) == Ok(Read(d.outblksz, c7))
    requires U16At(b, c7) == Ok(Read(d.almblksz, c8)) && c8 == |b|
    ensures Parse(b) == Ok(d)
  {
    assert Platform(b) == Ok(Read((d.ncpus, raw), i2));
    assert Names(b, i2) == Ok(Read((d.id, d.nmaps, d.nalarms), i5));
    assert Tables(b, i5) == Ok(Read((d.cfgblksz, d.statmapsz, d.almlogsz, d.evtlogsz), c3));
    assert Blocks(b, c3) == Ok(Read((d.topblksz, d.cmdlstsz, d.outblksz, d.almblksz), |b|));
  }

  lemma WholeUnits(va: nat)
    requires va % VaPerUnit == 0
    ensures va == VaPerUnit * (va / VaPerUnit)
  {
  }

  /** The four parts of the reply, each followed by the rest. */
  lemma PlatformSteps(b: seq<byte>, d: Descriptor, f: Filler, raw: u16, post: seq<byte>)
    returns (i1: nat, i2: nat)
    requires Encodable(d, f) && raw == d.va / VaPerUnit
    requires b[0..] == ([d.ncpus] + f.cpuInfo) + (RatingBytes(f.flag, raw, f.phase) + post)
    ensures Counted(b, 0, 2) == Ok(Read(d.ncpus, i1))
    ensures Rating(b, i1) == Ok(Read(raw, i2))
    ensures i2 <= |b| && b[i2..] == post
  {
    i1 := CountedSuffix(b, 0, d.ncpus, f.cpuInfo, RatingBytes(f.flag, raw, f.phase) + post, 2);
    i2 := RatingSuffix(b, i1, f.flag, raw, f.phase, post);
  }

  lemma NamesSteps(b: seq<byte>, i: nat, d: Descriptor, f: Filler, post: seq<byte>)
    returns (i3: nat, i4: nat, i5: nat)
    requires Encodable(d, f)
    requires i <= |b|
    requires b[i..] == ([|d.id + f.idPad|] + (d.id + f.idPad)) +
                       (([d.nmaps] + f.mapInfo) + (([d.nalarms] + f.alarmInfo) + post))
    ensures IdField(b, i) == Ok(Read(d.id, i3))
    ensures Counted(b, i3, 1) == Ok(Read(d.nmaps, i4))
    ensures Counted(b, i4, 1) == Ok(Read(d.nalarms, i5))
    ensures i5 <= |b| && b[i5..] == post
  {
    var s := d.id + f.idPad;
    i3 := IdSuffix(b, i, s, ([d.nmaps] + f.mapInfo) + (([d.nalarms] + f.alarmInfo) + post));
    UntilNulPadded(d.id, f.idPad);
    i4 := CountedSuffix(b, i3, d.nmaps, f.mapInfo, ([d.nalarms] + f.alarmInfo) + post, 1);
    i5 := CountedSuffix(b, i4, d.nalarms, f.alarmInfo, post, 1);
  }

  lemma TablesSteps(b: seq<byte>, i: nat, d: Descriptor, f: Filler, post: seq<byte>)
    returns (c1: nat, i6: nat, c2: nat, c3: nat)
    requires Encodable(d, f)
    requires i <= |b|
    requires b[i..] == LE16(d.cfgblksz) + (([d.statmapsz] + f.statMap) +
                       (LE16(d.almlogsz) + (LE16(d.evtlogsz) + post)))
    ensures U16At(b, i) == Ok(Read(d.cfgblksz, c1))
    ensures Counted(b, c1, 1) == Ok(Read(d.statmapsz, i6))
    ensures U16At(b, i6) == Ok(Read(d.almlogsz, c2))
    ensures U16At(b, c2) == Ok(Read(d.evtlogsz, c3))
    ensures c3 <= |b| && b[c3..] == post
  {
    c1 := U16Suffix(b, i, d.cfgblksz, ([d.statmapsz] + f.statMap) + (LE16(d.almlogsz) + (LE16(d.evtlogsz) + post)));
    i6 := CountedSuffix(b, c1, d.statmapsz, f.statMap, LE16(d.almlogsz) + (LE16(d.evtlogsz) + post), 1);
    c2 := U16Suffix(b, i6, d.almlogsz, LE16(d.evtlogsz) + post);
    c3 := U16Suffix(b, c2, d.evtlogsz, post);
  }

  lemma BlocksSteps(b: seq<byte>, i: nat, d: Descriptor, f: Filler)
    returns (c4: nat, c5: nat, c6: nat, c7: nat, c8: nat)
    requires i <= |b|
    requires b[i..] == LE16(d.topblksz) + ([f.reserved] +
                       (LE16(d.cmdlstsz) + (LE16(d.outblksz) + LE16(d.almblksz))))
    ensures U16At(b, i) == Ok(Read(d.topblksz, c4))
    ensures c5 == c4 + 1
    ensures U16At(b, c5) == Ok(Read(d.cmdlstsz, c6))
    ensures U16At(b, c6) == Ok(Read(d.outblksz, c7))
    ensures U16At(b, c7) == Ok(Read(d.almblksz, c8)) && c8 == |b|
  {
    c4 := U16Suffix(b, i, d.topblksz, [f.reserved] + (LE16(d.cmdlstsz) + (LE16(d.outblksz) + LE16(d.almblksz))));
    c5 := ByteSuffix(b, c4, f.reserved, LE16(d.cmdlstsz) + (LE16(d.outblksz) + LE16(d.almblksz)));
    c6 := U16Suffix(b, c5, d.cmdlstsz, LE16(d.outblksz) + LE16(d.almblksz));
    c7 := U16Suffix(b, c6, d.outblksz, LE16(d.almblksz));
    c8 := U16Last(b, c7, d.almblksz);
  }

  /** `init` reads back every descriptor it can be sent, whatever the
      bytes it skips hold. */
  lemma ParseEncode(d: Descriptor, f: Filler)
    requires Encodable(d, f)
    ensures Parse(Encode(d, f)) == Ok(d)
  {
    var s := d.id + f.idPad;
    var raw: u16 := d.va / VaPerUnit;
    var blocks: seq<byte> := LE16(d.topblksz) + ([f.reserved] + (LE16(d.cmdlstsz) + (LE16(d.outblksz) + LE16(d.almblksz))));
    var tables: seq<byte> := LE16(d.cfgblksz) + (([d.statmapsz] + f.statMap) + (LE16(d.almlogsz) + (LE16(d.evtlogsz) + blocks)));
    var names: seq<byte> := ([|s|] + s) + (([d.nmaps] + f.mapInfo) + (([d.nalarms] + f.alarmInfo) + tables));
    var b := Encode(d, f);
    assert b[0..] == ([d.ncpus] + f.cpuInfo) + (RatingBytes(f.flag, raw, f.phase) + names);
    var i1, i2 := PlatformSteps(b, d, f, raw, names);
    var i3, i4, i5 := NamesSteps(b, i2, d, f, tables);
    var c1, i6, c2, c3 := TablesSteps(b, i5, d, f, blocks);
    var c4, c5, c6, c7, c8 := BlocksSteps(b, c3, d, f);
    WholeUnits(d.va);
    StepsParse(b, d, raw, i1, i2, i3, i4, i5, i6, c1, c2, c3, c4, c5, c6, c7, c8);
  }

  // ---------------------------------------------------------------------
  // Sample replies

  /** Two CPUs, a two-byte rating of 100 units, "TEST", one map, no
      alarms, and distinct table and block sizes, laid out by the cursor
      steps of main.c:247-321. */
  const WideReply: seq<byte> :=
    [2, 0x11, 0x22, 0x33, 0x44] +   // two CPUs, two bytes each
    ([0, 100, 0, 3, 3] +            // two-byte rating, two phase bytes
    ([4, 0x54, 0x45, 0x53, 0x54] +  // "TEST"
    ([1, 0xAA] +                    // one map
    ([0] +                          // no alarms
    ([10, 0] +                      // configuration block size
    ([5, 1, 2, 3, 4, 5] +           // statistics map
    ([0x00, 0x01] +                 // alarm log size
    ([0x80, 0x00] +                 // event log size
    ([0x20, 0x00] +                 // topology block size
    ([0xFF] +                       // skipped
    ([0x40, 0x00] +                 // command list size
    ([0x08, 0x00] +                 // outlet block size
     [0x10, 0x00]))))))))))))       // alarm block size

  const WideDescriptor: Descriptor :=
    Descriptor(2, 5000, [0x54, 0x45, 0x53, 0x54], 1, 0, 10, 5, 0x100, 0x80, 0x20, 0x40, 0x08, 0x10)

  const WideFiller: Filler :=
    Filler([0x11, 0x22, 0x33, 0x44], 0, [3, 3], [], [0xAA], [], [1, 2, 3, 4, 5], 0xFF)

  lemma WideReplyEncodes()
    ensures Encodable(WideDescriptor, WideFiller) && Encode(WideDescriptor, WideFiller) == WideReply
  {
    var d, f := WideDescriptor, WideFiller;
    assert Encodable(d, f);
    assert [d.ncpus] + f.cpuInfo == [2, 0x11, 0x22, 0x33, 0x44];
    assert RatingBytes(0, 100, [3, 3]) == [0, 100, 0, 3, 3];
    assert [|d.id + f.idPad|] + (d.id + f.idPad) == [4, 0x54, 0x45, 0x53, 0x54];
    assert [d.nmaps] + f.mapInfo == [1, 0xAA] && [d.nalarms] + f.alarmInfo == [0];
    assert [d.statmapsz] + f.statMap == [5, 1, 2, 3, 4, 5];
    assert LE16(10) == [10, 0] && LE16(0x100) == [0, 1] && LE16(0x80) == [0x80, 0];
    assert LE16(0x20) == [0x20, 0] && LE16(0x40) == [0x40, 0];
    assert LE16(0x08) == [0x08, 0] && LE16(0x10) == [0x10, 0];
  }

  lemma WideReplyParses()
    ensures Parse(WideReply) == Ok(WideDescriptor)
    ensures WideDescriptor.va == 5000 && WideDescriptor.id == [0x54, 0x45, 0x53, 0x54]
  {
    WideReplyEncodes();
    ParseEncode(WideDescriptor, WideFiller);
  }

  /** One CPU, a one-byte rating of 30 units that is also the first phase
      byte, "UPS" padded with a NUL and a stray byte, no maps, two alarms,
      laid out by the cursor steps of main.c:247-321. */
  const NarrowReply: seq<byte> :=
    [1, 0x11, 0x22] +                     // one CPU
    ([1, 30, 1] +                         // one-byte rating, second phase byte
    ([5, 0x55, 0x50, 0x53, 0x00, 0x7A] +  // "UPS", a NUL and a byte after it
    ([0] +                                // no maps
    ([2, 0x01, 0x02] +                    // two alarms
    ([0x40, 0x01] +                       // configuration block size
    ([0] +                                // no statistics map
    ([0x00, 0x02] +                       // alarm log size
    ([0x00, 0x00] +                       // event log size
    ([0x01, 0x00] +                       // topology block size
    ([0x00] +                             // skipped
    ([0x02, 0x00] +                       // command list size
    ([0x03, 0x00] +                       // outlet block size
     [0x04, 0x00]))))))))))))             // alarm block size

  const NarrowDescriptor: Descriptor :=
    Descriptor(1, 1500, [0x55, 0x50, 0x53], 0, 2, 0x140, 0, 0x200, 0, 1, 2, 3, 4)

  const NarrowFiller: Filler :=
    Filler([0x11, 0x22], 1, [30, 1], [0x00, 0x7A], [], [0x01, 0x02], [], 0x00)

  lemma NarrowReplyEncodes()
    ensures Encodable(NarrowDescriptor, NarrowFiller) && Encode(NarrowDescriptor, NarrowFiller) == NarrowReply
  {
    var d, f := NarrowDescriptor, NarrowFiller;
    assert Encodable(d, f);
    assert [d.ncpus] + f.cpuInfo == [1, 0x11, 0x22];
    assert RatingBytes(1, 30, [30, 1]) == [1, 30, 1];
    assert [|d.id + f.idPad|] + (d.id + f.idPad) == [5, 0x55, 0x50, 0x53, 0x00, 0x7A];
    assert [d.nmaps] + f.mapInfo == [0] && [d.nalarms] + f.alarmInfo == [2, 0x01, 0x02];
    assert [d.statmapsz] + f.statMap == [0];
    assert LE16(0x140) == [0x40, 0x01] && LE16(0x200) == [0x00, 0x02] && LE16(0) == [0x00, 0x00];
    assert LE16(1) == [0x01, 0x00] && LE16(2) == [0x02, 0x00];
    assert LE16(3) == [0x03, 0x00] && LE16(4) == [0x04, 0x00];
  }

  lemma NarrowReplyParses()
    ensures Parse(NarrowReply) == Ok(NarrowDescriptor)
    ensures NarrowDescriptor.va == 1500 && NarrowDescriptor.id == [0x55, 0x50, 0x53]
  {
    NarrowReplyEncodes();
    ParseEncode(NarrowDescriptor, NarrowFiller);
  }

  /** The same replies cut short, or followed by a stray byte, are refused. */
  lemma SampleRepliesRejected()
    ensures Parse(WideReply[..|WideReply| - 1]) == Err(Truncated)
    ensures Parse(NarrowReply + [0]) == Err(Misaligned)
  {
    WideReplyParses();
    PrefixRejected(WideReply, |WideReply| - 1);
    NarrowReplyParses();
    TrailingBytesRejected(NarrowReply, [0]);
  }
}
