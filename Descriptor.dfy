/** The UPS descriptor returned for command 0x31, as `init` decodes it:
    a cursor walked left to right over the reply, field by field, with a
    final check that the cursor lands exactly on the reply's end. */
module Descriptor {
  import opened Results
  import opened Bytes

  /** Why a descriptor does not decode.  The C has a single failure, the
      final `assert(i == n)`; a read past the end of the buffer it reads
      from is undefined there and is `Truncated` here. */
  datatype DescError = Truncated | Misaligned

  /** A value read at the cursor and the cursor after it. */
  datatype Read<T> = Read(value: T, next: nat)

  /** The fields `init` stores into `Ups`. */
  datatype Descriptor = Descriptor(
    ncpus: byte,
    va: nat,
    id: seq<byte>,
    nmaps: byte,
    nalarms: byte,
    cfgblksz: u16,
    statmapsz: byte,
    almlogsz: u16,
    evtlogsz: u16,
    topblksz: u16,
    cmdlstsz: u16,
    outblksz: u16,
    almblksz: u16)

  /** Volt-amperes per unit of the rating field. */
  const VaPerUnit: nat := 50

  /** `buf[i]`, the cursor moving past it. */
  function U8At(b: seq<byte>, i: nat): (r: Result<Read<byte>, DescError>)
    ensures r.Ok? <==> i < |b|
    ensures r.Ok? ==> r.value.value == b[i] && r.value.next == i + 1
  {
    if i < |b| then Ok(Read(b[i], i + 1)) else Err(Truncated)
  }

  /** `getu16(buf + i)`, the cursor moving past both bytes. */
  function U16At(b: seq<byte>, i: nat): (r: Result<Read<u16>, DescError>)
    ensures r.Ok? <==> i + 1 < |b|
    ensures r.Ok? ==> r.value.value == b[i] as int + 0x100 * b[i + 1] as int && r.value.next == i + 2
  {
    if i + 1 < |b| then Ok(Read(GetU16(b, i), i + 2)) else Err(Truncated)
  }

  /** A count byte followed by `width` bytes per counted item, which are
      skipped unread: the CPU list (two bytes each), the maps, the alarms
      and the statistics map. */
  function Counted(b: seq<byte>, i: nat, width: nat): (r: Result<Read<byte>, DescError>)
    ensures r.Ok? <==> i < |b|
    ensures r.Ok? ==> r.value.value == b[i] && r.value.next == i + 1 + width * b[i]
  {
    var c :- U8At(b, i);
    Ok(Read(c.value, c.next + width * c.value))
  }

  /** The width flag, the raw rating and the two phase bytes.  A non-zero
      flag is followed by a one-byte rating that the cursor does not move
      past, so that byte is also the first phase byte; a zero flag is
      followed by a 16-bit rating. */
  function Rating(b: seq<byte>, i: nat): (r: Result<Read<u16>, DescError>)
    ensures r.Ok? <==> i + 1 < |b| && (b[i] == 0 ==> i + 2 < |b|)
    ensures r.Ok? && b[i] != 0 ==> r.value == Read(b[i + 1], i + 3)
    ensures r.Ok? && b[i] == 0 ==> r.value == Read(GetU16(b, i + 1), i + 5)
  {
    var flag :- U8At(b, i);
    if flag.value != 0 then
      var v :- U8At(b, flag.next);
      Ok(Read(v.value as u16, flag.next + 2))
    else
      var v :- U16At(b, flag.next);
      Ok(Read(v.value, v.next + 2))
  }

  /** The C string `strncpy` leaves in a zero-filled buffer: the bytes
      before the first NUL. */
  function UntilNul(s: seq<byte>): (r: seq<byte>)
    ensures |r| <= |s| && r == s[..|r|]
    ensures forall k :: 0 <= k < |r| ==> r[k] != 0
    ensures |r| < |s| ==> s[|r|] == 0
  {
    if s == [] || s[0] == 0 then [] else [s[0]] + UntilNul(s[1..])
  }

  /** The identification string: a length byte and that many bytes. */
  function IdField(b: seq<byte>, i: nat): (r: Result<Read<seq<byte>>, DescError>)
    ensures r.Ok? <==> i < |b| && i + 1 + b[i] <= |b|
    ensures r.Ok? ==> r.value == Read(UntilNul(b[i + 1..i + 1 + b[i]]), i + 1 + b[i])
  {
    var len :- U8At(b, i);
    if len.next + len.value <= |b| then
      Ok(Read(UntilNul(b[len.next..len.next + len.value]), len.next + len.value))
    else
      Err(Truncated)
  }

  /** The CPU list and the rating: `ncpus` and the raw rating. */
  function Platform(b: seq<byte>): Result<Read<(byte, u16)>, DescError>
  {
    var cpus :- Counted(b, 0, 2);
    var rating :- Rating(b, cpus.next);
    Ok(Read((cpus.value, rating.value), rating.next))
  }

  /** The identification string and the map and alarm lists. */
  function Names(b: seq<byte>, i: nat): Result<Read<(seq<byte>, byte, byte)>, DescError>
  {
    var id :- IdField(b, i);
    var maps :- Counted(b, id.next, 1);
    var alarms :- Counted(b, maps.next, 1);
    Ok(Read((id.value, maps.value, alarms.value), alarms.next))
  }

  /** The configuration block size, the statistics map, and the alarm
      and event log sizes. */
  function Tables(b: seq<byte>, i: nat): Result<Read<(u16, byte, u16, u16)>, DescError>
  {
    var cfg :- U16At(b, i);
    var statmap :- Counted(b, cfg.next, 1);
    var almlog :- U16At(b, statmap.next);
    var evtlog :- U16At(b, almlog.next);
    Ok(Read((cfg.value, statmap.value, almlog.value, evtlog.value), evtlog.next))
  }

  /** The topology block size, one skipped byte, and the command list,
      outlet monitoring and alarm block sizes. */
  function Blocks(b: seq<byte>, i: nat): Result<Read<(u16, u16, u16, u16)>, DescError>
  {
    var topblk :- U16At(b, i);
    var cmdlst :- U16At(b, topblk.next + 1);
    var outblk :- U16At(b, cmdlst.next);
    var almblk :- U16At(b, outblk.next);
    Ok(Read((topblk.value, cmdlst.value, outblk.value, almblk.value), almblk.next))
  }

  /** The descriptor made of the values the four parts read, the raw
      rating scaled to volt-amperes. */
  function Assemble(p: (byte, u16), nm: (seq<byte>, byte, byte), tb: (u16, byte, u16, u16),
                    bl: (u16, u16, u16, u16)): (d: Descriptor)
    ensures d.va == VaPerUnit * p.1
  {
    Descriptor(p.0, VaPerUnit * p.1, nm.0, nm.1, nm.2, tb.0, tb.1, tb.2, tb.3, bl.0, bl.1, bl.2, bl.3)
  }

  /** The cursor walk of `init` over the bytes `b`, without the final
      check: the descriptor and where the cursor stops. */
  function Walk(b: seq<byte>): Result<Read<Descriptor>, DescError>
  {
    var p :- Platform(b);
    var nm :- Names(b, p.next);
    var tb :- Tables(b, nm.next);
    var bl :- Blocks(b, tb.next);
    Ok(Read(Assemble(p.value, nm.value, tb.value, bl.value), bl.next))
  }

  /** `init` on a reply of `n == |b|` bytes: the walk, and the cursor
      landing exactly on the end. */
  function Parse(b: seq<byte>): Result<Descriptor, DescError>
  {
    var r :- Walk(b);
    if r.next == |b| then Ok(r.value) else Err(Misaligned)
  }

  // ---------------------------------------------------------------------
  // The walk reads nothing at or after where it stops

  /** Each field read below depends only on the bytes before the cursor
      it leaves: it reads the same over the first `m` bytes of `b` when
      it stops within them, and a read that succeeds over the first `m`
      bytes reads the same over all of `b`. */
  lemma CountedPrefix(b: seq<byte>, m: nat, i: nat, w: nat)
    requires m <= |b|
    ensures Counted(b, i, w).Ok? && Counted(b, i, w).value.next <= m ==> Counted(b[..m], i, w) == Counted(b, i, w)
    ensures Counted(b[..m], i, w).Ok? ==> Counted(b, i, w) == Counted(b[..m], i, w)
  {
  }

  lemma U16AtPrefix(b: seq<byte>, m: nat, i: nat)
    requires m <= |b|
    ensures U16At(b, i).Ok? && U16At(b, i).value.next <= m ==> U16At(b[..m], i) == U16At(b, i)
    ensures U16At(b[..m], i).Ok? ==> U16At(b, i) == U16At(b[..m], i)
  {
  }

  lemma RatingPrefix(b: seq<byte>, m: nat, i: nat)
    requires m <= |b|
    ensures Rating(b, i).Ok? && Rating(b, i).value.next <= m ==> Rating(b[..m], i) == Rating(b, i)
    ensures Rating(b[..m], i).Ok? ==> Rating(b, i) == Rating(b[..m], i)
  {
  }

  lemma IdFieldPrefix(b: seq<byte>, m: nat, i: nat)
    requires m <= |b|
    ensures IdField(b, i).Ok? && IdField(b, i).value.next <= m ==> IdField(b[..m], i) == IdField(b, i)
    ensures IdField(b[..m], i).Ok? ==> IdField(b, i) == IdField(b[..m], i)
  {
    if i < m && i + 1 + b[i] <= m {
      assert b[..m][i + 1..i + 1 + b[i]] == b[i + 1..i + 1 + b[i]];
    }
  }

  lemma PlatformPrefix(b: seq<byte>, m: nat)
    requires m <= |b|
    ensures Platform(b).Ok? && Platform(b).value.next <= m ==> Platform(b[..m]) == Platform(b)
    ensures Platform(b[..m]).Ok? ==> Platform(b) == Platform(b[..m])
  {
    CountedPrefix(b, m, 0, 2);
    if Counted(b, 0, 2).Ok? {
      RatingPrefix(b, m, Counted(b, 0, 2).value.next);
    }
  }

  lemma NamesPrefix(b: seq<byte>, m: nat, i: nat)
    requires m <= |b|
    ensures Names(b, i).Ok? && Names(b, i).value.next <= m ==> Names(b[..m], i) == Names(b, i)
    ensures Names(b[..m], i).Ok? ==> Names(b, i) == Names(b[..m], i)
  {
    IdFieldPrefix(b, m, i);
    if IdField(b, i).Ok? {
      var id := IdField(b, i).value;
      CountedPrefix(b, m, id.next, 1);
      if Counted(b, id.next, 1).Ok? {
        CountedPrefix(b, m, Counted(b, id.next, 1).value.next, 1);
      }
    }
  }

  lemma TablesPrefix(b: seq<byte>, m: nat, i: nat)
    requires m <= |b|
    ensures Tables(b, i).Ok? && Tables(b, i).value.next <= m ==> Tables(b[..m], i) == Tables(b, i)
    ensures Tables(b[..m], i).Ok? ==> Tables(b, i) == Tables(b[..m], i)
  {
    U16AtPrefix(b, m, i);
    CountedPrefix(b, m, i + 2, 1);
    if Counted(b, i + 2, 1).Ok? {
      var j := Counted(b, i + 2, 1).value.next;
      U16AtPrefix(b, m, j);
      U16AtPrefix(b, m, j + 2);
    }
  }

  lemma BlocksPrefix(b: seq<byte>, m: nat, i: nat)
    requires m <= |b|
    ensures Blocks(b, i).Ok? && Blocks(b, i).value.next <= m ==> Blocks(b[..m], i) == Blocks(b, i)
    ensures Blocks(b[..m], i).Ok? ==> Blocks(b, i) == Blocks(b[..m], i)
  {
    U16AtPrefix(b, m, i);
    U16AtPrefix(b, m, i + 3);
    U16AtPrefix(b, m, i + 5);
    U16AtPrefix(b, m, i + 7);
  }

  /** The four parts of the walk read at strictly increasing cursors,
      from the first byte to where the walk stops. */
  lemma WalkParts(b: seq<byte>)
    requires Walk(b).Ok?
    ensures Platform(b).Ok? && Names(b, Platform(b).value.next).Ok?
    ensures var nm := Names(b, Platform(b).value.next).value;
      && Tables(b, nm.next).Ok? && Blocks(b, Tables(b, nm.next).value.next).Ok?
      && 0 < Platform(b).value.next < nm.next < Tables(b, nm.next).value.next < Walk(b).value.next
      && Blocks(b, Tables(b, nm.next).value.next) == Ok(Read(Blocks(b, Tables(b, nm.next).value.next).value.value, Walk(b).value.next))
  {
  }

  /** A walk over the first `m` bytes of `b` that succeeds walks the same
      over all of `b`: the walk never looks past where it stops. */
  lemma WalkExtend(b: seq<byte>, m: nat)
    requires m <= |b| && Walk(b[..m]).Ok?
    ensures Walk(b) == Walk(b[..m])
  {
    var c := b[..m];
    WalkParts(c);
    PlatformPrefix(b, m);
    var i := Platform(c).value.next;
    NamesPrefix(b, m, i);
    var j := Names(c, i).value.next;
    TablesPrefix(b, m, j);
    BlocksPrefix(b, m, Tables(c, j).value.next);
  }

  /** A walk over `b` that stops within the first `m` bytes walks the
      same over just those bytes. */
  lemma WalkPrefix(b: seq<byte>, m: nat)
    requires m <= |b| && Walk(b).Ok? && Walk(b).value.next <= m
    ensures Walk(b[..m]) == Walk(b)
  {
    WalkParts(b);
    PlatformPrefix(b, m);
    var i := Platform(b).value.next;
    NamesPrefix(b, m, i);
    var j := Names(b, i).value.next;
    TablesPrefix(b, m, j);
    BlocksPrefix(b, m, Tables(b, j).value.next);
  }

  // ---------------------------------------------------------------------
  // The cursor lands exactly on the end

  /** The walk `init` does over its whole receive buffer, which stops
      exactly at the reply's length `n`, is the parse of the reply alone:
      the C's missing bounds checks lose nothing, given its final check. */
  lemma WalkBufferIsParse(buf: seq<byte>, n: nat)
    requires n <= |buf|
    ensures (Walk(buf).Ok? && Walk(buf).value.next == n) <==> Parse(buf[..n]).Ok?
    ensures Parse(buf[..n]).Ok? ==> Parse(buf[..n]) == Ok(Walk(buf).value.value)
  {
    if Walk(buf).Ok? && Walk(buf).value.next == n {
      WalkPrefix(buf, n);
    }
    if Walk(buf[..n]).Ok? {
      WalkExtend(buf, n);
    }
  }

  /** How `init` over its whole buffer ends, part by part: a part that
      fails makes the reply fail to parse; when all four succeed, the
      reply parses exactly when the cursor stops at `n`, to the
      descriptor the parts read. */
  lemma InitParts(b: seq<byte>, n: nat)
    requires n <= |b|
    ensures Platform(b).Err? ==> Parse(b[..n]).Err?
    ensures Platform(b).Ok? ==> var p := Platform(b).value;
      && (Names(b, p.next).Err? ==> Parse(b[..n]).Err?)
      && (Names(b, p.next).Ok? ==> var nm := Names(b, p.next).value;
        && (Tables(b, nm.next).Err? ==> Parse(b[..n]).Err?)
        && (Tables(b, nm.next).Ok? ==> var tb := Tables(b, nm.next).value;
          && (Blocks(b, tb.next).Err? ==> Parse(b[..n]).Err?)
          && (Blocks(b, tb.next).Ok? ==> var bl := Blocks(b, tb.next).value;
            && (Parse(b[..n]).Ok? <==> bl.next == n)
            && (bl.next == n ==> Parse(b[..n]) == Ok(Assemble(p.value, nm.value, tb.value, bl.value))))))
  {
    WalkBufferIsParse(b, n);
  }

  /** Bytes after a descriptor make it fail to decode. */
  lemma TrailingBytesRejected(b: seq<byte>, rest: seq<byte>)
    requires Parse(b).Ok? && rest != []
    ensures Parse(b + rest) == Err(Misaligned)
  {
    assert (b + rest)[..|b|] == b;
    WalkExtend(b + rest, |b|);
  }

  /** The walk stops within its bytes: its last read is a 16-bit one. */
  lemma WalkStopsWithin(b: seq<byte>)
    ensures Walk(b).Ok? ==> Walk(b).value.next <= |b|
  {
    if Walk(b).Ok? {
      WalkParts(b);
    }
  }

  /** Running out of bytes is the only way the walk fails. */
  lemma WalkFailsTruncated(b: seq<byte>)
    ensures Walk(b).Err? ==> Walk(b).error == Truncated
  {
  }

  /** Every strict prefix of a descriptor fails to decode, for want of
      bytes. */
  lemma PrefixRejected(b: seq<byte>, m: nat)
    requires Parse(b).Ok? && m < |b|
    ensures Parse(b[..m]) == Err(Truncated)
  {
    WalkStopsWithin(b[..m]);
    WalkFailsTruncated(b[..m]);
    if Walk(b[..m]).Ok? {
      WalkExtend(b, m);
    }
  }

  // ---------------------------------------------------------------------
  // The imperative walk

  /** The first part of `init`: the CPU count, the CPU list skipped,
      and the raw rating.  Reads stop at the end of `buf`. */
  method ReadPlatform(buf: array<byte>) returns (r: Result<Read<(byte, u16)>, DescError>)
    ensures r == Platform(buf[..])
  {
    ghost var b := buf[..];
    var i: nat := 0;
    if i >= buf.Length { return Err(Truncated); }
    var ncpus := buf[i];
    i := i + 2 * buf[i] as int + 1;
    assert Counted(b, 0, 2) == Ok(Read(ncpus, i));
    ghost var i0 := i;
    if i >= buf.Length { return Err(Truncated); }
    var flag := buf[i];
    i := i + 1;
    var v: u16;
    if flag != 0 {
      if i >= buf.Length { return Err(Truncated); }
      v := buf[i];
    } else {
      if i + 1 >= buf.Length { return Err(Truncated); }
      v := GetU16(buf[..], i);
      i := i + 2;
    }
    i := i + 2;
    assert Rating(b, i0) == Ok(Read(v, i));
    return Ok(Read((ncpus, v), i));
  }

  /** The second part: the identification string and the map and alarm
      counts, their lists skipped. */
  method ReadNames(buf: array<byte>, i0: nat) returns (r: Result<Read<(seq<byte>, byte, byte)>, DescError>)
    ensures r == Names(buf[..], i0)
  {
    ghost var b := buf[..];
    var i := i0;
    if i >= buf.Length { return Err(Truncated); }
    var v := buf[i];
    i := i + 1;
    if i + v as int > buf.Length { return Err(Truncated); }
    var id := UntilNul(buf[i..i + v as int]);
    i := i + v as int;
    assert IdField(b, i0) == Ok(Read(id, i));
    ghost var i1 := i;
    if i >= buf.Length { return Err(Truncated); }
    var nmaps := buf[i];
    i := i + 1;
    i := i + nmaps as int;
    assert Counted(b, i1, 1) == Ok(Read(nmaps, i));
    if i >= buf.Length { return Err(Truncated); }
    var nalarms := buf[i];
    i := i + 1;
    i := i + nalarms as int;
    return Ok(Read((id, nmaps, nalarms), i));
  }

  /** The third part: the configuration block size, the statistics map
      size with the map skipped, and the alarm and event log sizes. */
  method ReadTables(buf: array<byte>, i0: nat) returns (r: Result<Read<(u16, byte, u16, u16)>, DescError>)
    ensures r == Tables(buf[..], i0)
  {
    ghost var b := buf[..];
    var i := i0;
    if i + 1 >= buf.Length { return Err(Truncated); }
    var cfgblksz := GetU16(buf[..], i);
    i := i + 2;
    ghost var i1 := i;
    if i >= buf.Length { return Err(Truncated); }
    var statmapsz := buf[i];
    i := i + buf[i] as int + 1;
    assert Counted(b, i1, 1) == Ok(Read(statmapsz, i));
    if i + 1 >= buf.Length { return Err(Truncated); }
    var almlogsz := GetU16(buf[..], i);
    i := i + 2;
    if i + 1 >= buf.Length { return Err(Truncated); }
    var evtlogsz := GetU16(buf[..], i);
    i := i + 2;
    return Ok(Read((cfgblksz, statmapsz, almlogsz, evtlogsz), i));
  }

  /** The last part: the topology block size, a skipped byte, and the
      command list, outlet monitoring and alarm block sizes. */
  method ReadBlocks(buf: array<byte>, i0: nat) returns (r: Result<Read<(u16, u16, u16, u16)>, DescError>)
    ensures r == Blocks(buf[..], i0)
  {
    var i := i0;
    if i + 1 >= buf.Length { return Err(Truncated); }
    var topblksz := GetU16(buf[..], i);
    i := i + 2;
    i := i + 1;
    if i + 1 >= buf.Length { return Err(Truncated); }
    var cmdlstsz := GetU16(buf[..], i);
    i := i + 2;
    if i + 1 >= buf.Length { return Err(Truncated); }
    var outblksz := GetU16(buf[..], i);
    i := i + 2;
    if i + 1 >= buf.Length { return Err(Truncated); }
    var almblksz := GetU16(buf[..], i);
    i := i + 2;
    return Ok(Read((topblksz, cmdlstsz, outblksz, almblksz), i));
  }

  /** The decoded descriptor fields of `struct Ups`. */
  class Ups {
    var ncpus: byte
    var va: nat
    var id: seq<byte>
    var nmaps: byte
    var nalarms: byte
    var cfgblksz: u16
    var statmapsz: byte
    var almlogsz: u16
    var evtlogsz: u16
    var topblksz: u16
    var cmdlstsz: u16
    var outblksz: u16
    var almblksz: u16

    constructor ()
      ensures Fields() == Descriptor(0, 0, [], 0, 0, 0, 0, 0, 0, 0, 0, 0, 0)
    {
      ncpus, va, id, nmaps, nalarms := 0, 0, [], 0, 0;
      cfgblksz, statmapsz, almlogsz, evtlogsz := 0, 0, 0, 0;
      topblksz, cmdlstsz, outblksz, almblksz := 0, 0, 0, 0;
    }

    /** The fields as a descriptor value. */
    function Fields(): Descriptor
      reads this
    {
      Descriptor(ncpus, va, id, nmaps, nalarms, cfgblksz, statmapsz,
                 almlogsz, evtlogsz, topblksz, cmdlstsz, outblksz, almblksz)
    }

    /** Assigns every field from `d`. */
    method Store(d: Descriptor)
      modifies this
      ensures Fields() == d
    {
      ncpus, va, id, nmaps, nalarms := d.ncpus, d.va, d.id, d.nmaps, d.nalarms;
      cfgblksz, statmapsz, almlogsz, evtlogsz := d.cfgblksz, d.statmapsz, d.almlogsz, d.evtlogsz;
      topblksz, cmdlstsz, outblksz, almblksz := d.topblksz, d.cmdlstsz, d.outblksz, d.almblksz;
    }

    /** `init` after `pwread` has put an `n`-byte reply into `buf`: the
        cursor walks the buffer part by part, the fields are assigned
        from what the parts read, and the descriptor is accepted only if the cursor
        ends at `n`.  The C reads without bounds checks; here a read past
        the end of `buf` fails. */
    method Init(buf: array<byte>, n: nat) returns (ok: bool)
      requires n <= buf.Length
      modifies this
      ensures ok <==> Parse(buf[..n]).Ok?
      ensures ok ==> Fields() == Parse(buf[..n]).value
    {
      InitParts(buf[..], n);
      ok := false;
      var p := ReadPlatform(buf);
      if p.Err? { return; }
      var nm := ReadNames(buf, p.value.next);
      if nm.Err? { return; }
      var tb := ReadTables(buf, nm.value.next);
      if tb.Err? { return; }
      var bl := ReadBlocks(buf, tb.value.next);
      if bl.Err? { return; }
      Store(Assemble(p.value.value, nm.value.value, tb.value.value, bl.value.value));
      ok := bl.value.next == n;
    }
  }
}
