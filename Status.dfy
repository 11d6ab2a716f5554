/** The status strings: `overallstatus`, a closed table of exact byte
    values, and `topologystr`, the names of the set bits of the topology
    byte, built in a static buffer. */
module Status {
  import opened Results
  import opened Bytes

  // ---------------------------------------------------------------------
  // Overall status

  /** The name of an overall status byte; any value without a case is
      "UNKNOWN".  A byte is named exactly when it is one of the case
      values: no bit masking, no ranges. */
  function OverallStatus(v: byte): (r: string)
    ensures r != "UNKNOWN" <==> v in KnownStatus
  {
    match v
    case 0xF0 => "ON BATTERY"
    case 0xE0 => "OUTPUT OVERLOAD"
    case 0xD0 => "RECTIFIER OVERLOAD"
    case 0x90 => "INVERTER RAMPING UP"
    case 0x80 => "SYNCING TO BYPASS"
    case 0x70 => "RECTIFIER RAMPING"
    case 0x64 => "ON MAINTENANCE BYPASS"
    case 0x63 => "ON BUCK/REDUCER"
    case 0x62 => "ON BOOST/STEP UP"
    case 0x61 => "ON DOUBLE BOOST"
    case 0x60 => "ON BYPASS"
    case 0x51 => "HIGH EFFICIENCY MODE"
    case 0x50 => "SYSTEM NORMAL"
    case 0x40 => "UPS SUPPORTING LOAD"
    case 0x30 => "UPS ON"
    case 0x21 => "OUTLET SWITCH OPEN"
    case 0x20 => "OUTLET BREAKER OPEN"
    case 0x11 => "MODULE FAILURE"
    case 0x10 => "UPS OFF"
    case _ => "UNKNOWN"
  }

  /** The bytes that have a case of their own. */
  const KnownStatus: set<byte> :=
    {0xF0, 0xE0, 0xD0, 0x90, 0x80, 0x70, 0x64, 0x63, 0x62, 0x61,
     0x60, 0x51, 0x50, 0x40, 0x30, 0x21, 0x20, 0x11, 0x10}

  /** The status byte a name stands for, read back from the name; the
      names are told apart by their length first. */
  function StatusCode(s: string): (r: Option<byte>)
  {
    match |s|
    case 6 => if s == "UPS ON" then Some(0x30) else None
    case 7 => if s == "UPS OFF" then Some(0x10) else None
    case 9 => if s == "ON BYPASS" then Some(0x60) else None
    case 10 => if s == "ON BATTERY" then Some(0xF0) else None
    case 13 => if s == "SYSTEM NORMAL" then Some(0x50) else None
    case 14 => if s == "MODULE FAILURE" then Some(0x11) else None
    case 15 => if s == "OUTPUT OVERLOAD" then Some(0xE0)
               else if s == "ON BUCK/REDUCER" then Some(0x63)
               else if s == "ON DOUBLE BOOST" then Some(0x61) else None
    case 16 => if s == "ON BOOST/STEP UP" then Some(0x62) else None
    case 17 => if s == "SYNCING TO BYPASS" then Some(0x80)
               else if s == "RECTIFIER RAMPING" then Some(0x70) else None
    case 18 => if s == "RECTIFIER OVERLOAD" then Some(0xD0)
               else if s == "OUTLET SWITCH OPEN" then Some(0x21) else None
    case 19 => if s == "INVERTER RAMPING UP" then Some(0x90)
               else if s == "UPS SUPPORTING LOAD" then Some(0x40)
               else if s == "OUTLET BREAKER OPEN" then Some(0x20) else None
    case 20 => if s == "HIGH EFFICIENCY MODE" then Some(0x51) else None
    case 21 => if s == "ON MAINTENANCE BYPASS" then Some(0x64) else None
    case _ => None
  }

  /** Every named byte is read back from its name, so no two bytes share
      a name. */
  lemma StatusRoundTrip(v: byte)
    requires v in KnownStatus
    ensures StatusCode(OverallStatus(v)) == Some(v)
  {
  }

  /** A name that is read back is the name of the byte it gives. */
  lemma StatusCodeNames(s: string, v: byte)
    requires StatusCode(s) == Some(v)
    ensures OverallStatus(v) == s && v in KnownStatus
  {
    match |s|
    case 6 =>
    case 7 =>
    case 9 =>
    case 10 =>
    case 13 =>
    case 14 =>
    case 15 =>
    case 16 =>
    case 17 =>
    case 18 =>
    case 19 =>
    case 20 =>
    case 21 =>
    case _ =>
  }

  // ---------------------------------------------------------------------
  // Topology

  /** `topbits`: the name of each bit of the topology byte, bit 0 first. */
  const TopBits: seq<string> :=
    ["bypass-installed", "output-breaker-closed", "on-bypass", "on-battery",
     "inverter-on", "low-battery", "rectifier-on", "utility-present"]

  /** The size of the static buffer `topologystr` writes into. */
  const TopologyBufferSize: nat := 1024

  /** Bit `i` of `v` is set. */
  predicate Bit(v: byte, i: nat)
    requires i < 8
  {
    (v as bv8) & ((1 as bv8) << i) != 0
  }

  /** The names of the set bits below bit `k`, in ascending bit order. */
  function FlagsBelow(v: byte, k: nat): seq<string>
    requires k <= 8
  {
    if k == 0 then []
    else FlagsBelow(v, k - 1) + (if Bit(v, k - 1) then [TopBits[k - 1]] else [])
  }

  /** The names of all set bits of `v`, bit 0 first. */
  function Flags(v: byte): seq<string>
  {
    FlagsBelow(v, 8)
  }

  /** The names separated by commas. */
  function Join(xs: seq<string>): string
  {
    if xs == [] then ""
    else if |xs| == 1 then xs[0]
    else Join(xs[..|xs| - 1]) + "," + xs[|xs| - 1]
  }

  /** Each name with a comma before it: what successive `seprint` calls
      with ",%s" leave in the buffer. */
  function Prefixed(xs: seq<string>): string
  {
    if xs == [] then "" else Prefixed(xs[..|xs| - 1]) + ("," + xs[|xs| - 1])
  }

  /** The C string at `b[i]`: the characters up to the first NUL. */
  function CString(b: seq<char>, i: nat): string
    decreases |b| - i
  {
    if i >= |b| || b[i] == '\0' then "" else [b[i]] + CString(b, i + 1)
  }

  /** The text the `seprint` calls for the bits below `k` leave: ",name"
      for each set bit.  It fits the buffer many times over.  This is
      `Prefixed(FlagsBelow(v, k))` written out bit by bit, the form the
      loop proof needs; `ListingIsPrefixed` proves the two equal. */
  function ListingBelow(v: byte, k: nat): (t: string)
    requires k <= 8
    ensures |t| <= 22 * k
  {
    if k == 0 then ""
    else
      TopBitsNames(k - 1);
      ListingBelow(v, k - 1) + (if Bit(v, k - 1) then "," + TopBits[k - 1] else "")
  }

  /** The text `topologystr(v)` leaves at the start of the buffer. */
  function Listing(v: byte): (t: string)
    ensures |t| <= 22 * 8
  {
    ListingBelow(v, 8)
  }

  /** The buffer `b` once the bits below `k` are written: their listing
      and a NUL over the start of the old contents, the rest as it was. */
  function WrittenBelow(b: seq<char>, v: byte, k: nat): seq<char>
    requires |b| == TopologyBufferSize && k <= 8
  {
    ListingBelow(v, k) + ['\0'] + b[|ListingBelow(v, k)| + 1..]
  }

  /** The buffer after `topologystr(v)`. */
  function Written(b: seq<char>, v: byte): (r: seq<char>)
    requires |b| == TopologyBufferSize
    ensures |r| == |b|
  {
    WrittenBelow(b, v, 8)
  }

  lemma TopBitsNames(i: nat)
    requires i < 8
    ensures 0 < |TopBits[i]| <= 21 && '\0' !in TopBits[i] && ',' !in TopBits[i]
  {
  }

  lemma TopBitsDistinct(i: nat, j: nat)
    requires i < 8 && j < 8 && i != j
    ensures TopBits[i] != TopBits[j]
  {
  }

  /** The listing is the names, each with a comma in front. */
  lemma {:induction false} ListingIsPrefixed(v: byte, k: nat)
    requires k <= 8
    ensures ListingBelow(v, k) == Prefixed(FlagsBelow(v, k))
  {
    if k > 0 {
      ListingIsPrefixed(v, k - 1);
      if Bit(v, k - 1) {
        PrefixedSnoc(FlagsBelow(v, k - 1), TopBits[k - 1]);
      } else {
        assert FlagsBelow(v, k) == FlagsBelow(v, k - 1);
      }
    }
  }

  lemma PrefixedSnoc(xs: seq<string>, x: string)
    ensures Prefixed(xs + [x]) == Prefixed(xs) + ("," + x)
  {
    assert (xs + [x])[..|xs|] == xs;
  }

  /** A bit's name is listed exactly when the bit is set. */
  lemma {:induction false} FlagsBelowMember(v: byte, k: nat, j: nat)
    requires k <= 8 && j < 8
    ensures TopBits[j] in FlagsBelow(v, k) <==> j < k && Bit(v, j)
  {
    if k > 0 {
      FlagsBelowMember(v, k - 1, j);
      if j != k - 1 {
        TopBitsDistinct(j, k - 1);
      }
    }
  }

  lemma FlagsMember(v: byte, j: nat)
    requires j < 8
    ensures TopBits[j] in Flags(v) <==> Bit(v, j)
  {
    FlagsBelowMember(v, 8, j);
  }

  lemma {:induction false} NoFlagsBelowZero(k: nat)
    requires k <= 8
    ensures FlagsBelow(0, k) == []
  {
    if k > 0 {
      NoFlagsBelowZero(k - 1);
    }
  }

  /** Only the zero byte has no names. */
  lemma FlagsEmpty(v: byte)
    ensures Flags(v) == [] <==> v == 0
  {
    NoFlagsBelowZero(8);
    if v != 0 {
      assert Bit(v, 0) || Bit(v, 1) || Bit(v, 2) || Bit(v, 3) ||
             Bit(v, 4) || Bit(v, 5) || Bit(v, 6) || Bit(v, 7);
      var j: nat :| j < 8 && Bit(v, j);
      FlagsMember(v, j);
    }
  }

  /** With a comma in front of every name, dropping the first comma
      leaves the names joined. */
  lemma {:induction false} PrefixedJoin(xs: seq<string>)
    requires xs != []
    ensures Prefixed(xs) == "," + Join(xs)
  {
    if |xs| > 1 {
      PrefixedJoin(xs[..|xs| - 1]);
    } else {
      assert xs[..0] == [];
    }
  }

  /** Reading a C string back over text with no NUL, then a NUL. */
  lemma {:induction false} CStringUntilNul(x: string, rest: seq<char>, i: nat)
    requires i <= |x| && '\0' !in x[i..]
    ensures CString(x + ['\0'] + rest, i) == x[i..]
    decreases |x| - i
  {
    if i < |x| {
      assert x[i] == x[i..][0];
      assert x[i..] == [x[i]] + x[i + 1..];
      CStringUntilNul(x, rest, i + 1);
    }
  }

  /** No name holds a NUL, so neither does the text written. */
  lemma {:induction false} ListingNoNul(v: byte, k: nat)
    requires k <= 8
    ensures '\0' !in ListingBelow(v, k)
  {
    if k > 0 {
      ListingNoNul(v, k - 1);
      TopBitsNames(k - 1);
    }
  }

  /** For a non-zero byte `topologystr` returns the names of the set
      bits, bit 0 first, joined by commas, whatever the buffer held. */
  lemma TopologyNames(b: seq<char>, v: byte)
    requires |b| == TopologyBufferSize && v != 0
    ensures CString(Written(b, v), 1) == Join(Flags(v))
  {
    ListingNoNul(v, 8);
    ListingIsPrefixed(v, 8);
    FlagsEmpty(v);
    PrefixedJoin(Flags(v));
    var x := Listing(v);
    assert '\0' !in x[1..] by {
      assert forall c :: c in x[1..] ==> c in x;
    }
    CStringUntilNul(x, b[|x| + 1..], 1);
  }

  /** For the zero byte it writes nothing but a NUL over the first
      character and returns what the buffer held after it. */
  lemma TopologyZero(b: seq<char>)
    requires |b| == TopologyBufferSize
    ensures CString(Written(b, 0), 1) == CString(b, 1)
  {
    FlagsEmpty(0);
    ListingIsPrefixed(0, 8);
    assert Written(b, 0)[1..] == b[1..];
    CStringSuffix(Written(b, 0), b, 1);
  }

  /** A C string depends only on the characters from where it starts. */
  lemma {:induction false} CStringSuffix(b: seq<char>, c: seq<char>, i: nat)
    requires |b| == |c| && i <= |b| && b[i..] == c[i..]
    ensures CString(b, i) == CString(c, i)
    decreases |b| - i
  {
    if i < |b| {
      assert b[i] == b[i..][0] == c[i..][0] == c[i];
      assert b[i + 1..] == b[i..][1..];
      assert c[i + 1..] == c[i..][1..];
      CStringSuffix(b, c, i + 1);
    }
  }

  /** The static buffer `topologystr` builds its result in.  Static
      storage starts zeroed, and each call leaves it as `Written` says. */
  class TopologyBuffer {
    var buf: array<char>

    ghost predicate Valid()
      reads this
    {
      buf.Length == TopologyBufferSize
    }

    constructor ()
      ensures Valid() && fresh(buf)
      ensures forall j :: 0 <= j < buf.Length ==> buf[j] == '\0'
    {
      buf := new char[TopologyBufferSize](_ => '\0');
    }

    /** `seprint(s, e, "%s", piece)` with `s == buf + p` and `e` the end
        of the buffer: as much of `piece` as fits before the last
        character, then a NUL; the result points at that NUL. */
    method Seprint(p: nat, piece: string) returns (q: nat)
      requires Valid() && p < buf.Length
      modifies buf
      ensures q == p + (if |piece| < buf.Length - 1 - p then |piece| else buf.Length - 1 - p)
      ensures q < buf.Length
      ensures buf[..] == old(buf[..])[..p] + piece[..q - p] + ['\0'] + old(buf[..])[q + 1..]
      ensures p + |piece| < buf.Length - 1 ==> buf[..] == old(buf[..])[..p] + piece + ['\0'] + old(buf[..])[q + 1..]
    {
      ghost var orig := buf[..];
      var n := if |piece| < buf.Length - 1 - p then |piece| else buf.Length - 1 - p;
      Copy(p, piece, n);
      ghost var cur := buf[..];
      buf[p + n] := '\0';
      assert buf[..] == cur[p + n := '\0'];
      CopyEnd(orig, p, piece, n, cur);
      q := p + n;
    }

    /** The character loop of `seprint`: the first `n` characters of
        `piece` over the buffer from `p` on. */
    method Copy(p: nat, piece: string, n: nat)
      requires Valid() && n <= |piece| && p + n < buf.Length
      modifies buf
      ensures buf[..] == old(buf[..])[..p] + piece[..n] + old(buf[..])[p + n..]
    {
      ghost var orig := buf[..];
      var k := 0;
      while k < n
        invariant 0 <= k <= n
        invariant buf[..] == orig[..p] + piece[..k] + orig[p + k..]
      {
        ghost var cur := buf[..];
        buf[p + k] := piece[k];
        assert buf[..] == cur[p + k := piece[k]];
        CopyStep(orig, p, piece, k, cur);
        k := k + 1;
      }
    }

    /** `topologystr(v)`: a NUL at the start, then ",name" for each set
        bit; the result is the C string one past the start. */
    method TopologyStr(v: byte) returns (s: string)
      requires Valid()
      modifies buf
      ensures buf[..] == Written(old(buf[..]), v)
      ensures s == CString(buf[..], 1)
      ensures v != 0 ==> s == Join(Flags(v))
      ensures v == 0 ==> s == CString(old(buf[..]), 1)
    {
      ghost var b := buf[..];
      buf[0] := '\0';
      assert buf[..] == WrittenBelow(b, v, 0);
      var p := 0;
      for i := 0 to 8
        invariant p == |ListingBelow(v, i)|
        invariant buf[..] == WrittenBelow(b, v, i)
      {
        if (v as bv8) & ((1 as bv8) << i) == 0 {
          SkipBit(b, v, i);
          continue;
        }
        ghost var cur := buf[..];
        AppendBounds(v, i);
        p := Seprint(p, "," + TopBits[i]);
        AppendBit(b, v, i, cur, buf[..]);
      }
      s := CString(buf[..], 1);
      if v != 0 {
        TopologyNames(b, v);
      } else {
        TopologyZero(b);
      }
    }
  }

  /** `topologystr` with the empty result it evidently means for a zero
      byte, rather than whatever the buffer held. */
  method TopologyStrFixed(tb: TopologyBuffer, v: byte) returns (s: string)
    requires tb.Valid()
    modifies tb.buf
    ensures tb.buf[..] == Written(old(tb.buf[..]), v)
    ensures s == Join(Flags(v))
  {
    s := tb.TopologyStr(v);
    if v == 0 {
      FlagsEmpty(0);
      s := "";
    }
  }

  /** Bits that are clear add no names. */
  lemma {:induction false} ClearBits(v: byte, a: nat, k: nat)
    requires a <= k <= 8
    requires forall i: nat :: a <= i < k ==> !Bit(v, i)
    ensures FlagsBelow(v, k) == FlagsBelow(v, a)
    decreases k - a
  {
    if a < k {
      ClearBits(v, a, k - 1);
      assert FlagsBelow(v, k) == FlagsBelow(v, k - 1) + [];
    }
  }

  /** Bits 0 and 7 name the bypass and utility flags. */
  lemma TopologyExample()
    ensures Flags(0x81) == [TopBits[0], TopBits[7]]
    ensures Join(Flags(0x81)) == TopBits[0] + "," + TopBits[7]
  {
    assert FlagsBelow(0x81, 1) == [TopBits[0]];
    ClearBits(0x81, 1, 7);
    assert Flags(0x81) == FlagsBelow(0x81, 7) + [TopBits[7]];
    assert [TopBits[0], TopBits[7]][..1] == [TopBits[0]];
  }

  /** As written, a zero byte after `0x81` still reads the two names the
      earlier call left in the static buffer. */
  lemma StaleTopology(b: seq<char>)
    requires |b| == TopologyBufferSize
    ensures CString(Written(Written(b, 0x81), 0), 1) == TopBits[0] + "," + TopBits[7]
  {
    TopologyNames(b, 0x81);
    TopologyZero(Written(b, 0x81));
    TopologyExample();
  }

  /** On a buffer still zeroed, as static storage starts, a zero byte
      reads as no names at all: the stale text needs an earlier call. */
  lemma ZeroOnFreshBuffer(b: seq<char>)
    requires |b| == TopologyBufferSize
    requires forall j :: 0 <= j < |b| ==> b[j] == '\0'
    ensures CString(Written(b, 0), 1) == ""
  {
    TopologyZero(b);
  }

  /** A clear bit writes nothing. */
  lemma SkipBit(b: seq<char>, v: byte, i: nat)
    requires |b| == TopologyBufferSize && i < 8 && !Bit(v, i)
    ensures ListingBelow(v, i + 1) == ListingBelow(v, i)
    ensures WrittenBelow(b, v, i + 1) == WrittenBelow(b, v, i)
  {
    assert ListingBelow(v, i + 1) == ListingBelow(v, i) + "";
  }

  /** A set bit's ",name" fits before the buffer's last character. */
  lemma AppendBounds(v: byte, i: nat)
    requires i < 8 && Bit(v, i)
    ensures ListingBelow(v, i + 1) == ListingBelow(v, i) + ("," + TopBits[i])
    ensures |ListingBelow(v, i)| + |"," + TopBits[i]| < TopologyBufferSize - 1
  {
    assert |ListingBelow(v, i + 1)| <= 22 * 8;
  }

  /** `seprint` of a set bit's ",name" over the buffer with the bits
      below written leaves the buffer with that bit written too. */
  lemma AppendBit(b: seq<char>, v: byte, i: nat, cur: seq<char>, next: seq<char>)
    requires |b| == TopologyBufferSize && i < 8 && Bit(v, i)
    requires cur == WrittenBelow(b, v, i)
    requires next == cur[..|ListingBelow(v, i)|] + ("," + TopBits[i]) + ['\0'] + cur[|ListingBelow(v, i + 1)| + 1..]
    ensures next == WrittenBelow(b, v, i + 1)
  {
    AppendBounds(v, i);
    Overwrite(b, ListingBelow(v, i), "," + TopBits[i], ListingBelow(v, i + 1), cur, next);
  }

  /** Writing `piece` and a NUL over `before + NUL + rest`. */
  lemma Overwrite(b: seq<char>, before: string, piece: string, after: string, cur: seq<char>, next: seq<char>)
    requires |after| + 1 <= |b| && piece != [] && after == before + piece
    requires cur == before + ['\0'] + b[|before| + 1..]
    requires next == cur[..|before|] + piece + ['\0'] + cur[|after| + 1..]
    ensures next == after + ['\0'] + b[|after| + 1..]
  {
    assert cur[..|before|] == before;
    assert cur[|after| + 1..] == b[|after| + 1..];
  }

  /** Copying one more character of `piece` over `orig` at `p`. */
  lemma CopyStep(orig: seq<char>, p: nat, piece: string, k: nat, cur: seq<char>)
    requires k < |piece| && p + k < |orig| && cur == orig[..p] + piece[..k] + orig[p + k..]
    ensures cur[p + k := piece[k]] == orig[..p] + piece[..k + 1] + orig[p + k + 1..]
  {
    assert piece[..k + 1] == piece[..k] + [piece[k]];
  }

  /** The NUL after the copied characters, and the whole piece when it fits. */
  lemma CopyEnd(orig: seq<char>, p: nat, piece: string, n: nat, cur: seq<char>)
    requires n <= |piece| && p + n < |orig| && cur == orig[..p] + piece[..n] + orig[p + n..]
    ensures cur[p + n := '\0'] == orig[..p] + piece[..n] + ['\0'] + orig[p + n + 1..]
    ensures n == |piece| ==> cur[p + n := '\0'] == orig[..p] + piece + ['\0'] + orig[p + n + 1..]
  {
    assert n == |piece| ==> piece[..n] == piece;
  }
}
