/**
  * The parts of Go's `net` and `net/netip` packages the address classifier
  * uses: net.ParseIP (which parses with netip.ParseAddr and refuses a zone),
  * IP.To4, IP.IsLoopback, net.ParseCIDR, CIDRMask, IP.Mask and
  * IPNet.Contains. An address is a sequence of bytes, 16 long as ParseIP
  * returns it, 4 long for the network number of an IPv4 block.
  */
module Net {
  import opened Wrappers

  type Bytes = seq<bv8>

  /** What netip.ParseAddr yields: a 4-byte IPv4 or a 16-byte IPv6 address. */
  datatype Addr = V4(b4: Bytes) | V6(b16: Bytes)

  // ---------------------------------------------------------------------------
  // Characters

  predicate IsDigit(c: char) {
    '0' <= c <= '9'
  }

  function DigitValue(c: char): (d: int)
    requires IsDigit(c)
    ensures 0 <= d <= 9
  {
    c as int - '0' as int
  }

  /** The decimal digit character of `d`. */
  function DigitChar(d: int): (c: char)
    requires 0 <= d <= 9
    ensures IsDigit(c) && DigitValue(c) == d
  {
    ('0' as int + d) as char
  }

  /** The value of a hex digit in either case, or -1 for any other character. */
  function HexValue(c: char): (d: int)
    ensures -1 <= d < 16
    ensures IsDigit(c) ==> d == DigitValue(c)
  {
    if IsDigit(c) then DigitValue(c)
    else if 'a' <= c <= 'f' then c as int - 'a' as int + 10
    else if 'A' <= c <= 'F' then c as int - 'A' as int + 10
    else -1
  }

  /** The lower-case hex digit character of `d`. */
  function HexChar(d: int): (c: char)
    requires 0 <= d < 16
    ensures HexValue(c) == d
  {
    if d < 10 then DigitChar(d) else ('a' as int + d - 10) as char
  }

  // ---------------------------------------------------------------------------
  // IPv4 text

  /**
    * netip's parseIPv4Fields, one character at a time: `val` is the field
    * being read, `digLen` its number of digits, `fields` the fields already
    * closed by a dot. A field may not have a leading zero or exceed 255,
    * and there are exactly four non-empty fields.
    */
  function V4Fields(s: string, i: nat, val: int, digLen: nat, fields: Bytes): (r: Option<Bytes>)
    requires i <= |s| && 0 <= val <= 255 && |fields| <= 3
    ensures r.Some? ==> |r.value| == 4
    decreases |s| - i
  {
    if i == |s| then
      if |fields| < 3 then None else Some(fields + [val as bv8])
    else if IsDigit(s[i]) then
      if digLen == 1 && val == 0 then None
      else
        var v := val * 10 + DigitValue(s[i]);
        if v > 255 then None else V4Fields(s, i + 1, v, digLen + 1, fields)
    else if s[i] == '.' then
      if i == 0 || i == |s| - 1 || s[i - 1] == '.' then None
      else if |fields| == 3 then None
      else V4Fields(s, i + 1, 0, 0, fields + [val as bv8])
    else None
  }

  /** netip.parseIPv4: the four bytes of dotted-decimal text. */
  function ParseIPv4(s: string): (r: Option<Bytes>)
    ensures r.Some? ==> |r.value| == 4
  {
    V4Fields(s, 0, 0, 0, [])
  }

  /** The decimal text of a number below 256, without leading zeros. */
  function DecimalText(v: int): (t: string)
    requires 0 <= v <= 255
    ensures 1 <= |t| <= 3
    ensures forall k :: 0 <= k < |t| ==> IsDigit(t[k])
    ensures |t| > 1 ==> t[0] != '0'
  {
    if v < 10 then [DigitChar(v)]
    else if v < 100 then [DigitChar(v / 10), DigitChar(v % 10)]
    else [DigitChar(v / 100), DigitChar(v / 10 % 10), DigitChar(v % 10)]
  }

  /** The decimal text of a byte. */
  function Dec(n: bv8): (t: string)
    ensures 1 <= |t| <= 3
    ensures forall k :: 0 <= k < |t| ==> IsDigit(t[k])
  {
    DecimalText(n as int)
  }

  /** Dotted-decimal text of four bytes, as IP.String writes an IPv4 address. */
  function Quad(b: Bytes): string
    requires |b| == 4
  {
    Dec(b[0]) + "." + Dec(b[1]) + "." + Dec(b[2]) + "." + Dec(b[3])
  }

  // ---------------------------------------------------------------------------
  // IPv6 text

  /**
    * The hex number at the start of a group, read as netip does from
    * position `off` with `acc` read so far: a fifth digit is an error, and
    * so is a value above 0xFFFF. The result is the end of the digits and
    * the value.
    */
  function HexField(s: string, off: nat, acc: int): (r: Option<(nat, int)>)
    requires off <= |s| && 0 <= acc <= 0xFFFF
    ensures r.Some? ==> off <= r.value.0 <= |s| && 0 <= r.value.1 <= 0xFFFF
    decreases |s| - off
  {
    if off < |s| && HexValue(s[off]) >= 0 then
      var acc' := acc * 16 + HexValue(s[off]);
      if off > 3 then None
      else if acc' > 0xFFFF then None
      else HexField(s, off + 1, acc')
    else Some((off, acc))
  }

  /**
    * The loop of netip's parseIPv6 over the groups after any leading "::",
    * at the start of a group: `ip` holds the bytes read so far, `ellipsis`
    * the byte position of the "::" or -1. A group has one to four hex
    * digits; a dotted IPv4 address may stand for the last two groups. The
    * result is the bytes read and the position of the "::", before the
    * "::" is expanded.
    */
  function V6Groups(s: string, ip: Bytes, ellipsis: int): (r: Option<(Bytes, int)>)
    requires |ip| <= 16 && |ip| % 2 == 0 && -1 <= ellipsis <= |ip|
    ensures r.Some? ==> |r.value.0| <= 16 && -1 <= r.value.1 <= |r.value.0|
    decreases |s|, 1
  {
    if |ip| == 16 then
      if s == [] then Some((ip, ellipsis)) else None
    else
      match HexField(s, 0, 0)
      case None => None
      case Some((off, acc)) =>
        if off == 0 then None
        else if off < |s| && s[off] == '.' then
          if ellipsis < 0 && |ip| != 12 then None
          else if |ip| + 4 > 16 then None
          else
            match ParseIPv4(s)
            case None => None
            case Some(f) => Some((ip + f, ellipsis))
        else AfterGroup(s[off..], ip + [(acc / 256) as bv8, (acc % 256) as bv8], ellipsis)
  }

  /**
    * The same loop after a group: the text ends, or a ':' leads to the
    * next group, or "::" marks the ellipsis (only once).
    */
  function AfterGroup(rest: string, ip: Bytes, ellipsis: int): (r: Option<(Bytes, int)>)
    requires |ip| <= 16 && |ip| % 2 == 0 && -1 <= ellipsis <= |ip|
    ensures r.Some? ==> |r.value.0| <= 16 && -1 <= r.value.1 <= |r.value.0|
    decreases |rest|, 0
  {
    if rest == [] then Some((ip, ellipsis))
    else if rest[0] != ':' || |rest| == 1 then None
    else if rest[1] == ':' then
      if ellipsis >= 0 then None
      else if |rest| == 2 then Some((ip, |ip|))
      else V6Groups(rest[2..], ip, |ip|)
    else V6Groups(rest[1..], ip, ellipsis)
  }

  function Zeros(n: nat): (z: Bytes)
    ensures |z| == n && forall k :: 0 <= k < n ==> z[k] == 0
  {
    seq(n, _ => 0)
  }

  /** The end of parseIPv6: "::" stands for as many zero bytes as are missing, and at least two. */
  function Expand(r: Option<(Bytes, int)>): (a: Option<Bytes>)
    requires r.Some? ==> |r.value.0| <= 16 && -1 <= r.value.1 <= |r.value.0|
    ensures a.Some? ==> |a.value| == 16
  {
    match r
    case None => None
    case Some((ip, e)) =>
      if |ip| < 16 then
        if e < 0 then None else Some(ip[..e] + Zeros(16 - |ip|) + ip[e..])
      else if e >= 0 then None
      else Some(ip)
  }

  /**
    * netip.parseIPv6 as net.ParseIP and net.ParseCIDR use it: a "%zone"
    * suffix is either empty, which is an error, or a zone, which both
    * callers refuse; so any '%' fails.
    */
  function ParseIPv6(s: string): (a: Option<Bytes>)
    ensures a.Some? ==> |a.value| == 16
  {
    if '%' in s then None
    else if |s| >= 2 && s[0] == ':' && s[1] == ':' then
      if |s| == 2 then Some(Zeros(16)) else Expand(V6Groups(s[2..], [], 0))
    else Expand(V6Groups(s, [], -1))
  }

  // ---------------------------------------------------------------------------
  // Parsing an address

  /**
    * netip.ParseAddr, followed by the refusal of a zone: the first '.', ':'
    * or '%' decides between IPv4, IPv6 and failure.
    */
  function ParseAddrFrom(s: string, i: nat): (a: Option<Addr>)
    requires i <= |s|
    ensures a.Some? && a.value.V4? ==> |a.value.b4| == 4
    ensures a.Some? && a.value.V6? ==> |a.value.b16| == 16
    decreases |s| - i
  {
    if i == |s| then None
    else if s[i] == '.' then
      match ParseIPv4(s)
      case None => None
      case Some(b) => Some(V4(b))
    else if s[i] == ':' then
      match ParseIPv6(s)
      case None => None
      case Some(b) => Some(V6(b))
    else if s[i] == '%' then None
    else ParseAddrFrom(s, i + 1)
  }

  function ParseAddr(s: string): (a: Option<Addr>)
    ensures a.Some? && a.value.V4? ==> |a.value.b4| == 4
    ensures a.Some? && a.value.V6? ==> |a.value.b16| == 16
  {
    ParseAddrFrom(s, 0)
  }

  /** The IPv4-mapped IPv6 form ::ffff:a.b.c.d of four bytes. */
  function V4InV6(b: Bytes): (ip: Bytes)
    requires |b| == 4
    ensures |ip| == 16 && ip[12..] == b
  {
    Zeros(10) + [0xff, 0xff] + b
  }

  /** Addr.As16 */
  function As16(a: Addr): Bytes
    requires a.V4? ==> |a.b4| == 4
  {
    match a
    case V4(b) => V4InV6(b)
    case V6(b) => b
  }

  /** net.ParseIP: the 16-byte form of the address, or None. */
  function ParseIP(s: string): (r: Option<Bytes>)
    ensures r.Some? ==> |r.value| == 16
  {
    match ParseAddr(s)
    case None => None
    case Some(a) => Some(As16(a))
  }

  // ---------------------------------------------------------------------------
  // Address predicates

  /** IP.To4: the four bytes of an IPv4 address in either form. */
  function To4(ip: Bytes): (r: Option<Bytes>)
    ensures r.Some? ==> |r.value| == 4
    ensures |ip| == 16 ==> (r.Some? <==> ip == V4InV6(ip[12..]))
  {
    if |ip| == 4 then Some(ip)
    else if |ip| == 16 && ip[..10] == Zeros(10) && ip[10] == 0xff && ip[11] == 0xff then
      assert ip == ip[..10] + ip[10..12] + ip[12..];
      Some(ip[12..])
    else None
  }

  /** IPv6loopback, ::1 */
  const Loopback6: Bytes := Zeros(15) + [1]

  /** IP.IsLoopback: 127/8 for IPv4 (in either form), ::1 otherwise. */
  predicate IsLoopback(ip: Bytes): (r: bool)
    ensures |ip| == 4 ==> (r <==> ip[0] == 127)
    ensures |ip| == 16 ==> (r <==> (ip == V4InV6(ip[12..]) && ip[12] == 127) || ip == Loopback6)
  {
    assert |ip| == 16 && ip == V4InV6(ip[12..]) ==> ip[10] == 0xff;
    match To4(ip)
    case Some(b) => b[0] == 127
    case None => ip == Loopback6
  }

  // ---------------------------------------------------------------------------
  // Networks

  /** An IPNet: a network number and a mask. */
  datatype IPNet = IPNet(ip: Bytes, mask: Bytes)

  /** The byte of a mask that has its top `n` bits set (all for n >= 8, none for n <= 0). */
  function MaskByte(n: int): (b: bv8)
    ensures n >= 8 ==> b == 0xff
    ensures n <= 0 ==> b == 0
  {
    if n >= 8 then 0xff
    else if n <= 0 then 0
    else !((0xff as bv8) >> n)
  }

  /** The bytes of a mask of `l` bytes with the top `ones` bits set. */
  function MaskBytes(ones: int, l: nat): (m: Bytes)
    ensures |m| == l
    ensures forall k :: 0 <= k < l ==> m[k] == MaskByte(ones - 8 * k)
    decreases l
  {
    if l == 0 then [] else [MaskByte(ones)] + MaskBytes(ones - 8, l - 1)
  }

  /** net.CIDRMask: a mask of `bits` bits with the top `ones` set; only 32 and 128 bits exist. */
  function CIDRMask(ones: int, bits: int): (m: Option<Bytes>)
    ensures m.Some? <==> (bits == 32 || bits == 128) && 0 <= ones <= bits
    ensures m.Some? ==> |m.value| == bits / 8
  {
    if bits != 32 && bits != 128 then None
    else if ones < 0 || ones > bits then None
    else Some(MaskBytes(ones, bits / 8))
  }

  function AndBytes(a: Bytes, b: Bytes): (r: Bytes)
    requires |a| == |b|
    ensures |r| == |a| && forall k :: 0 <= k < |a| ==> r[k] == a[k] & b[k]
  {
    seq(|a|, k requires 0 <= k < |a| => a[k] & b[k])
  }

  /**
    * IP.Mask: a 16-byte mask whose first 12 bytes are all ones applies to
    * a 4-byte address by its last four; a 4-byte mask applies to an
    * IPv4-mapped address by its last four bytes; other lengths that
    * differ give no address (an empty one).
    */
  function MaskIP(ip: Bytes, mask: Bytes): Bytes {
    var m := if |mask| == 16 && |ip| == 4 && (forall k :: 0 <= k < 12 ==> mask[k] == 0xff) then mask[12..] else mask;
    var a := if |m| == 4 && |ip| == 16 && ip[..12] == Zeros(10) + [0xff, 0xff] then ip[12..] else ip;
    if |a| != |m| then [] else AndBytes(a, m)
  }

  /** The decimal number `s` starts with, as net's dtoi reads it: None without digits or from 0xFFFFFF up. */
  function Dtoi(s: string, i: nat, n: int): (r: Option<(int, nat)>)
    requires i <= |s| && 0 <= n < 0xFF_FFFF
    ensures r.Some? ==> i <= r.value.1 <= |s| && 0 <= r.value.0 < 0xFF_FFFF
    decreases |s| - i
  {
    if i < |s| && IsDigit(s[i]) then
      var n' := n * 10 + DigitValue(s[i]);
      if n' >= 0xFF_FFFF then None else Dtoi(s, i + 1, n')
    else Some((n, i))
  }

  /**
    * net.ParseCIDR's network: an address without a zone, '/', and a
    * decimal prefix length within the address's width; the network number
    * is the address under the mask.
    */
  function ParseCIDR(s: string): (r: Option<IPNet>)
    ensures r.Some? ==> (|r.value.mask| == 4 || |r.value.mask| == 16) && |r.value.ip| == |r.value.mask|
  {
    var slash := SlashAt(s, 0);
    if slash < 0 then None
    else
      var addr, suffix := s[..slash], s[slash + 1..];
      match ParseAddr(addr)
      case None => None
      case Some(a) =>
        var bits := if a.V4? then 32 else 128;
        match Dtoi(suffix, 0, 0)
        case None => None
        case Some((n, i)) =>
          if i == 0 || i != |suffix| || n > bits then None
          else
            match CIDRMask(n, bits)
            case None => None
            case Some(m) => Some(IPNet(MaskIP(As16(a), m), m))
  }

  /** The index of the first '/' at or after `i`, or -1. */
  function SlashAt(s: string, i: nat): (k: int)
    requires i <= |s|
    ensures k == -1 || (i <= k < |s| && s[k] == '/')
    ensures forall j :: i <= j < |s| && (k < 0 || j < k) ==> s[j] != '/'
    decreases |s| - i
  {
    if i == |s| then -1 else if s[i] == '/' then i else SlashAt(s, i + 1)
  }

  /**
    * net's networkNumberAndMask: the network number in its 4-byte form
    * when it has one, and a mask of the same length; empty when the two
    * cannot be matched up.
    */
  function NetworkNumberAndMask(n: IPNet): (r: (Bytes, Bytes))
    ensures |r.0| == |r.1|
  {
    var ip := match To4(n.ip) case Some(b) => b case None => n.ip;
    if |ip| != 4 && |ip| != 16 then ([], [])
    else if |n.mask| == 4 then
      if |ip| != 4 then ([], []) else (ip, n.mask)
    else if |n.mask| == 16 then
      if |ip| == 4 then (ip, n.mask[12..]) else (ip, n.mask)
    else ([], [])
  }

  /** IPNet.Contains: the address, in its 4-byte form when it has one, agrees with the network number under the mask. */
  predicate NetContains(n: IPNet, ip: Bytes): (r: bool)
    ensures r && |ip| == 16 ==> (To4(ip).Some? <==> To4(n.ip).Some?)
  {
    var (nn, m) := NetworkNumberAndMask(n);
    var x := match To4(ip) case Some(b) => b case None => ip;
    |x| == |nn| && forall k :: 0 <= k < |x| ==> nn[k] & m[k] == x[k] & m[k]
  }

  // ---------------------------------------------------------------------------
  // IPv4 text round trip

  /** One more digit of the field being read. */
  lemma DigitStep(s: string, i: nat, val: int, digLen: nat, fields: Bytes)
    requires i < |s| && IsDigit(s[i]) && 0 <= val <= 255 && |fields| <= 3
    requires !(digLen == 1 && val == 0) && val * 10 + DigitValue(s[i]) <= 255
    ensures V4Fields(s, i, val, digLen, fields) == V4Fields(s, i + 1, val * 10 + DigitValue(s[i]), digLen + 1, fields)
  {
  }

  /** Two digits read from a field start. */
  lemma TwoDigits(s: string, i: nat, v: int, fields: Bytes)
    requires 10 <= v < 100 && |fields| <= 3 && i + 2 <= |s|
    requires IsDigit(s[i]) && DigitValue(s[i]) == v / 10
    requires IsDigit(s[i + 1]) && DigitValue(s[i + 1]) == v % 10
    ensures V4Fields(s, i, 0, 0, fields) == V4Fields(s, i + 2, v, 2, fields)
  {
    DigitStep(s, i, 0, 0, fields);
    DigitStep(s, i + 1, v / 10, 1, fields);
  }

  /** Three digits read from a field start. */
  lemma ThreeDigits(s: string, i: nat, x: int, y: int, z: int, fields: Bytes)
    requires 1 <= x && 0 <= y <= 9 && 0 <= z <= 9 && x * 100 + y * 10 + z <= 255
    requires |fields| <= 3 && i + 3 <= |s|
    requires IsDigit(s[i]) && DigitValue(s[i]) == x
    requires IsDigit(s[i + 1]) && DigitValue(s[i + 1]) == y
    requires IsDigit(s[i + 2]) && DigitValue(s[i + 2]) == z
    ensures V4Fields(s, i, 0, 0, fields) == V4Fields(s, i + 3, x * 100 + y * 10 + z, 3, fields)
  {
    DigitStep(s, i, 0, 0, fields);
    DigitStep(s, i + 1, x, 1, fields);
    DigitStep(s, i + 2, x * 10 + y, 2, fields);
  }

  lemma HundredsTensUnits(v: int)
    requires 100 <= v <= 255
    ensures 1 <= v / 100 && 0 <= v / 10 % 10 <= 9 && 0 <= v % 10 <= 9
    ensures v == v / 100 * 100 + v / 10 % 10 * 10 + v % 10
  {
    var h, r := v / 100, v % 100;
    assert v == h * 100 + r && 0 <= r < 100;
    assert v / 10 == h * 10 + r / 10;
    assert v % 10 == r % 10;
  }

  /** Reading the decimal text of `v` from a field start leaves `v` as the field's value. */
  lemma DecField(s: string, i: nat, v: int, fields: Bytes)
    requires 0 <= v <= 255 && |fields| <= 3
    requires i + |DecimalText(v)| <= |s| && s[i..i + |DecimalText(v)|] == DecimalText(v)
    ensures V4Fields(s, i, 0, 0, fields) == V4Fields(s, i + |DecimalText(v)|, v, |DecimalText(v)|, fields)
  {
    var t := DecimalText(v);
    assert s[i] == t[0];
    if v < 10 {
      DigitStep(s, i, 0, 0, fields);
    } else if v < 100 {
      assert s[i + 1] == t[1];
      TwoDigits(s, i, v, fields);
    } else {
      assert s[i + 1] == t[1] && s[i + 2] == t[2];
      HundredsTensUnits(v);
      ThreeDigits(s, i, v / 100, v / 10 % 10, v % 10, fields);
    }
  }

  /** A field followed by a dot that does not end the text. */
  lemma FieldThenDot(s: string, i: nat, v: int, fields: Bytes)
    requires 0 <= v <= 255 && |fields| < 3
    requires i + |DecimalText(v)| + 1 < |s| && s[i..i + |DecimalText(v)|] == DecimalText(v)
    requires s[i + |DecimalText(v)|] == '.'
    ensures V4Fields(s, i, 0, 0, fields) == V4Fields(s, i + |DecimalText(v)| + 1, 0, 0, fields + [v as bv8])
  {
    var t := DecimalText(v);
    DecField(s, i, v, fields);
    assert s[i + |t| - 1] == t[|t| - 1];
  }

  /** The last field, which ends the text. */
  lemma LastField(s: string, i: nat, v: int, fields: Bytes)
    requires 0 <= v <= 255 && |fields| == 3
    requires i + |DecimalText(v)| == |s| && s[i..] == DecimalText(v)
    ensures V4Fields(s, i, 0, 0, fields) == Some(fields + [v as bv8])
  {
    DecField(s, i, v, fields);
  }

  /** Text cut at a dot: the part before it, the dot, and the part after it. */
  lemma DotCut(s: string, a: string, b: string)
    requires s == a + "." + b
    ensures s[..|a|] == a && s[|a|] == '.' && s[|a| + 1..] == b
  {
    assert s[..|a|] == (a + "." + b)[..|a|];
  }

  /** A slice of a suffix is a slice of the whole. */
  lemma SuffixSlice(s: string, n: nat, i: nat, j: nat)
    requires n <= |s| && i <= j <= |s| - n
    ensures s[n..][i..j] == s[n + i..n + j]
  {
  }

  /** Where the fields and dots of a dotted quad lie. */
  lemma QuadLayout(s: string, d0: string, d1: string, d2: string, d3: string)
    requires s == d0 + "." + d1 + "." + d2 + "." + d3
    ensures s[..|d0|] == d0 && s[|d0|] == '.'
    ensures s[|d0| + 1..|d0| + 1 + |d1|] == d1 && s[|d0| + 1 + |d1|] == '.'
    ensures s[|d0| + |d1| + 2..|d0| + |d1| + 2 + |d2|] == d2 && s[|d0| + |d1| + 2 + |d2|] == '.'
    ensures s[|d0| + |d1| + |d2| + 3..] == d3
  {
    var t2 := d2 + "." + d3;
    var t1 := d1 + "." + t2;
    assert s == d0 + "." + t1;
    DotCut(s, d0, t1);
    DotCut(t1, d1, t2);
    DotCut(t2, d2, d3);
    var n1 := |d0| + 1;
    var n2 := n1 + |d1| + 1;
    SuffixSlice(s, n1, 0, |d1|);
    assert s[n1..][|d1| + 1..] == s[n2..];
    SuffixSlice(s, n2, 0, |d2|);
    assert s[n2..][|d2| + 1..] == s[n2 + |d2| + 1..];
  }

  /** Four fields, each the decimal text of its value and the first three followed by a dot, are read as their values. */
  lemma QuadFields(s: string, p1: nat, p2: nat, p3: nat, v0: int, v1: int, v2: int, v3: int)
    requires 0 <= v0 <= 255 && 0 <= v1 <= 255 && 0 <= v2 <= 255 && 0 <= v3 <= 255
    requires p1 == |DecimalText(v0)| + 1 && p2 == p1 + |DecimalText(v1)| + 1 && p3 == p2 + |DecimalText(v2)| + 1
    requires p3 + |DecimalText(v3)| == |s|
    requires s[..p1 - 1] == DecimalText(v0) && s[p1 - 1] == '.'
    requires s[p1..p2 - 1] == DecimalText(v1) && s[p2 - 1] == '.'
    requires s[p2..p3 - 1] == DecimalText(v2) && s[p3 - 1] == '.'
    requires s[p3..] == DecimalText(v3)
    ensures V4Fields(s, 0, 0, 0, []) == Some([v0 as bv8, v1 as bv8, v2 as bv8, v3 as bv8])
  {
    var f1, f2, f3 := [v0 as bv8], [v0 as bv8, v1 as bv8], [v0 as bv8, v1 as bv8, v2 as bv8];
    assert [] + [v0 as bv8] == f1 && f1 + [v1 as bv8] == f2 && f2 + [v2 as bv8] == f3;
    assert f3 + [v3 as bv8] == [v0 as bv8, v1 as bv8, v2 as bv8, v3 as bv8];
    assert s[0..p1 - 1] == s[..p1 - 1];
    FieldThenDot(s, 0, v0, []);
    FieldThenDot(s, p1, v1, f1);
    FieldThenDot(s, p2, v2, f2);
    LastField(s, p3, v3, f3);
  }

  /** Dotted-decimal text of four numbers below 256 is read back as those numbers. */
  lemma ParseDecimals(s: string, v0: int, v1: int, v2: int, v3: int)
    requires 0 <= v0 <= 255 && 0 <= v1 <= 255 && 0 <= v2 <= 255 && 0 <= v3 <= 255
    requires s == DecimalText(v0) + "." + DecimalText(v1) + "." + DecimalText(v2) + "." + DecimalText(v3)
    ensures ParseIPv4(s) == Some([v0 as bv8, v1 as bv8, v2 as bv8, v3 as bv8])
  {
    var d0, d1, d2 := DecimalText(v0), DecimalText(v1), DecimalText(v2);
    QuadLayout(s, d0, d1, DecimalText(v2), DecimalText(v3));
    var p1 := |d0| + 1;
    var p2 := p1 + |d1| + 1;
    QuadFields(s, p1, p2, p2 + |d2| + 1, v0, v1, v2, v3);
  }

  /** The dotted quad of four bytes spelled with the decimal text of each byte's value. */
  lemma QuadText(b: Bytes)
    requires |b| == 4
    ensures Quad(b) == DecimalText(b[0] as int) + "." + DecimalText(b[1] as int) + "." + DecimalText(b[2] as int) + "." + DecimalText(b[3] as int)
  {
  }

  /** Dotted-decimal text of the values of four bytes is read back as those bytes. */
  lemma ParseQuadBytes(s: string, b: Bytes)
    requires |b| == 4
    requires s == DecimalText(b[0] as int) + "." + DecimalText(b[1] as int) + "." + DecimalText(b[2] as int) + "." + DecimalText(b[3] as int)
    ensures ParseIPv4(s) == Some(b)
  {
    ParseDecimals(s, b[0] as int, b[1] as int, b[2] as int, b[3] as int);
    assert [b[0] as int as bv8, b[1] as int as bv8, b[2] as int as bv8, b[3] as int as bv8] == b;
  }

  /** netip reads the dotted-decimal text of any four bytes back as those bytes. */
  lemma ParseIPv4Quad(b: Bytes)
    requires |b| == 4
    ensures ParseIPv4(Quad(b)) == Some(b)
  {
    QuadText(b);
    ParseQuadBytes(Quad(b), b);
  }

  // ---------------------------------------------------------------------------
  // Choosing between IPv4 and IPv6

  /** A character that decides netip.ParseAddr's choice of parser. */
  predicate Decisive(c: char) {
    c == '.' || c == ':' || c == '%'
  }

  /** ParseAddr passes over the characters before the first decisive one. */
  lemma {:induction false} ParseAddrSkips(s: string, i: nat, j: nat)
    requires i <= j <= |s|
    requires forall k :: i <= k < j ==> !Decisive(s[k])
    ensures ParseAddrFrom(s, i) == ParseAddrFrom(s, j)
    decreases j - i
  {
    if i < j {
      assert !Decisive(s[i]);
      ParseAddrSkips(s, i + 1, j);
    }
  }

  /** Text whose first decisive character is a dot is read as IPv4 or not at all. */
  lemma ParseAddrV4(s: string, j: nat)
    requires j < |s| && s[j] == '.'
    requires forall k :: 0 <= k < j ==> !Decisive(s[k])
    ensures ParseAddr(s) == match ParseIPv4(s) case None => None case Some(b) => Some(V4(b))
  {
    ParseAddrSkips(s, 0, j);
  }

  /** Text whose first decisive character is a colon is read as IPv6 or not at all. */
  lemma ParseAddrV6(s: string, j: nat)
    requires j < |s| && s[j] == ':'
    requires forall k :: 0 <= k < j ==> !Decisive(s[k])
    ensures ParseAddr(s) == match ParseIPv6(s) case None => None case Some(b) => Some(V6(b))
  {
    ParseAddrSkips(s, 0, j);
  }

  /** Text with no decisive character is not an address. */
  lemma ParseAddrNeither(s: string)
    requires forall k :: 0 <= k < |s| ==> !Decisive(s[k])
    ensures ParseAddr(s) == None
  {
    ParseAddrSkips(s, 0, |s|);
  }

  /** netip.ParseAddr reads the dotted-decimal text of four bytes as an IPv4 address. */
  lemma ParseAddrQuad(b: Bytes)
    requires |b| == 4
    ensures ParseAddr(Quad(b)) == Some(V4(b))
  {
    var s, d0 := Quad(b), Dec(b[0]);
    QuadLayout(s, d0, Dec(b[1]), Dec(b[2]), Dec(b[3]));
    assert forall k :: 0 <= k < |d0| ==> s[k] == d0[k];
    ParseAddrV4(s, |d0|);
    ParseIPv4Quad(b);
  }

  /** net.ParseIP reads the dotted-decimal text of four bytes as their IPv4-mapped form. */
  lemma ParseIPQuad(b: Bytes)
    requires |b| == 4
    ensures ParseIP(Quad(b)) == Some(V4InV6(b))
  {
    ParseAddrQuad(b);
  }

  // ---------------------------------------------------------------------------
  // IPv6 text round trip

  /** A 16-bit group value. */
  predicate IsGroup(g: int) {
    0 <= g < 0x1_0000
  }

  /** 16 to the power `n`, for the widths a group can have. */
  function Pow16(n: nat): nat
    requires n <= 4
  {
    if n == 0 then 1 else if n == 1 then 0x10 else if n == 2 then 0x100 else if n == 3 then 0x1000 else 0x1_0000
  }

  /** The last `n` hex digits of `g`, in lower case. */
  function HexDigits(g: nat, n: nat): (t: string)
    ensures |t| == n
    decreases n
  {
    if n == 0 then "" else HexDigits(g / 16, n - 1) + [HexChar(g % 16)]
  }

  /** The number of hex digits of a group without leading zeros. */
  function Width(g: int): (n: nat)
    requires IsGroup(g)
    ensures 1 <= n <= 4 && g < Pow16(n)
  {
    if g < 0x10 then 1 else if g < 0x100 then 2 else if g < 0x1000 then 3 else 4
  }

  /** The hex text of a group without leading zeros, in lower case, as IP.String writes it. */
  function Hex(g: int): (t: string)
    requires IsGroup(g)
    ensures 1 <= |t| <= 4
  {
    HexDigits(g, Width(g))
  }

  /** The two bytes of a group, high byte first. */
  function GroupBytes(g: int): Bytes
    requires IsGroup(g)
  {
    [(g / 256) as bv8, (g % 256) as bv8]
  }

  /** Groups separated by single colons. */
  function Groups(gs: seq<int>): (t: string)
    requires forall k :: 0 <= k < |gs| ==> IsGroup(gs[k])
    ensures gs != [] ==> t != [] && t[0] == Hex(gs[0])[0]
    decreases |gs|
  {
    if gs == [] then ""
    else if |gs| == 1 then Hex(gs[0])
    else Hex(gs[0]) + ":" + Groups(gs[1..])
  }

  /** The bytes of a run of groups. */
  function GroupsBytes(gs: seq<int>): (b: Bytes)
    requires forall k :: 0 <= k < |gs| ==> IsGroup(gs[k])
    ensures |b| == 2 * |gs| && |b| % 2 == 0
    decreases |gs|
  {
    if gs == [] then [] else GroupBytes(gs[0]) + GroupsBytes(gs[1..])
  }

  lemma {:induction false} HexDigitsAreHex(g: nat, n: nat)
    ensures forall k :: 0 <= k < n ==> HexValue(HexDigits(g, n)[k]) >= 0
    decreases n
  {
    if n > 0 {
      HexDigitsAreHex(g / 16, n - 1);
      var t := HexDigits(g, n);
      assert forall k :: 0 <= k < n - 1 ==> t[k] == HexDigits(g / 16, n - 1)[k];
    }
  }

  lemma HexIsHex(g: int)
    requires IsGroup(g)
    ensures forall k :: 0 <= k < |Hex(g)| ==> HexValue(Hex(g)[k]) >= 0
  {
    HexDigitsAreHex(g, Width(g));
  }

  /** One more digit of a group. */
  lemma HexStep(s: string, off: nat, acc: int)
    requires off < |s| && off <= 3 && HexValue(s[off]) >= 0
    requires 0 <= acc && acc * 16 + HexValue(s[off]) <= 0xFFFF
    ensures HexField(s, off, acc) == HexField(s, off + 1, acc * 16 + HexValue(s[off]))
  {
  }

  /** Reading `n` digits that spell `g` from the start of a group leaves `g`. */
  lemma {:induction false} HexDigitsRun(s: string, g: nat, n: nat)
    requires n <= 4 && n <= |s| && g < Pow16(n)
    requires s[..n] == HexDigits(g, n)
    ensures HexField(s, 0, 0) == HexField(s, n, g)
    decreases n
  {
    if n > 0 {
      var t := HexDigits(g / 16, n - 1);
      assert s[..n - 1] == s[..n][..n - 1] == t;
      assert s[n - 1] == HexChar(g % 16);
      HexDigitsRun(s, g / 16, n - 1);
      HexStep(s, n - 1, g / 16);
    }
  }

  /** Hex reads back as its group when no hex digit follows. */
  lemma HexFieldOfHex(g: int, t: string)
    requires IsGroup(g)
    requires t == [] || HexValue(t[0]) < 0
    ensures HexField(Hex(g) + t, 0, 0) == Some((|Hex(g)|, g))
  {
    var s, n := Hex(g) + t, Width(g);
    assert s[..n] == Hex(g);
    HexDigitsRun(s, g, n);
    assert n < |s| ==> s[n] == t[0];
  }

  /** One group, followed by nothing or by a colon. */
  lemma OneGroup(g: int, t: string, ip: Bytes, e: int)
    requires IsGroup(g) && |ip| % 2 == 0 && |ip| + 2 <= 16 && -1 <= e <= |ip|
    requires t == [] || t[0] == ':'
    ensures V6Groups(Hex(g) + t, ip, e) == AfterGroup(t, ip + GroupBytes(g), e)
  {
    var h, s := Hex(g), Hex(g) + t;
    HexFieldOfHex(g, t);
    assert s[|h|..] == t;
    assert |h| < |s| ==> s[|h|] == ':';
  }

  /** A single colon before a group moves on to that group. */
  lemma ColonStep(rest: string, ip: Bytes, e: int)
    requires |ip| <= 16 && |ip| % 2 == 0 && -1 <= e <= |ip|
    requires rest != [] && HexValue(rest[0]) >= 0
    ensures AfterGroup(":" + rest, ip, e) == V6Groups(rest, ip, e)
  {
    assert (":" + rest)[1] == rest[0];
    assert (":" + rest)[1..] == rest;
  }

  /** A group and a colon in front of further groups. */
  lemma GroupThenMore(gs: seq<int>, t: string, ip: Bytes, e: int)
    requires forall k :: 0 <= k < |gs| ==> IsGroup(gs[k])
    requires |gs| >= 2 && |ip| % 2 == 0 && |ip| + 2 * |gs| <= 16 && -1 <= e <= |ip|
    ensures V6Groups(Groups(gs) + t, ip, e) == V6Groups(Groups(gs[1..]) + t, ip + GroupBytes(gs[0]), e)
  {
    var g, rest, ip' := gs[0], Groups(gs[1..]) + t, ip + GroupBytes(gs[0]);
    var h := Hex(gs[1]);
    HexIsHex(gs[1]);
    assert Groups(gs) + t == Hex(g) + (":" + rest);
    assert rest[0] == h[0] && HexValue(h[0]) >= 0;
    assert |ip'| == |ip| + 2 && |ip'| % 2 == 0;
    ColonStep(rest, ip', e);
    OneGroup(g, ":" + rest, ip, e);
  }

  /** netip's group loop reads a run of groups followed by nothing or by a colon. */
  lemma {:induction false} GroupsRun(gs: seq<int>, t: string, ip: Bytes, e: int)
    requires forall k :: 0 <= k < |gs| ==> IsGroup(gs[k])
    requires |gs| >= 1 && |ip| % 2 == 0 && |ip| + 2 * |gs| <= 16 && -1 <= e <= |ip|
    requires t == [] || t[0] == ':'
    ensures V6Groups(Groups(gs) + t, ip, e) == AfterGroup(t, ip + GroupsBytes(gs), e)
    decreases |gs|
  {
    var g := gs[0];
    if |gs| == 1 {
      assert Groups(gs) == Hex(g);
      assert GroupsBytes(gs) == GroupBytes(g) + [] == GroupBytes(g);
      OneGroup(g, t, ip, e);
    } else {
      var ip' := ip + GroupBytes(g);
      assert ip' + GroupsBytes(gs[1..]) == ip + GroupsBytes(gs);
      assert |ip'| == |ip| + 2 && |ip'| % 2 == 0;
      GroupThenMore(gs, t, ip, e);
      GroupsRun(gs[1..], t, ip', e);
    }
  }

  /** Text made of hex digits and colons only. */
  predicate V6Text(s: string) {
    forall k :: 0 <= k < |s| ==> HexValue(s[k]) >= 0 || s[k] == ':'
  }

  lemma {:induction false} GroupsText(gs: seq<int>)
    requires forall k :: 0 <= k < |gs| ==> IsGroup(gs[k])
    ensures V6Text(Groups(gs))
    decreases |gs|
  {
    if gs != [] {
      HexIsHex(gs[0]);
    }
    if |gs| > 1 {
      GroupsText(gs[1..]);
      var h, r := Hex(gs[0]), Groups(gs[1..]);
      assert Groups(gs) == h + ":" + r;
      forall k | 0 <= k < |Groups(gs)|
        ensures HexValue(Groups(gs)[k]) >= 0 || Groups(gs)[k] == ':'
      {
        if k > |h| {
          assert Groups(gs)[k] == r[k - |h| - 1];
        }
      }
    }
  }

  lemma V6TextConcat(a: string, b: string)
    requires V6Text(a) && V6Text(b)
    ensures V6Text(a + b)
  {
    forall k | 0 <= k < |a + b|
      ensures HexValue((a + b)[k]) >= 0 || (a + b)[k] == ':'
    {
      if k >= |a| {
        assert (a + b)[k] == b[k - |a|];
      }
    }
  }

  /** Text written with a "::" standing for the zero groups between `hs` and `ts`. */
  function Compressed(hs: seq<int>, ts: seq<int>): string
    requires forall k :: 0 <= k < |hs| ==> IsGroup(hs[k])
    requires forall k :: 0 <= k < |ts| ==> IsGroup(ts[k])
  {
    Groups(hs) + "::" + Groups(ts)
  }

  lemma CompressedText(hs: seq<int>, ts: seq<int>)
    requires forall k :: 0 <= k < |hs| ==> IsGroup(hs[k])
    requires forall k :: 0 <= k < |ts| ==> IsGroup(ts[k])
    ensures V6Text(Compressed(hs, ts))
    ensures '%' !in Compressed(hs, ts)
  {
    GroupsText(hs);
    GroupsText(ts);
    V6TextConcat(Groups(hs), "::");
    V6TextConcat(Groups(hs) + "::", Groups(ts));
  }

  /** A "::" at the start of text without a zone. */
  lemma LeadingEllipsis(s: string)
    requires |s| > 2 && s[0] == ':' && s[1] == ':'
    requires '%' !in s
    ensures ParseIPv6(s) == Expand(V6Groups(s[2..], [], 0))
  {
  }

  /** Text without a zone that starts with a hex digit. */
  lemma NoLeadingEllipsis(s: string)
    requires s != [] && HexValue(s[0]) >= 0
    requires '%' !in s
    ensures ParseIPv6(s) == Expand(V6Groups(s, [], -1))
  {
  }

  /** The "::" between the bytes `b` and `c` stands for the zero bytes that are missing. */
  lemma ExpandAt(b: Bytes, c: Bytes)
    requires |b| + |c| < 16
    ensures Expand(Some((b + c, |b|))) == Some(b + Zeros(16 - |b| - |c|) + c)
  {
    assert (b + c)[..|b|] == b && (b + c)[|b|..] == c;
  }

  /** A "::" in front of all the bytes read. */
  lemma ExpandFront(c: Bytes)
    requires |c| < 16
    ensures Expand(Some((c, 0))) == Some(Zeros(16 - |c|) + c)
  {
    assert c[..0] + Zeros(16 - |c|) + c[0..] == Zeros(16 - |c|) + c;
  }

  /** A "::" after a group, followed by nothing or by more text. */
  lemma EllipsisStep(r: string, ip: Bytes)
    requires |ip| < 16 && |ip| % 2 == 0
    ensures AfterGroup("::" + r, ip, -1) == if r == [] then Some((ip, |ip|)) else V6Groups(r, ip, |ip|)
  {
    assert ("::" + r)[1] == ':';
    assert ("::" + r)[2..] == r;
  }

  /** The groups after a leading "::". */
  lemma GroupsAfterLeading(ts: seq<int>)
    requires forall k :: 0 <= k < |ts| ==> IsGroup(ts[k])
    requires 1 <= |ts| <= 7
    ensures V6Groups(Groups(ts), [], 0) == Some((GroupsBytes(ts), 0))
  {
    assert Groups(ts) + "" == Groups(ts);
    GroupsRun(ts, "", [], 0);
    assert [] + GroupsBytes(ts) == GroupsBytes(ts);
  }

  /** The groups after an inner "::". */
  lemma GroupsAfterInner(ts: seq<int>, b: Bytes)
    requires forall k :: 0 <= k < |ts| ==> IsGroup(ts[k])
    requires 1 <= |ts| && |b| % 2 == 0 && |b| + 2 * |ts| < 16
    ensures V6Groups(Groups(ts), b, |b|) == Some((b + GroupsBytes(ts), |b|))
  {
    assert Groups(ts) + "" == Groups(ts);
    GroupsRun(ts, "", b, |b|);
  }

  /** The groups before an inner "::". */
  lemma GroupsBeforeInner(hs: seq<int>, t: string)
    requires forall k :: 0 <= k < |hs| ==> IsGroup(hs[k])
    requires 1 <= |hs| <= 7 && |t| >= 2 && t[0] == ':'
    ensures V6Groups(Groups(hs) + t, [], -1) == AfterGroup(t, GroupsBytes(hs), -1)
  {
    GroupsRun(hs, t, [], -1);
    assert [] + GroupsBytes(hs) == GroupsBytes(hs);
  }

  /** Text of hex digits and colons has no zone. */
  lemma NoZone(s: string)
    requires V6Text(s)
    ensures '%' !in s
  {
  }

  /** Text starting with "::" and read as `c` after it. */
  lemma LeadingChain(s: string, c: Bytes, n: nat)
    requires |s| > 2 && s[0] == ':' && s[1] == ':' && '%' !in s
    requires V6Groups(s[2..], [], 0) == Some((c, 0)) && |c| < 16 && n == 16 - |c|
    ensures ParseIPv6(s) == Some(Zeros(n) + c)
  {
    LeadingEllipsis(s);
    ExpandFront(c);
  }

  /** Compressed text has no zone. */
  lemma CompressedNoZone(hs: seq<int>, ts: seq<int>)
    requires forall k :: 0 <= k < |hs| ==> IsGroup(hs[k])
    requires forall k :: 0 <= k < |ts| ==> IsGroup(ts[k])
    ensures '%' !in Groups(hs) + ("::" + Groups(ts))
  {
    GroupsText(hs);
    GroupsText(ts);
    V6TextConcat("::", Groups(ts));
    V6TextConcat(Groups(hs), "::" + Groups(ts));
    NoZone(Groups(hs) + ("::" + Groups(ts)));
  }

  /** What the leading-"::" chain needs of "::" followed by groups. */
  lemma LeadingFacts(ts: seq<int>, s: string)
    requires forall k :: 0 <= k < |ts| ==> IsGroup(ts[k])
    requires 1 <= |ts| <= 7 && s == Compressed([], ts)
    ensures |s| > 2 && s[0] == ':' && s[1] == ':' && '%' !in s
    ensures V6Groups(s[2..], [], 0) == Some((GroupsBytes(ts), 0))
  {
    CompressedNoZone([], ts);
    assert Groups([]) + s == s;
    assert s[2..] == Groups(ts);
    GroupsAfterLeading(ts);
  }

  /** netip reads "::" followed by groups as zeros and then the groups' bytes. */
  lemma LeadingParse(ts: seq<int>)
    requires forall k :: 0 <= k < |ts| ==> IsGroup(ts[k])
    requires 1 <= |ts| <= 7
    ensures ParseIPv6(Compressed([], ts)) == Some(Zeros(16 - 2 * |ts|) + GroupsBytes(ts))
  {
    var s := Compressed([], ts);
    LeadingFacts(ts, s);
    LeadingChain(s, GroupsBytes(ts), 16 - 2 * |ts|);
  }

  lemma EmptyFront(b: Bytes, x: Bytes, y: Bytes)
    requires b == []
    ensures b + x + y == x + y
  {
  }

  /** Text starting with a digit and read as `b`, then "::", then `c`. */
  lemma InnerChain(s: string, b: Bytes, c: Bytes, n: nat)
    requires s != [] && HexValue(s[0]) >= 0 && '%' !in s
    requires V6Groups(s, [], -1) == Some((b + c, |b|)) && |b| + |c| < 16 && n == 16 - |b| - |c|
    ensures ParseIPv6(s) == Some(b + Zeros(n) + c)
  {
    NoLeadingEllipsis(s);
    ExpandAt(b, c);
  }

  /** The group loop over groups, "::" and possibly more groups. */
  lemma InnerGroups(hs: seq<int>, ts: seq<int>)
    requires forall k :: 0 <= k < |hs| ==> IsGroup(hs[k])
    requires forall k :: 0 <= k < |ts| ==> IsGroup(ts[k])
    requires hs != [] && |hs| + |ts| <= 7
    ensures V6Groups(Groups(hs) + ("::" + Groups(ts)), [], -1) == Some((GroupsBytes(hs) + GroupsBytes(ts), 2 * |hs|))
  {
    var b, c := GroupsBytes(hs), GroupsBytes(ts);
    GroupsBeforeInner(hs, "::" + Groups(ts));
    EllipsisStep(Groups(ts), b);
    if ts == [] {
      assert b + c == b;
    } else {
      GroupsAfterInner(ts, b);
    }
  }

  /** What the inner-"::" chain needs of groups, "::" and possibly more groups. */
  lemma InnerFacts(hs: seq<int>, ts: seq<int>, s: string)
    requires forall k :: 0 <= k < |hs| ==> IsGroup(hs[k])
    requires forall k :: 0 <= k < |ts| ==> IsGroup(ts[k])
    requires hs != [] && |hs| + |ts| <= 7
    requires s == Groups(hs) + ("::" + Groups(ts))
    ensures s != [] && HexValue(s[0]) >= 0 && '%' !in s
    ensures V6Groups(s, [], -1) == Some((GroupsBytes(hs) + GroupsBytes(ts), |GroupsBytes(hs)|))
  {
    CompressedNoZone(hs, ts);
    HexIsHex(hs[0]);
    assert s[0] == Hex(hs[0])[0];
    InnerGroups(hs, ts);
  }

  /** Groups, "::" and possibly more groups. */
  lemma ParseInnerCompressed(hs: seq<int>, ts: seq<int>)
    requires forall k :: 0 <= k < |hs| ==> IsGroup(hs[k])
    requires forall k :: 0 <= k < |ts| ==> IsGroup(ts[k])
    requires hs != [] && |hs| + |ts| <= 7
    ensures ParseIPv6(Compressed(hs, ts)) == Some(GroupsBytes(hs) + Zeros(16 - 2 * (|hs| + |ts|)) + GroupsBytes(ts))
  {
    var s := Compressed(hs, ts);
    InnerFacts(hs, ts, s);
    InnerChain(s, GroupsBytes(hs), GroupsBytes(ts), 16 - 2 * (|hs| + |ts|));
  }

  /** "::" alone is the unspecified address. */
  lemma ParseUnspecified(hs: seq<int>, ts: seq<int>)
    requires hs == [] && ts == []
    ensures ParseIPv6(Compressed(hs, ts)) == Some(GroupsBytes(hs) + Zeros(16 - 2 * (|hs| + |ts|)) + GroupsBytes(ts))
  {
    assert Compressed(hs, ts) == "::";
    assert "::"[0] == ':' && "::"[1] == ':';
    assert GroupsBytes(hs) + Zeros(16) + GroupsBytes(ts) == Zeros(16);
  }

  /** netip reads compressed IPv6 text as its groups around the missing zeros. */
  lemma ParseIPv6Compressed(hs: seq<int>, ts: seq<int>)
    requires forall k :: 0 <= k < |hs| ==> IsGroup(hs[k])
    requires forall k :: 0 <= k < |ts| ==> IsGroup(ts[k])
    requires |hs| + |ts| <= 7
    ensures ParseIPv6(Compressed(hs, ts)) == Some(GroupsBytes(hs) + Zeros(16 - 2 * (|hs| + |ts|)) + GroupsBytes(ts))
  {
    if hs == [] && ts == [] {
      ParseUnspecified(hs, ts);
    } else if hs == [] {
      LeadingParse(ts);
      assert GroupsBytes(hs) + Zeros(16 - 2 * (|hs| + |ts|)) == Zeros(16 - 2 * |ts|);
    } else {
      ParseInnerCompressed(hs, ts);
    }
  }

  /** netip reads eight groups written out in full as their bytes. */
  lemma ParseIPv6Full(gs: seq<int>)
    requires forall k :: 0 <= k < |gs| ==> IsGroup(gs[k])
    requires |gs| == 8
    ensures ParseIPv6(Groups(gs)) == Some(GroupsBytes(gs))
  {
    var s := Groups(gs);
    GroupsText(gs);
    NoZone(s);
    HexIsHex(gs[0]);
    assert HexValue(s[0]) >= 0;
    NoLeadingEllipsis(s);
    assert s + "" == s;
    GroupsRun(gs, "", [], -1);
    assert [] + GroupsBytes(gs) == GroupsBytes(gs);
  }

  // ---------------------------------------------------------------------------
  // IPv6 text as net.ParseIP reads it

  /** The first group of a run of groups, then a colon unless it is the only one. */
  lemma GroupsHead(hs: seq<int>)
    requires forall k :: 0 <= k < |hs| ==> IsGroup(hs[k])
    requires hs != []
    ensures |Hex(hs[0])| <= |Groups(hs)| && Groups(hs)[..|Hex(hs[0])|] == Hex(hs[0])
    ensures |Groups(hs)| > |Hex(hs[0])| ==> Groups(hs)[|Hex(hs[0])|] == ':'
  {
    if |hs| > 1 {
      var h, g := Hex(hs[0]), Groups(hs);
      assert g == h + ":" + Groups(hs[1..]);
      assert g[..|h|] == h;
    }
  }

  /** Hex digits, then a colon: the colon is the first decisive character. */
  lemma ColonFirst(s: string, g: string, h: string, t: string)
    requires s == g + t && |h| <= |g| && g[..|h|] == h
    requires |g| > |h| ==> g[|h|] == ':'
    requires t != [] && t[0] == ':'
    requires forall k :: 0 <= k < |h| ==> HexValue(h[k]) >= 0
    ensures |h| < |s| && s[|h|] == ':'
    ensures forall k :: 0 <= k < |h| ==> !Decisive(s[k])
  {
    assert forall k :: 0 <= k < |h| ==> s[k] == g[..|h|][k];
  }

  /** Text read by ParseIPv6 whose first decisive character is a colon is what net.ParseIP returns. */
  lemma ParseIPColon(s: string, j: nat, x: Bytes)
    requires j < |s| && s[j] == ':'
    requires forall k :: 0 <= k < j ==> !Decisive(s[k])
    requires ParseIPv6(s) == Some(x)
    ensures ParseIP(s) == Some(x)
  {
    ParseAddrV6(s, j);
  }

  /** Where the first colon of compressed text lies. */
  lemma CompressedColon(hs: seq<int>, ts: seq<int>) returns (j: nat)
    requires forall k :: 0 <= k < |hs| ==> IsGroup(hs[k])
    requires forall k :: 0 <= k < |ts| ==> IsGroup(ts[k])
    ensures j < |Compressed(hs, ts)| && Compressed(hs, ts)[j] == ':'
    ensures forall k :: 0 <= k < j ==> !Decisive(Compressed(hs, ts)[k])
  {
    var s, t := Compressed(hs, ts), "::" + Groups(ts);
    assert s == Groups(hs) + t;
    if hs == [] {
      j := 0;
      assert s[0] == t[0];
    } else {
      GroupsHead(hs);
      HexIsHex(hs[0]);
      ColonFirst(s, Groups(hs), Hex(hs[0]), t);
      j := |Hex(hs[0])|;
    }
  }

  /** net.ParseIP reads compressed IPv6 text as its groups around the missing zeros. */
  lemma ParseIPCompressed(hs: seq<int>, ts: seq<int>)
    requires forall k :: 0 <= k < |hs| ==> IsGroup(hs[k])
    requires forall k :: 0 <= k < |ts| ==> IsGroup(ts[k])
    requires |hs| + |ts| <= 7
    ensures ParseIP(Compressed(hs, ts)) == Some(GroupsBytes(hs) + Zeros(16 - 2 * (|hs| + |ts|)) + GroupsBytes(ts))
  {
    var j := CompressedColon(hs, ts);
    ParseIPv6Compressed(hs, ts);
    ParseIPColon(Compressed(hs, ts), j, GroupsBytes(hs) + Zeros(16 - 2 * (|hs| + |ts|)) + GroupsBytes(ts));
  }

  /** net.ParseIP reads eight groups written out in full as their bytes. */
  lemma ParseIPFull(gs: seq<int>)
    requires forall k :: 0 <= k < |gs| ==> IsGroup(gs[k])
    requires |gs| == 8
    ensures ParseIP(Groups(gs)) == Some(GroupsBytes(gs))
  {
    var s, t := Groups(gs), ":" + Groups(gs[1..]);
    assert s == Hex(gs[0]) + t;
    HexIsHex(gs[0]);
    ColonFirst(s, Hex(gs[0]), Hex(gs[0]), t);
    ParseIPv6Full(gs);
    ParseIPColon(s, |Hex(gs[0])|, GroupsBytes(gs));
  }

  // ---------------------------------------------------------------------------
  // CIDR text

  /** Reading the decimal text of a number below 256 gives the number and consumes all of it. */
  lemma DtoiDecimal(v: int)
    requires 0 <= v <= 255
    ensures Dtoi(DecimalText(v), 0, 0) == Some((v, |DecimalText(v)|))
  {
    var t := DecimalText(v);
    if v < 10 {
      assert Dtoi(t, 1, v) == Some((v, 1));
    } else if v < 100 {
      assert Dtoi(t, 2, v) == Some((v, 2));
      assert Dtoi(t, 1, v / 10) == Dtoi(t, 2, v);
    } else {
      HundredsTensUnits(v);
      var x := v / 100 * 10 + v / 10 % 10;
      assert Dtoi(t, 3, v) == Some((v, 3));
      assert Dtoi(t, 2, x) == Dtoi(t, 3, v);
      assert Dtoi(t, 1, v / 100) == Dtoi(t, 2, x);
    }
  }

  /** The '/' after text without one is the first. */
  lemma SlashAfter(a: string, rest: string)
    requires forall k :: 0 <= k < |a| ==> a[k] != '/'
    ensures SlashAt(a + "/" + rest, 0) == |a|
  {
    var s := a + "/" + rest;
    assert forall k :: 0 <= k < |a| ==> s[k] == a[k];
    assert s[|a|] == '/';
  }

  /**
    * net.ParseCIDR of an address that ParseAddr reads, a slash and a
    * prefix length within the address's width: the masked address and
    * the mask.
    */
  lemma ParseCIDRText(a: string, addr: Addr, n: int)
    requires forall k :: 0 <= k < |a| ==> a[k] != '/'
    requires ParseAddr(a) == Some(addr)
    requires 0 <= n <= (if addr.V4? then 32 else 128)
    ensures addr.V4? ==> ParseCIDR(a + "/" + DecimalText(n)) == Some(IPNet(MaskIP(V4InV6(addr.b4), MaskBytes(n, 4)), MaskBytes(n, 4)))
    ensures addr.V6? ==> ParseCIDR(a + "/" + DecimalText(n)) == Some(IPNet(MaskIP(addr.b16, MaskBytes(n, 16)), MaskBytes(n, 16)))
  {
    var s, d := a + "/" + DecimalText(n), DecimalText(n);
    SlashAfter(a, d);
    assert s[..|a|] == a && s[|a| + 1..] == d;
    DtoiDecimal(n);
    ParseCIDRParts(s, a, d, addr, n);
  }

  /** net.ParseCIDR of text cut at its first '/' into an address and a whole decimal prefix length. */
  lemma ParseCIDRParts(s: string, a: string, d: string, addr: Addr, n: int)
    requires |a| < |s| && SlashAt(s, 0) == |a| && s[..|a|] == a && s[|a| + 1..] == d
    requires ParseAddr(a) == Some(addr)
    requires 0 < |d| && Dtoi(d, 0, 0) == Some((n, |d|))
    requires 0 <= n <= (if addr.V4? then 32 else 128)
    ensures addr.V4? ==> ParseCIDR(s) == Some(IPNet(MaskIP(V4InV6(addr.b4), MaskBytes(n, 4)), MaskBytes(n, 4)))
    ensures addr.V6? ==> ParseCIDR(s) == Some(IPNet(MaskIP(addr.b16, MaskBytes(n, 16)), MaskBytes(n, 16)))
  {
    var bits := if addr.V4? then 32 else 128;
    var m := MaskBytes(n, bits / 8);
    assert CIDRMask(n, bits) == Some(m);
    assert ParseCIDR(s) == Some(IPNet(MaskIP(As16(addr), m), m));
  }

  /** Decimal text has no slash. */
  lemma DecNoSlash(n: bv8)
    ensures '/' !in Dec(n)
  {
    var t := Dec(n);
    assert forall k :: 0 <= k < |t| ==> t[k] != '/';
  }

  /** Dotted-decimal text has no slash. */
  lemma QuadNoSlash(b: Bytes)
    requires |b| == 4
    ensures forall k :: 0 <= k < |Quad(b)| ==> Quad(b)[k] != '/'
  {
    DecNoSlash(b[0]);
    DecNoSlash(b[1]);
    DecNoSlash(b[2]);
    DecNoSlash(b[3]);
    assert '/' !in Quad(b);
  }

  /** net.ParseCIDR of an IPv4 block written as a dotted quad and a prefix length. */
  lemma ParseCIDRQuad(b: Bytes, n: int)
    requires |b| == 4 && 0 <= n <= 32
    ensures ParseCIDR(Quad(b) + "/" + DecimalText(n)) == Some(IPNet(AndBytes(b, MaskBytes(n, 4)), MaskBytes(n, 4)))
  {
    QuadNoSlash(b);
    ParseAddrQuad(b);
    ParseCIDRText(Quad(b), V4(b), n);
    assert V4InV6(b)[..12] == Zeros(10) + [0xff, 0xff];
  }

  /** net.ParseCIDR of an IPv6 block written in compressed form and a prefix length. */
  lemma ParseCIDRCompressed(hs: seq<int>, ts: seq<int>, n: int)
    requires forall k :: 0 <= k < |hs| ==> IsGroup(hs[k])
    requires forall k :: 0 <= k < |ts| ==> IsGroup(ts[k])
    requires |hs| + |ts| <= 7 && 0 <= n <= 128
    ensures ParseCIDR(Compressed(hs, ts) + "/" + DecimalText(n)) ==
      var b := GroupsBytes(hs) + Zeros(16 - 2 * (|hs| + |ts|)) + GroupsBytes(ts);
      Some(IPNet(AndBytes(b, MaskBytes(n, 16)), MaskBytes(n, 16)))
  {
    var a, b := Compressed(hs, ts), GroupsBytes(hs) + Zeros(16 - 2 * (|hs| + |ts|)) + GroupsBytes(ts);
    var j := CompressedColon(hs, ts);
    ParseIPv6Compressed(hs, ts);
    ParseAddrV6(a, j);
    CompressedText(hs, ts);
    ParseCIDRText(a, V6(b), n);
  }
  // ---------------------------------------------------------------------------
  // What net.ParseIP accepts

  /** The text of fields closed by a dot: each field in decimal, then '.'. */
  function Dotted(fields: Bytes): (t: string)
    ensures fields != [] ==> t != [] && t[|t| - 1] == '.'
  {
    if fields == [] then [] else Dotted(fields[..|fields| - 1]) + Dec(fields[|fields| - 1]) + "."
  }

  /** A digit after a field without a leading zero extends its decimal text. */
  lemma DecimalAppend(v: int, c: char)
    requires 1 <= v && IsDigit(c) && v * 10 + DigitValue(c) <= 255
    ensures DecimalText(v * 10 + DigitValue(c)) == DecimalText(v) + [c]
  {
    var d := DigitValue(c);
    var w := v * 10 + d;
    assert DigitChar(d) == c;
    if v < 10 {
      assert w / 10 == v && w % 10 == d;
    } else {
      assert v / 10 < 3;
      assert w / 100 == v / 10 && w / 10 % 10 == v % 10 && w % 10 == d;
    }
  }

  /** A number below 256 survives the trip through a byte. */
  lemma ByteValue(v: int)
    requires 0 <= v <= 255
    ensures (v as bv8) as int == v
  {
    assert v % 256 == v;
  }

  /** The last field ends the text. */
  lemma CanonicalEnd(s: string, j: nat, val: int, fields: Bytes)
    requires j < |s| && 0 <= val <= 255
    requires s[..j] == Dotted(fields) && s[j..] == DecimalText(val)
    ensures s == Dotted(fields) + Dec(val as bv8)
  {
    assert s == s[..j] + s[j..];
    ByteValue(val);
  }

  /** A digit extends the field being read, which starts at `j`. */
  lemma CanonicalDigit(s: string, j: nat, i: nat, val: int, v: int)
    requires j <= i < |s| && IsDigit(s[i]) && v == val * 10 + DigitValue(s[i]) && 0 <= v <= 255
    requires j == i ==> val == 0
    requires j < i ==> s[j..i] == DecimalText(val) && val >= 1
    ensures s[j..i + 1] == DecimalText(v)
  {
    assert s[j..i + 1] == s[j..i] + [s[i]];
    if j < i {
      DecimalAppend(val, s[i]);
    }
  }

  /** A dot at `i` closes the field that starts at `j`. */
  lemma CanonicalDot(s: string, j: nat, i: nat, val: int, fields: Bytes)
    requires j < i < |s| && s[i] == '.' && 0 <= val <= 255
    requires s[..j] == Dotted(fields) && s[j..i] == DecimalText(val)
    ensures s[..i + 1] == Dotted(fields + [val as bv8])
  {
    assert s[..i + 1] == s[..j] + s[j..i] + [s[i]];
    var f := fields + [val as bv8];
    assert f[..|f| - 1] == fields && f[|f| - 1] == val as bv8;
    ByteValue(val);
    assert Dotted(f) == Dotted(fields) + Dec(val as bv8) + ".";
  }

  /** A digit V4Fields accepts: it is no leading zero, and the field stays below 256. */
  lemma DigitAccepted(s: string, j: nat, i: nat, val: int, fields: Bytes)
    requires j <= i < |s| && 0 <= val <= 255 && |fields| <= 3 && IsDigit(s[i])
    requires j < i ==> s[j..i] == DecimalText(val)
    requires V4Fields(s, i, val, i - j, fields).Some?
    ensures j < i ==> val >= 1
    ensures val * 10 + DigitValue(s[i]) <= 255
    ensures V4Fields(s, i + 1, val * 10 + DigitValue(s[i]), i + 1 - j, fields) == V4Fields(s, i, val, i - j, fields)
  {
  }

  /** A dot V4Fields accepts closes a non-empty field. */
  lemma DotAccepted(s: string, j: nat, i: nat, val: int, fields: Bytes)
    requires j <= i < |s| && 0 <= val <= 255 && |fields| <= 3 && !IsDigit(s[i])
    requires s[..j] == Dotted(fields)
    requires V4Fields(s, i, val, i - j, fields).Some?
    ensures s[i] == '.' && j < i && i + 1 < |s| && |fields| < 3
    ensures V4Fields(s, i + 1, 0, 0, fields + [val as bv8]) == V4Fields(s, i, val, i - j, fields)
  {
  }

  /**
    * The invariant of V4Fields at `i`: the text before the field being
    * read, which starts at `j`, is `Dotted(fields)`, and the field so far
    * is the decimal text of `val`.
    */
  predicate FieldsSoFar(s: string, j: nat, i: nat, val: int, fields: Bytes) {
    j <= i <= |s| && 0 <= val <= 255 && |fields| <= 3
    && s[..j] == Dotted(fields)
    && (j == i ==> val == 0 && (i < |s| || fields == []))
    && (j < i ==> s[j..i] == DecimalText(val))
  }

  /** Whatever V4Fields reads under its invariant makes the whole text the canonical text of the result. */
  lemma {:induction false} V4FieldsCanonical(s: string, j: nat, i: nat, val: int, fields: Bytes, b: Bytes)
    requires FieldsSoFar(s, j, i, val, fields)
    requires V4Fields(s, i, val, i - j, fields) == Some(b)
    ensures |b| == 4 && s == Dotted(b[..3]) + Dec(b[3])
    decreases |s| - i, 1
  {
    if i == |s| {
      assert b == fields + [val as bv8] && b[..3] == fields;
      CanonicalEnd(s, j, val, fields);
    } else if IsDigit(s[i]) {
      DigitCanonical(s, j, i, val, fields, b);
    } else {
      DotCanonical(s, j, i, val, fields, b);
    }
  }

  /** A digit keeps the invariant. */
  lemma {:induction false} DigitCanonical(s: string, j: nat, i: nat, val: int, fields: Bytes, b: Bytes)
    requires FieldsSoFar(s, j, i, val, fields) && i < |s| && IsDigit(s[i])
    requires V4Fields(s, i, val, i - j, fields) == Some(b)
    ensures |b| == 4 && s == Dotted(b[..3]) + Dec(b[3])
    decreases |s| - i, 0
  {
    DigitAccepted(s, j, i, val, fields);
    var v := val * 10 + DigitValue(s[i]);
    CanonicalDigit(s, j, i, val, v);
    V4FieldsCanonical(s, j, i + 1, v, fields, b);
  }

  /** A dot keeps the invariant, with one more field. */
  lemma {:induction false} DotCanonical(s: string, j: nat, i: nat, val: int, fields: Bytes, b: Bytes)
    requires FieldsSoFar(s, j, i, val, fields) && i < |s| && !IsDigit(s[i])
    requires V4Fields(s, i, val, i - j, fields) == Some(b)
    ensures |b| == 4 && s == Dotted(b[..3]) + Dec(b[3])
    decreases |s| - i, 0
  {
    DotAccepted(s, j, i, val, fields);
    CanonicalDot(s, j, i, val, fields);
    V4FieldsCanonical(s, i + 1, i + 1, 0, fields + [val as bv8], b);
  }

  lemma DottedQuad(b: Bytes)
    requires |b| == 4
    ensures Dotted(b[..3]) + Dec(b[3]) == Quad(b)
  {
    var b3, b2, b1 := b[..3], b[..2], b[..1];
    assert b3[..2] == b2 && b3[2] == b[2];
    assert b2[..1] == b1 && b2[1] == b[1];
    assert b1[..0] == [] && b1[0] == b[0];
    assert Dotted(b1) == Dec(b[0]) + ".";
    assert Dotted(b2) == Dotted(b1) + Dec(b[1]) + ".";
    assert Dotted(b3) == Dotted(b2) + Dec(b[2]) + ".";
  }

  /**
    * netip refuses a leading zero, an empty field and a field above 255, so
    * the only text it reads as the bytes `b` is their dotted-decimal text.
    */
  lemma ParseIPv4Canonical(s: string, b: Bytes)
    requires ParseIPv4(s) == Some(b)
    ensures |b| == 4 && s == Quad(b)
  {
    V4FieldsCanonical(s, 0, 0, 0, [], b);
    DottedQuad(b);
  }

  /** A character IPv6 text may hold: a hex digit, ':', or the '.' of a trailing IPv4 part. */
  predicate V6Char(c: char) {
    HexValue(c) >= 0 || c == ':' || c == '.'
  }

  lemma {:induction false} V4FieldsChars(s: string, i: nat, val: int, digLen: nat, fields: Bytes)
    requires i <= |s| && 0 <= val <= 255 && |fields| <= 3
    requires V4Fields(s, i, val, digLen, fields).Some?
    ensures forall k :: i <= k < |s| ==> IsDigit(s[k]) || s[k] == '.'
    decreases |s| - i
  {
    if i < |s| {
      if IsDigit(s[i]) {
        V4FieldsChars(s, i + 1, val * 10 + DigitValue(s[i]), digLen + 1, fields);
      } else {
        V4FieldsChars(s, i + 1, 0, 0, fields + [val as bv8]);
      }
    }
  }

  lemma {:induction false} HexFieldChars(s: string, off: nat, acc: int)
    requires off <= |s| && 0 <= acc <= 0xFFFF && HexField(s, off, acc).Some?
    ensures forall k :: off <= k < HexField(s, off, acc).value.0 ==> HexValue(s[k]) >= 0
    decreases |s| - off
  {
    if off < |s| && HexValue(s[off]) >= 0 {
      HexFieldChars(s, off + 1, acc * 16 + HexValue(s[off]));
    }
  }

  /** The text after `n` characters of `s`, all of them V6 characters, makes `s` all V6 characters. */
  lemma V6CharsAfter(s: string, n: nat)
    requires n <= |s|
    requires forall k :: 0 <= k < n ==> V6Char(s[k])
    requires forall k :: 0 <= k < |s[n..]| ==> V6Char(s[n..][k])
    ensures forall k :: 0 <= k < |s| ==> V6Char(s[k])
  {
    forall k | n <= k < |s|
      ensures V6Char(s[k])
    {
      assert s[k] == s[n..][k - n];
    }
  }

  lemma {:induction false} V6GroupsChars(s: string, ip: Bytes, ellipsis: int)
    requires |ip| <= 16 && |ip| % 2 == 0 && -1 <= ellipsis <= |ip|
    requires V6Groups(s, ip, ellipsis).Some?
    ensures forall k :: 0 <= k < |s| ==> V6Char(s[k])
    decreases |s|, 1
  {
    if |ip| < 16 {
      var (off, acc) := HexField(s, 0, 0).value;
      HexFieldChars(s, 0, 0);
      if off < |s| && s[off] == '.' {
        V4FieldsChars(s, 0, 0, 0, []);
      } else {
        AfterGroupChars(s[off..], ip + [(acc / 256) as bv8, (acc % 256) as bv8], ellipsis);
        V6CharsAfter(s, off);
      }
    }
  }

  lemma {:induction false} AfterGroupChars(rest: string, ip: Bytes, ellipsis: int)
    requires |ip| <= 16 && |ip| % 2 == 0 && -1 <= ellipsis <= |ip|
    requires AfterGroup(rest, ip, ellipsis).Some?
    ensures forall k :: 0 <= k < |rest| ==> V6Char(rest[k])
    decreases |rest|, 0
  {
    if rest != [] {
      if rest[1] == ':' {
        if |rest| > 2 {
          V6GroupsChars(rest[2..], ip, |ip|);
          V6CharsAfter(rest, 2);
        }
      } else {
        V6GroupsChars(rest[1..], ip, ellipsis);
        V6CharsAfter(rest, 1);
      }
    }
  }

  /** Text netip reads as IPv6 is made of hex digits, ':' and '.' only. */
  lemma ParseIPv6Chars(s: string)
    requires ParseIPv6(s).Some?
    ensures forall k :: 0 <= k < |s| ==> V6Char(s[k])
  {
    if |s| >= 2 && s[0] == ':' && s[1] == ':' {
      if |s| > 2 {
        V6GroupsChars(s[2..], [], 0);
        V6CharsAfter(s, 2);
      }
    } else {
      V6GroupsChars(s, [], -1);
    }
  }

  /** What ParseAddrFrom answers comes from the IPv4 parser with no ':' in sight, or from the IPv6 parser after a ':'. */
  lemma {:induction false} ParseAddrFromCases(s: string, i: nat)
    requires i <= |s| && ParseAddrFrom(s, i).Some?
    ensures ParseAddrFrom(s, i).value.V4? ==> ParseIPv4(s) == Some(ParseAddrFrom(s, i).value.b4)
    ensures ParseAddrFrom(s, i).value.V6? ==> ParseIPv6(s) == Some(ParseAddrFrom(s, i).value.b16) && ':' in s
    decreases |s| - i
  {
    if s[i] == ':' {
      assert s[i] in s;
    } else if s[i] != '.' {
      ParseAddrFromCases(s, i + 1);
    }
  }

  /**
    * What net.ParseIP accepts: the canonical dotted-decimal text of four
    * bytes, read as their IPv4-mapped form, or text holding a ':' and only
    * hex digits, ':' and '.'. Everything else is refused.
    */
  lemma ParseIPAccepts(s: string)
    requires ParseIP(s).Some?
    ensures (s == Quad(ParseIP(s).value[12..]) && ParseIP(s).value == V4InV6(ParseIP(s).value[12..]))
      || (':' in s && forall k :: 0 <= k < |s| ==> V6Char(s[k]))
  {
    ParseAddrFromCases(s, 0);
    var a := ParseAddr(s).value;
    if a.V4? {
      ParseIPv4Canonical(s, a.b4);
    } else {
      ParseIPv6Chars(s);
    }
  }

  /** net.ParseIP refuses text with a character outside hex digits, ':' and '.'. */
  lemma ParseIPRejects(s: string, k: nat)
    requires k < |s| && !V6Char(s[k])
    ensures ParseIP(s) == None
  {
    if ParseIP(s).Some? {
      ParseIPAccepts(s);
      var b := ParseIP(s).value[12..];
      QuadChars(b);
      assert false;
    }
  }

  /** Dotted-decimal text holds only digits and dots. */
  lemma QuadChars(b: Bytes)
    requires |b| == 4
    ensures forall k :: 0 <= k < |Quad(b)| ==> IsDigit(Quad(b)[k]) || Quad(b)[k] == '.'
  {
    ParseIPv4Quad(b);
    V4FieldsChars(Quad(b), 0, 0, 0, []);
  }
}
