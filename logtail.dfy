/**
  * processLogLine and isLocalOrPrivateIP: a line of the proxy's access
  * log is matched against the access pattern, the client address and the
  * inbound tag are cut out of the match, addresses that do not parse or
  * are loopback or private are dropped, and the rest are recorded in the
  * presence store under `inboundTag + ":" + clientIP`.
  */
module LogTail {
  import opened Wrappers
  import opened Text
  import opened Net
  import opened LineMatch
  import Bolt

  // ---------------------------------------------------------------------------
  // The address classifier

  /** The blocks isLocalOrPrivateIP excludes besides loopback, in the order it tries them. */
  const PrivateBlocks: seq<string> := ["10.0.0.0/8", "172.16.0.0/12", "192.168.0.0/16", "fc00::/7"]

  /** The networks net.ParseCIDR makes of the four blocks. */
  const Net10: IPNet := IPNet([10, 0, 0, 0], [0xff, 0, 0, 0])
  const Net172: IPNet := IPNet([172, 16, 0, 0], [0xff, 0xf0, 0, 0])
  const Net192: IPNet := IPNet([192, 168, 0, 0], [0xff, 0xff, 0, 0])
  const NetFc: IPNet := IPNet([0xfc] + Zeros(15), [0xfe] + Zeros(15))

  // The text of each block, and the network net.ParseCIDR makes of it.

  lemma Text10()
    ensures PrivateBlocks[0] == Quad([10, 0, 0, 0]) + "/" + DecimalText(8)
  {
  }

  lemma Text172()
    ensures PrivateBlocks[1] == Quad([172, 16, 0, 0]) + "/" + DecimalText(12)
  {
  }

  lemma Text192()
    ensures PrivateBlocks[2] == Quad([192, 168, 0, 0]) + "/" + DecimalText(16)
  {
  }

  lemma TextFc()
    ensures PrivateBlocks[3] == Compressed([0xfc00], []) + "/" + DecimalText(7)
  {
  }

  lemma Mask10()
    ensures MaskBytes(8, 4) == Net10.mask && AndBytes([10, 0, 0, 0], Net10.mask) == Net10.ip
  {
  }

  lemma Mask172()
    ensures MaskBytes(12, 4) == Net172.mask && AndBytes([172, 16, 0, 0], Net172.mask) == Net172.ip
  {
  }

  lemma Mask192()
    ensures MaskBytes(16, 4) == Net192.mask && AndBytes([192, 168, 0, 0], Net192.mask) == Net192.ip
  {
  }

  lemma MaskFc()
    ensures MaskBytes(7, 16) == NetFc.mask
  {
  }

  lemma AndFc()
    ensures AndBytes(GroupsBytes([0xfc00]) + Zeros(16 - 2 * (1 + 0)) + GroupsBytes([]), NetFc.mask) == NetFc.ip
  {
  }

  lemma Parse10()
    ensures ParseCIDR(PrivateBlocks[0]) == Some(Net10)
  {
    Text10();
    Mask10();
    ParseCIDRQuad([10, 0, 0, 0], 8);
  }

  lemma Parse172()
    ensures ParseCIDR(PrivateBlocks[1]) == Some(Net172)
  {
    Text172();
    Mask172();
    ParseCIDRQuad([172, 16, 0, 0], 12);
  }

  lemma Parse192()
    ensures ParseCIDR(PrivateBlocks[2]) == Some(Net192)
  {
    Text192();
    Mask192();
    ParseCIDRQuad([192, 168, 0, 0], 16);
  }

  lemma ParseFcOf(hs: seq<int>, ts: seq<int>)
    requires hs == [0xfc00] && ts == []
    ensures ParseCIDR(Compressed(hs, ts) + "/" + DecimalText(7)) == Some(NetFc)
  {
    assert GroupsBytes(hs) + Zeros(16 - 2 * (|hs| + |ts|)) + GroupsBytes(ts) == GroupsBytes([0xfc00]) + Zeros(16 - 2 * (1 + 0)) + GroupsBytes([]);
    MaskFc();
    AndFc();
    ParseCIDRCompressed(hs, ts, 7);
  }

  lemma ParseFc()
    ensures ParseCIDR(PrivateBlocks[3]) == Some(NetFc)
  {
    TextFc();
    ParseFcOf([0xfc00], []);
  }

  /** net.ParseCIDR accepts each of the four blocks, giving the networks above. */
  lemma PrivateNets()
    ensures ParseCIDR(PrivateBlocks[0]) == Some(Net10)
    ensures ParseCIDR(PrivateBlocks[1]) == Some(Net172)
    ensures ParseCIDR(PrivateBlocks[2]) == Some(Net192)
    ensures ParseCIDR(PrivateBlocks[3]) == Some(NetFc)
  {
    Parse10();
    Parse172();
    Parse192();
    ParseFc();
  }

  /**
    * Whether some block of `blocks` contains `ip`, trying them in order as
    * isLocalOrPrivateIP's loop does. A block net.ParseCIDR rejects would
    * leave a nil network there, which Go dereferences; here it contains
    * nothing.
    */
  function InBlocks(blocks: seq<string>, ip: Bytes): (r: bool)
    ensures r <==> exists k :: 0 <= k < |blocks| && BlockHolds(blocks[k], ip)
    decreases |blocks|
  {
    if blocks == [] then false
    else
      var rest := InBlocks(blocks[1..], ip);
      BlockHolds(blocks[0], ip) || rest
  }

  /** Whether the network net.ParseCIDR reads from `block` contains `ip`; a block it rejects contains nothing. */
  predicate BlockHolds(block: string, ip: Bytes) {
    match ParseCIDR(block)
    case None => false
    case Some(subnet) => NetContains(subnet, ip)
  }

  /** What the four blocks hold: 10/8, 172.16/12 and 192.168/16 of IPv4, and fc00::/7 of IPv6. */
  predicate PrivateRange(ip: Bytes)
    requires |ip| == 16
  {
    match To4(ip)
    case Some(b) => b[0] == 10 || (b[0] == 172 && 16 <= b[1] < 32) || (b[0] == 192 && b[1] == 168)
    case None => 0xfc <= ip[0] <= 0xfd
  }

  /** A network of four bytes holds the IPv4 addresses that agree with it under the mask. */
  lemma InV4Net(n: IPNet, ip: Bytes)
    requires |n.ip| == 4 && |n.mask| == 4 && |ip| == 16
    ensures NetContains(n, ip) <==> To4(ip).Some? && forall k :: 0 <= k < 4 ==> n.ip[k] & n.mask[k] == To4(ip).value[k] & n.mask[k]
  {
    assert To4(n.ip) == Some(n.ip);
    assert NetworkNumberAndMask(n) == (n.ip, n.mask);
  }

  /** Bytes agree under 0xff when they are equal, and always under 0. */
  lemma UnderMask(x: bv8, y: bv8)
    ensures x & 0xff == y & 0xff <==> x == y
    ensures x & 0 == y & 0
  {
  }

  lemma In10(ip: Bytes)
    requires |ip| == 16
    ensures NetContains(Net10, ip) <==> To4(ip).Some? && To4(ip).value[0] == 10
  {
    InV4Net(Net10, ip);
    if To4(ip).Some? {
      var n, b := Net10, To4(ip).value;
      UnderMask(n.ip[0], b[0]);
      if b[0] == 10 {
        forall k | 1 <= k < 4
          ensures n.ip[k] & n.mask[k] == b[k] & n.mask[k]
        {
          UnderMask(n.ip[k], b[k]);
        }
      }
    }
  }

  /** A byte agrees with 16 under 0xf0 when it lies in [16, 32). */
  lemma UnderHighNibble(y: bv8)
    ensures (16 as bv8) & 0xf0 == y & 0xf0 <==> 16 <= y < 32
  {
  }

  lemma In172(ip: Bytes)
    requires |ip| == 16
    ensures NetContains(Net172, ip) <==> To4(ip).Some? && To4(ip).value[0] == 172 && 16 <= To4(ip).value[1] < 32
  {
    InV4Net(Net172, ip);
    if To4(ip).Some? {
      var n, b := Net172, To4(ip).value;
      UnderMask(n.ip[0], b[0]);
      UnderHighNibble(b[1]);
      if b[0] == 172 && 16 <= b[1] < 32 {
        forall k | 2 <= k < 4
          ensures n.ip[k] & n.mask[k] == b[k] & n.mask[k]
        {
          UnderMask(n.ip[k], b[k]);
        }
      }
    }
  }

  lemma In192(ip: Bytes)
    requires |ip| == 16
    ensures NetContains(Net192, ip) <==> To4(ip).Some? && To4(ip).value[0] == 192 && To4(ip).value[1] == 168
  {
    InV4Net(Net192, ip);
    if To4(ip).Some? {
      var n, b := Net192, To4(ip).value;
      UnderMask(n.ip[0], b[0]);
      UnderMask(n.ip[1], b[1]);
      if b[0] == 192 && b[1] == 168 {
        forall k | 2 <= k < 4
          ensures n.ip[k] & n.mask[k] == b[k] & n.mask[k]
        {
          UnderMask(n.ip[k], b[k]);
        }
      }
    }
  }

  lemma InFc(ip: Bytes)
    requires |ip| == 16
    ensures NetContains(NetFc, ip) <==> To4(ip).None? && 0xfc <= ip[0] <= 0xfd
  {
    assert To4(NetFc.ip).None? by {
      assert NetFc.ip[0] != 0;
      assert NetFc.ip[..10] != Zeros(10) by {
        assert NetFc.ip[..10][0] != Zeros(10)[0];
      }
    }
    assert NetworkNumberAndMask(NetFc) == (NetFc.ip, NetFc.mask);
    if To4(ip).None? && 0xfc <= ip[0] <= 0xfd {
      forall k | 0 <= k < 16
        ensures NetFc.ip[k] & NetFc.mask[k] == ip[k] & NetFc.mask[k]
      {
        if k > 0 {
          assert NetFc.mask[k] == 0 && NetFc.ip[k] == 0;
        }
      }
    }
    if NetContains(NetFc, ip) {
      assert To4(ip).None?;
      assert NetFc.ip[0] & NetFc.mask[0] == ip[0] & NetFc.mask[0];
    }
  }

  /** The blocks isLocalOrPrivateIP tries hold exactly the addresses of PrivateRange. */
  lemma InPrivateBlocks(ip: Bytes)
    requires |ip| == 16
    ensures InBlocks(PrivateBlocks, ip) <==> PrivateRange(ip)
  {
    var bs := PrivateBlocks;
    PrivateNets();
    In10(ip);
    In172(ip);
    In192(ip);
    InFc(ip);
    if InBlocks(bs, ip) {
      var k :| 0 <= k < |bs| && BlockHolds(bs[k], ip);
      assert k == 0 || k == 1 || k == 2 || k == 3;
    }
    if PrivateRange(ip) {
      if NetContains(Net10, ip) {
        assert BlockHolds(bs[0], ip);
      } else if NetContains(Net172, ip) {
        assert BlockHolds(bs[1], ip);
      } else if NetContains(Net192, ip) {
        assert BlockHolds(bs[2], ip);
      } else {
        assert BlockHolds(bs[3], ip);
      }
    }
  }

  /**
    * isLocalOrPrivateIP: text that net.ParseIP rejects is excluded, and so
    * is a loopback address or one in a private block.
    */
  function IsLocalOrPrivateIP(ip: string): (r: bool)
    ensures ParseIP(ip).None? ==> r
    ensures ParseIP(ip).Some? ==> (r <==> IsLoopback(ParseIP(ip).value) || PrivateRange(ParseIP(ip).value))
  {
    match ParseIP(ip)
    case None => true
    case Some(parsedIP) =>
      InPrivateBlocks(parsedIP);
      IsLoopback(parsedIP) || InBlocks(PrivateBlocks, parsedIP)
  }

  /**
    * On dotted-decimal text the classifier excludes exactly 127/8, 10/8,
    * 172.16/12 and 192.168/16.
    */
  lemma ClassifyQuad(b: Bytes)
    requires |b| == 4
    ensures IsLocalOrPrivateIP(Quad(b)) <==>
      b[0] == 127 || b[0] == 10 || (b[0] == 172 && 16 <= b[1] < 32) || (b[0] == 192 && b[1] == 168)
  {
    ParseIPQuad(b);
    var ip := V4InV6(b);
    assert ip[..10] == Zeros(10) && ip[10] == 0xff && ip[11] == 0xff;
    assert To4(ip) == Some(b);
  }

  /** An IPv6 address whose first byte is not zero is excluded exactly when it lies in fc00::/7. */
  lemma ClassifyV6(ip: Bytes)
    requires |ip| == 16 && ip[0] != 0
    ensures IsLoopback(ip) || PrivateRange(ip) <==> 0xfc <= ip[0] <= 0xfd
  {
    assert ip[..10] != Zeros(10) by {
      assert ip[..10][0] == ip[0];
    }
    assert ip != Loopback6 by {
      assert Loopback6[0] == 0;
    }
  }

  /** The first byte of an address written with groups `hs` before "::" is the high byte of the first group. */
  lemma FirstByte(hs: seq<int>, ts: seq<int>)
    requires forall k :: 0 <= k < |hs| ==> IsGroup(hs[k])
    requires forall k :: 0 <= k < |ts| ==> IsGroup(ts[k])
    requires |hs| + |ts| <= 7 && hs != []
    ensures (GroupsBytes(hs) + Zeros(16 - 2 * (|hs| + |ts|)) + GroupsBytes(ts))[0] == GroupBytes(hs[0])[0]
  {
  }

  /**
    * On IPv6 text whose first group has a non-zero high byte (so that the
    * address is neither IPv4-mapped nor ::1), the classifier excludes
    * exactly fc00::/7: the high bytes 0xfc and 0xfd.
    */
  lemma ClassifyCompressed(hs: seq<int>, ts: seq<int>)
    requires forall k :: 0 <= k < |hs| ==> IsGroup(hs[k])
    requires forall k :: 0 <= k < |ts| ==> IsGroup(ts[k])
    requires |hs| + |ts| <= 7 && hs != [] && GroupBytes(hs[0])[0] != 0
    ensures IsLocalOrPrivateIP(Compressed(hs, ts)) <==> 0xfc <= GroupBytes(hs[0])[0] <= 0xfd
  {
    var ip := GroupsBytes(hs) + Zeros(16 - 2 * (|hs| + |ts|)) + GroupsBytes(ts);
    ParseIPCompressed(hs, ts);
    FirstByte(hs, ts);
    ClassifyV6(ip);
  }

  lemma LoopbackBytes()
    ensures GroupsBytes([]) + Zeros(16 - 2 * (0 + 1)) + GroupsBytes([1]) == Loopback6
  {
  }

  /** ::1, the IPv6 loopback address, is excluded. */
  lemma ClassifyLoopback6()
    ensures IsLocalOrPrivateIP(Compressed([], [1]))
  {
    ParseIPCompressed([], [1]);
    LoopbackBytes();
  }
  // ---------------------------------------------------------------------------
  // The classifier on sample addresses

  lemma Example127()
    ensures IsLocalOrPrivateIP("127.0.0.1")
  {
    assert "127.0.0.1" == Quad([127, 0, 0, 1]);
    ClassifyQuad([127, 0, 0, 1]);
  }

  lemma Example192()
    ensures IsLocalOrPrivateIP("192.168.1.5")
  {
    assert "192.168.1.5" == Quad([192, 168, 1, 5]);
    ClassifyQuad([192, 168, 1, 5]);
  }

  lemma Example8888()
    ensures !IsLocalOrPrivateIP("8.8.8.8")
  {
    assert "8.8.8.8" == Quad([8, 8, 8, 8]);
    ClassifyQuad([8, 8, 8, 8]);
  }

  lemma Example169()
    ensures !IsLocalOrPrivateIP("169.254.1.1")
  {
    assert "169.254.1.1" == Quad([169, 254, 1, 1]);
    ClassifyQuad([169, 254, 1, 1]);
  }

  lemma ExampleLoopback6()
    ensures IsLocalOrPrivateIP("::1")
  {
    assert "::1" == Compressed([], [1]);
    ClassifyLoopback6();
  }

  lemma TextFc1()
    ensures "fc00::1" == Compressed([0xfc00], [1])
  {
  }

  lemma HighFc()
    ensures GroupBytes(0xfc00)[0] == 0xfc
  {
  }

  lemma ExampleFc()
    ensures IsLocalOrPrivateIP("fc00::1")
  {
    TextFc1();
    HighFc();
    ClassifyCompressed([0xfc00], [1]);
  }

  /** A group of four decimal-looking hex digits, digit by digit. */
  lemma HexFour(g: int, a: int, b: int, c: int, d: int)
    requires 0 < a < 10 && 0 <= b < 10 && 0 <= c < 10 && 0 <= d < 10
    requires g == a * 0x1000 + b * 0x100 + c * 16 + d
    ensures Hex(g) == [DigitChar(a), DigitChar(b), DigitChar(c), DigitChar(d)]
  {
    assert g / 16 == a * 0x100 + b * 16 + c && g % 16 == d;
    assert g / 16 / 16 == a * 16 + b && g / 16 % 16 == c;
    assert g / 16 / 16 / 16 == a && g / 16 / 16 % 16 == b;
    assert HexDigits(g / 16 / 16 / 16, 1) == [HexChar(a)];
  }

  lemma Hex2001()
    ensures Hex(0x2001) == "2001"
  {
    HexFour(0x2001, 2, 0, 0, 1);
  }

  lemma Hex4860()
    ensures Hex(0x4860) == "4860"
  {
    HexFour(0x4860, 4, 8, 6, 0);
  }

  lemma Hex8888()
    ensures Hex(0x8888) == "8888"
  {
    HexFour(0x8888, 8, 8, 8, 8);
  }

  /** Three groups and one group, as the text writes them. */
  lemma GroupsThreeOne(hs: seq<int>, ts: seq<int>)
    requires |hs| == 3 && |ts| == 1
    requires forall k :: 0 <= k < 3 ==> IsGroup(hs[k])
    requires IsGroup(ts[0])
    ensures Compressed(hs, ts) == Hex(hs[0]) + ":" + (Hex(hs[1]) + ":" + Hex(hs[2])) + "::" + Hex(ts[0])
  {
    assert hs[1..][1..] == [hs[2]];
    assert Groups(hs[1..][1..]) == Hex(hs[2]);
    assert Groups(hs[1..]) == Hex(hs[1]) + ":" + Hex(hs[2]);
    assert Groups(ts) == Hex(ts[0]);
  }

  lemma Text2001()
    ensures "2001:4860:4860::8888" == Compressed([0x2001, 0x4860, 0x4860], [0x8888])
  {
    Hex2001();
    Hex4860();
    Hex8888();
    GroupsThreeOne([0x2001, 0x4860, 0x4860], [0x8888]);
  }

  lemma High2001()
    ensures GroupBytes(0x2001)[0] == 0x20
  {
  }

  lemma Example2001()
    ensures !IsLocalOrPrivateIP("2001:4860:4860::8888")
  {
    Text2001();
    High2001();
    ClassifyCompressed([0x2001, 0x4860, 0x4860], [0x8888]);
  }

  lemma HexDb8()
    ensures Hex(0xdb8) == "db8"
  {
    assert 0xdb8 / 16 == 0xdb && 0xdb8 % 16 == 8;
    assert 0xdb / 16 == 0xd && 0xdb % 16 == 0xb;
    assert HexDigits(0xd, 1) == [HexChar(0xd)];
  }

  lemma TextDb8()
    ensures "2001:db8::1" == Compressed([0x2001, 0xdb8], [1])
  {
    Hex2001();
    HexDb8();
    assert Groups([0x2001, 0xdb8][1..]) == Hex(0xdb8);
    assert Groups([1]) == Hex(1);
  }

  /** 2001:db8::/32, the documentation block, is not a private block. */
  lemma ExampleDb8()
    ensures !IsLocalOrPrivateIP("2001:db8::1")
  {
    TextDb8();
    High2001();
    ClassifyCompressed([0x2001, 0xdb8], [1]);
  }

  /** Text without '.', ':' or '%' is not an address, and is excluded. */
  lemma ExampleNotAnIP()
    ensures IsLocalOrPrivateIP("not-an-ip")
  {
    ParseAddrNeither("not-an-ip");
  }

  /** Three dotted fields are not an IPv4 address, and are excluded. */
  lemma ExampleThreeFields()
    ensures IsLocalOrPrivateIP("1.2.3")
  {
    ParseAddrV4("1.2.3", 1);
    if ParseIPv4("1.2.3").Some? {
      ParseIPv4Canonical("1.2.3", ParseIPv4("1.2.3").value);
      assert false;
    }
  }

  // ---------------------------------------------------------------------------
  // What processLogLine takes out of a line

  /** The user an accepted connection reports: the inbound it came in on and the client address. */
  datatype Access = Access(inboundTag: string, clientIP: string)

  /** The cut set of strings.Trim(matches[1], "[]"). */
  const Brackets: set<char> := {'[', ']'}

  /**
    * The inbound tag made of the first space-separated word of group 2:
    * its part before the first ">>", without surrounding white space. The
    * result holds no ">>", and no space when the word holds none.
    */
  function TagOf(word: string): (tag: string)
    ensures !Contains(tag, ">>")
    ensures !Contains(word, " ") ==> !Contains(tag, " ")
    ensures tag != [] ==> tag[0] !in WhiteSpace && tag[|tag| - 1] !in WhiteSpace
  {
    var head := Split(word, ">>")[0];
    TrimAvoids(head, WhiteSpace, ">>");
    assert !Contains(word, " ") ==> !Contains(TrimSpace(head), " ") by {
      if !Contains(word, " ") {
        BeforeAvoids(word, ">>", " ");
        TrimAvoids(head, WhiteSpace, " ");
      }
    }
    TrimSpace(head)
  }

  /**
    * The steps of processLogLine up to the address test: the first match of
    * the access pattern, group 1 trimmed of brackets as the client address,
    * and the tag of the first space-separated word of group 2. A line the
    * pattern does not match gives nothing; the guard on the number of words
    * never fires, because strings.Split returns at least one piece.
    */
  function Extract(line: string): (r: Option<Access>)
    ensures r.Some? <==> FindSubmatch(line).Some?
  {
    match FindSubmatch(line)
    case None => None
    case Some((g1, g2)) =>
      var clientIP := Trim(g1, Brackets);
      var inboundParts := Split(g2, " ");
      if |inboundParts| < 1 then None
      else Some(Access(TagOf(inboundParts[0]), clientIP))
  }

  /** TrimLeft drops at most one '[' in front of a character it keeps. */
  lemma TrimOneLeft(x: string, lo: nat)
    requires lo <= 1 && lo < |x| && (lo == 1 <==> x[0] == '[') && x[lo] !in Brackets
    ensures TrimLeft(x, Brackets) == x[lo..]
  {
    if lo == 1 {
      assert TrimLeft(x[1..], Brackets) == x[1..];
    }
  }

  /** TrimRight drops at most one ']' after a character it keeps. */
  lemma TrimOneRight(l: string, hi: nat)
    requires 0 < hi <= |l| && |l| <= hi + 1 && (hi < |l| <==> l[|l| - 1] == ']') && l[hi - 1] !in Brackets
    ensures TrimRight(l, Brackets) == l[..hi]
  {
    if hi < |l| {
      assert l[..|l| - 1] == l[..hi];
      assert TrimRight(l[..hi], Brackets) == l[..hi];
    }
  }

  /** Trimming brackets off text with at most one at each end leaves what lies between. */
  lemma TrimCore(x: string, lo: nat, hi: nat)
    requires lo <= 1 && lo < hi <= |x| && |x| <= hi + 1
    requires (lo == 1 <==> x[0] == '[') && (hi < |x| <==> x[|x| - 1] == ']')
    requires x[lo] !in Brackets && x[hi - 1] !in Brackets
    ensures Trim(x, Brackets) == x[lo..hi]
  {
    TrimOneLeft(x, lo);
    var l := x[lo..];
    assert l[..hi - lo] == x[lo..hi];
    TrimOneRight(l, hi - lo);
  }

  /** Trimming brackets off what `\[?[a-fA-F0-9:.]+\]?` matched leaves its core. */
  lemma TrimBrackets(x: string)
    requires AddrShape(x)
    ensures Trim(x, Brackets) == AddrCore(x)
  {
    var c := AddrCore(x);
    AllInLast(c, 0, |c|, AddrChars);
    var lo := if x[0] == '[' then 1 else 0;
    var hi := if |x| > lo && x[|x| - 1] == ']' then |x| - 1 else |x|;
    assert c == x[lo..hi];
    assert x[lo] == c[0] && In(c[0], AddrChars);
    assert x[hi - 1] == c[|c| - 1] && In(c[|c| - 1], AddrChars);
    TrimCore(x, lo, hi);
  }

  /**
    * What an extracted access holds: a client address of one or more
    * characters of `[a-fA-F0-9:.]`, and an inbound tag without spaces,
    * without ">>" and without surrounding white space.
    */
  lemma ExtractShape(line: string)
    requires Extract(line).Some?
    ensures var acc := Extract(line).value;
      acc.clientIP == AddrCore(FindSubmatch(line).value.0)
      && acc.clientIP != [] && Every(acc.clientIP, AddrChars)
      && !Contains(acc.inboundTag, " ") && !Contains(acc.inboundTag, ">>")
      && (acc.inboundTag != [] ==> acc.inboundTag[0] !in WhiteSpace && acc.inboundTag[|acc.inboundTag| - 1] !in WhiteSpace)
  {
    var g1, g2 := FindSubmatch(line).value.0, FindSubmatch(line).value.1;
    ExtractOf(line, g1, g2);
    TrimmedShape(g1);
  }

  /** Group 1 trimmed of brackets: a non-empty run of address characters. */
  lemma TrimmedShape(g1: string)
    requires AddrShape(g1)
    ensures Trim(g1, Brackets) == AddrCore(g1)
    ensures Trim(g1, Brackets) != [] && Every(Trim(g1, Brackets), AddrChars)
  {
    TrimBrackets(g1);
  }

  /** What the extraction makes of the two groups the search returns. */
  lemma ExtractOf(line: string, g1: string, g2: string)
    requires FindSubmatch(line) == Some((g1, g2))
    ensures Extract(line) == Some(Access(TagOf(Before(g2, " ")), Trim(g1, Brackets)))
  {
  }

  /** Trimming brackets off an address, bracketed or not, gives the address. */
  lemma TrimAddress(a: string, bracketed: bool)
    requires a != [] && Every(a, AddrChars)
    ensures Trim(if bracketed then "[" + a + "]" else a, Brackets) == a
  {
    AllInMeans(a, 0, |a|, AddrChars);
    assert forall k :: 0 <= k < |a| ==> a[k] !in Brackets;
    if bracketed {
      var g := "[" + a + "]";
      assert AddrCore(g) == a;
      TrimBrackets(g);
    }
  }

  /**
    * On a line in the proxy's access format, with no 'f' before "from " and
    * no '[' after the inbound text's opening one, the extraction returns the
    * address without its brackets and the tag of the first word of the
    * bracketed inbound text.
    */
  lemma ExtractAccessLine(pre: string, a: string, bracketed: bool, port: string, x: string, t: string, rest: string)
    requires !Contains(pre, "f")
    requires a != [] && Every(a, AddrChars)
    requires port != [] && Every(port, Digits)
    requires Every(x, AnyButNewline)
    requires Every(t, GroupChars) && !Contains(t, "[")
    requires !Contains(rest, "[")
    ensures var g := if bracketed then "[" + a + "]" else a;
      Extract(AccessLine(pre, g, port, x, t, rest)) == Some(Access(TagOf(Before(t, " ")), a))
  {
    var g := if bracketed then "[" + a + "]" else a;
    FindAccessLine(pre, a, bracketed, port, x, t, rest);
    ExtractOf(AccessLine(pre, g, port, x, t, rest), g, t);
    TrimAddress(a, bracketed);
  }

  /**
    * An access line whose bracketed part is empty, "[]", is still forwarded
    * to the extraction with an empty tag: the guard on the number of words
    * does not reject it.
    */
  lemma EmptyGroupTag(pre: string, a: string, bracketed: bool, port: string, x: string, t: string, rest: string)
    requires !Contains(pre, "f")
    requires a != [] && Every(a, AddrChars)
    requires port != [] && Every(port, Digits)
    requires Every(x, AnyButNewline)
    requires t == []
    requires !Contains(rest, "[")
    ensures var g := if bracketed then "[" + a + "]" else a;
      Extract(AccessLine(pre, g, port, x, t, rest)) == Some(Access([], a))
  {
    ExtractAccessLine(pre, a, bracketed, port, x, t, rest);
    assert !Contains(t, " ") && !Contains(t, ">>");
    assert Before(t, " ") == t && Split(t, ">>")[0] == t;
  }

  /** Text without the character `c` holds neither `[c]` nor `[c, c]`. */
  lemma NoCharPair(s: string, c: char)
    requires forall k :: 0 <= k < |s| ==> s[k] != c
    ensures !Contains(s, [c]) && !Contains(s, [c, c])
  {
    forall i | 0 <= i <= |s| ensures !OccursAt(s, [c], i) && !OccursAt(s, [c, c], i) {
      if i < |s| {
        assert s[i..i + 1][0] == s[i];
        if i + 2 <= |s| {
          assert s[i..i + 2][0] == s[i];
        }
      }
    }
  }

  /** The tag of a word with neither white space nor ">>" in it is the word. */
  lemma PlainTag(tag: string, rest: string)
    requires forall k :: 0 <= k < |tag| ==> tag[k] !in WhiteSpace && tag[k] != '>'
    ensures !Contains(tag, " ")
    ensures TagOf(Before(tag + " " + rest, " ")) == tag
  {
    NoCharPair(tag, ' ');
    NoCharPair(tag, '>');
    BeforeSingle(tag, " ", rest);
  }

  // ---------------------------------------------------------------------------
  // Forwarding

  /**
    * What processLogLine hands to AddUser: the extracted access, unless its
    * client address is rejected by isLocalOrPrivateIP. A forwarded address
    * parses, and is neither loopback nor in a private block.
    */
  function Forwarded(line: string): (r: Option<Access>)
    ensures r.Some? <==> Extract(line).Some? && !IsLocalOrPrivateIP(Extract(line).value.clientIP)
    ensures r.Some? ==> r == Extract(line)
    ensures r.Some? ==>
      ParseIP(r.value.clientIP).Some?
      && !IsLoopback(ParseIP(r.value.clientIP).value) && !PrivateRange(ParseIP(r.value.clientIP).value)
  {
    match Extract(line)
    case None => None
    case Some(acc) => if IsLocalOrPrivateIP(acc.clientIP) then None else Some(acc)
  }

  /** The store key AddIP writes for a forwarded access. */
  function KeyOf(acc: Access): string {
    acc.inboundTag + ":" + acc.clientIP
  }

  /**
    * processLogLine with the store behind UserUsecase.AddUser and
    * UserRepository.AddUser, which pass the pair through to AddIP and drop
    * its error. The store changes only for a forwarded access whose key fits
    * bolt's key limit; it then maps that key to the time of the call.
    */
  method ProcessLogLine(db: Bolt.BoltDB, line: string, now: int)
    requires db.Valid()
    modifies db
    ensures db.Valid()
    ensures Forwarded(line).None? ==> db.entries == old(db.entries)
    ensures Forwarded(line).Some? && ByteLen(KeyOf(Forwarded(line).value)) <= Bolt.MaxKeySize ==>
      db.Contents() == old(db.Contents())[KeyOf(Forwarded(line).value) := Bolt.Format(now)]
    ensures Forwarded(line).Some? && ByteLen(KeyOf(Forwarded(line).value)) > Bolt.MaxKeySize ==>
      db.entries == old(db.entries)
  {
    var matches := FindSubmatch(line);
    if matches.None? {
      return;
    }
    var clientIP := Trim(matches.value.0, Brackets);
    var inboundInfo := matches.value.1;
    var inboundParts := Split(inboundInfo, " ");
    if |inboundParts| < 1 {
      return;
    }
    var inboundTag := TagOf(inboundParts[0]);
    if IsLocalOrPrivateIP(clientIP) {
      return;
    }
    var _ := db.AddIP(inboundTag, clientIP, now);
  }

  // ---------------------------------------------------------------------------
  // Sample lines

  // The pieces of an access line as the proxy writes it:
  // "2024/05/01 10:00:00 from 8.8.8.8:51234 accepted tcp:example.com:443 [in-443 >> direct]"
  const SamplePrefix: string := "2024/05/01 10:00:00 "
  const SampleTag: string := "in-443"
  const SampleRoute: string := ">> direct"
  const SampleInbound: string := SampleTag + " " + SampleRoute
  const SamplePort: string := "51234"
  const SampleTarget: string := "tcp:example.com:443"

  const PublicAddr: string := "8.8.8.8"
  const PrivateAddr: string := "fc00::1"

  /** An accepted connection from a public address. */
  const PublicLine: string := AccessLine(SamplePrefix, PublicAddr, SamplePort, SampleTarget, SampleInbound, "")

  /** The same connection from a private address, written in brackets. */
  const PrivateLine: string := AccessLine(SamplePrefix, "[" + PrivateAddr + "]", SamplePort, SampleTarget, SampleInbound, "")

  lemma SampleTagOf()
    ensures TagOf(Before(SampleInbound, " ")) == SampleTag
  {
    PlainTag(SampleTag, SampleRoute);
  }

  lemma SamplePieces()
    ensures !Contains(SamplePrefix, "f") && !Contains("", "[")
    ensures SamplePort != [] && Every(SamplePort, Digits)
    ensures Every(SampleTarget, AnyButNewline)
    ensures Every(SampleInbound, GroupChars) && !Contains(SampleInbound, "[")
  {
    NoCharPair(SamplePrefix, 'f');
    NoCharPair(SampleInbound, '[');
    NoCharPair("", '[');
    AllInMeans(SamplePort, 0, |SamplePort|, Digits);
    AllInMeans(SampleTarget, 0, |SampleTarget|, AnyButNewline);
    AllInMeans(SampleInbound, 0, |SampleInbound|, GroupChars);
  }

  lemma SampleAddresses()
    ensures Every(PublicAddr, AddrChars) && Every(PrivateAddr, AddrChars)
  {
    AllInMeans(PublicAddr, 0, |PublicAddr|, AddrChars);
    AllInMeans(PrivateAddr, 0, |PrivateAddr|, AddrChars);
  }

  /** A public client is recorded under the first word of its inbound text. */
  lemma ForwardPublicLine()
    ensures Forwarded(PublicLine) == Some(Access(SampleTag, PublicAddr))
  {
    SamplePieces();
    SampleAddresses();
    ExtractAccessLine(SamplePrefix, PublicAddr, false, SamplePort, SampleTarget, SampleInbound, "");
    SampleTagOf();
    Example8888();
  }

  /** A bracketed address is extracted without its brackets. */
  lemma ExtractPrivateLine()
    ensures Extract(PrivateLine) == Some(Access(SampleTag, PrivateAddr))
  {
    SamplePieces();
    SampleAddresses();
    ExtractAccessLine(SamplePrefix, PrivateAddr, true, SamplePort, SampleTarget, SampleInbound, "");
    SampleTagOf();
  }

  /** A client in fc00::/7 is matched and dropped. */
  lemma DropPrivateLine()
    ensures Forwarded(PrivateLine).None?
  {
    ExtractPrivateLine();
    ExampleFc();
  }

  // The line "... from 8.8.8.8:443 accepted tcp [proxy-in >> direct]", and
  // the same line from the bracketed IPv6 client [2001:db8::1].
  const DocPrefix: string := "... "
  const DocTag: string := "proxy-in"
  const DocInbound: string := DocTag + " " + SampleRoute
  const DocPort: string := "443"
  const DocTarget: string := "tcp"
  const DocV6Addr: string := "2001:db8::1"

  const DocLine: string := AccessLine(DocPrefix, PublicAddr, DocPort, DocTarget, DocInbound, "")
  const DocV6Line: string := AccessLine(DocPrefix, "[" + DocV6Addr + "]", DocPort, DocTarget, DocInbound, "")

  lemma DocTagOf()
    ensures TagOf(Before(DocInbound, " ")) == DocTag
  {
    PlainTag(DocTag, SampleRoute);
  }

  lemma DocPieces()
    ensures !Contains(DocPrefix, "f") && !Contains("", "[")
    ensures DocPort != [] && Every(DocPort, Digits)
    ensures Every(DocTarget, AnyButNewline)
    ensures Every(DocInbound, GroupChars) && !Contains(DocInbound, "[")
    ensures Every(DocV6Addr, AddrChars)
  {
    NoCharPair(DocPrefix, 'f');
    NoCharPair(DocInbound, '[');
    NoCharPair("", '[');
    AllInMeans(DocPort, 0, |DocPort|, Digits);
    AllInMeans(DocTarget, 0, |DocTarget|, AnyButNewline);
    AllInMeans(DocInbound, 0, |DocInbound|, GroupChars);
    AllInMeans(DocV6Addr, 0, |DocV6Addr|, AddrChars);
  }

  /** The line from 8.8.8.8 is recorded as ("proxy-in", "8.8.8.8"). */
  lemma ForwardDocLine()
    ensures Forwarded(DocLine) == Some(Access("proxy-in", "8.8.8.8"))
  {
    DocPieces();
    SampleAddresses();
    ExtractAccessLine(DocPrefix, PublicAddr, false, DocPort, DocTarget, DocInbound, "");
    DocTagOf();
    Example8888();
  }

  /** The line from [2001:db8::1] is recorded as ("proxy-in", "2001:db8::1"), without the brackets. */
  lemma ForwardDocV6Line()
    ensures Forwarded(DocV6Line) == Some(Access("proxy-in", "2001:db8::1"))
  {
    DocPieces();
    ExtractAccessLine(DocPrefix, DocV6Addr, true, DocPort, DocTarget, DocInbound, "");
    DocTagOf();
    ExampleDb8();
  }
}
