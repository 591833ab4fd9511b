/**
 * IPv4 CIDR handling: the textual check `validate_cidr`, the parts of
 * Python's `ipaddress` module that the subnet code relies on
 * (`ip_network(..., strict=False)`, `subnet_of`, `hosts()`, `str()` of an
 * address), and the textual bridge address of a VPC.
 *
 * Addresses are naturals below 2^32; a network is its (masked) network
 * address and its prefix length.
 */
module Cidr {
  import opened Wrappers
  import opened Text

  // ---------------------------------------------------------------------
  // validate_cidr

  /** The shape `(\d{1,3}\.){3}\d{1,3}/\d{1,2}` over the whole of `b`, where
      `\d` is any Unicode decimal digit, not only `0`..`9`. */
  predicate CidrBody(b: string) {
    var parts := Split(b, '/');
    |parts| == 2 && DecimalRun(parts[1], 2) &&
    var octets := Split(parts[0], '.');
    |octets| == 4 && forall k | 0 <= k < 4 :: DecimalRun(octets[k], 3)
  }

  /** What `re.match(r'^(\d{1,3}\.){3}\d{1,3}/\d{1,2}$', s)` matches: since
      `$` also matches just before a final newline, a string that ends in
      one newline matches when the rest has the shape. */
  function MatchedText(s: string): Option<string> {
    if CidrBody(s) then Some(s)
    else if s != [] && s[|s| - 1] == '\n' && CidrBody(s[..|s| - 1]) then Some(s[..|s| - 1])
    else None
  }

  /** `validate_cidr`: the shape above, no octet above 255, no prefix above 32,
      the values read as `int()` reads digits of any script. (`int()` ignores
      the newline that may follow the prefix, so the values are read from the
      matched text.) */
  predicate ValidateCidr(cidr: string) {
    match MatchedText(cidr)
    case None => false
    case Some(b) =>
      var parts := Split(b, '/');
      var octets := Split(parts[0], '.');
      (forall k | 0 <= k < 4 :: NumeralValue(octets[k]) <= 255) && NumeralValue(parts[1]) <= 32
  }

  /** The text of a CIDR written as four octet groups and a prefix. */
  function CidrText(octets: seq<string>, prefix: string): string
    requires |octets| == 4
  {
    Join(octets, '.') + "/" + prefix
  }

  /** Four groups of one to three decimal digits (of any script) and a prefix of one or two. */
  predicate CidrShaped(octets: seq<string>, prefix: string) {
    |octets| == 4 && (forall k | 0 <= k < 4 :: DecimalRun(octets[k], 3)) && DecimalRun(prefix, 2)
  }

  /** ... whose values are in range. */
  predicate InRange(octets: seq<string>, prefix: string)
    requires CidrShaped(octets, prefix)
  {
    (forall k | 0 <= k < 4 :: NumeralValue(octets[k]) <= 255) && NumeralValue(prefix) <= 32
  }

  function Newline(nl: bool): string {
    if nl then "\n" else ""
  }

  /** A string of the CIDR shape, with or without one trailing newline, is
      accepted exactly when every octet is at most 255 and the prefix at most 32. */
  lemma ValidateCidrOfShape(octets: seq<string>, prefix: string, nl: bool)
    requires CidrShaped(octets, prefix)
    ensures ValidateCidr(CidrText(octets, prefix) + Newline(nl)) <==> InRange(octets, prefix)
  {
    var b := CidrText(octets, prefix);
    assert Split(b, '/') == [Join(octets, '.'), prefix] by {
      SplitOfShape(octets, prefix, false);
      assert b + Newline(false) == b;
    }
    assert Split(Join(octets, '.'), '.') == octets by {
      DigitsHaveNoSeparators(octets, prefix);
      SplitJoin(octets, '.');
    }
    MatchedTextOfShape(octets, prefix, nl);
  }

  /** The text written from groups, with or without a final newline, matches
      the pattern, and the match is the text without the newline. */
  lemma MatchedTextOfShape(octets: seq<string>, prefix: string, nl: bool)
    requires CidrShaped(octets, prefix)
    ensures MatchedText(CidrText(octets, prefix) + Newline(nl)) == Some(CidrText(octets, prefix))
  {
    var b := CidrText(octets, prefix);
    SplitOfShape(octets, prefix, false);
    assert b + Newline(false) == b;
    DigitsHaveNoSeparators(octets, prefix);
    SplitJoin(octets, '.');
    assert CidrBody(b);
    if nl {
      var s := b + "\n";
      SplitOfShape(octets, prefix, true);
      assert s[..|s| - 1] == b;
      assert !DecimalRun(prefix + "\n", 2) by {
        assert (prefix + "\n")[|prefix|] == '\n';
        BelowZeroIsNotDecimal('\n');
      }
      assert !CidrBody(s);
    }
  }

  lemma DigitsHaveNoSeparators(octets: seq<string>, prefix: string)
    requires CidrShaped(octets, prefix)
    ensures forall k | 0 <= k < 4 :: '.' !in octets[k] && '/' !in octets[k]
    ensures '/' !in Join(octets, '.') && '/' !in prefix && '\n' !in prefix
    ensures '/' !in prefix + "\n"
  {
    BelowZeroIsNotDecimal('.');
    BelowZeroIsNotDecimal('/');
    BelowZeroIsNotDecimal('\n');
    NotInJoin(octets, '.', '/');
  }

  /** A four-piece join, written out. */
  lemma JoinFour(p: seq<string>, sep: char)
    requires |p| == 4
    ensures Join(p, sep) == p[0] + [sep] + p[1] + [sep] + p[2] + [sep] + p[3]
  {
    assert p[1..][1..] == p[2..] && p[2..][1..] == p[3..];
    assert Join(p[3..], sep) == p[3];
    assert Join(p[2..], sep) == p[2] + [sep] + p[3];
    assert Join(p[1..], sep) == p[1] + [sep] + Join(p[2..], sep);
  }

  /** Every accepted CIDR is four octet groups, a slash and a prefix, perhaps
      followed by one newline; every octet lies in 0..255 and the prefix in 0..32. */
  function Groups(cidr: string): (g: (seq<string>, string))
    requires ValidateCidr(cidr)
    ensures CidrShaped(g.0, g.1) && InRange(g.0, g.1)
    ensures cidr == CidrText(g.0, g.1) || cidr == CidrText(g.0, g.1) + "\n"
  {
    var b := MatchedText(cidr).value;
    assert cidr == b || cidr == b + "\n";
    var parts := Split(b, '/');
    var octets := Split(parts[0], '.');
    assert b == CidrText(octets, parts[1]) by {
      JoinSplit(b, '/');
      JoinSplit(parts[0], '.');
      assert Join(parts, '/') == parts[0] + "/" + parts[1];
    }
    (octets, parts[1])
  }

  /** The address text before the slash: `cidr.split('/')[0]`. */
  function AddressText(cidr: string): string {
    Split(cidr, '/')[0]
  }

  /** The prefix text after the first slash: `cidr.split('/')[1]` (it keeps
      a trailing newline that `validate_cidr` let through). */
  function PrefixText(cidr: string): string
    requires HasSlash(cidr)
  {
    Split(cidr, '/')[1]
  }

  /** `cidr.split('/')[1]` does not raise IndexError. */
  predicate HasSlash(cidr: string) {
    |Split(cidr, '/')| >= 2
  }

  /** The address and prefix texts of an accepted CIDR. */
  lemma SplitOfValid(cidr: string)
    requires ValidateCidr(cidr)
    ensures HasSlash(cidr)
    ensures AddressText(cidr) == Join(Groups(cidr).0, '.')
    ensures PrefixText(cidr) == Groups(cidr).1 || PrefixText(cidr) == Groups(cidr).1 + "\n"
  {
    var g := Groups(cidr);
    var nl := cidr != CidrText(g.0, g.1);
    assert cidr == CidrText(g.0, g.1) + Newline(nl);
    SplitOfShape(g.0, g.1, nl);
  }

  lemma SplitOfShape(octets: seq<string>, prefix: string, nl: bool)
    requires CidrShaped(octets, prefix)
    ensures Split(CidrText(octets, prefix) + Newline(nl), '/') == [Join(octets, '.'), prefix + Newline(nl)]
  {
    DigitsHaveNoSeparators(octets, prefix);
    var tail := prefix + Newline(nl);
    assert '/' !in tail;
    assert CidrText(octets, prefix) + Newline(nl) == Join([Join(octets, '.'), tail], '/');
    SplitJoin([Join(octets, '.'), tail], '/');
  }

  /** An accepted CIDR has a prefix part after its slash. */
  lemma ValidHasSlash(cidr: string)
    requires ValidateCidr(cidr)
    ensures HasSlash(cidr)
  {
    SplitOfValid(cidr);
  }

  // ---------------------------------------------------------------------
  // The VPC bridge address (vpc.py: `cidr.split('/')[0].rsplit('.', 1)[0] + '.1'`)

  /** The bridge address of a VPC: its CIDR's address text with the last
      octet group replaced by `1`; purely textual. */
  function BridgeIp(cidr: string): (r: string)
  {
    BeforeLast(AddressText(cidr), '.') + ".1"
  }

  /** For any text at all: the bridge address is the address text up to
      (not including) its last `.`, or all of it when it holds none,
      followed by `.1`. */
  lemma BridgeIpShape(cidr: string)
    ensures var r, a := BridgeIp(cidr), AddressText(cidr);
      |r| >= 2 && r[|r| - 2..] == ".1" &&
      ('.' in a ==> |r| - 2 < |a| && r[..|r| - 2] == a[..|r| - 2] &&
                    a[|r| - 2] == '.' && '.' !in a[|r| - 1..]) &&
      ('.' !in a ==> r[..|r| - 2] == a)
  {
    var a := AddressText(cidr);
    var head := BeforeLast(a, '.');
    var r := head + ".1";
    assert r[..|r| - 2] == head && r[|r| - 2..] == ".1";
    if '.' in a {
      assert head == a[..|head|];
    }
  }

  /** The bridge address keeps the first three octet groups as written and puts `.1` last. */
  lemma BridgeIpKeepsThreeGroups(cidr: string)
    requires ValidateCidr(cidr)
    ensures var o := Groups(cidr).0;
      BridgeIp(cidr) == o[0] + "." + o[1] + "." + o[2] + ".1"
  {
    var (octets, prefix) := Groups(cidr);
    assert AddressText(cidr) == Join(octets, '.') by {
      SplitOfValid(cidr);
    }
    assert BeforeLast(Join(octets, '.'), '.') == Join(octets[..3], '.') by {
      DigitsHaveNoSeparators(octets, prefix);
      BeforeLastOfJoin(octets, '.');
    }
    JoinThree(octets[..3]);
  }

  lemma JoinThree(init: seq<string>)
    requires |init| == 3
    ensures Join(init, '.') == init[0] + "." + init[1] + "." + init[2]
  {
    assert init[1..][1..] == init[2..];
    assert Join(init[2..], '.') == init[2];
    assert Join(init[1..], '.') == init[1] + "." + init[2];
  }

  // ---------------------------------------------------------------------
  // ipaddress: addresses

  /** `IPv4Address._parse_octet`: one to three ASCII digits, no leading zero
      unless the group is `0`, at most 255. */
  function ParseOctet(t: string): (r: Option<nat>)
    ensures r.Some? ==> r.value <= 255
  {
    if !DigitRun(t, 3) || (t[0] == '0' && t != "0") then None
    else if DecimalValue(t) > 255 then None
    else Some(DecimalValue(t))
  }

  function Join4(a: nat, b: nat, c: nat, d: nat): nat {
    ((a * 256 + b) * 256 + c) * 256 + d
  }

  /** `IPv4Address(t)`: four dot-separated octets, big-endian; None where it raises. */
  function ParseAddress(t: string): (r: Option<nat>)
    ensures r.Some? ==> r.value < 0x1_0000_0000
  {
    var g := Split(t, '.');
    if |g| != 4 then None
    else
      var a, b, c, d := ParseOctet(g[0]), ParseOctet(g[1]), ParseOctet(g[2]), ParseOctet(g[3]);
      if a.Some? && b.Some? && c.Some? && d.Some? then Some(Join4(a.value, b.value, c.value, d.value))
      else None
  }

  /** The four octets of an address, most significant first. */
  function Octets(a: nat): (o: seq<nat>)
    requires a < 0x1_0000_0000
    ensures |o| == 4 && forall k | 0 <= k < 4 :: o[k] <= 255
  {
    [a / 256 / 256 / 256, a / 256 / 256 % 256, a / 256 % 256, a % 256]
  }

  /** The decimal numerals of the four octets. */
  function OctetTexts(a: nat): (g: seq<string>)
    requires a < 0x1_0000_0000
  {
    seq(4, k requires 0 <= k < 4 => Decimal(Octets(a)[k]))
  }

  /** `str(IPv4Address(a))`: dotted decimal. */
  function FormatAddress(a: nat): string
    requires a < 0x1_0000_0000
  {
    Join(OctetTexts(a), '.')
  }

  /** Octet numerals hold digits only. */
  lemma OctetTextsAreDigits(a: nat)
    requires a < 0x1_0000_0000
    ensures forall k | 0 <= k < 4 :: AllDigits(OctetTexts(a)[k]) && '.' !in OctetTexts(a)[k]
  {
  }

  /** The address `a` is one of its octets: reassembling the octets gives `a`. */
  lemma OctetsJoin(a: nat)
    requires a < 0x1_0000_0000
    ensures var o := Octets(a); Join4(o[0], o[1], o[2], o[3]) == a
  {
    var q1 := a / 256;
    var q2 := q1 / 256;
    assert q1 * 256 + a % 256 == a;
    assert q2 * 256 + q1 % 256 == q1;
    assert q2 / 256 * 256 + q2 % 256 == q2;
  }

  /** Splitting an assembled address into octets gives back the octets. */
  lemma JoinOctets(a: nat, b: nat, c: nat, d: nat)
    requires a <= 255 && b <= 255 && c <= 255 && d <= 255
    ensures Join4(a, b, c, d) < 0x1_0000_0000
    ensures Octets(Join4(a, b, c, d)) == [a, b, c, d]
  {
    var x := Join4(a, b, c, d);
    var y := (a * 256 + b) * 256 + c;
    var z := a * 256 + b;
    assert x == y * 256 + d;
    assert x / 256 == y && x % 256 == d;
    assert y / 256 == z && y % 256 == c;
    assert z / 256 == a && z % 256 == b;
  }

  /** Octet text printed by `str()` is read back by `_parse_octet`. */
  lemma ParseOctetOfDecimal(v: nat)
    requires v <= 255
    ensures ParseOctet(Decimal(v)) == Some(v)
  {
    DecimalLength(v);
    DecimalValueOfDecimal(v);
  }

  /** Reading back a printed address gives the address. */
  lemma ParseFormatAddress(a: nat)
    requires a < 0x1_0000_0000
    ensures ParseAddress(FormatAddress(a)) == Some(a)
  {
    var o := Octets(a);
    var g := OctetTexts(a);
    forall k | 0 <= k < 4 ensures ParseOctet(g[k]) == Some(o[k]) {
      ParseOctetOfDecimal(o[k]);
    }
    OctetTextsAreDigits(a);
    SplitJoin(g, '.');
    OctetsJoin(a);
  }

  /** `ipaddress` accepts each address in exactly one spelling: the one `str()` prints. */
  lemma FormatParseAddress(t: string)
    requires ParseAddress(t).Some?
    ensures FormatAddress(ParseAddress(t).value) == t
  {
    var g := Split(t, '.');
    var v := seq(4, k requires 0 <= k < 4 => ParseOctet(g[k]).value);
    forall k | 0 <= k < 4 ensures Decimal(v[k]) == g[k] {
      DecimalOfDecimalValue(g[k]);
    }
    JoinOctets(v[0], v[1], v[2], v[3]);
    JoinSplit(t, '.');
    assert OctetTexts(ParseAddress(t).value) == g;
  }

  // ---------------------------------------------------------------------
  // ipaddress: networks

  /** 2^n. */
  function Pow2(n: nat): (p: nat)
    ensures p >= 1
  {
    if n == 0 then 1 else 2 * Pow2(n - 1)
  }

  /** A network: its network address and prefix length. */
  datatype Network = Network(address: nat, prefix: nat)

  /** The number of addresses in a block with this prefix. */
  function BlockSize(prefix: nat): nat
    requires prefix <= 32
  {
    Pow2(32 - prefix)
  }

  /** A prefix of at most 32 bits and an address whose host bits are clear. */
  predicate ValidNetwork(n: Network) {
    n.prefix <= 32 && n.address < 0x1_0000_0000 && n.address % BlockSize(n.prefix) == 0
  }

  /** The last address of the block. */
  function Broadcast(n: Network): nat
    requires n.prefix <= 32
  {
    n.address + BlockSize(n.prefix) - 1
  }

  predicate InBlock(n: Network, a: nat)
    requires n.prefix <= 32
  {
    n.address <= a <= Broadcast(n)
  }

  /** Python's `ipaddress` reading of a prefix given in digits (`_prefix_from_prefix_string`). */
  function ParsePrefix(t: string): (r: Option<nat>)
    ensures r.Some? ==> r.value <= 32
  {
    if t != [] && AllDigits(t) && DecimalValue(t) <= 32 then Some(DecimalValue(t)) else None
  }

  /** `ipaddress.ip_network(s, strict=False)`; None where it raises ValueError.
      The host bits of the address are cleared. A missing prefix means /32. */
  function ParseNetwork(s: string): (r: Option<Network>)
    ensures r.Some? ==> ValidNetwork(r.value)
  {
    var parts := Split(s, '/');
    if |parts| > 2 then None
    else
      var a := ParseAddress(parts[0]);
      var p := if |parts| == 1 then Some(32) else ParsePrefix(parts[1]);
      if a.None? || p.None? then None
      else
        Some(Network(Masked(a.value, BlockSize(p.value)), p.value))
  }

  /** The address with its host bits cleared, for a block of `size` addresses. */
  function Masked(a: nat, size: nat): (m: nat)
    requires size >= 1
    ensures m <= a && m % size == 0
  {
    MaskedBelow(a, size);
    a / size * size
  }

  /** Clearing the host bits keeps the address below 2^32 and aligned. */
  lemma MaskedBelow(a: nat, size: nat)
    requires size >= 1
    ensures a / size * size <= a
    ensures a / size * size % size == 0
  {
    var q := a / size;
    assert q * size + a % size == a;
    DivOfMultiple(q, size);
  }

  /** `a.subnet_of(b)`: the block of `a` lies inside the block of `b`. */
  predicate SubnetOf(a: Network, b: Network)
    requires a.prefix <= 32 && b.prefix <= 32
  {
    b.address <= a.address && Broadcast(b) >= Broadcast(a)
  }

  /** Containment in the sense of section 3.1 of RFC 4632: `b`'s prefix is no
      longer than `a`'s and the two agree on `b`'s leading bits. */
  predicate PrefixContains(b: Network, a: Network)
    requires a.prefix <= 32 && b.prefix <= 32
  {
    b.prefix <= a.prefix &&
    a.address / BlockSize(b.prefix) == b.address / BlockSize(b.prefix)
  }

  /** `subnet_of` is prefix containment. Equal networks count: a block is a
      subnet of itself. */
  lemma SubnetOfIsPrefixContainment(a: Network, b: Network)
    requires ValidNetwork(a) && ValidNetwork(b)
    ensures SubnetOf(a, b) <==> PrefixContains(b, a)
  {
    if SubnetOf(a, b) {
      SubnetOfGivesPrefix(a, b);
    }
    if PrefixContains(b, a) {
      PrefixGivesSubnetOf(a, b);
    }
  }

  lemma SubnetOfGivesPrefix(a: Network, b: Network)
    requires ValidNetwork(a) && ValidNetwork(b) && SubnetOf(a, b)
    ensures PrefixContains(b, a)
  {
    Pow2Order(32 - a.prefix, 32 - b.prefix);
    InnerBlockQuotient(a.address, b.address, BlockSize(b.prefix));
  }

  lemma PrefixGivesSubnetOf(a: Network, b: Network)
    requires ValidNetwork(a) && ValidNetwork(b) && PrefixContains(b, a)
    ensures SubnetOf(a, b)
  {
    var m := Pow2(a.prefix - b.prefix);
    Pow2Add(32 - a.prefix, a.prefix - b.prefix);
    SameQuotientFits(a.address, b.address, BlockSize(a.prefix), m);
  }

  /** An address in the first `d` addresses after a multiple of `d` has that multiple's quotient. */
  lemma InnerBlockQuotient(x: int, y: int, d: int)
    requires d >= 1 && y % d == 0 && y <= x < y + d
    ensures x / d == y / d
  {
    var k := y / d;
    assert y == k * d;
    DivUnique(x, d, k, x - y);
  }

  /** Two multiples of `d`, the second also a multiple of `d * m`, with the
      same quotient by `d * m`: the block of `d` after `x` ends inside the
      block of `d * m` after `y`. */
  lemma SameQuotientFits(x: int, y: int, d: int, m: int)
    requires d >= 1 && m >= 1 && x >= 0 && y >= 0
    requires x % d == 0 && y % (d * m) == 0 && x / (d * m) == y / (d * m)
    ensures y <= x && x + d <= y + d * m
  {
    var big := d * m;
    var q := y / big;
    assert y == q * big;
    assert x == q * big + x % big;
    var r := x - y;
    var kx := x / d;
    assert x == kx * d;
    var j := kx - q * m;
    assert r == j * d by {
      assert q * big == (q * m) * d;
      MulSubDistributes(kx, q * m, d);
    }
    DivOfMultiple(j, d);
    AlignedBelow(r, d, m);
  }

  /** The addresses `hosts()` yields; /31 yields both addresses and /32 the
      single one. */
  function Hosts(n: Network): (hs: seq<nat>)
    requires ValidNetwork(n)
    ensures |hs| >= 1
    ensures forall i | 0 <= i < |hs| :: InBlock(n, hs[i]) && hs[i] < 0x1_0000_0000
  {
    BlockFits(n);
    Pow2Order(2, 32 - n.prefix);
    assert Pow2(1) == 2 && Pow2(2) == 4;
    if n.prefix == 32 then [n.address]
    else if n.prefix == 31 then [n.address, n.address + 1]
    else seq(BlockSize(n.prefix) - 2, i => n.address + 1 + i)
  }

  /** The host list has at least two entries exactly when the prefix is at most 31;
      up to /30 the first two are the network address plus one and plus two,
      for /31 the two addresses of the block. */
  lemma FirstTwoHosts(n: Network)
    requires ValidNetwork(n)
    ensures |Hosts(n)| >= 2 <==> n.prefix <= 31
    ensures n.prefix <= 30 ==> Hosts(n)[0] == n.address + 1 && Hosts(n)[1] == n.address + 2
    ensures n.prefix == 31 ==> Hosts(n)[0] == n.address && Hosts(n)[1] == n.address + 1
  {
    Pow2Order(2, 32 - n.prefix);
    assert Pow2(2) == 4;
  }

  /** Up to /30 no host is the network or the broadcast address. */
  lemma HostsInside(n: Network)
    requires ValidNetwork(n)
    ensures n.prefix <= 30 ==>
      forall i | 0 <= i < |Hosts(n)| :: n.address < Hosts(n)[i] < Broadcast(n)
  {
  }

  /** Every block ends below 2^32. */
  lemma BlockFits(n: Network)
    requires ValidNetwork(n)
    ensures Broadcast(n) < 0x1_0000_0000
  {
    var size := BlockSize(n.prefix);
    Pow2Add(32 - n.prefix, n.prefix);
    Pow2Of32();
    AlignedBelow(n.address, size, Pow2(n.prefix));
  }

  /** The octet groups of an accepted CIDR whose address `ipaddress` reads
      are the decimal numerals of the address's octets. */
  lemma WrittenOctets(cidr: string, a: nat)
    requires ValidateCidr(cidr) && ParseAddress(AddressText(cidr)) == Some(a)
    ensures forall k | 0 <= k < 4 :: Groups(cidr).0[k] == Decimal(Octets(a)[k])
  {
    var o := Groups(cidr).0;
    SplitOfValid(cidr);
    FormatParseAddress(AddressText(cidr));
    OctetTextsAreDigits(a);
    DigitsHaveNoSeparators(o, Groups(cidr).1);
    SplitJoin(OctetTexts(a), '.');
    SplitJoin(o, '.');
  }

  /** The address after one whose last octet is 0 differs only in that octet, which is 1. */
  lemma NextOctets(a: nat)
    requires a % 256 == 0 && a + 1 < 0x1_0000_0000
    ensures Octets(a + 1) == Octets(a)[3 := 1]
  {
    DivUnique(a + 1, 256, a / 256, 1);
  }

  /** A block no smaller than a /24 starts at a multiple of 256. */
  lemma AlignedTo256(n: Network)
    requires ValidNetwork(n) && n.prefix <= 24
    ensures n.address % 256 == 0
  {
    Pow2Add(8, 24 - n.prefix);
    assert Pow2(8) == 256;
    ModOfFactor(n.address, 256, Pow2(24 - n.prefix));
  }

  /** The address after one ending in octet 0 prints as the same first three groups and `1`. */
  lemma NextAddressText(a: nat)
    requires a % 256 == 0 && a + 1 < 0x1_0000_0000
    ensures var g := OctetTexts(a);
      FormatAddress(a + 1) == g[0] + "." + g[1] + "." + g[2] + ".1"
  {
    NextOctets(a);
    JoinFour(OctetTexts(a + 1), '.');
    assert Decimal(1) == "1";
  }

  /** Clearing the last octet of an address keeps the first three. */
  lemma ClearLastOctet(w: nat)
    requires w < 0x1_0000_0000
    ensures var b := w / 256 * 256;
      b % 256 == 0 && b + w % 256 == w && b + 1 < 0x1_0000_0000 &&
      Octets(b)[..3] == Octets(w)[..3]
  {
    DivOfMultiple(w / 256, 256);
  }

  /** The bridge address, read as an address, is the written address with its
      last octet replaced by 1. */
  lemma BridgeIpAddress(cidr: string, w: nat)
    requires ValidateCidr(cidr) && ParseAddress(AddressText(cidr)) == Some(w)
    ensures w / 256 * 256 + 1 < 0x1_0000_0000
    ensures BridgeIp(cidr) == FormatAddress(w / 256 * 256 + 1)
    ensures ParseAddress(BridgeIp(cidr)) == Some(w / 256 * 256 + 1)
  {
    var b := w / 256 * 256;
    ClearLastOctet(w);
    var o := Groups(cidr).0;
    var g := OctetTexts(b);
    assert FormatAddress(b + 1) == g[0] + "." + g[1] + "." + g[2] + ".1" by {
      NextAddressText(b);
    }
    assert g[0] == o[0] && g[1] == o[1] && g[2] == o[2] by {
      assert Octets(b)[0] == Octets(w)[0] && Octets(b)[1] == Octets(w)[1] && Octets(b)[2] == Octets(w)[2];
      WrittenOctets(cidr, w);
    }
    assert BridgeIp(cidr) == o[0] + "." + o[1] + "." + o[2] + ".1" by {
      BridgeIpKeepsThreeGroups(cidr);
    }
    ParseFormatAddress(b + 1);
  }

  /** The bridge address is the first host when the written address is the
      network address of a block no smaller than a /24. */
  lemma BridgeIpFirstHost(cidr: string, n: Network)
    requires ValidateCidr(cidr) && ParseNetwork(cidr) == Some(n)
    requires n.prefix <= 24 && ParseAddress(AddressText(cidr)) == Some(n.address)
    ensures BridgeIp(cidr) == FormatAddress(Hosts(n)[0])
  {
    var b := n.address / 256 * 256 + 1;
    assert Hosts(n)[0] == b by { FirstHostRoundsDown(n); }
    assert BridgeIp(cidr) == FormatAddress(b) by { BridgeIpAddress(cidr, n.address); }
  }

  /** Up to a /30, the bridge address is the first host exactly when the
      block's network address is the written address with its last octet
      set to 0, whatever the block's size. */
  lemma BridgeIpFirstHostIff(cidr: string, n: Network, w: nat)
    requires ValidateCidr(cidr) && ParseNetwork(cidr) == Some(n)
    requires ParseAddress(AddressText(cidr)) == Some(w)
    ensures n.prefix <= 30 ==>
      (BridgeIp(cidr) == FormatAddress(Hosts(n)[0]) <==> n.address == w / 256 * 256)
  {
    BridgeIpAddress(cidr, w);
    FirstTwoHosts(n);
    if n.prefix <= 30 && BridgeIp(cidr) == FormatAddress(Hosts(n)[0]) {
      ParseFormatAddress(Hosts(n)[0]);
    }
  }

  /** In a block no smaller than a /24, the first host is the address with its
      last octet set to 1. */
  lemma FirstHostRoundsDown(n: Network)
    requires ValidNetwork(n) && n.prefix <= 24
    ensures Hosts(n)[0] == n.address / 256 * 256 + 1
  {
    FirstTwoHosts(n);
    AlignedTo256(n);
    DivOfMultiple(n.address / 256, 256);
  }

  /** When the written address is the network address of a block that does
      not start at octet 0 or 1 (so a block smaller than a /24, like
      10.0.0.128/25), the bridge address lies outside the block. */
  lemma BridgeIpOutsideBlock(cidr: string, n: Network)
    requires ValidateCidr(cidr) && ParseNetwork(cidr) == Some(n)
    requires ParseAddress(AddressText(cidr)) == Some(n.address) && n.address % 256 >= 2
    ensures n.prefix > 24
    ensures ParseAddress(BridgeIp(cidr)).Some?
    ensures !InBlock(n, ParseAddress(BridgeIp(cidr)).value)
  {
    BridgeIpAddress(cidr, n.address);
    ClearLastOctet(n.address);
    if n.prefix <= 24 {
      AlignedTo256(n);
    }
  }

  /** The groups read back from a CIDR written from groups. */
  lemma GroupsOfShape(octets: seq<string>, prefix: string)
    requires CidrShaped(octets, prefix) && InRange(octets, prefix)
    ensures ValidateCidr(CidrText(octets, prefix))
    ensures Groups(CidrText(octets, prefix)) == (octets, prefix)
    ensures Split(CidrText(octets, prefix), '/') == [Join(octets, '.'), prefix]
    ensures Split(Join(octets, '.'), '.') == octets
  {
    var c := CidrText(octets, prefix);
    ValidateCidrOfShape(octets, prefix, false);
    assert c + Newline(false) == c;
    DigitsHaveNoSeparators(octets, prefix);
    SplitJoin(octets, '.');
    assert Join([Join(octets, '.'), prefix], '/') == c;
    SplitJoin([Join(octets, '.'), prefix], '/');
  }

  /** An accepted CIDR with a group in digits other than ASCII is one that
      `ipaddress` refuses: its octets and its prefix must be ASCII digits. */
  lemma NonAsciiGroupRefused(cidr: string)
    requires ValidateCidr(cidr)
    requires !(forall k | 0 <= k < 4 :: AllDigits(Groups(cidr).0[k])) || !AllDigits(Groups(cidr).1)
    ensures ParseNetwork(cidr) == None
  {
    var g := Groups(cidr);
    var nl := cidr != CidrText(g.0, g.1);
    var address, prefix := Join(g.0, '.'), g.1 + Newline(nl);
    assert Split(cidr, '/') == [address, prefix] by {
      assert cidr == CidrText(g.0, g.1) + Newline(nl);
      SplitOfShape(g.0, g.1, nl);
    }
    assert ParseAddress(address) == None || ParsePrefix(prefix) == None by {
      if k :| 0 <= k < 4 && !AllDigits(g.0[k]) {
        DigitsHaveNoSeparators(g.0, g.1);
        NonAsciiOctetRefused(g.0, k);
      } else {
        NonAsciiPrefixRefused(g.1, Newline(nl));
      }
    }
  }

  lemma NonAsciiOctetRefused(octets: seq<string>, k: nat)
    requires |octets| == 4 && forall j | 0 <= j < 4 :: '.' !in octets[j]
    requires k < 4 && !AllDigits(octets[k])
    ensures ParseAddress(Join(octets, '.')) == None
  {
    var g := Split(Join(octets, '.'), '.');
    assert g == octets by {
      SplitJoin(octets, '.');
    }
    assert ParseOctet(g[k]) == None;
  }

  lemma NonAsciiPrefixRefused(prefix: string, rest: string)
    requires !AllDigits(prefix)
    ensures ParsePrefix(prefix + rest) == None
  {
    var i :| 0 <= i < |prefix| && !IsDigit(prefix[i]);
    assert (prefix + rest)[i] == prefix[i];
  }

  /** `validate_cidr` accepts a CIDR written with Arabic-Indic digits, such as
      `\U{0661}\U{0660}.0.0.0/16` (ten, zero, zero, zero over 16), which
      `ipaddress` then refuses. */
  lemma NonAsciiDigitsPassValidation()
    ensures ValidateCidr("\U{0661}\U{0660}.0.0.0/16")
    ensures ParseNetwork("\U{0661}\U{0660}.0.0.0/16") == None
  {
    var ten := "\U{0661}\U{0660}";
    var octets := [ten, "0", "0", "0"];
    var c := CidrText(octets, "16");
    assert c == "\U{0661}\U{0660}.0.0.0/16" by {
      JoinFour(octets, '.');
    }
    assert CidrShaped(octets, "16") && InRange(octets, "16") by {
      ArabicNumeral();
      NumeralValueOfDigits("0");
      NumeralValueOfDigits("16");
    }
    GroupsOfShape(octets, "16");
    assert !IsDigit(ten[0]);
    NonAsciiGroupRefused(c);
  }

  // ---------------------------------------------------------------------
  // Arithmetic facts used above

  lemma Pow2Of32()
    ensures Pow2(32) == 0x1_0000_0000
  {
    assert Pow2(8) == 256;
    Pow2Add(8, 8);
    Pow2Add(16, 16);
  }

  lemma {:induction false} Pow2Add(a: nat, b: nat)
    ensures Pow2(a + b) == Pow2(a) * Pow2(b)
    decreases a
  {
    if a > 0 {
      Pow2Add(a - 1, b);
      assert Pow2(a + b) == 2 * Pow2(a - 1 + b);
    }
  }

  lemma {:induction false} Pow2Order(a: nat, b: nat)
    ensures a <= b <==> Pow2(a) <= Pow2(b)
    decreases a + b
  {
    if a > 0 && b > 0 {
      Pow2Order(a - 1, b - 1);
    } else if a > 0 {
      assert Pow2(a) == 2 * Pow2(a - 1);
    }
  }

  lemma DivOfMultiple(q: int, d: int)
    requires d >= 1
    ensures q * d / d == q && q * d % d == 0
  {
    DivUnique(q * d, d, q, 0);
  }

  /** Division by a positive divisor has one quotient and remainder. */
  lemma DivUnique(x: int, d: int, q: int, r: int)
    requires d >= 1 && x == q * d + r && 0 <= r < d
    ensures x / d == q && x % d == r
  {
    var q', r' := x / d, x % d;
    assert x == q' * d + r';
    MulMonotone(q + 1, q', d);
    MulMonotone(q' + 1, q, d);
    assert (q + 1) * d == q * d + d;
    assert (q' + 1) * d == q' * d + d;
  }

  lemma MulMonotone(x: int, y: int, d: int)
    requires d >= 0
    ensures x <= y ==> x * d <= y * d
  {
    assert y * d - x * d == (y - x) * d;
  }

  lemma MulLessCancel(x: int, y: int, d: int)
    requires d >= 1
    ensures x * d < y * d ==> x < y
  {
    MulMonotone(y, x, d);
  }

  lemma MulSubDistributes(x: int, y: int, d: int)
    ensures x * d - y * d == (x - y) * d
  {
  }

  /** A multiple of `d` below `d * m` leaves room for one more block of `d`. */
  lemma AlignedBelow(r: int, d: int, m: int)
    requires d >= 1 && r % d == 0 && 0 <= r < d * m
    ensures r + d <= d * m
  {
    var j := r / d;
    assert r == j * d;
    MulLessCancel(j, m, d);
    MulMonotone(j + 1, m, d);
    assert (j + 1) * d == j * d + d;
  }

  lemma ModOfFactor(a: nat, c: nat, m: nat)
    requires c >= 1 && m >= 1 && a % (c * m) == 0
    ensures a % c == 0
  {
    var k := a / (c * m);
    assert a == k * (c * m);
    assert a == (k * m) * c;
    DivOfMultiple(k * m, c);
  }
}
