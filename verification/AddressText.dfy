/** The texts of addresses and networks (backend-rs/src/ip_allowlist.rs:28-44, 77-107). */
module AddressText {
  import opened Algebra
  import opened DigitStrings
  import opened Whitespace
  import opened Wrappers
  import opened Networks

  // ----- splitting at a separator

  /** The parts once `c` follows. */
  function Grow(parts: seq<string>, c: char, sep: char): seq<string>
    requires |parts| > 0
  {
    if c == sep then parts + [""] else parts[..|parts| - 1] + [parts[|parts| - 1] + [c]]
  }

  function Split(s: string, sep: char): (parts: seq<string>)
    ensures |parts| > 0
  {
    if |s| == 0 then [""] else Grow(Split(s[..|s| - 1], sep), s[|s| - 1], sep)
  }

  lemma {:induction false} GrowRight(left: seq<string>, right: seq<string>, c: char, sep: char)
    requires |right| > 0
    ensures Grow(left + right, c, sep) == left + Grow(right, c, sep)
  {
    assert (left + right)[..|left + right| - 1] == left + right[..|right| - 1];
  }

  lemma {:induction false} SplitOne(s: string, c: char, sep: char)
    ensures Split(s + [c], sep) == Grow(Split(s, sep), c, sep)
  {
    assert (s + [c])[..|s|] == s;
  }

  lemma {:induction false} SplitEmpty(sep: char)
    ensures Split("", sep) == [""]
  {
  }

  lemma {:induction false} SplitEnd(a: string, sep: char)
    ensures Split(a + [sep], sep) == Split(a, sep) + Split("", sep)
  {
    SplitOne(a, sep, sep);
    SplitEmpty(sep);
  }

  lemma {:induction false} SplitJoin(a: string, b: string, sep: char)
    ensures Split(a + [sep] + b, sep) == Split(a, sep) + Split(b, sep)
  {
    hide Split, Grow;
    var front := a + [sep];
    if |b| == 0 {
      SplitEnd(a, sep);
      assert front + b == front && b == "";
    } else {
      var init, c := b[..|b| - 1], b[|b| - 1];
      SplitJoin(a, init, sep);
      SplitOne(init, c, sep);
      SplitOne(front + init, c, sep);
      assert front + b == front + init + [c];
      assert b == init + [c];
      GrowRight(Split(a, sep), Split(init, sep), c, sep);
    }
  }

  lemma {:induction false} SplitNothing(s: string, sep: char)
    requires sep !in s
    ensures Split(s, sep) == [s]
  {
    if |s| > 0 {
      var init, c := s[..|s| - 1], s[|s| - 1];
      SplitNothing(init, sep);
      assert c in s;
      assert s == init + [c];
    }
  }

  // ----- addresses

  /** One to three digits, no leading zero, at most 255. */
  function ParseOctet(s: string): Option<nat> {
    if 1 <= |s| <= 3 && AllDigits(s) && (|s| == 1 || s[0] != '0') && Num(DigitsIn(s)) <= 255
    then Some(Num(DigitsIn(s))) else None
  }

  function ParseV4(t: string): Option<nat> {
    var parts := Split(t, '.');
    if |parts| != 4 then None
    else
      match (ParseOctet(parts[0]), ParseOctet(parts[1]), ParseOctet(parts[2]), ParseOctet(parts[3]))
      case (Some(a), Some(b), Some(c), Some(d)) => Some(V4Value(a, b, c, d))
      case _ => None
  }

  function V4Value(a: nat, b: nat, c: nat, d: nat): nat {
    ((a * 256 + b) * 256 + c) * 256 + d
  }

  const V4_LIMIT := 0x1_0000_0000
  const V6_LIMIT := 0x1_0000_0000_0000_0000_0000_0000_0000_0000

  /** What the library's grammar of IPv6 texts yields. */
  type V6Text = string -> Option<Word>
  type Word = w: nat | w < V6_LIMIT

  predicate HasAny(s: string, cs: set<char>) {
    exists k :: 0 <= k < |s| && s[k] in cs
  }

  function ParseAddress(t: string, v6: V6Text): Option<Ip> {
    match ParseV4(t)
    case Some(v) => Some(V4(v))
    case None => (match v6(t) case Some(w) => Some(V6(w)) case None => None)
  }

  /** `::ffff:a.b.c.d` */
  predicate Mapped(w: nat) {
    w / V4_LIMIT == 0xffff
  }

  /** An IPv4-mapped address is the IPv4 address. */
  function ParseIp(text: string, v6: V6Text): Option<Ip> {
    var t := Trim(text);
    if t == "" || HasAny(t, {' ', ',', '/', '[', ']', '%'}) then None
    else
      match ParseAddress(t, v6)
      case None => None
      case Some(ip) => if ip.V6? && Mapped(ip.value) then Some(V4(ip.value % V4_LIMIT)) else Some(ip)
  }

  // ----- networks

  function SlashAt(t: string): (i: nat)
    ensures i <= |t|
  {
    if |t| == 0 || t[0] == '/' then 0 else 1 + SlashAt(t[1..])
  }

  function ParsePrefix(p: string, max: nat): (r: Option<nat>)
    ensures r.Some? ==> r.value <= max
  {
    if 1 <= |p| <= 3 && AllDigits(p) && Num(DigitsIn(p)) <= max then Some(Num(DigitsIn(p))) else None
  }

  /** A bare address is a single host; host bits are masked off; IPv4-mapped notation is refused. */
  function ParseCidr(text: string, v6: V6Text): Option<Cidr> {
    var t := Trim(text);
    var slash := SlashAt(t);
    var host := t[..slash];
    if host == "" || HasAny(host, {' ', ',', '[', ']', '%'}) then None
    else
      match ParseAddress(host, v6)
      case None => None
      case Some(ip) =>
        if ip.V6? && Mapped(ip.value) then None
        else
          match (if slash < |t| then ParsePrefix(t[slash + 1..], ip.Width()) else Some(ip.Width()))
          case None => None
          case Some(prefix) => Some(Cidr(Mask(ip, prefix), prefix))
  }

  // ----- sizes

  lemma {:induction false} Power2Of8()
    ensures Power2(8) == 256
  {
    assert Power2(4) == 16;
  }

  lemma {:induction false} WordSizes()
    ensures Power2(32) == V4_LIMIT && Power2(128) == V6_LIMIT
  {
    Power2Of8();
    hide Power2;
    Power2Add(8, 8);
    Power2Add(16, 16);
    Power2Add(32, 32);
    Power2Add(64, 64);
  }

  lemma {:induction false} V4Size(t: string)
    ensures ParseV4(t).Some? ==> ParseV4(t).value < V4_LIMIT
  {
  }

  lemma {:induction false} AddressValid(t: string, v6: V6Text)
    ensures ParseAddress(t, v6).Some? ==> ParseAddress(t, v6).value.Valid()
  {
    hide ParseV4, Power2;
    WordSizes();
    V4Size(t);
  }

  /** Every address accepted has the width of its family. */
  lemma {:induction false} ParsedIpValid(text: string, v6: V6Text)
    ensures ParseIp(text, v6).Some? ==> ParseIp(text, v6).value.Valid()
  {
    hide ParseAddress, Power2, HasAny, Trim;
    WordSizes();
    AddressValid(Trim(text), v6);
  }

  /** Every network accepted is canonical; without a prefix it is the one address written. */
  lemma {:induction false} ParsedCidrValid(text: string, v6: V6Text)
    requires ParseCidr(text, v6).Some?
    ensures var c := ParseCidr(text, v6).value;
            var t := Trim(text);
            var ip := ParseAddress(t[..SlashAt(t)], v6);
            c.Valid() && ip.Some? && ip.value.Valid() && c.Contains(ip.value)
            && (SlashAt(t) == |t| ==> forall other: Ip :: other.Valid() ==> (c.Contains(other) <==> other == ip.value))
  {
    hide ParseAddress, Power2, HasAny, Trim, Mask, Ip.Valid;
    var c := ParseCidr(text, v6).value;
    var t := Trim(text);
    var ip := ParseAddress(t[..SlashAt(t)], v6).value;
    AddressValid(t[..SlashAt(t)], v6);
    MaskedIsNetwork(ip, c.prefix);
    if SlashAt(t) == |t| {
      HostNetwork(c, ip);
      forall other: Ip | other.Valid() ensures c.Contains(other) <==> other == ip {
        HostNetwork(c, other);
      }
    }
  }

  // ----- writing and reading an IPv4 address

  predicate Octet(n: nat) {
    n < 256
  }

  function OctetText(n: nat): string {
    Text(Digits(n))
  }

  /** The display form of an IPv4 address. */
  function Dotted(a: nat, b: nat, c: nat, d: nat): string {
    OctetText(a) + ['.'] + (OctetText(b) + ['.'] + (OctetText(c) + ['.'] + OctetText(d)))
  }

  lemma {:induction false} OctetRoundTrip(n: nat)
    requires Octet(n)
    ensures ParseOctet(OctetText(n)) == Some(n) && AllDigits(OctetText(n)) && |OctetText(n)| > 0
  {
    hide Num, Digits, Pow10;
    DigitsNum(n);
    TextDigits(Digits(n));
    if n > 0 {
      ThreeDigits();
      LengthByPower(Digits(n), 3);
    } else {
      DigitsOfZero();
    }
  }

  lemma {:induction false} ThreeDigits()
    ensures Pow10(3) == 1000
  {
  }

  lemma {:induction false} DigitsOfZero()
    ensures Digits(0) == [0]
  {
  }

  lemma {:induction false} NotADigit(s: string, sep: char)
    requires AllDigits(s) && !IsDigitChar(sep)
    ensures sep !in s
  {
  }

  /** Every IPv4 address reads back from its display form. */
  lemma {:induction false} V4RoundTrip(a: nat, b: nat, c: nat, d: nat)
    requires Octet(a) && Octet(b) && Octet(c) && Octet(d)
    ensures ParseV4(Dotted(a, b, c, d)) == Some(V4Value(a, b, c, d))
  {
    var p, q, r, s := OctetText(a), OctetText(b), OctetText(c), OctetText(d);
    hide Split, ParseOctet, OctetText;
    OctetRoundTrip(a);
    OctetRoundTrip(b);
    OctetRoundTrip(c);
    OctetRoundTrip(d);
    forall t | t in {p, q, r, s} ensures Split(t, '.') == [t] {
      NotADigit(t, '.');
      SplitNothing(t, '.');
    }
    SplitJoin(p, q + ['.'] + (r + ['.'] + s), '.');
    SplitJoin(q, r + ['.'] + s, '.');
    SplitJoin(r, s, '.');
    assert Split(Dotted(a, b, c, d), '.') == [p, q, r, s];
  }

  // ----- nothing else is an IPv4 address

  lemma {:induction false} OctetExactly(s: string, n: nat)
    ensures ParseOctet(s) == Some(n) <==> Octet(n) && s == OctetText(n)
  {
    hide Num, Digits, Pow10;
    if ParseOctet(s) == Some(n) {
      CanonicalUnique(DigitsIn(s));
      TextOfDigits(s);
    } else if Octet(n) && s == OctetText(n) {
      OctetRoundTrip(n);
    }
  }

  lemma {:induction false} TextOfDigits(s: string)
    requires AllDigits(s)
    ensures Text(DigitsIn(s)) == s
  {
  }

  /** The parts with the separator between them. */
  function Joined(parts: seq<string>, sep: char): string
    requires |parts| > 0
  {
    if |parts| == 1 then parts[0] else Joined(parts[..|parts| - 1], sep) + [sep] + parts[|parts| - 1]
  }

  lemma {:induction false} JoinedGrow(parts: seq<string>, c: char, sep: char)
    requires |parts| > 0
    ensures |Grow(parts, c, sep)| > 0 && Joined(Grow(parts, c, sep), sep) == Joined(parts, sep) + [c]
  {
    var grown := Grow(parts, c, sep);
    if c == sep {
      assert grown[..|parts|] == parts;
    } else {
      var n := |parts| - 1;
      assert grown[..n] == parts[..n] && grown[n] == parts[n] + [c];
    }
  }

  lemma {:induction false} JoinedOne(part: string, sep: char)
    ensures Joined([part], sep) == part
  {
  }

  lemma {:induction false} JoinSplit(s: string, sep: char)
    ensures Joined(Split(s, sep), sep) == s
  {
    hide Joined, Grow, Split;
    if |s| > 0 {
      var init, c := s[..|s| - 1], s[|s| - 1];
      JoinSplit(init, sep);
      JoinedGrow(Split(init, sep), c, sep);
      SplitOne(init, c, sep);
      assert s == init + [c];
    } else {
      SplitEmpty(sep);
      JoinedOne("", sep);
    }
  }

  lemma {:induction false} JoinedMore(parts: seq<string>, part: string)
    requires |parts| > 0
    ensures Joined(parts + [part], '.') == Joined(parts, '.') + ['.'] + part
  {
    assert (parts + [part])[..|parts|] == parts;
  }

  lemma {:induction false} JoinedFour(p: string, q: string, r: string, s: string)
    ensures Joined([p, q, r, s], '.') == p + ['.'] + (q + ['.'] + (r + ['.'] + s))
  {
    hide Joined;
    JoinedMore([p], q);
    JoinedMore([p, q], r);
    JoinedMore([p, q, r], s);
    JoinedOne(p, '.');
    assert [p] + [q] == [p, q] && [p, q] + [r] == [p, q, r] && [p, q, r] + [s] == [p, q, r, s];
  }

  /** Only the display form of four octets is read as an IPv4 address. */
  lemma {:induction false} V4Exactly(t: string) returns (a: nat, b: nat, c: nat, d: nat)
    requires ParseV4(t).Some?
    ensures Octet(a) && Octet(b) && Octet(c) && Octet(d)
    ensures t == Dotted(a, b, c, d) && ParseV4(t) == Some(V4Value(a, b, c, d))
  {
    hide ParseOctet, Joined, Split, OctetText;
    var parts := Split(t, '.');
    a, b := ParseOctet(parts[0]).value, ParseOctet(parts[1]).value;
    c, d := ParseOctet(parts[2]).value, ParseOctet(parts[3]).value;
    OctetExactly(parts[0], a);
    OctetExactly(parts[1], b);
    OctetExactly(parts[2], c);
    OctetExactly(parts[3], d);
    JoinSplit(t, '.');
    JoinedFour(parts[0], parts[1], parts[2], parts[3]);
    assert parts == [parts[0], parts[1], parts[2], parts[3]];
  }

  /** An IPv4-mapped text is the IPv4 address to a request, and no network to an allow list. */
  lemma {:induction false} MappedExactly(t: string, v6: V6Text, n: nat)
    requires n < V4_LIMIT && ParseV4(t) == None && v6(t) == Some(0xffff * V4_LIMIT + n)
    requires Trim(t) == t && t != "" && !HasAny(t, {' ', ',', '/', '[', ']', '%'})
    ensures ParseIp(t, v6) == Some(V4(n)) && ParseCidr(t, v6) == None
  {
    hide ParseV4, Trim;
    NoSlashIn(t);
    assert t[..|t|] == t;
    QuotientIs(0xffff * V4_LIMIT + n, 0xffff, n, V4_LIMIT);
  }

  lemma {:induction false} NoSlashIn(t: string)
    requires !HasAny(t, {' ', ',', '/', '[', ']', '%'})
    ensures SlashAt(t) == |t|
  {
    if |t| > 0 {
      assert forall k :: 0 <= k < |t[1..]| ==> t[1..][k] == t[k + 1];
      NoSlashIn(t[1..]);
    }
  }

  predicate DigitsAndDots(t: string) {
    forall k :: 0 <= k < |t| ==> IsDigitChar(t[k]) || t[k] == '.'
  }

  lemma {:induction false} DottedPlain(a: nat, b: nat, c: nat, d: nat)
    requires Octet(a) && Octet(b) && Octet(c) && Octet(d)
    ensures |Dotted(a, b, c, d)| > 0 && DigitsAndDots(Dotted(a, b, c, d))
  {
    hide OctetText;
    OctetRoundTrip(a);
    OctetRoundTrip(b);
    OctetRoundTrip(c);
    OctetRoundTrip(d);
  }

  lemma {:induction false} PlainText(t: string)
    requires |t| > 0 && DigitsAndDots(t)
    ensures Trim(t) == t && ',' !in t && !HasAny(t, {' ', ',', '/', '[', ']', '%'})
  {
    hide Trim;
    assert !IsSpace(t[0]) && !IsSpace(t[|t| - 1]);
    TrimNothing(t);
  }

  /** So does the address of a request: what a socket reports as text is read as the same address. */
  lemma {:induction false} IpRoundTrip(a: nat, b: nat, c: nat, d: nat, v6: V6Text)
    requires Octet(a) && Octet(b) && Octet(c) && Octet(d)
    ensures var t := Dotted(a, b, c, d);
            ParseIp(t, v6) == Some(V4(V4Value(a, b, c, d))) && Trim(t) == t && t != "" && ',' !in t
  {
    hide Dotted, ParseV4, Trim, HasAny;
    V4RoundTrip(a, b, c, d);
    DottedPlain(a, b, c, d);
    PlainText(Dotted(a, b, c, d));
  }

  lemma {:induction false} SlashAfter(host: string, rest: string)
    requires '/' !in host
    ensures SlashAt(host + ['/'] + rest) == |host|
  {
    if |host| > 0 {
      assert host[0] in host;
      assert (host + ['/'] + rest)[1..] == host[1..] + ['/'] + rest;
      SlashAfter(host[1..], rest);
    }
  }

  lemma {:induction false} PrefixRoundTrip(n: nat, max: nat)
    requires n <= max < 256
    ensures ParsePrefix(OctetText(n), max) == Some(n)
  {
    hide Num, DigitsIn;
    OctetRoundTrip(n);
  }

  /** A network written as an address and a prefix is read with its host bits masked off. */
  lemma {:induction false} NetworkRoundTrip(a: nat, b: nat, c: nat, d: nat, prefix: nat, v6: V6Text)
    requires Octet(a) && Octet(b) && Octet(c) && Octet(d) && prefix <= 32
    ensures ParseCidr(Dotted(a, b, c, d) + ['/'] + OctetText(prefix), v6)
         == Some(Cidr(Mask(V4(V4Value(a, b, c, d)), prefix), prefix))
  {
    hide Dotted, ParseV4, Trim, OctetText, ParsePrefix, Mask, SlashAt;
    var host, tail := Dotted(a, b, c, d), OctetText(prefix);
    V4RoundTrip(a, b, c, d);
    DottedPlain(a, b, c, d);
    OctetRoundTrip(prefix);
    PrefixRoundTrip(prefix, 32);
    var t := host + ['/'] + tail;
    NoSlash(host);
    SlashAfter(host, tail);
    assert t[0] == host[0] && t[|t| - 1] == tail[|tail| - 1];
    assert !IsSpace(t[0]) && !IsSpace(t[|t| - 1]);
    TrimNothing(t);
    assert t[..|host|] == host && t[|host| + 1..] == tail;
  }

  lemma {:induction false} NoSlash(t: string)
    requires DigitsAndDots(t)
    ensures '/' !in t && !HasAny(t, {' ', ',', '[', ']', '%'})
  {
  }

  // ----- networks of whole octets

  /** The first `k` octets as a number. */
  function FirstOctets(a: nat, b: nat, c: nat, d: nat, k: nat): nat
    requires k <= 4
  {
    if k == 0 then 0
    else if k == 1 then a
    else if k == 2 then a * 256 + b
    else if k == 3 then (a * 256 + b) * 256 + c
    else V4Value(a, b, c, d)
  }

  lemma {:induction false} TopOctets(a: nat, b: nat, c: nat, d: nat, k: nat)
    requires Octet(a) && Octet(b) && Octet(c) && Octet(d) && k <= 4
    ensures V4(V4Value(a, b, c, d)).Valid()
    ensures V4(V4Value(a, b, c, d)).Top(8 * k) == FirstOctets(a, b, c, d, k)
  {
    hide Power2;
    WordSizes();
    Power2Of8();
    Power2Add(8, 8);
    Power2Add(16, 8);
    PowerOfNothing();
  }

  lemma {:induction false} SameOctets(a: nat, b: nat, c: nat, d: nat, e: nat, f: nat, g: nat, h: nat, k: nat)
    requires Octet(a) && Octet(b) && Octet(c) && Octet(d) && Octet(e) && Octet(f) && Octet(g) && Octet(h) && k <= 4
    ensures FirstOctets(a, b, c, d, k) == FirstOctets(e, f, g, h, k)
       <==> (k > 0 ==> a == e) && (k > 1 ==> b == f) && (k > 2 ==> c == g) && (k > 3 ==> d == h)
  {
  }

  /** A network whose prefix is `k` whole octets holds exactly the addresses that start with the same `k`. */
  lemma {:induction false} OctetNetwork(a: nat, b: nat, c: nat, d: nat, k: nat, e: nat, f: nat, g: nat, h: nat)
    requires Octet(a) && Octet(b) && Octet(c) && Octet(d) && Octet(e) && Octet(f) && Octet(g) && Octet(h) && k <= 4
    ensures var net, ip := Cidr(Mask(V4(V4Value(a, b, c, d)), 8 * k), 8 * k), V4(V4Value(e, f, g, h));
            net.Valid() && ip.Valid()
            && (net.Contains(ip)
                <==> (k > 0 ==> a == e) && (k > 1 ==> b == f) && (k > 2 ==> c == g) && (k > 3 ==> d == h))
  {
    hide Power2, Mask, Cidr.Contains, FirstOctets, V4Value, Ip.Top;
    var written, ip := V4(V4Value(a, b, c, d)), V4(V4Value(e, f, g, h));
    TopOctets(a, b, c, d, k);
    TopOctets(e, f, g, h, k);
    SameOctets(a, b, c, d, e, f, g, h, k);
    MaskedIsNetwork(written, 8 * k);
    MaskMeans(written, 8 * k);
    ContainsIsPrefix(Cidr(Mask(written, 8 * k), 8 * k), ip);
  }
}
