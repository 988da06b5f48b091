/** The networks an allowlist covers (backend-rs/src/ip_allowlist.rs:70-142), on the addresses' integers. */
module Networks {
  import opened Algebra

  datatype Ip = V4(value: nat) | V6(value: nat) {
    function Width(): nat {
      if V4? then 32 else 128
    }

    predicate Valid() {
      value < Power2(Width())
    }

    predicate SameFamily(other: Ip) {
      V4? == other.V4?
    }

    /** The first `prefix` bits, as a number. */
    function Top(prefix: nat): nat
      requires prefix <= Width()
    {
      QuotientNonNegative(value, Power2(Width() - prefix));
      value / Power2(Width() - prefix)
    }
  }

  // ----- machine words

  /** `x & y`, bit by bit. */
  function And(x: nat, y: nat): nat
  {
    if x == 0 || y == 0 then 0
    else 2 * And(x / 2, y / 2) + (if x % 2 == 1 && y % 2 == 1 then 1 else 0)
  }

  /** `x << k` on words of `width` bits. */
  function ShiftLeft(x: nat, k: nat, width: nat): nat {
    x * Power2(k) % Power2(width)
  }

  /** `MAX << (width - prefix)`; a shift by the whole width is not allowed, so prefix zero is a case of its own. */
  function NetMask(width: nat, prefix: nat): nat
    requires prefix <= width
  {
    if prefix == 0 then 0 else ShiftLeft(Power2(width) - 1, width - prefix, width)
  }

  lemma {:induction false} NetMaskIs(width: nat, prefix: nat)
    requires prefix <= width
    ensures Power2(width - prefix) <= Power2(width)
    ensures NetMask(width, prefix) == Power2(width) - Power2(width - prefix)
  {
    hide Power2;
    var whole, part, upper := Power2(width), Power2(width - prefix), Power2(prefix);
    Power2Add(width - prefix, prefix);
    MulMonotone(1, upper, part);
    if prefix > 0 {
      ShiftedOnes(whole, part);
    } else {
      PowerOfNothing();
    }
  }

  lemma {:induction false} PowerOfNothing()
    ensures Power2(0) == 1
  {
  }

  lemma {:induction false} ShiftedOnes(whole: nat, part: nat)
    requires 0 < part <= whole
    ensures (whole - 1) * part % whole == whole - part
  {
    var x := (whole - 1) * part;
    assert x == whole * part - part;
    assert x == (part - 1) * whole + (whole - part);
    RemainderBelow(x, whole);
    EuclidUnique(x / whole, x % whole, part - 1, whole - part, whole);
  }

  lemma {:induction false} AndOnes(x: nat, width: nat)
    requires x < Power2(width)
    ensures And(x, Power2(width) - 1) == x
  {
    if x > 0 {
      assert width > 0;
      var rest := Power2(width - 1);
      assert (2 * rest - 1) / 2 == rest - 1 && (2 * rest - 1) % 2 == 1;
      AndOnes(x / 2, width - 1);
    }
  }

  /** Clearing the low `k` bits rounds down to a multiple of `2^k`. */
  lemma {:induction false} AndHigh(x: nat, width: nat, k: nat)
    requires x < Power2(width) && k <= width && Power2(k) <= Power2(width)
    ensures And(x, Power2(width) - Power2(k)) == x / Power2(k) * Power2(k)
  {
    if k == 0 {
      AndOnes(x, width);
    } else {
      var high, low := Power2(width - 1), Power2(k - 1);
      assert Power2(width) == 2 * high && Power2(k) == 2 * low;
      hide Power2, And;
      AndHigh(x / 2, width - 1, k - 1);
      AndEven(x, high - low);
      HighStep(x, low);
    }
  }

  lemma {:induction false} HighStep(x: nat, low: nat)
    requires low > 0
    ensures 2 * (x / 2 / low * low) == x / (2 * low) * (2 * low)
  {
    DivideTwice(x, 2, low);
    var q := x / 2 / low;
    Interchange(q, 2, 1, low);
    assert q * (2 * low) == 2 * (q * low);
  }

  lemma {:induction false} AndEven(x: nat, half: nat)
    ensures And(x, 2 * half) == 2 * And(x / 2, half)
  {
    assert 2 * half / 2 == half && 2 * half % 2 == 0;
    if x == 0 || half == 0 {
      assert And(x / 2, half) == 0;
    }
  }

  // ----- networks

  function Mask(ip: Ip, prefix: nat): Ip
    requires prefix <= ip.Width()
  {
    ip.(value := And(ip.value, NetMask(ip.Width(), prefix)))
  }

  lemma {:induction false} MaskMeans(ip: Ip, prefix: nat)
    requires ip.Valid() && prefix <= ip.Width()
    ensures Mask(ip, prefix).value == ip.Top(prefix) * Power2(ip.Width() - prefix)
    ensures Mask(ip, prefix).Valid() && Mask(ip, prefix).SameFamily(ip)
    ensures Mask(ip, prefix).Top(prefix) == ip.Top(prefix)
  {
    hide And, NetMask, Power2;
    var width, step := ip.Width(), Power2(ip.Width() - prefix);
    NetMaskIs(width, prefix);
    AndHigh(ip.value, width, width - prefix);
    RemainderBelow(ip.value, step);
    QuotientIs(ip.value / step * step, ip.value / step, 0, step);
  }

  datatype Cidr = Cidr(addr: Ip, prefix: nat) {
    predicate Valid() {
      addr.Valid() && prefix <= addr.Width() && Mask(addr, prefix) == addr
    }

    predicate Contains(ip: Ip)
      requires Valid() && ip.Valid()
    {
      addr.SameFamily(ip) && Mask(ip, prefix) == addr
    }
  }

  /** A network holds the addresses of its family whose top bits, as a number, are its own. */
  lemma {:induction false} ContainsIsPrefix(c: Cidr, ip: Ip)
    requires c.Valid() && ip.Valid()
    ensures c.Contains(ip) <==> c.addr.SameFamily(ip) && ip.Top(c.prefix) == c.addr.Top(c.prefix)
  {
    hide Mask, Power2, Ip.Top, Ip.Valid;
    MaskMeans(c.addr, c.prefix);
    if c.addr.SameFamily(ip) {
      MaskMeans(ip, c.prefix);
    }
  }

  /** Host bits are masked off: the stored network is canonical and holds the address it was written with. */
  lemma {:induction false} MaskedIsNetwork(ip: Ip, prefix: nat)
    requires ip.Valid() && prefix <= ip.Width()
    ensures var c := Cidr(Mask(ip, prefix), prefix); c.Valid() && c.Contains(ip)
  {
    hide Mask, Power2, Ip.Top, Ip.Valid;
    MaskMeans(ip, prefix);
    MaskMeans(Mask(ip, prefix), prefix);
    assert Mask(Mask(ip, prefix), prefix) == Mask(ip, prefix);
  }

  lemma {:induction false} ShorterTop(ip: Ip, p: nat, q: nat)
    requires p <= q <= ip.Width()
    ensures ip.Top(p) == ip.Top(q) / Power2(q - p)
  {
    hide Power2;
    var w := ip.Width();
    Power2Add(w - q, q - p);
    assert w - p == (w - q) + (q - p);
    DivideTwice(ip.value, Power2(w - q), Power2(q - p));
  }

  /** Of two networks of one family the wider holds all of the narrower or none of it. */
  lemma {:induction false} NestedOrDisjoint(wide: Cidr, narrow: Cidr, ip: Ip)
    requires wide.Valid() && narrow.Valid() && ip.Valid() && wide.prefix <= narrow.prefix
    requires wide.addr.SameFamily(narrow.addr) && narrow.Contains(ip)
    ensures wide.Contains(ip) <==> wide.Contains(narrow.addr)
  {
    hide Mask, Power2, Ip.Top, Ip.Valid;
    ContainsIsPrefix(wide, ip);
    ContainsIsPrefix(wide, narrow.addr);
    ContainsIsPrefix(narrow, ip);
    ShorterTop(ip, wide.prefix, narrow.prefix);
    ShorterTop(narrow.addr, wide.prefix, narrow.prefix);
  }

  /** A network of full prefix is one address. */
  lemma {:induction false} HostNetwork(c: Cidr, ip: Ip)
    requires c.Valid() && ip.Valid() && c.prefix == c.addr.Width()
    ensures c.Contains(ip) <==> ip == c.addr
  {
    hide Mask, Power2, Ip.Valid;
    ContainsIsPrefix(c, ip);
    PowerOfNothing();
  }
}
