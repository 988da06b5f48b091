/** The client address behind trusted proxies (backend-rs/src/ip_allowlist.rs:46-59). */
module ForwardedAddress {
  import opened Whitespace
  import opened Wrappers
  import opened Networks
  import opened AddressText

  /** Each part trimmed, empty ones left out. */
  function Trimmed(parts: seq<string>): seq<string>
  {
    if |parts| == 0 then []
    else
      var entry := Trim(parts[|parts| - 1]);
      Trimmed(parts[..|parts| - 1]) + (if entry == "" then [] else [entry])
  }

  function Entries(forwarded: string): seq<string> {
    Trimmed(Split(forwarded, ','))
  }

  /** The entries of the header, when it is read at all, and then the socket peer. */
  function Chain(forwarded: string, peer: string, hops: nat): (chain: seq<string>)
    ensures |chain| > 0
  {
    (if hops > 0 then Entries(forwarded) else []) + [peer]
  }

  /** The entry `hops` places from the right end, or the first of a shorter chain. */
  function ClientText(forwarded: string, peer: string, hops: nat): string {
    var chain := Chain(forwarded, peer, hops);
    chain[if hops < |chain| then |chain| - 1 - hops else 0]
  }

  function ClientIp(forwarded: string, peer: string, hops: nat, v6: V6Text): Option<Ip> {
    ParseIp(ClientText(forwarded, peer, hops), v6)
  }

  lemma {:induction false} TrimmedAppend(a: seq<string>, b: seq<string>)
    ensures Trimmed(a + b) == Trimmed(a) + Trimmed(b)
  {
    if |b| == 0 {
      assert a + b == a;
    } else {
      hide Trim;
      assert (a + b)[..|a + b| - 1] == a + b[..|b| - 1];
      TrimmedAppend(a, b[..|b| - 1]);
    }
  }

  lemma {:induction false} EntriesJoin(a: string, b: string)
    ensures Entries(a + [','] + b) == Entries(a) + Entries(b)
  {
    hide Split, Trimmed;
    SplitJoin(a, b, ',');
    TrimmedAppend(Split(a, ','), Split(b, ','));
  }

  lemma {:induction false} OneEntry(t: string)
    requires ',' !in t && t != "" && Trim(t) == t
    ensures Entries(t) == [t]
  {
    hide Trim, Split;
    SplitNothing(t, ',');
    assert [t][..0] == [];
    assert Trimmed([]) == [];
    assert Trimmed([t]) == [] + [t];
  }

  /** An address written in front of too short a header is taken for the client. */
  lemma {:induction false} FrontIsClient(header: string, peer: string, hops: nat, v6: V6Text, d: nat)
    requires hops > |Entries(header)| && Octet(d)
    ensures ClientIp(Dotted(192, 0, 2, d) + [','] + header, peer, hops, v6) == Some(V4(V4Value(192, 0, 2, d)))
  {
    hide Entries, Dotted, ParseIp;
    var front := Dotted(192, 0, 2, d);
    IpRoundTrip(192, 0, 2, d, v6);
    OneEntry(front);
    EntriesJoin(front, header);
    assert ClientText(front + [','] + header, peer, hops) == front;
  }

  /**
  What is written to the left of a header never changes the client, exactly when the header
  is not read or already holds an entry for every trusted proxy.
  */
  lemma {:induction false} PrependingIgnored(header: string, peer: string, hops: nat, v6: V6Text)
    ensures (forall front: string ::
               ClientIp(front + [','] + header, peer, hops, v6) == ClientIp(header, peer, hops, v6))
       <==> hops == 0 || hops <= |Entries(header)|
  {
    hide Entries, ParseIp, Dotted;
    if hops > |Entries(header)| {
      hide ClientIp;
      FrontIsClient(header, peer, hops, v6, 1);
      FrontIsClient(header, peer, hops, v6, 2);
    } else {
      forall front: string
        ensures ClientIp(front + [','] + header, peer, hops, v6) == ClientIp(header, peer, hops, v6)
      {
        EntriesJoin(front, header);
      }
    }
  }

  /** With no trusted proxy the client is the socket peer. */
  lemma {:induction false} PeerIsClient(header: string, a: nat, b: nat, c: nat, d: nat, v6: V6Text)
    requires Octet(a) && Octet(b) && Octet(c) && Octet(d)
    ensures ClientIp(header, Dotted(a, b, c, d), 0, v6) == Some(V4(V4Value(a, b, c, d)))
  {
    hide Entries, ParseIp, Dotted;
    IpRoundTrip(a, b, c, d, v6);
  }

  /** Each of the trusted proxies but the peer leaves one entry: the client is the entry before those. */
  lemma {:induction false} ClientBehindProxies(header: string, peer: string, hops: nat, before: seq<string>,
                                               client: string, proxies: seq<string>)
    requires hops > 0 && |proxies| == hops - 1 && Entries(header) == before + [client] + proxies
    ensures ClientText(header, peer, hops) == client
  {
    hide Entries;
    var chain := Chain(header, peer, hops);
    assert chain[|before|] == client;
  }
}
