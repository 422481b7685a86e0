/**
 Choosing where a message goes: internal/routing/peer.go and engine.go.
 The configured tables, or the error of reading them, are inputs.
 */
module Routing {
  import opened Bytes

  datatype Peer = Peer(name: text, domain: text, smtpHost: text, smtpPort: int, active: bool)

  datatype Route = Route(id: int, matchType: text, matchValue: text, egressType: text, egressTarget: text,
                         priority: int, active: bool)

  datatype Tables = Tables(peers: Result<seq<Peer>>, routes: Result<seq<Route>>)

  // --------------------------------------------------------------- addresses

  /** The address without a "/TYPE=" suffix, in any letter case. */
  function StripTypeSuffix(address: text): text {
    var at := Index(ToUpper(address), Ascii("/TYPE="));
    if 0 < at <= |address| then address[..at] else address
  }

  /** The address is cut in front of its first mark, unless that is where it begins or there is none. */
  lemma StripTypeExact(address: text)
    ensures TypeMarkAt(address, 0) || (forall i: nat :: !TypeMarkAt(address, i)) ==> StripTypeSuffix(address) == address
    ensures forall i: nat | 0 < i && TypeMarkAt(address, i) && forall j: nat | j < i :: !TypeMarkAt(address, j) ::
              StripTypeSuffix(address) == address[..i]
    ensures StripTypeSuffix(address) == [] <==> address == []
  {
    assert forall i: nat | TypeMarkAt(address, i) :: i <= |address|;
    hide Index, TypeMarkAt, EqualFold;
    forall i: nat | i <= |address|
      ensures HasPrefix(ToUpper(address)[i..], Ascii("/TYPE=")) <==> TypeMarkAt(address, i)
    {
      MarkInUpper(address, i);
    }
    hide HasPrefix, Ascii;
  }

  /** Position i of the value is kept: a digit, or a plus sign at the front. */
  predicate Dialled(value: text, i: nat)
    requires i < |value|
  {
    IsDigit(value[i]) || (value[i] == 0x2B && i == 0)
  }

  function DialledFrom(value: text, i: nat): text
    requires i <= |value|
    decreases |value| - i
  {
    if i == |value| then []
    else (if Dialled(value, i) then [value[i]] else []) + DialledFrom(value, i + 1)
  }

  function CanonicalMSISDN(value: text): text {
    DialledFrom(TrimSpace(StripTypeSuffix(value)), 0)
  }

  method Canonicalize(value: text) returns (out: text)
    ensures out == CanonicalMSISDN(value)
  {
    var trimmed := TrimSpace(StripTypeSuffix(value));
    out := [];
    var i := 0;
    while i < |trimmed|
      invariant 0 <= i <= |trimmed|
      invariant out + DialledFrom(trimmed, i) == DialledFrom(trimmed, 0)
    {
      if IsDigit(trimmed[i]) {
        out := out + [trimmed[i]];
      } else if trimmed[i] == 0x2B && i == 0 {
        out := out + [trimmed[i]];
      }
      i := i + 1;
    }
  }

  /** Digits, with at most a plus sign in front. */
  predicate IsCanonical(t: text) {
    forall i | 0 <= i < |t| :: Dialled(t, i)
  }

  lemma {:induction false} DialledFromDigits(value: text, i: nat)
    requires 0 < i <= |value|
    ensures forall b | b in DialledFrom(value, i) :: IsDigit(b)
    decreases |value| - i
  {
    if i < |value| {
      DialledFromDigits(value, i + 1);
    }
  }

  lemma {:induction false} DialledFromAll(value: text, i: nat)
    requires i <= |value| && IsCanonical(value)
    ensures DialledFrom(value, i) == value[i..]
    decreases |value| - i
  {
    if i < |value| {
      DialledFromAll(value, i + 1);
      assert Dialled(value, i);
    }
  }

  lemma CanonicalUntouched(t: text)
    requires IsCanonical(t)
    ensures CanonicalMSISDN(t) == t
  {
    var upper := ToUpper(t);
    var at := Index(upper, Ascii("/TYPE="));
    assert at > 0 ==> upper[at..][..6][0] == Ascii("/TYPE=")[0] == 0x2F;
    forall i | 0 <= i < |t| ensures upper[i] != 0x2F {
      assert Dialled(t, i);
    }
    assert t != [] ==> Dialled(t, 0) && Dialled(t, |t| - 1);
    TrimSpaceShape(t);
    DialledFromAll(t, 0);
  }

  /** A canonical number is digits after an optional plus sign, and canonicalizing it again changes nothing. */
  lemma CanonicalIdempotent(value: text)
    ensures IsCanonical(CanonicalMSISDN(value))
    ensures CanonicalMSISDN(CanonicalMSISDN(value)) == CanonicalMSISDN(value)
  {
    var trimmed := TrimSpace(StripTypeSuffix(value));
    if trimmed != [] {
      DialledFromDigits(trimmed, 1);
      var rest := DialledFrom(trimmed, 1);
      assert forall i | 0 <= i < |rest| :: rest[i] in rest;
      assert forall i | 0 <= i < |CanonicalMSISDN(value)| :: Dialled(CanonicalMSISDN(value), i);
    }
    CanonicalUntouched(CanonicalMSISDN(value));
  }

  /** The digits of a text, in order. */
  function DigitsIn(t: text): text {
    if t == [] then []
    else DigitsIn(t[..|t| - 1]) + if 0x30 <= t[|t| - 1] <= 0x39 then [t[|t| - 1]] else []
  }

  lemma {:induction false} DigitsInConcat(a: text, b: text)
    ensures DigitsIn(a + b) == DigitsIn(a) + DigitsIn(b)
  {
    if b == [] {
      assert a + b == a;
    } else {
      assert (a + b)[..|a + b| - 1] == a + b[..|b| - 1];
      DigitsInConcat(a, b[..|b| - 1]);
    }
  }

  lemma {:induction false} DialledFromRest(value: text, i: nat)
    requires 0 < i <= |value|
    ensures DialledFrom(value, i) == DigitsIn(value[i..])
    decreases |value| - i
  {
    if i < |value| {
      DialledFromRest(value, i + 1);
      hide DialledFrom, DigitsIn, Dialled;
      DialledStep(value, i);
      DigitsInFront(value[i..]);
      assert value[i..][1..] == value[i + 1..];
    }
  }

  lemma DialledStep(value: text, i: nat)
    requires 0 < i < |value|
    ensures DialledFrom(value, i) == (if 0x30 <= value[i] <= 0x39 then [value[i]] else []) + DialledFrom(value, i + 1)
  {
  }

  lemma DigitsInFront(t: text)
    requires t != []
    ensures DigitsIn(t) == (if 0x30 <= t[0] <= 0x39 then [t[0]] else []) + DigitsIn(t[1..])
  {
    assert t == [t[0]] + t[1..] && [t[0]][..0] == [];
    DigitsInConcat([t[0]], t[1..]);
  }

  /** A number is compared by its digits, with the plus sign that stood in front of them, after trimming. */
  lemma CanonicalIsDigits(value: text)
    ensures var t := TrimSpace(StripTypeSuffix(value));
            CanonicalMSISDN(value) == (if t != [] && t[0] == 0x2B then [0x2B] else []) + DigitsIn(t)
  {
    hide StripTypeSuffix, TrimSpace;
    var t := TrimSpace(StripTypeSuffix(value));
    if t != [] {
      DialledFromRest(t, 1);
      DigitsInFront(t);
    }
  }

  function DomainOf(address: text): text {
    var at := LastIndexByte(address, 0x40);
    if 0 <= at < |address| - 1 then ToLower(address[at + 1..]) else []
  }

  /** The domain is what follows the last "@", in small letters. */
  lemma DomainExact(user: text, domain: text)
    requires 0x40 !in domain
    ensures DomainOf(user + [0x40] + domain) == ToLower(domain)
    ensures DomainOf(domain) == []
  {
    var address := user + [0x40] + domain;
    assert address[|user| + 1..] == domain;
    LastAt(address, 0x40, |user|);
  }

  // ------------------------------------------------------------------- routes

  function Exact(): text { Ascii("msisdn_exact") }
  function Prefix(): text { Ascii("msisdn_prefix") }
  function Domain(): text { Ascii("recipient_domain") }

  lemma MatchTypesDiffer()
    ensures Exact() != Prefix() && Exact() != Domain() && Prefix() != Domain()
  {
    assert |Exact()| == 12 && |Prefix()| == 13 && |Domain()| == 16;
  }

  predicate RouteMatches(address: text, route: Route) {
    if route.matchType == Domain() then EqualFold(DomainOf(address), route.matchValue)
    else if route.matchType == Exact() then
      0x40 !in address && CanonicalMSISDN(address) == CanonicalMSISDN(route.matchValue)
    else if route.matchType == Prefix() then
      0x40 !in address && HasPrefix(CanonicalMSISDN(address), CanonicalMSISDN(route.matchValue))
    else false
  }

  /** A number route is met by the digits dialled, and never by an address with an "@". */
  lemma NumberMatches(address: text, route: Route)
    ensures route.matchType == Ascii("msisdn_exact") ==>
              (RouteMatches(address, route) <==>
               0x40 !in address && CanonicalMSISDN(address) == CanonicalMSISDN(route.matchValue))
    ensures route.matchType == Ascii("msisdn_prefix") ==>
              (RouteMatches(address, route) <==>
               0x40 !in address
               && exists more :: CanonicalMSISDN(address) == CanonicalMSISDN(route.matchValue) + more)
  {
    hide CanonicalMSISDN, Ascii, DomainOf;
    MatchTypesDiffer();
    var number, prefix := CanonicalMSISDN(address), CanonicalMSISDN(route.matchValue);
    if HasPrefix(number, prefix) { assert number == prefix + number[|prefix|..]; }
    forall more | number == prefix + more ensures HasPrefix(number, prefix) {
    }
  }

  /**
   A domain route is met by its domain in any letter case; one without a value is met by every
   address that has no domain. No other kind of route is ever met.
   */
  lemma DomainMatches(user: text, domain: text, route: Route)
    requires 0x40 !in domain
    ensures route.matchType == Ascii("recipient_domain") ==>
              && (RouteMatches(user + [0x40] + domain, route) <==> EqualFold(domain, route.matchValue))
              && (RouteMatches(domain, route) <==> route.matchValue == [])
    ensures forall address | RouteMatches(address, route) ::
              route.matchType in {Ascii("msisdn_exact"), Ascii("msisdn_prefix"), Ascii("recipient_domain")}
  {
    hide CanonicalMSISDN, Ascii;
    MatchTypesDiffer();
    DomainExact(user, domain);
    ToLowerIdempotent(domain);
    hide DomainOf;
  }

  function RouteRank(matchType: text): nat {
    if matchType == Exact() then 3
    else if matchType == Prefix() then 2
    else if matchType == Domain() then 1
    else 0
  }

  predicate BetterRoute(candidate: Route, current: Route) {
    var candidateRank, currentRank := RouteRank(candidate.matchType), RouteRank(current.matchType);
    var candidateLength, currentLength := |CanonicalMSISDN(candidate.matchValue)|,
        |CanonicalMSISDN(current.matchValue)|;
    if candidateRank != currentRank then candidateRank > currentRank
    else if candidate.matchType == Prefix() && candidateLength != currentLength then candidateLength > currentLength
    else if candidate.priority != current.priority then candidate.priority > current.priority
    else candidate.id < current.id
  }

  /** The prefix length counts for prefix routes only. */
  function PrefixLength(r: Route): nat {
    if r.matchType == Prefix() then |CanonicalMSISDN(r.matchValue)| else 0
  }

  predicate LexGreater(a: seq<int>, b: seq<int>)
    requires |a| == |b|
  {
    a != [] && (a[0] > b[0] || (a[0] == b[0] && LexGreater(a[1..], b[1..])))
  }

  /** What a route is compared by, in order of weight: kind of match, prefix length, priority, and last the lower ID. */
  function Weight(r: Route): seq<int> {
    [RouteRank(r.matchType), PrefixLength(r), r.priority, -r.id]
  }

  /** The comparison is lexicographic on the weights. */
  lemma BetterIsLexicographic(a: Route, b: Route)
    ensures BetterRoute(a, b) <==> LexGreater(Weight(a), Weight(b))
  {
    hide CanonicalMSISDN, Ascii;
    MatchTypesDiffer();
    var v, w := Weight(a), Weight(b);
    assert v[3..] == [v[3]] && w[3..] == [w[3]];
    assert v[2..] == [v[2]] + v[3..] && w[2..] == [w[2]] + w[3..];
    assert v[1..] == [v[1]] + v[2..] && w[1..] == [w[1]] + w[2..];
    assert LexGreater(v[3..], w[3..]) <==> v[3] > w[3];
    assert LexGreater(v[2..], w[2..]) <==> v[2] > w[2] || (v[2] == w[2] && LexGreater(v[3..], w[3..]));
    assert LexGreater(v[1..], w[1..]) <==> v[1] > w[1] || (v[1] == w[1] && LexGreater(v[2..], w[2..]));
    assert RouteRank(a.matchType) == RouteRank(b.matchType) ==> (a.matchType == Prefix() <==> b.matchType == Prefix());
  }

  /** It is a strict order, and total on routes with different IDs. */
  lemma BetterIsStrictTotal(a: Route, b: Route, c: Route)
    ensures !BetterRoute(a, a)
    ensures BetterRoute(a, b) && BetterRoute(b, c) ==> BetterRoute(a, c)
    ensures BetterRoute(a, b) ==> !BetterRoute(b, a)
    ensures a.id != b.id ==> BetterRoute(a, b) || BetterRoute(b, a)
  {
    hide CanonicalMSISDN, Ascii;
    MatchTypesDiffer();
    forall x, y | x in {a, b, c} && y in {a, b, c}
      ensures RouteRank(x.matchType) == RouteRank(y.matchType) ==>
              (x.matchType == Prefix() <==> y.matchType == Prefix())
    {
    }
  }

  predicate Candidate(address: text, r: Route) {
    r.active && RouteMatches(address, r)
  }

  /** The best of the routes, the earlier one of equals. */
  function Best(address: text, routes: seq<Route>): Option<Route> {
    if routes == [] then None
    else
      var best, last := Best(address, routes[..|routes| - 1]), routes[|routes| - 1];
      if Candidate(address, last) && (best.None? || BetterRoute(last, best.value)) then Some(last) else best
  }

  method MatchRoute(address: text, routes: seq<Route>) returns (best: Option<Route>)
    ensures best == Best(address, routes)
  {
    best := None;
    var i := 0;
    while i < |routes|
      invariant 0 <= i <= |routes|
      invariant best == Best(address, routes[..i])
    {
      assert routes[..i + 1][..i] == routes[..i];
      var route := routes[i];
      i := i + 1;
      if !route.active || !RouteMatches(address, route) {
        continue;
      }
      if best.None? || BetterRoute(route, best.value) {
        best := Some(route);
      }
    }
    assert routes[..i] == routes;
  }

  /** The chosen route is a candidate that no candidate is better than; there is one whenever there is a candidate. */
  lemma {:induction false} BestIsGreatest(address: text, routes: seq<Route>)
    ensures Best(address, routes).None? <==> forall r | r in routes :: !Candidate(address, r)
    ensures Best(address, routes).Some? ==>
              var best := Best(address, routes).value;
              && best in routes && Candidate(address, best)
              && forall r | r in routes && Candidate(address, r) :: !BetterRoute(r, best)
    decreases |routes|
  {
    hide BetterRoute, Candidate;
    if routes != [] {
      var init, last := routes[..|routes| - 1], routes[|routes| - 1];
      BestIsGreatest(address, init);
      assert routes == init + [last];
      BetterIsStrictTotal(last, last, last);
      var before := Best(address, init);
      if before.Some? {
        forall r | r in init && Candidate(address, r)
          ensures BetterRoute(last, before.value) ==> !BetterRoute(r, last)
        {
          BetterIsStrictTotal(r, last, before.value);
        }
        BetterIsStrictTotal(last, before.value, last);
      }
    }
  }

  predicate DistinctRouteIDs(routes: seq<Route>) {
    forall a, b | a in routes && b in routes && a.id == b.id :: a == b
  }

  /** The choice depends on which routes there are, not on the order they are listed in. */
  lemma MatchOrderFree(address: text, one: seq<Route>, other: seq<Route>)
    requires DistinctRouteIDs(one) && forall r :: r in one <==> r in other
    ensures Best(address, one) == Best(address, other)
  {
    hide BetterRoute, Candidate, Best;
    BestIsGreatest(address, one);
    BestIsGreatest(address, other);
    if Best(address, one).Some? && Best(address, other).Some? {
      var a, b := Best(address, one).value, Best(address, other).value;
      BetterIsStrictTotal(a, b, a);
    }
  }

  /** An exact match beats any prefix, a longer prefix a shorter one, and any number match a domain. */
  lemma Precedence(address: text, routes: seq<Route>, r: Route)
    requires r in routes && Candidate(address, r)
    ensures Best(address, routes).Some?
    ensures var best := Best(address, routes).value;
            && (r.matchType == Exact() ==> best.matchType == Exact())
            && (r.matchType == Prefix() ==>
                  best.matchType == Exact() || (best.matchType == Prefix() && PrefixLength(best) >= PrefixLength(r)))
            && (best.matchType == r.matchType && PrefixLength(best) == PrefixLength(r) ==>
                  best.priority > r.priority || (best.priority == r.priority && best.id <= r.id))
  {
    hide CanonicalMSISDN, Ascii, Best;
    BestIsGreatest(address, routes);
    MatchTypesDiffer();
    var best := Best(address, routes).value;
    assert !BetterRoute(r, best);
  }

  /** Two prefix routes that match one number with prefixes of the same length have the same prefix. */
  lemma TiedPrefixesAreEqual(address: text, a: Route, b: Route)
    requires PrefixLength(a) == PrefixLength(b)
    ensures a.matchType == Prefix() == b.matchType && RouteMatches(address, a) && RouteMatches(address, b) ==>
              CanonicalMSISDN(a.matchValue) == CanonicalMSISDN(b.matchValue)
  {
    hide CanonicalMSISDN, Ascii;
    MatchTypesDiffer();
  }

  // -------------------------------------------------------------- destinations

  datatype Destination = Unknown | Local | MM4 | MM3 | Reject

  datatype Resolution = Resolution(destination: Destination, peer: Option<Peer>)

  /** The first active peer of the domain. */
  function FindPeer(peers: seq<Peer>, target: text): Option<Peer> {
    if peers == [] then None
    else if peers[0].active && EqualFold(peers[0].domain, target) then Some(peers[0])
    else FindPeer(peers[1..], target)
  }

  /** The route for an address and its peer; a route to a peer that is not there becomes a rejection. */
  function ResolveRoute(tables: Tables, address: text): Result<(Option<Route>, Option<Peer>)> {
    if tables.peers.Err? then Err(tables.peers.error)
    else if tables.routes.Err? then Err(tables.routes.error)
    else
      match Best(address, tables.routes.value)
      case None => Ok((None, None))
      case Some(route) =>
        if route.egressType != Ascii("mm4") then Ok((Some(route), None))
        else
          match FindPeer(tables.peers.value, route.egressTarget)
          case Some(peer) => Ok((Some(route), Some(peer)))
          case None => Ok((Some(Route(0, [], [], Ascii("reject"), [], 0, false)), None))
  }

  function Resolve(tables: Tables, address: text): Result<Resolution> {
    var addr := StripTypeSuffix(address);
    if addr == [] then Ok(Resolution(Unknown, None))
    else
      match ResolveRoute(tables, addr)
      case Err(e) => Err(e)
      case Ok((None, _)) => Ok(Resolution(if 0x40 in addr then Reject else Local, None))
      case Ok((Some(route), peer)) =>
        if route.egressType == Ascii("local") then Ok(Resolution(Local, None))
        else if route.egressType == Ascii("mm3") then Ok(Resolution(MM3, None))
        else if route.egressType == Ascii("mm4") then Ok(Resolution(MM4, peer))
        else Ok(Resolution(Reject, None))
  }

  /** p is the first active peer of the domain. */
  ghost predicate FirstPeer(peers: seq<Peer>, target: text, p: Peer) {
    exists i :: && 0 <= i < |peers| && peers[i] == p && p.active && EqualFold(p.domain, target)
                && forall j | 0 <= j < i :: !(peers[j].active && EqualFold(peers[j].domain, target))
  }

  lemma {:induction false} FindPeerFirst(peers: seq<Peer>, target: text)
    ensures FindPeer(peers, target).Some? ==> FirstPeer(peers, target, FindPeer(peers, target).value)
    ensures FindPeer(peers, target).None? ==> forall p | p in peers :: !(p.active && EqualFold(p.domain, target))
  {
    hide EqualFold;
    if peers != [] && !(peers[0].active && EqualFold(peers[0].domain, target)) {
      var rest := peers[1..];
      FindPeerFirst(rest, target);
      if FindPeer(rest, target).Some? {
        var p := FindPeer(rest, target).value;
        var i :| && 0 <= i < |rest| && rest[i] == p && p.active && EqualFold(p.domain, target)
                 && forall j | 0 <= j < i :: !(rest[j].active && EqualFold(rest[j].domain, target));
        assert peers[i + 1] == p;
        forall j | 0 <= j < i + 1 ensures !(peers[j].active && EqualFold(peers[j].domain, target)) {
          assert j > 0 ==> peers[j] == rest[j - 1];
        }
      }
    }
  }

  ghost predicate LivePeer(peers: seq<Peer>, target: text) {
    exists p :: p in peers && p.active && EqualFold(p.domain, target)
  }

  /** Where a route sends an address, by its kind of egress. */
  ghost predicate SentBy(route: Route, peers: seq<Peer>, r: Resolution) {
    if route.egressType == Ascii("local") then r == Resolution(Local, None)
    else if route.egressType == Ascii("mm3") then r == Resolution(MM3, None)
    else if route.egressType == Ascii("mm4") && LivePeer(peers, route.egressTarget) then
      r.destination == MM4 && r.peer.Some? && FirstPeer(peers, route.egressTarget, r.peer.value)
    else r == Resolution(Reject, None)
  }

  predicate SamePeer(a: Option<Peer>, b: Option<Peer>) {
    if a.None? || b.None? then a == b
    else EqualFold(a.value.domain, b.value.domain) && EqualFold(a.value.smtpHost, b.value.smtpHost)
         && a.value.smtpPort == b.value.smtpPort
  }

  /** An earlier occurrence would lie inside a, or start inside the pattern. */
  lemma NotEarlier(a: text, p: text, tail: text, j: nat)
    requires p != [] && forall i | 0 < i < |p| :: p[i] != p[0]
    requires Index(a, p) < 0 && j < |a|
    ensures !HasPrefix((a + p + tail)[j..], p)
  {
    hide Index;
    var s := a + p + tail;
    var n := |a|;
    assert |s[j..]| >= |p|;
    if j + |p| <= n {
      assert s[j..][..|p|] == a[j..][..|p|];
      assert !HasPrefix(a[j..], p);
    } else {
      assert s[j..][..|p|][n - j] == s[n] == p[0];
      assert p[n - j] != p[0];
    }
  }

  lemma PatternAfter(a: text, p: text, tail: text)
    requires p != [] && forall i | 0 < i < |p| :: p[i] != p[0]
    requires Index(a, p) < 0
    ensures Index(a + p + tail, p) == |a|
  {
    hide Index;
    var s := a + p + tail;
    forall j | 0 <= j < |a| ensures !HasPrefix(s[j..], p) {
      NotEarlier(a, p, tail, j);
    }
    assert s[|a|..] == p + tail;
    assert HasPrefix(s[|a|..], p);
  }

  lemma SuffixRemoved(address: text, mark: text, tail: text)
    requires address != [] && Index(ToUpper(address), Ascii("/TYPE=")) < 0 && EqualFold(mark, Ascii("/TYPE="))
    ensures StripTypeSuffix(address) == address
    ensures StripTypeSuffix(address + mark + tail) == address
  {
    hide Index;
    var p := Ascii("/TYPE=");
    var s := address + mark + tail;
    assert p == [0x2F, 0x54, 0x59, 0x50, 0x45, 0x3D];
    SameUpper(mark, p);
    assert ToUpper(p) == p;
    assert ToUpper(s) == ToUpper(address) + p + ToUpper(tail);
    PatternAfter(ToUpper(address), p, ToUpper(tail));
    assert s[..|address|] == address;
  }

  /** A "/TYPE=" suffix, in any letter case, does not change where an address is routed. */
  lemma TypeSuffixIgnored(tables: Tables, address: text, mark: text, tail: text)
    requires address != [] && Index(ToUpper(address), Ascii("/TYPE=")) < 0 && EqualFold(mark, Ascii("/TYPE="))
    ensures Resolve(tables, address + mark + tail) == Resolve(tables, address)
  {
    hide StripTypeSuffix, ResolveRoute;
    SuffixRemoved(address, mark, tail);
  }

  /** The scan when the first recipient is rejected: all others must be. */
  function ScanRejected(tables: Tables, rest: seq<text>): Result<()> {
    if rest == [] then Ok(())
    else
      var next :- Resolve(tables, rest[0]);
      if next.destination != Reject then Err(Mixed) else ScanRejected(tables, rest[1..])
  }

  function ScanAccepted(tables: Tables, first: Resolution, rest: seq<text>): Result<()> {
    if rest == [] then Ok(())
    else
      var next :- Resolve(tables, rest[0]);
      if next.destination == Reject then Err(Mixed)
      else if first.destination != next.destination then Err(Mixed)
      else if first.destination == MM4 && !SamePeer(first.peer, next.peer) then Err(MultiplePeers)
      else ScanAccepted(tables, first, rest[1..])
  }

  function ResolveRecipients(tables: Tables, addresses: seq<text>): Result<Resolution> {
    if addresses == [] then Ok(Resolution(Unknown, None))
    else
      var first :- Resolve(tables, addresses[0]);
      var _ :- if first.destination == Reject then ScanRejected(tables, addresses[1..])
               else ScanAccepted(tables, first, addresses[1..]);
      Ok(first)
  }

  /** Same destination, and for MM4 peers with the same domain and host, in any letter case, and the same port. */
  predicate Agree(a: Resolution, b: Resolution) {
    && a.destination == b.destination
    && (a.destination == MM4 ==>
          match (a.peer, b.peer)
          case (Some(p), Some(q)) =>
            EqualFold(p.domain, q.domain) && EqualFold(p.smtpHost, q.smtpHost) && p.smtpPort == q.smtpPort
          case (None, None) => true
          case _ => false)
  }

  lemma AgreeIsEquivalence(a: Resolution, b: Resolution, c: Resolution)
    ensures Agree(a, a)
    ensures Agree(a, b) ==> Agree(b, a)
    ensures Agree(a, b) && Agree(b, c) ==> Agree(a, c)
  {
  }

  lemma {:induction false} FindPeerMatches(peers: seq<Peer>, target: text)
    ensures FindPeer(peers, target).Some? <==> exists p :: p in peers && p.active && EqualFold(p.domain, target)
    ensures FindPeer(peers, target).Some? ==>
              var p := FindPeer(peers, target).value; p in peers && p.active && EqualFold(p.domain, target)
  {
    hide EqualFold;
    if peers != [] {
      FindPeerMatches(peers[1..], target);
    }
  }

  /**
   Where every address goes. Without an active route that matches, an address with an "@" is
   rejected and a number is local; otherwise a best one of these routes decides: by its kind of
   egress, and for MM4 by the first active peer of its target. An empty address goes nowhere, and
   a table that cannot be read is an error.
   */
  lemma Destinations(tables: Tables, address: text)
    ensures var addr, r := StripTypeSuffix(address), Resolve(tables, address);
            if address == [] then r == Ok(Resolution(Unknown, None))
            else if tables.peers.Err? then r == Err(tables.peers.error)
            else if tables.routes.Err? then r == Err(tables.routes.error)
            else
              && r.Ok?
              && ((forall x | x in tables.routes.value :: !(x.active && RouteMatches(addr, x))) ==>
                    r.value == Resolution(if 0x40 in addr then Reject else Local, None))
              && ((exists x :: x in tables.routes.value && x.active && RouteMatches(addr, x)) ==>
                    exists x :: && x in tables.routes.value && x.active && RouteMatches(addr, x)
                                && (forall y | y in tables.routes.value && y.active && RouteMatches(addr, y) ::
                                      !BetterRoute(y, x))
                                && SentBy(x, tables.peers.value, r.value))
  {
    StripTypeExact(address);
    hide Best, RouteMatches, BetterRoute, StripTypeSuffix, ResolveRoute, Ascii, SentBy;
    if address != [] && tables.peers.Ok? && tables.routes.Ok? {
      var addr := StripTypeSuffix(address);
      BestIsGreatest(addr, tables.routes.value);
      ResolveByBest(tables, address);
      var best := Best(addr, tables.routes.value);
      assert forall x | x in tables.routes.value ::
          Candidate(addr, x) <==> x.active && RouteMatches(addr, x);
    } else {
      ResolveUnread(tables, address);
    }
  }

  lemma ResolveUnread(tables: Tables, address: text)
    requires address == [] || tables.peers.Err? || tables.routes.Err?
    ensures Resolve(tables, address) ==
            if address == [] then Ok(Resolution(Unknown, None))
            else if tables.peers.Err? then Err(tables.peers.error)
            else Err(tables.routes.error)
  {
    StripTypeExact(address);
    hide StripTypeSuffix, Ascii;
  }

  lemma ResolveByBest(tables: Tables, address: text)
    requires address != [] && tables.peers.Ok? && tables.routes.Ok?
    ensures var addr, r := StripTypeSuffix(address), Resolve(tables, address);
            var best := Best(addr, tables.routes.value);
            && r.Ok?
            && (best.None? ==> r.value == Resolution(if 0x40 in addr then Reject else Local, None))
            && (best.Some? ==> SentBy(best.value, tables.peers.value, r.value))
  {
    StripTypeExact(address);
    EgressesDiffer();
    hide Best, StripTypeSuffix, FirstPeer, Ascii, LivePeer;
    var best := Best(StripTypeSuffix(address), tables.routes.value);
    if best.Some? {
      PeerFound(tables.peers.value, best.value.egressTarget);
    }
  }

  lemma PeerFound(peers: seq<Peer>, target: text)
    ensures FindPeer(peers, target).Some? <==> LivePeer(peers, target)
    ensures FindPeer(peers, target).Some? ==> FirstPeer(peers, target, FindPeer(peers, target).value)
  {
    FindPeerFirst(peers, target);
    FindPeerMatches(peers, target);
  }

  lemma EgressesDiffer()
    ensures Ascii("local") != Ascii("mm3") && Ascii("local") != Ascii("mm4") && Ascii("mm3") != Ascii("mm4")
    ensures Ascii("reject") !in {Ascii("local"), Ascii("mm3"), Ascii("mm4")}
  {
    assert |Ascii("local")| == 5 && |Ascii("reject")| == 6;
    assert Ascii("mm3")[2] == 0x33 && Ascii("mm4")[2] == 0x34;
  }

  /** A destination reached through a peer names an active one whose domain the chosen route targets. */
  lemma PeerIsLive(tables: Tables, address: text)
    requires Resolve(tables, address).Ok?
    ensures var r := Resolve(tables, address).value;
            && (r.destination == MM4 <==> r.peer.Some?)
            && (r.peer.Some? ==>
                  && tables.peers.Ok? && tables.routes.Ok?
                  && r.peer.value in tables.peers.value && r.peer.value.active
                  && var route := Best(StripTypeSuffix(address), tables.routes.value);
                     route.Some? && EqualFold(r.peer.value.domain, route.value.egressTarget))
  {
    hide Best, EqualFold, StripTypeSuffix;
    if tables.peers.Ok? && tables.routes.Ok? {
      var route := Best(StripTypeSuffix(address), tables.routes.value);
      if route.Some? {
        FindPeerMatches(tables.peers.value, route.value.egressTarget);
      }
    }
    assert Ascii("mm4")[0..] == Ascii("mm4") && Ascii("reject")[0] != Ascii("mm4")[0]
           && Ascii("local")[0] != Ascii("mm4")[0];
    assert Ascii("mm3")[2] != Ascii("mm4")[2];
  }

  lemma {:induction false} ScanRejectedExact(tables: Tables, rest: seq<text>)
    requires forall a | a in rest :: Resolve(tables, a).Ok?
    ensures ScanRejected(tables, rest).Ok? <==> forall a | a in rest :: Resolve(tables, a).value.destination == Reject
  {
    hide Resolve;
    if rest != [] {
      ScanRejectedExact(tables, rest[1..]);
      assert rest == [rest[0]] + rest[1..];
    }
  }

  lemma {:induction false} ScanAcceptedExact(tables: Tables, first: Resolution, rest: seq<text>)
    requires forall a | a in rest :: Resolve(tables, a).Ok?
    requires first.destination != Reject
    ensures ScanAccepted(tables, first, rest).Ok? <==> forall a | a in rest :: Agree(first, Resolve(tables, a).value)
  {
    hide Resolve, EqualFold;
    if rest != [] {
      ScanAcceptedExact(tables, first, rest[1..]);
      assert rest == [rest[0]] + rest[1..];
    }
  }

  /** Without lookup errors, a message is routed exactly when all its recipients agree, and then as the first one is. */
  lemma RecipientsMustAgree(tables: Tables, addresses: seq<text>)
    requires addresses != [] && forall a | a in addresses :: Resolve(tables, a).Ok?
    ensures ResolveRecipients(tables, addresses).Ok? <==>
            forall a, b | a in addresses && b in addresses :: Agree(Resolve(tables, a).value, Resolve(tables, b).value)
    ensures ResolveRecipients(tables, addresses).Ok? ==>
            ResolveRecipients(tables, addresses) == Resolve(tables, addresses[0])
  {
    hide Resolve;
    var first := Resolve(tables, addresses[0]).value;
    var rest := addresses[1..];
    assert addresses == [addresses[0]] + rest;
    ScanRejectedExact(tables, rest);
    if first.destination != Reject {
      ScanAcceptedExact(tables, first, rest);
    }
    assert ResolveRecipients(tables, addresses).Ok? <==> forall a | a in rest :: Agree(first, Resolve(tables, a).value);
    forall a, b | a in addresses && b in addresses
      ensures Agree(first, Resolve(tables, a).value) && Agree(first, Resolve(tables, b).value) ==>
                Agree(Resolve(tables, a).value, Resolve(tables, b).value)
      ensures Agree(first, first)
    {
      AgreeIsEquivalence(Resolve(tables, a).value, first, Resolve(tables, b).value);
      AgreeIsEquivalence(first, Resolve(tables, a).value, first);
    }
    assert addresses[0] in addresses;
  }

  /** Listing the recipients in another order changes neither success nor, up to equivalent peers, the result. */
  lemma RecipientOrderFree(tables: Tables, one: seq<text>, other: seq<text>)
    requires one != [] && forall a :: a in one <==> a in other
    requires forall a | a in one :: Resolve(tables, a).Ok?
    ensures ResolveRecipients(tables, one).Ok? <==> ResolveRecipients(tables, other).Ok?
    ensures ResolveRecipients(tables, one).Ok? ==>
              Agree(ResolveRecipients(tables, one).value, ResolveRecipients(tables, other).value)
  {
    hide Resolve, ResolveRecipients, Agree;
    assert one[0] in other;
    RecipientsMustAgree(tables, one);
    RecipientsMustAgree(tables, other);
    assert other[0] in one;
  }
}
