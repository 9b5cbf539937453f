/** Endpoint identifiers (`endpoint.cc`): URIs of the `dtn` and `ipn` schemes
    of section 4.2.5.1 of RFC 9171, their validation, accessors, ordering and
    CBOR form. */
module Endpoint {
  import opened Wrappers
  import opened BoundedInts
  import opened Lexicographic
  import opened Strings
  import Cbor

  /** `EndpointID`: the scheme and scheme-specific part, and the URI they came
      from. Every value the code can build is `WellFormed`. */
  datatype EndpointId = EndpointId(scheme: string, ssp: string, uri: string)

  /** The null endpoint "dtn:none", which the constructors fall back to. */
  const DTN_NONE: EndpointId := EndpointId("dtn", "none", "dtn:none")

  /** Text before the first ':'. */
  function SchemeOf(s: string): string {
    s[..IndexOf(s, ':')]
  }

  /** Text after the first ':' (empty when there is none). */
  function SspOf(s: string): string {
    var k := IndexOf(s, ':');
    if k < |s| then s[k + 1..] else []
  }

  /** No line terminator: what the `.` of an ECMAScript regular expression
      refuses to match. */
  predicate NoLineBreak(s: string) {
    forall i :: 0 <= i < |s| ==> s[i] != '\n' && s[i] != '\r'
  }

  /** `([^/]+)(/.*)?`: a non-empty run without '/', then optionally '/' and
      anything but line terminators. */
  predicate DtnBody(s: string) {
    |s| > 0 && s[0] != '/' && NoLineBreak(s[IndexOf(s, '/')..])
  }

  /** The scheme-specific part of `dtn:(//)?([^/]+)(/.*)?`. */
  predicate DtnSspValid(ssp: string) {
    if HasPrefix(ssp, "//") then DtnBody(ssp[2..]) else DtnBody(ssp)
  }

  /** The scheme-specific part of `ipn:(\d+)\.(\d+)`. */
  predicate IpnSspValid(ssp: string) {
    var d := IndexOf(ssp, '.');
    d < |ssp| && 0 < d && d + 1 < |ssp| && AllDigits(ssp[..d]) && AllDigits(ssp[d + 1..])
  }

  /** `EndpointID::IsValid`: a ':' is required; the scheme picks the pattern
      the whole string must match; other schemes are invalid. */
  predicate IsValid(s: string) {
    |s| > 0 && Contains(s, ':') &&
    ((SchemeOf(s) == "dtn" && DtnSspValid(SspOf(s))) ||
     (SchemeOf(s) == "ipn" && IpnSspValid(SspOf(s))))
  }

  /** The values `EndpointID` objects can hold: a valid URI split at its
      first ':'. */
  predicate WellFormed(e: EndpointId) {
    IsValid(e.uri) && e.scheme == SchemeOf(e.uri) && e.ssp == SspOf(e.uri)
  }

  /** `EndpointID(const std::string&)`: an empty, colon-less, malformed or
      unknown-scheme string yields "dtn:none". */
  function Make(s: string): (e: EndpointId)
    ensures WellFormed(e)
    ensures e.uri == s <==> IsValid(s)
    ensures !IsValid(s) ==> e == DTN_NONE
  {
    NoneWellFormed();
    if IsValid(s) then EndpointId(SchemeOf(s), SspOf(s), s) else DTN_NONE
  }

  /** "dtn:none" is a valid URI split at its colon. */
  lemma NoneWellFormed()
    ensures WellFormed(DTN_NONE)
  {
    NoneSplits();
    NoneSspValid();
  }

  lemma NoneSplits()
    ensures IndexOf("dtn:none", ':') == 3
    ensures SchemeOf("dtn:none") == "dtn" && SspOf("dtn:none") == "none"
  {
    var s := "dtn:none";
    assert s[0] != ':' && s[1] != ':' && s[2] != ':' && s[3] == ':';
    assert s[..3] == "dtn" && s[4..] == "none";
  }

  lemma NoneSspValid()
    ensures DtnSspValid("none")
  {
    assert "none"[0] != "//"[0];
    assert IndexOf("none", '/') == 4;
  }

  /** `EndpointID::Parse`: only a valid string yields an endpoint. */
  function Parse(s: string): (r: Option<EndpointId>)
    ensures r.Some? <==> IsValid(s)
    ensures r.Some? ==> r.value.uri == s && WellFormed(r.value)
  {
    if IsValid(s) then Some(Make(s)) else None
  }

  /** Normalising an endpoint's URI again changes nothing. */
  lemma MakeIdempotent(s: string)
    ensures Make(Make(s).uri) == Make(s)
  {
  }

  /** A well-formed endpoint is what the constructor makes of its URI. */
  lemma MakeOfWellFormed(e: EndpointId)
    requires WellFormed(e)
    ensures Make(e.uri) == e
  {
  }

  /** `operator==`: endpoints are equal when their URIs are. */
  predicate Equal(a: EndpointId, b: EndpointId) {
    a.uri == b.uri
  }

  /** `operator<`: byte-wise lexicographic order of the URIs. */
  predicate Less(a: EndpointId, b: EndpointId) {
    StringLess(a.uri, b.uri)
  }

  /** Since the scheme and scheme-specific part are determined by the URI,
      URI equality is full equality on the values the code builds. */
  lemma EqualIsIdentity(a: EndpointId, b: EndpointId)
    requires WellFormed(a) && WellFormed(b)
    ensures Equal(a, b) <==> a == b
  {
  }

  /** `operator<` is a strict total order on well-formed endpoints (the order
      `std::map<EndpointID, …>` needs). */
  lemma LessIsStrictTotalOrder(a: EndpointId, b: EndpointId, c: EndpointId)
    requires WellFormed(a) && WellFormed(b) && WellFormed(c)
    ensures !Less(a, a)
    ensures Less(a, b) && Less(b, c) ==> Less(a, c)
    ensures a == b || Less(a, b) || Less(b, a)
  {
    StringLessIsStrictTotalOrder();
  }

  predicate IsDtn(e: EndpointId) {
    e.scheme == "dtn"
  }

  predicate IsIpn(e: EndpointId) {
    e.scheme == "ipn"
  }

  /** `IsNone`. */
  predicate IsNone(e: EndpointId) {
    e.scheme == "dtn" && e.ssp == "none"
  }

  lemma IsNoneMeansDtnNone(e: EndpointId)
    requires WellFormed(e)
    ensures IsNone(e) <==> e == DTN_NONE
  {
    if IsNone(e) {
      var k := IndexOf(e.uri, ':');
      assert e.uri == e.uri[..k] + [':'] + e.uri[k + 1..];
    }
  }

  /** `IsSingleton`: a `dtn` endpoint without '*', or any `ipn` endpoint. */
  function IsSingleton(e: EndpointId): (r: bool)
    ensures r <==> (IsDtn(e) && !(exists i :: 0 <= i < |e.ssp| && e.ssp[i] == '*')) || IsIpn(e)
  {
    if e.scheme == "dtn" then !Contains(e.ssp, '*')
    else e.scheme == "ipn"
  }

  /** The scheme-specific part of a `dtn` endpoint without its leading "//". */
  function DtnAuthority(ssp: string): string {
    if HasPrefix(ssp, "//") then ssp[2..] else ssp
  }

  /** `GetDtnHost`: up to the first '/' after an optional "//". */
  function GetDtnHost(e: EndpointId): string {
    if !IsDtn(e) then []
    else
      var a := DtnAuthority(e.ssp);
      a[..IndexOf(a, '/')]
  }

  /** `GetDtnService`: from the first '/' after an optional "//" on. */
  function GetDtnService(e: EndpointId): string {
    if !IsDtn(e) then []
    else
      var a := DtnAuthority(e.ssp);
      a[IndexOf(a, '/')..]
  }

  /** `GetIpnNode`: the number before the first '.', 0 if it does not parse. */
  function GetIpnNode(e: EndpointId): uint64 {
    if !IsIpn(e) then 0
    else
      var d := IndexOf(e.ssp, '.');
      if d < |e.ssp| then StoullOrZero(e.ssp[..d]) else 0
  }

  /** `GetIpnService`: the number after the first '.'. */
  function GetIpnService(e: EndpointId): uint64 {
    if !IsIpn(e) then 0
    else
      var d := IndexOf(e.ssp, '.');
      if d < |e.ssp| then StoullOrZero(e.ssp[d + 1..]) else 0
  }

  /** A host without '/' and a service that is empty or a '/' path without
      line breaks form a valid "dtn://" endpoint, and the accessors give the
      two parts back. */
  lemma DtnHostServiceRoundTrip(host: string, service: string)
    requires |host| > 0 && !Contains(host, '/')
    requires service == [] || (service[0] == '/' && NoLineBreak(service))
    ensures IsValid("dtn://" + host + service)
    ensures GetDtnHost(Make("dtn://" + host + service)) == host
    ensures GetDtnService(Make("dtn://" + host + service)) == service
  {
    var s := "dtn://" + host + service;
    var a := host + service;
    assert s == "dtn" + ":" + ("//" + a);
    SplitAtFirstColon("dtn", "//" + a);
    assert HasPrefix("//" + a, "//");
    assert ("//" + a)[2..] == a;
    IndexOfAfterPrefix(host, service, '/');
    assert IndexOf(a, '/') == |host|;
    assert a[|host|..] == service;
    assert a[..|host|] == host;
  }

  lemma SeqAssoc4(a: string, b: string, c: string, d: string)
    ensures a + b + c + d == a + (b + c + d)
  {
  }

  /** A scheme without ':' is split off at the ':' that follows it. */
  lemma SplitAtFirstColon(scheme: string, ssp: string)
    requires !Contains(scheme, ':')
    ensures SchemeOf(scheme + ":" + ssp) == scheme
    ensures SspOf(scheme + ":" + ssp) == ssp
  {
    IndexOfAfterPrefix(scheme, ":" + ssp, ':');
    assert (":" + ssp)[0] == ':';
    var s := scheme + ":" + ssp;
    assert s == scheme + (":" + ssp);
    assert IndexOf(s, ':') == |scheme|;
    assert s[..|scheme|] == scheme;
    assert s[|scheme| + 1..] == ssp;
  }

  /** Searching `p + q` for a character that `p` lacks lands in `q`. */
  lemma {:induction false} IndexOfAfterPrefix(p: string, q: string, c: char)
    requires !Contains(p, c)
    ensures IndexOf(p + q, c) == |p| + IndexOf(q, c)
    decreases |p|
  {
    if |p| > 0 {
      assert (p + q)[1..] == p[1..] + q;
      assert !Contains(p[1..], c);
      IndexOfAfterPrefix(p[1..], q, c);
    } else {
      assert p + q == q;
    }
  }

  /** The text form "ipn:N.S" of an `ipn` endpoint. */
  function IpnUri(node: nat, service: nat): string {
    "ipn:" + DecimalString(node) + "." + DecimalString(service)
  }

  /** "ipn:N.S" is split into "ipn" and "N.S", and "N.S" at its '.'. */
  lemma IpnUriParts(node: nat, service: nat)
    ensures SchemeOf(IpnUri(node, service)) == "ipn"
    ensures SspOf(IpnUri(node, service)) == DecimalString(node) + "." + DecimalString(service)
  {
    var n, v := DecimalString(node), DecimalString(service);
    assert IpnUri(node, service) == "ipn" + ":" + (n + "." + v) by {
      assert "ipn:" == "ipn" + ":";
      SeqAssoc4("ipn:", n, ".", v);
    }
    SplitAtFirstColon("ipn", n + "." + v);
  }

  lemma DigitsDotDigits(n: string, v: string)
    requires |n| > 0 && AllDigits(n) && |v| > 0 && AllDigits(v)
    ensures IndexOf(n + "." + v, '.') == |n|
    ensures IpnSspValid(n + "." + v)
    ensures (n + "." + v)[..|n|] == n && (n + "." + v)[|n| + 1..] == v
  {
    assert !Contains(n, '.') by {
      forall i | 0 <= i < |n| ensures n[i] != '.' {
        assert IsDigit(n[i]);
      }
    }
    IndexOfAfterPrefix(n, "." + v, '.');
    assert ("." + v)[0] == '.';
    assert n + "." + v == n + ("." + v);
  }

  /** "ipn:N.S" for numbers that fit 64 bits is valid and the accessors return
      N and S. */
  lemma IpnNodeServiceRoundTrip(node: uint64, service: uint64)
    ensures IsValid(IpnUri(node, service))
    ensures GetIpnNode(Make(IpnUri(node, service))) == node
    ensures GetIpnService(Make(IpnUri(node, service))) == service
  {
    var n, v := DecimalString(node), DecimalString(service);
    IpnUriParts(node, service);
    DigitsDotDigits(n, v);
    assert IsValid(IpnUri(node, service));
    DecimalRoundTrip(node);
    DecimalRoundTrip(service);
  }

  /** `ToCbor`: the array [scheme, scheme-specific part], encoded. */
  function ToCbor(e: EndpointId): seq<uint8> {
    Cbor.Encode(ToCborValue(e))
  }

  function ToCborValue(e: EndpointId): Cbor.CborValue {
    Cbor.Array([Cbor.Text(e.scheme), Cbor.Text(e.ssp)])
  }

  /** `FromCbor`: a two-element array of text strings, rejoined with ':' and
      passed through the constructor (so a malformed one gives "dtn:none"). */
  function FromCbor(buffer: seq<uint8>): (r: Option<EndpointId>)
    ensures r.Some? ==> WellFormed(r.value)
  {
    match Cbor.Decode(buffer)
    case None => None
    case Some(v) => FromCborValue(v)
  }

  function FromCborValue(v: Cbor.CborValue): (r: Option<EndpointId>)
    ensures r.Some? ==> WellFormed(r.value)
  {
    if v.Array? && |v.items| == 2 && v.items[0].Text? && v.items[1].Text? then
      Some(Make(v.items[0].text + ":" + v.items[1].text))
    else None
  }

  /** A well-formed endpoint is its scheme, ':' and scheme-specific part. */
  lemma UriIsSchemeColonSsp(e: EndpointId)
    requires WellFormed(e)
    ensures e.uri == e.scheme + ":" + e.ssp
  {
    var k := IndexOf(e.uri, ':');
    assert e.uri == e.uri[..k] + [':'] + e.uri[k + 1..];
  }

  /** A C++ `std::string`: byte characters and a `size_t` length. */
  predicate IsCppString(s: string) {
    Cbor.IsByteString(s) && |s| < TWO_TO_THE_64
  }

  /** Decoding the CBOR form of an endpoint gives it back. */
  lemma CborRoundTrip(e: EndpointId)
    requires WellFormed(e) && IsCppString(e.uri)
    ensures FromCbor(ToCbor(e)) == Some(e)
  {
    UriIsSchemeColonSsp(e);
    assert Cbor.IsByteString(e.scheme) && Cbor.IsByteString(e.ssp) by {
      forall i | 0 <= i < |e.scheme| ensures e.scheme[i] as int < 256 {
        assert e.scheme[i] == e.uri[i];
      }
      forall i | 0 <= i < |e.ssp| ensures e.ssp[i] as int < 256 {
        assert e.ssp[i] == e.uri[|e.scheme| + 1 + i];
      }
    }
    var v := ToCborValue(e);
    assert Cbor.WellFormed(v) by {
      assert Cbor.WellFormed(v.items[0]) && Cbor.WellFormed(v.items[1]);
    }
    Cbor.DecodeOfEncode(v);
  }
}
