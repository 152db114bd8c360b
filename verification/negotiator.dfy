/** Choosing the security handler (section 7.1.2 of RFC 6143): the server's
    offer is read in the shape its protocol version dictates and the most
    preferred security type the client supports is picked. */
module Negotiator {
  import opened Bytes
  import opened Outcomes
  import opened Failures
  import opened Streams
  import opened Messages
  import opened SecurityTypes

  /** The handler negotiation hands to the authentication phase. An RSA-AES
      handler is built for one RSA-AES variant and keeps the code it sends
      back as its authentication request. */
  datatype SecurityHandler =
    | NoSecurityHandler
    | VncAuthenticationHandler
    | MsLogon2AuthenticationHandler
    | RsaAesHandler(variant: SecurityType, authCode: int)

  /** The security type a handler speaks for. */
  function HandledType(h: SecurityHandler): SecurityType
  {
    match h
    case NoSecurityHandler => NoAuth
    case VncAuthenticationHandler => VncAuth
    case MsLogon2AuthenticationHandler => MsLogon2
    case RsaAesHandler(variant, _) => variant
  }

  /** The RSA-AES variants, whose handler is `RsaAesAuthenticationHandler`. */
  predicate IsRsaAes(t: SecurityType)
  {
    t in {Ra2ne, Ra2ne_256, Ra2, Ra2_256}
  }

  /** The client's preference, most preferred first: the RA2ne variants
      come before RA2, and each 128-bit variant before its 256-bit one. */
  const Preference: seq<SecurityType> := [NoAuth, VncAuth, MsLogon2, Ra2ne, Ra2ne_256, Ra2, Ra2_256]

  /** Where a type sits in the preference order. */
  function Rank(t: SecurityType): (i: nat)
    ensures i < |Preference| && Preference[i] == t
  {
    match t
    case NoAuth => 0
    case VncAuth => 1
    case MsLogon2 => 2
    case Ra2ne => 3
    case Ra2ne_256 => 4
    case Ra2 => 5
    case Ra2_256 => 6
  }

  /** Whether the server offered a type. */
  predicate Offered(codes: seq<int>, t: SecurityType)
  {
    Code(t) in codes
  }

  /** `resolve`: the first type of the preference chain the server offered,
      with its handler; none of them offered is a failure that carries the
      offer and the whole catalog. */
  function ResolveOffer(codes: seq<int>): (r: Res<SecurityHandler>)
    ensures r.Ok? ==> Offered(codes, HandledType(r.value))
    ensures r.Ok? ==> forall t: SecurityType :: Rank(t) < Rank(HandledType(r.value)) ==> !Offered(codes, t)
    ensures r.Ok? ==> (r.value.RsaAesHandler? <==> IsRsaAes(HandledType(r.value)))
    ensures r.Ok? && r.value.RsaAesHandler? ==> r.value.authCode == Code(r.value.variant)
    ensures r.Err? <==> forall t: SecurityType :: !Offered(codes, t)
    ensures r.Err? ==> r.error == NoSupportedSecurityTypes(codes, Catalog)
  {
    if Code(NoAuth) in codes then assert Offered(codes, NoAuth); Ok(NoSecurityHandler)
    else if Code(VncAuth) in codes then assert Offered(codes, VncAuth); Ok(VncAuthenticationHandler)
    else if Code(MsLogon2) in codes then assert Offered(codes, MsLogon2); Ok(MsLogon2AuthenticationHandler)
    else if Code(Ra2ne) in codes then assert Offered(codes, Ra2ne); Ok(RsaAesHandler(Ra2ne, Code(Ra2ne)))
    else if Code(Ra2ne_256) in codes then assert Offered(codes, Ra2ne_256); Ok(RsaAesHandler(Ra2ne_256, Code(Ra2ne_256)))
    else if Code(Ra2) in codes then assert Offered(codes, Ra2); Ok(RsaAesHandler(Ra2, Code(Ra2)))
    else if Code(Ra2_256) in codes then assert Offered(codes, Ra2_256); Ok(RsaAesHandler(Ra2_256, Code(Ra2_256)))
    else Err(NoSupportedSecurityTypes(codes, Catalog))
  }

  /** The handler is fixed by the type it speaks for: an RSA-AES handler
      exactly for the RSA-AES variants, carrying that variant's code. */
  lemma HandlerDetermined(h1: SecurityHandler, h2: SecurityHandler)
    requires HandledType(h1) == HandledType(h2)
    requires h1.RsaAesHandler? <==> IsRsaAes(HandledType(h1))
    requires h2.RsaAesHandler? <==> IsRsaAes(HandledType(h2))
    requires h1.RsaAesHandler? ==> h1.authCode == Code(h1.variant)
    requires h2.RsaAesHandler? ==> h2.authCode == Code(h2.variant)
    ensures h1 == h2
  {
  }

  /** `negotiate`: a 3.3 server names its one security type, later servers
      send a list; either way the offer is resolved as a list. The wire
      decoders of the two shapes are not part of this model and come in as
      readers. */
  function Negotiate(version: ProtocolVersion, readType: Reader<int>, readTypes: Reader<seq<int>>, input: seq<byte>)
    : (r: Res<Parsed<SecurityHandler>>)
    ensures version.Is33() ==>
      r == (match readType(input)
            case Err(e) => Err(e)
            case Ok(p) => match ResolveOffer([p.value])
                          case Err(e) => Err(e)
                          case Ok(h) => Ok(Parsed(h, p.rest)))
    ensures !version.Is33() && r.Ok? ==>
      readTypes(input).Ok? && Offered(readTypes(input).value.value, HandledType(r.value.value))
      && r.value.rest == readTypes(input).value.rest
  {
    if version.Is33() then
      var single :- readType(input);
      var handler :- ResolveOffer([single.value]);
      Ok(Parsed(handler, single.rest))
    else
      var list :- readTypes(input);
      var handler :- ResolveOffer(list.value);
      Ok(Parsed(handler, list.rest))
  }

  /** The chosen type is the unique most preferred type the server offered:
      any offered type ranks no better than it. */
  lemma ChosenIsMostPreferred(codes: seq<int>, t: SecurityType)
    requires Offered(codes, t)
    ensures ResolveOffer(codes).Ok?
    ensures Rank(HandledType(ResolveOffer(codes).value)) <= Rank(t)
    ensures Rank(HandledType(ResolveOffer(codes).value)) == Rank(t) ==> HandledType(ResolveOffer(codes).value) == t
  {
    var h := HandledType(ResolveOffer(codes).value);
    assert Preference[Rank(h)] == h && Preference[Rank(t)] == t;
  }

  /** Only which codes were offered matters: neither their order nor
      repetitions change the choice. */
  lemma ResolveDependsOnSet(a: seq<int>, b: seq<int>)
    requires forall c :: c in a <==> c in b
    ensures ResolveOffer(a).Ok? <==> ResolveOffer(b).Ok?
    ensures ResolveOffer(a).Ok? ==> ResolveOffer(a).value == ResolveOffer(b).value
  {
  }

  /** A server offering VNC authentication and None gets None. */
  lemma PrefersNone()
    ensures ResolveOffer([2, 1]) == Ok(NoSecurityHandler)
  {
  }

  /** A 3.3 server's single type is resolved as a one-element offer. */
  lemma SingleTypeResolved(version: ProtocolVersion, readType: Reader<int>, readTypes: Reader<seq<int>>,
                           input: seq<byte>, code: int, rest: seq<byte>)
    requires version.Is33() && readType(input) == Ok(Parsed(code, rest))
    ensures Negotiate(version, readType, readTypes, input).Ok? <==> Resolve(code).Some?
    ensures Resolve(code).Some? ==> HandledType(Negotiate(version, readType, readTypes, input).value.value) == Resolve(code).value
  {
    if Resolve(code).Some? {
      ChosenIsMostPreferred([code], Resolve(code).value);
      CodesDistinct(Resolve(code).value, HandledType(ResolveOffer([code]).value));
    } else {
      assert forall t: SecurityType :: !Offered([code], t);
    }
  }
}
