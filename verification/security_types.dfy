/** The closed catalog of security types the client knows, with the codes the
    server uses for them (section 7.1.2 of RFC 6143 and its registry). */
module SecurityTypes {
  import opened Outcomes

  datatype SecurityType =
    | NoAuth
    | VncAuth
    | Ra2
    | Ra2ne
    | MsLogon2
    | Ra2_256
    | Ra2ne_256

  /** The catalog in declaration order, as `values()` lists it. */
  const Catalog: seq<SecurityType> := [NoAuth, VncAuth, Ra2, Ra2ne, MsLogon2, Ra2_256, Ra2ne_256]

  function Code(t: SecurityType): int
  {
    match t
    case NoAuth => 1
    case VncAuth => 2
    case Ra2 => 5
    case Ra2ne => 6
    case MsLogon2 => 113
    case Ra2_256 => 129
    case Ra2ne_256 => 130
  }

  function Name(t: SecurityType): string
  {
    match t
    case NoAuth => "None"
    case VncAuth => "VncAuth"
    case Ra2 => "RSA-AES (RA2)"
    case Ra2ne => "RSA-AES (RA2ne)"
    case MsLogon2 => "MsLogonII"
    case Ra2_256 => "RSA-AES-256 (RA2_256)"
    case Ra2ne_256 => "RSA-AES-256 (RA2ne_256)"
  }

  /** The codes of the catalog, in order. */
  function CatalogCodes(): (r: seq<int>)
    ensures |r| == |Catalog|
    ensures forall i :: 0 <= i < |r| ==> r[i] == Code(Catalog[i])
  {
    seq(|Catalog|, i requires 0 <= i < |Catalog| => Code(Catalog[i]))
  }

  /** The first type of `ts` whose code is `code`, as a stream filter with
      `findFirst` finds it. */
  function FindFirst(ts: seq<SecurityType>, code: int): (r: Option<SecurityType>)
    ensures r.Some? ==> r.value in ts && Code(r.value) == code
    ensures r.None? <==> forall i :: 0 <= i < |ts| ==> Code(ts[i]) != code
    ensures r.Some? ==> exists i :: 0 <= i < |ts| && ts[i] == r.value && forall j :: 0 <= j < i ==> Code(ts[j]) != code
  {
    if |ts| == 0 then None
    else if Code(ts[0]) == code then Some(ts[0])
    else
      var rest := FindFirst(ts[1..], code);
      assert rest.Some? ==> exists i :: 0 <= i < |ts[1..]| && ts[1..][i] == rest.value && forall j :: 0 <= j < i ==> Code(ts[1..][j]) != code;
      assert forall i :: 1 <= i < |ts| ==> ts[i] == ts[1..][i - 1];
      rest
  }

  /** `SecurityType.resolve(code)`. */
  function Resolve(code: int): (r: Option<SecurityType>)
    ensures r.Some? ==> Code(r.value) == code
    ensures r.None? <==> forall t: SecurityType :: Code(t) != code
  {
    CatalogComplete();
    var r := FindFirst(Catalog, code);
    assert r.None? ==> forall t: SecurityType :: Code(t) != code by {
      if r.None? {
        forall t: SecurityType ensures Code(t) != code {
          assert Catalog[CatalogIndex(t)] == t;
        }
      }
    }
    r
  }

  /** Where each type sits in the catalog. */
  function CatalogIndex(t: SecurityType): (i: nat)
    ensures i < |Catalog| && Catalog[i] == t
  {
    match t
    case NoAuth => 0
    case VncAuth => 1
    case Ra2 => 2
    case Ra2ne => 3
    case MsLogon2 => 4
    case Ra2_256 => 5
    case Ra2ne_256 => 6
  }

  /** Every security type is in the catalog. */
  lemma CatalogComplete()
    ensures forall t: SecurityType :: t in Catalog
  {
    forall t: SecurityType ensures t in Catalog {
      assert Catalog[CatalogIndex(t)] == t;
    }
  }

  /** The catalog's codes are exactly 1, 2, 5, 6, 113, 129 and 130, in that order. */
  lemma CatalogCodesAre()
    ensures CatalogCodes() == [1, 2, 5, 6, 113, 129, 130]
  {
  }

  /** No two security types share a code. */
  lemma CodesDistinct(s: SecurityType, t: SecurityType)
    ensures Code(s) == Code(t) <==> s == t
  {
  }

  /** Resolving a type's own code gives back that type. */
  lemma ResolveCode(t: SecurityType)
    ensures Resolve(Code(t)) == Some(t)
  {
    CodesDistinct(Resolve(Code(t)).value, t);
  }

  /** Resolving any code outside the catalog gives nothing. */
  lemma ResolveUnknown(code: int)
    requires code !in CatalogCodes()
    ensures Resolve(code).None?
  {
    forall t: SecurityType ensures Code(t) != code {
      assert CatalogCodes()[CatalogIndex(t)] == Code(t);
    }
  }
}
