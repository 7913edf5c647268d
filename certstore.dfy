/**
 * The certificate-store adapter of ejbca/certstore.py (RFC 4387): the LDAP-order
 * canonicalisation of a distinguished name, the `sHash` index of the subject, and the search
 * request and its status check. DER encoding of a name and SHA-1 are not part of this model:
 * they are supplied by the caller as functions, and only the digest's length is known.
 */
module CertStore {
  import opened Base
  import opened Dicts
  import opened PyObjects
  import opened Http
  import Base64

  /** An attribute type, written as its dotted object identifier. */
  type Oid = string

  const CountryName: Oid := "2.5.4.6"
  const OrganizationName: Oid := "2.5.4.10"
  const CommonName: Oid := "2.5.4.3"

  /** The preferred order of lines 26-30. */
  const Ordered: seq<Oid> := [CountryName, OrganizationName, CommonName]

  /** One `x509.NameAttribute`. */
  datatype Attr = Attr(oid: Oid, value: string)

  /** A distinguished name as the sequence of attributes that iterating an `x509.Name` yields. */
  type Name = seq<Attr>

  function Oids(dn: Name): seq<Oid>
  {
    if dn == [] then [] else [dn[0].oid] + Oids(dn[1..])
  }

  /** The value of the last attribute of `dn` with type `oid`, if any. */
  function LastValue(dn: Name, oid: Oid): (r: Option<string>)
    ensures r.Some? <==> oid in Oids(dn)
    decreases |dn|
  {
    if dn == [] then None
    else
      var init := dn[..|dn| - 1];
      OidsSnoc(init, dn[|dn| - 1]);
      assert dn == init + [dn[|dn| - 1]];
      if dn[|dn| - 1].oid == oid then Some(dn[|dn| - 1].value) else LastValue(init, oid)
  }

  lemma {:induction false} OidsSnoc(dn: Name, a: Attr)
    ensures Oids(dn + [a]) == Oids(dn) + [a.oid]
  {
    if dn != [] {
      assert (dn + [a])[1..] == dn[1..] + [a];
      OidsSnoc(dn[1..], a);
    }
  }

  /** The comprehension `{ a.oid: a.value for a in dn }` of line 33, over the first attributes of `dn`. */
  function AttributeMap(dn: Name): (d: Dict<Oid, string>)
    ensures forall oid :: Get(d, oid) == LastValue(dn, oid)
    decreases |dn|
  {
    if dn == [] then []
    else Put(AttributeMap(dn[..|dn| - 1]), dn[|dn| - 1].oid, dn[|dn| - 1].value)
  }

  /** Each ordered type present in the dn, with its last value, in the order of `order`. */
  function Pick(dn: Name, order: seq<Oid>): Name
  {
    if order == [] then []
    else
      (match LastValue(dn, order[0])
       case Some(v) => [Attr(order[0], v)]
       case None => [])
      + Pick(dn, order[1..])
  }

  /** What `_ldap_canonicalize` returns. */
  function Canonical(dn: Name): Name
  {
    Pick(dn, Ordered)
  }

  /** Lines 24-44: build the map, then append the ordered attributes that it holds. */
  method LdapCanonicalize(dn: Name) returns (out: Name)
    ensures out == Canonical(dn)
  {
    var d := AttributeMap(dn);
    var attrs: Name := [];
    var i := 0;
    while i < |Ordered|
      invariant 0 <= i <= |Ordered|
      invariant attrs + Pick(dn, Ordered[i..]) == Canonical(dn)
    {
      var oid := Ordered[i];
      var found := Get(d, oid);
      PickStep(dn, Ordered, i, attrs, found);
      if found.Some? {
        attrs := attrs + [Attr(oid, found.value)];
      }
      i := i + 1;
    }
    assert Ordered[|Ordered|..] == [];
    out := attrs;
  }

  /** One iteration of the loop in `LdapCanonicalize`. */
  lemma PickStep(dn: Name, order: seq<Oid>, i: nat, attrs: Name, found: Option<string>)
    requires i < |order| && found == LastValue(dn, order[i])
    ensures attrs + Pick(dn, order[i..])
      == (if found.Some? then attrs + [Attr(order[i], found.value)] else attrs) + Pick(dn, order[i + 1..])
  {
    PickCons(dn, order[i..]);
    assert order[i..][1..] == order[i + 1..];
  }

  /** One step of `Pick`. */
  lemma PickCons(dn: Name, order: seq<Oid>)
    requires order != []
    ensures var v := LastValue(dn, order[0]);
      Pick(dn, order) == (if v.Some? then [Attr(order[0], v.value)] else []) + Pick(dn, order[1..])
  {
  }

  /** `Pick` keeps something only from `order`, with the value the dn gives it last. */
  lemma {:induction false} PickShape(dn: Name, order: seq<Oid>)
    ensures forall k :: 0 <= k < |Pick(dn, order)| ==>
      Pick(dn, order)[k].oid in order && LastValue(dn, Pick(dn, order)[k].oid) == Some(Pick(dn, order)[k].value)
  {
    if order != [] {
      PickShape(dn, order[1..]);
      PickCons(dn, order);
      var v := LastValue(dn, order[0]);
      var head: Name, rest: Name := (if v.Some? then [Attr(order[0], v.value)] else []), Pick(dn, order[1..]);
      forall k | 0 <= k < |head + rest|
        ensures (head + rest)[k].oid in order && LastValue(dn, (head + rest)[k].oid) == Some((head + rest)[k].value)
      {
        if k >= |head| {
          assert (head + rest)[k] == rest[k - |head|];
        }
      }
    }
  }

  /** A type of `order` is picked exactly when the dn has it. */
  lemma {:induction false} PickPresence(dn: Name, order: seq<Oid>, oid: Oid)
    requires oid in order
    ensures oid in Oids(Pick(dn, order)) <==> oid in Oids(dn)
  {
    PickCons(dn, order);
    var v := LastValue(dn, order[0]);
    var head: Name, rest: Name := (if v.Some? then [Attr(order[0], v.value)] else []), Pick(dn, order[1..]);
    OidsAppend(head, rest);
    if oid in order[1..] {
      PickPresence(dn, order[1..], oid);
    } else {
      PickShape(dn, order[1..]);
      OidsIndex(rest);
    }
  }

  lemma {:induction false} OidsIndex(dn: Name)
    ensures |Oids(dn)| == |dn|
    ensures forall k :: 0 <= k < |dn| ==> Oids(dn)[k] == dn[k].oid
  {
    if dn != [] {
      OidsIndex(dn[1..]);
    }
  }

  /** Only C, O and CN survive, each with the value of its last occurrence in the input. */
  lemma CanonicalAttributes(dn: Name)
    ensures forall k :: 0 <= k < |Canonical(dn)| ==>
      Canonical(dn)[k].oid in Ordered && LastValue(dn, Canonical(dn)[k].oid) == Some(Canonical(dn)[k].value)
  {
    PickShape(dn, Ordered);
  }

  /** An ordered type appears in the output exactly when it appears in the input. */
  lemma CanonicalPresence(dn: Name, oid: Oid)
    requires oid in Ordered
    ensures oid in Oids(Canonical(dn)) <==> oid in Oids(dn)
  {
    PickPresence(dn, Ordered, oid);
  }

  /** The position of an ordered type in the preferred order. */
  function Rank(oid: Oid): nat
  {
    if oid == CountryName then 0 else if oid == OrganizationName then 1 else 2
  }

  /** Each type at most once, in the preferred order. */
  lemma CanonicalOrder(dn: Name)
    ensures forall i, j :: 0 <= i < j < |Canonical(dn)| ==> Rank(Canonical(dn)[i].oid) < Rank(Canonical(dn)[j].oid)
  {
    assert Ordered[1..] == [OrganizationName, CommonName];
    assert Ordered[1..][1..] == [CommonName];
    assert Ordered[1..][1..][1..] == [];
    PickCons(dn, Ordered);
    PickCons(dn, Ordered[1..]);
    PickCons(dn, Ordered[1..][1..]);
  }

  /** Picking from a picked name changes nothing. */
  lemma {:induction false} PickPicked(dn: Name, order: seq<Oid>, outer: seq<Oid>)
    requires forall oid :: oid in order ==> LastValue(Pick(dn, outer), oid) == LastValue(dn, oid)
    ensures Pick(Pick(dn, outer), order) == Pick(dn, order)
  {
    if order != [] {
      PickPicked(dn, order[1..], outer);
    }
  }

  /** In a name with distinct types, the last value of a type is its only value. */
  lemma {:induction false} CanonicalLastValue(dn: Name, oid: Oid)
    requires oid in Ordered
    ensures LastValue(Canonical(dn), oid) == LastValue(dn, oid)
  {
    var c := Canonical(dn);
    CanonicalAttributes(dn);
    CanonicalPresence(dn, oid);
    CanonicalOrder(dn);
    OidsIndex(c);
    if oid in Oids(c) {
      var k :| 0 <= k < |c| && c[k].oid == oid;
      LastValueDistinct(c, k);
    }
  }

  lemma {:induction false} LastValueDistinct(dn: Name, k: nat)
    requires k < |dn|
    requires forall i, j :: 0 <= i < j < |dn| ==> Rank(dn[i].oid) < Rank(dn[j].oid)
    ensures LastValue(dn, dn[k].oid) == Some(dn[k].value)
    decreases |dn|
  {
    var init := dn[..|dn| - 1];
    if k < |dn| - 1 {
      assert init[k] == dn[k];
      assert dn[k].oid != dn[|dn| - 1].oid;
      LastValueDistinct(init, k);
    }
  }

  /** `_ldap_canonicalize` is idempotent. */
  lemma CanonicalIdempotent(dn: Name)
    ensures Canonical(Canonical(dn)) == Canonical(dn)
  {
    forall oid | oid in Ordered
      ensures LastValue(Canonical(dn), oid) == LastValue(dn, oid)
    {
      CanonicalLastValue(dn, oid);
    }
    PickPicked(dn, Ordered, Ordered);
  }

  /** When the input repeats a type, the value kept is the one of its last occurrence. */
  lemma LastOccurrenceWins(prefix: Name, a: Attr, rest: Name)
    requires a.oid in Ordered && a.oid !in Oids(rest)
    ensures Attr(a.oid, a.value) in Canonical(prefix + [a] + rest)
  {
    var dn := prefix + [a] + rest;
    LastAfter(prefix + [a], rest, a);
    CanonicalPresence(dn, a.oid);
    OidsSnoc(prefix, a);
    OidsAppend(prefix + [a], rest);
    var c := Canonical(dn);
    OidsIndex(c);
    var k :| 0 <= k < |c| && c[k].oid == a.oid;
    CanonicalAttributes(dn);
  }

  lemma {:induction false} OidsAppend(a: Name, b: Name)
    ensures Oids(a + b) == Oids(a) + Oids(b)
  {
    if a == [] {
      assert a + b == b;
    } else {
      assert (a + b)[1..] == a[1..] + b;
      OidsAppend(a[1..], b);
    }
  }

  lemma {:induction false} LastAfter(front: Name, rest: Name, a: Attr)
    requires front != [] && front[|front| - 1] == a && a.oid !in Oids(rest)
    ensures LastValue(front + rest, a.oid) == Some(a.value)
    decreases |rest|
  {
    if rest == [] {
      assert front + rest == front;
    } else {
      var dn := front + rest;
      var init := rest[..|rest| - 1];
      assert dn[..|dn| - 1] == front + init;
      assert dn[|dn| - 1] == rest[|rest| - 1];
      OidsSnoc(init, rest[|rest| - 1]);
      assert rest == init + [rest[|rest| - 1]];
      LastAfter(front, init, a);
    }
  }

  // ---------------------------------------------------------------------------------------
  // The sHash index

  /** The output of SHA-1. */
  type Sha1Digest = d: seq<byte> | |d| == 20 witness seq(20, _ => 0)

  /** Lines 63-66: base64 of the digest with its padding cut off. */
  function IndexHash(digest: Sha1Digest): (h: string)
    ensures |h| == 27 && '=' !in h
    ensures Base64.Decode(h + "=") == Some(digest)
  {
    var pem := Base64.Encode(digest);
    Base64.PaddingAtEnd(digest);
    assert Base64.Padding(20) == 1;
    assert pem == pem[..27] + "=";
    Base64.DecodeEncode(digest);
    pem[..27]
  }

  /** A digest's encoding is 28 characters, of which only the last is '=', so the cut drops only padding. */
  lemma IndexHashCutsPadding(digest: Sha1Digest)
    ensures |Base64.Encode(digest)| == 28
    ensures Base64.Encode(digest) == IndexHash(digest) + "="
  {
    Base64.PaddingAtEnd(digest);
    assert Base64.Padding(20) == 1;
  }

  /** Distinct digests give distinct indexes. */
  lemma IndexHashInjective(d1: Sha1Digest, d2: Sha1Digest)
    requires IndexHash(d1) == IndexHash(d2)
    ensures d1 == d2
  {
  }

  // ---------------------------------------------------------------------------------------
  // search_subject

  /** `_search_url().format(ihash=...)`: a brace in the host name makes the template unusable. */
  function SearchUrl(name: string, hash: string): (r: Result<string, PyError>)
    ensures r.Err? <==> !LiteralForFormat(name)
    ensures r.Err? ==> r.error == FormatError
  {
    if !LiteralForFormat(name) then Err(FormatError)
    else Ok("http://" + name + "/ejbca/publicweb/certificates/search.cgi?sHash=" + hash)
  }

  /** The index travels as the last query parameter of the URL, unchanged. */
  lemma SearchUrlCarriesHash(name: string, digest: Sha1Digest)
    requires LiteralForFormat(name)
    ensures var url := SearchUrl(name, IndexHash(digest)).value;
      |url| >= 34 && url[|url| - 34..|url| - 27] == "?sHash=" && Base64.Decode(url[|url| - 27..] + "=") == Some(digest)
  {
    var h := IndexHash(digest);
    var tail := "/ejbca/publicweb/certificates/search.cgi?sHash=";
    var front := "http://" + name + tail;
    var url := SearchUrl(name, h).value;
    assert url == front + h;
    assert url[|url| - 27..] == h;
    assert url[|url| - 34..|url| - 27] == front[|front| - 7..] == tail[|tail| - 7..];
  }

  /**
   * `search_subject` up to the request: the dn is reordered only under `ldap_order`, then
   * serialised by `der`, hashed by `sha1` and indexed; the GET carries no headers or body.
   */
  method SearchSubjectRequest(name: string, dn: Name, der: Name -> seq<byte>, sha1: seq<byte> -> Sha1Digest,
                              ldapOrder: bool := false)
    returns (r: Result<Request, PyError>)
    ensures r.Err? <==> !LiteralForFormat(name)
    ensures r.Err? ==> r.error == FormatError
    ensures r.Ok? ==> r.value == Request(GET, SearchUrl(name, IndexHash(sha1(der(if ldapOrder then Canonical(dn) else dn)))).value, [], NoBody)
  {
    var subject := dn;
    if ldapOrder {
      subject := LdapCanonicalize(dn);
    }
    var hash := IndexHash(sha1(der(subject)));
    var url :- SearchUrl(name, hash);
    r := Ok(Request(GET, url, [], NoBody));
  }

  /** Under `ldap_order`, names with the same C, O and CN values give the same request. */
  lemma LdapOrderIgnoresOtherAttributes(name: string, dn1: Name, dn2: Name, der: Name -> seq<byte>, sha1: seq<byte> -> Sha1Digest)
    requires forall oid :: oid in Ordered ==> LastValue(dn1, oid) == LastValue(dn2, oid)
    ensures Canonical(dn1) == Canonical(dn2)
    ensures SearchUrl(name, IndexHash(sha1(der(Canonical(dn1))))) == SearchUrl(name, IndexHash(sha1(der(Canonical(dn2)))))
  {
    PickSame(dn1, dn2, Ordered);
  }

  lemma {:induction false} PickSame(dn1: Name, dn2: Name, order: seq<Oid>)
    requires forall oid :: oid in order ==> LastValue(dn1, oid) == LastValue(dn2, oid)
    ensures Pick(dn1, order) == Pick(dn2, order)
  {
    if order != [] {
      PickSame(dn1, dn2, order[1..]);
    }
  }

  const SearchFailure: string := "Certificate fetch (cert-store) failure"

  /** Lines 86-91: only 200 succeeds, and the body is the certificate's DER. */
  function SearchSubjectResult(resp: Response): (r: Result<seq<byte>, PyError>)
    ensures r.Ok? <==> resp.status == 200
    ensures r.Ok? ==> r.value == resp.body
    ensures r.Err? ==> r.error == RuntimeError(SearchFailure)
  {
    if resp.status != 200 then Err(RuntimeError(SearchFailure)) else Ok(resp.body)
  }
}
