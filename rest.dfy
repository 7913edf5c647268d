/**
 * The REST adapter of ejbca/rest.py: the URL templates, the requests each call sends, and how
 * each call reads the response. `host` is the value of `ejbca.server.name` when the call is made.
 */
module Rest {
  import opened Base
  import opened Dicts
  import opened PyObjects
  import opened Http
  import Helpers
  import Utf8

  const ApiRoot: string := "/ejbca/ejbca-rest-api/v1"

  // ---------------------------------------------------------------------------------------
  // The success-status rule

  datatype Operation = GetCert | GetCertStatus | AddEndEntity | DeleteEndEntity | EnrollKeystore

  /** The one status each call accepts: 201 for `enroll_keystore`, 200 for the others. */
  function SuccessStatus(op: Operation): int
  {
    if op == EnrollKeystore then 201 else 200
  }

  /**
   * Any other status first has `helpers.dump` decode the body (tracing being off), which
   * raises UnicodeDecodeError on a body that is not UTF-8, and then raises a bare RuntimeError.
   */
  function CheckStatus(op: Operation, status: int, body: seq<byte>): (r: Result<(), PyError>)
    ensures r.Ok? <==> status == SuccessStatus(op)
    ensures r.Err? ==> r.error == (if Helpers.Dump(body).Ok? then RuntimeError("") else UnicodeDecodeError)
  {
    if status == SuccessStatus(op) then Ok(())
    else
      var _ :- Helpers.Dump(body);
      Err(RuntimeError(""))
  }

  /**
   * A refused status with a text body raises the bare RuntimeError; a body such as the lone
   * octet 0xFF, which is no UTF-8 text, makes `dump` raise UnicodeDecodeError instead.
   */
  lemma FailureBody(op: Operation, status: int, t: string)
    requires status != SuccessStatus(op)
    ensures CheckStatus(op, status, Utf8.Encode(t)) == Err(RuntimeError(""))
    ensures CheckStatus(op, status, [0xFF]) == Err(UnicodeDecodeError)
  {
  }

  // ---------------------------------------------------------------------------------------
  // Serial numbers as `{:x}` writes them

  predicate IsHexLower(c: char)
  {
    ('0' <= c <= '9') || ('a' <= c <= 'f')
  }

  function HexLowerDigit(d: nat): (c: char)
    requires d < 16
    ensures IsHexLower(c)
  {
    if d < 10 then ('0' as int + d) as char else ('a' as int + (d - 10)) as char
  }

  function HexLowerValue(c: char): (d: nat)
    requires IsHexLower(c)
    ensures d < 16
  {
    if c <= '9' then c as int - '0' as int else c as int - 'a' as int + 10
  }

  /** A natural number in lower-case hexadecimal, most significant digit first. */
  function HexNat(n: nat): (s: string)
    ensures |s| > 0 && forall i :: 0 <= i < |s| ==> IsHexLower(s[i])
    ensures n > 0 ==> s[0] != '0'
  {
    if n < 16 then [HexLowerDigit(n)] else HexNat(n / 16) + [HexLowerDigit(n % 16)]
  }

  /** `'{:x}'.format(n)`: lower-case digits, no `0x` prefix, a '-' before a negative number. */
  function FormatHex(n: int): (r: string)
    ensures |r| > 0 && (r[0] == '-' <==> n < 0)
    ensures var digits := if n < 0 then r[1..] else r;
      && digits != [] && (forall i :: 0 <= i < |digits| ==> IsHexLower(digits[i]))
      && (n != 0 ==> digits[0] != '0')
  {
    if n < 0 then "-" + HexNat(-n) else HexNat(n)
  }

  /** The value of a string of lower-case hex digits. */
  function HexValue(s: string): nat
    requires forall i :: 0 <= i < |s| ==> IsHexLower(s[i])
  {
    if s == [] then 0 else HexValue(s[..|s| - 1]) * 16 + HexLowerValue(s[|s| - 1])
  }

  /** An optional '-' and one or more lower-case hex digits. */
  function ParseHex(s: string): Option<int>
  {
    var neg := |s| > 0 && s[0] == '-';
    var digits := if neg then s[1..] else s;
    if digits == [] || exists i :: 0 <= i < |digits| && !IsHexLower(digits[i]) then None
    else
      var v: int := HexValue(digits);
      Some(if neg then -v else v)
  }

  lemma {:induction false} HexValueOfHexNat(n: nat)
    ensures HexValue(HexNat(n)) == n
  {
    if n >= 16 {
      var s := HexNat(n);
      assert s[..|s| - 1] == HexNat(n / 16);
      HexValueOfHexNat(n / 16);
    }
  }

  /** An optional sign before lower-case hex digits is read as their value, negated after a '-'. */
  lemma ParseSignedHex(neg: bool, h: string)
    requires h != [] && forall i :: 0 <= i < |h| ==> IsHexLower(h[i])
    ensures var v: int := HexValue(h); ParseHex((if neg then "-" else "") + h) == Some(if neg then -v else v)
  {
    var s := (if neg then "-" else "") + h;
    if neg {
      assert s[0] == '-' && s[1..] == h;
    } else {
      assert s == h && IsHexLower(s[0]);
    }
  }

  /** Reading the serial segment back gives the serial, for every integer. */
  lemma FormatHexRoundTrip(n: int)
    ensures ParseHex(FormatHex(n)) == Some(n)
  {
    var m := if n < 0 then -n else n;
    HexValueOfHexNat(m);
    ParseSignedHex(n < 0, HexNat(m));
    assert FormatHex(n) == (if n < 0 then "-" else "") + HexNat(m);
  }

  /** The serial segment holds only hex digits and '-': no '/', and no `0x` prefix. */
  lemma FormatHexAlphabet(n: int)
    ensures forall i :: 0 <= i < |FormatHex(n)| ==> IsHexLower(FormatHex(n)[i]) || (i == 0 && n < 0 && FormatHex(n)[i] == '-')
    ensures '/' !in FormatHex(n) && 'x' !in FormatHex(n)
  {
    var s := FormatHex(n);
    if n < 0 {
      assert forall i :: 1 <= i < |s| ==> s[i] == HexNat(-n)[i - 1];
    }
  }

  // ---------------------------------------------------------------------------------------
  // URL templates

  /** `_cert_url().format(subject_dn=quote(subject))`. */
  function CertUrl(host: string, subject: seq<byte>): (r: Result<string, PyError>)
    ensures r.Err? <==> !LiteralForFormat(host)
    ensures r.Err? ==> r.error == FormatError
  {
    if !LiteralForFormat(host) then Err(FormatError)
    else Ok("https://" + host + ApiRoot + "/ca/" + Helpers.Quote(subject) + "/certificate/download")
  }

  /** The subject takes exactly one path segment, and that segment decodes back to the subject. */
  lemma CertUrlSegment(host: string, subject: seq<byte>)
    requires CertUrl(host, subject).Ok?
    ensures exists seg ::
      && CertUrl(host, subject).value == "https://" + host + ApiRoot + "/ca/" + seg + "/certificate/download"
      && '/' !in seg && Helpers.Unquote(seg) == subject
  {
    var seg := Helpers.Quote(subject);
    Helpers.QuoteHasNoDelimiters(subject);
    Helpers.UnquoteQuote(subject);
    assert CertUrl(host, subject).value == "https://" + host + ApiRoot + "/ca/" + seg + "/certificate/download";
  }

  /** `_revocation_url().format(issuer_dn=quote(issuer), cert_sn=serial)`. */
  function RevocationUrl(host: string, issuer: seq<byte>, serial: int): (r: Result<string, PyError>)
    ensures r.Err? <==> !LiteralForFormat(host)
    ensures r.Err? ==> r.error == FormatError
  {
    if !LiteralForFormat(host) then Err(FormatError)
    else Ok("https://" + host + ApiRoot + "/certificate/" + Helpers.Quote(issuer) + "/" + FormatHex(serial) + "/revocationstatus")
  }

  /** Issuer and serial each take one path segment, and each reads back to its argument. */
  lemma RevocationUrlSegments(host: string, issuer: seq<byte>, serial: int)
    requires RevocationUrl(host, issuer, serial).Ok?
    ensures exists seg, sn ::
      && RevocationUrl(host, issuer, serial).value == "https://" + host + ApiRoot + "/certificate/" + seg + "/" + sn + "/revocationstatus"
      && '/' !in seg && Helpers.Unquote(seg) == issuer
      && '/' !in sn && ParseHex(sn) == Some(serial)
  {
    var seg, sn := Helpers.Quote(issuer), FormatHex(serial);
    Helpers.QuoteHasNoDelimiters(issuer);
    Helpers.UnquoteQuote(issuer);
    FormatHexAlphabet(serial);
    FormatHexRoundTrip(serial);
    assert RevocationUrl(host, issuer, serial).value == "https://" + host + ApiRoot + "/certificate/" + seg + "/" + sn + "/revocationstatus";
  }

  /** `_end_entity_url()`: no template, so any host is taken as it is. */
  function EndEntityUrl(host: string): (r: string)
    ensures forall username :: LiteralForFormat(host) ==> EndEntityUrl2(host, username) == Ok(r + "/" + username)
  {
    EndEntitySegment("https://" + host + ApiRoot);
    "https://" + host + ApiRoot + "/endentity"
  }

  lemma EndEntitySegment(root: string)
    ensures forall username: string :: root + "/endentity" + "/" + username == root + "/endentity/" + username
  {
    forall username: string ensures root + "/endentity" + "/" + username == root + "/endentity/" + username {
      assert "/endentity" + "/" == "/endentity/";
    }
  }

  /** `_end_entity_url2().format(username=username)`: the username is inserted as it is, not percent-encoded. */
  function EndEntityUrl2(host: string, username: string): (r: Result<string, PyError>)
    ensures r.Err? <==> !LiteralForFormat(host)
    ensures r.Err? ==> r.error == FormatError
  {
    if !LiteralForFormat(host) then Err(FormatError)
    else Ok("https://" + host + ApiRoot + "/endentity/" + username)
  }

  /** `_enroll_keystore_url()`. */
  function EnrollKeystoreUrl(host: string): string
  {
    "https://" + host + ApiRoot + "/certificate/enrollkeystore"
  }

  const JsonHeaders: seq<(string, string)> := [("Accept", "application/json"), ("Content-Type", "application/json")]

  // ---------------------------------------------------------------------------------------
  // getcert

  function GetCertRequest(host: string, subject: seq<byte>): (r: Result<Request, PyError>)
    ensures r.Ok? <==> CertUrl(host, subject).Ok?
    ensures r.Ok? ==> r.value == Request(GET, CertUrl(host, subject).value, [], NoBody)
  {
    var url :- CertUrl(host, subject);
    Ok(Request(GET, url, [], NoBody))
  }

  /** The certificate is the response body, unchanged, on status 200 only. */
  function GetCertResult(resp: Response): (r: Result<seq<byte>, PyError>)
    ensures r.Ok? <==> resp.status == SuccessStatus(GetCert)
    ensures r.Ok? ==> r.value == resp.body
    ensures r.Err? ==> r.error == (if Helpers.Dump(resp.body).Ok? then RuntimeError("") else UnicodeDecodeError)
  {
    var _ :- CheckStatus(GetCert, resp.status, resp.body);
    Ok(resp.body)
  }

  // ---------------------------------------------------------------------------------------
  // getcertstatus

  function GetCertStatusRequest(host: string, issuer: seq<byte>, serial: int): (r: Result<Request, PyError>)
    ensures r.Ok? <==> RevocationUrl(host, issuer, serial).Ok?
    ensures r.Ok? ==> r.value == Request(GET, RevocationUrl(host, issuer, serial).value, [], NoBody)
  {
    var url :- RevocationUrl(host, issuer, serial);
    Ok(Request(GET, url, [], NoBody))
  }

  /** The tuple `getcertstatus` returns: revoked, reason, date, message. */
  datatype Revocation = Revocation(revoked: PyValue, reason: PyValue, date: Option<Helpers.DateTime>, message: PyValue)

  /** `(False, None, None, None)`. */
  const NotRevoked: Revocation := Revocation(PyBool(false), PyNone, None, PyNone)

  /** `parse_ts(date)`: strptime refuses anything but a str with TypeError. */
  function RevocationDate(v: PyValue): (r: Result<Helpers.DateTime, PyError>)
    ensures r.Ok? <==> v.PyStr? && Helpers.ParseTs(v.s).Ok?
    ensures r.Ok? ==> r.value == Helpers.ParseTs(v.s).value
  {
    match v
    case PyStr(s) => Helpers.ParseTs(s)
    case _ => Err(TypeError)
  }

  /** Lines 105-116: the fields are read in the order revoked, reason, date, message. */
  function DecodeRevocation(doc: PyValue): (r: Result<Revocation, PyError>)
    ensures r.Ok? ==> (r.value.date.Some? <==> Truthy(r.value.revoked))
    ensures r.Ok? && !Truthy(r.value.revoked) ==> r.value == NotRevoked
    ensures r.Ok? ==> Subscript(doc, "revoked").Ok?
  {
    var revoked :- Subscript(doc, "revoked");
    if !Truthy(revoked) then Ok(NotRevoked)
    else
      var reason :- Subscript(doc, "revocation_reason");
      var text :- Subscript(doc, "revocation_date");
      var date :- RevocationDate(text);
      var message :- Subscript(doc, "message");
      Ok(Revocation(revoked, reason, Some(date), message))
  }

  /** A falsy `revoked` gives `(False, None, None, None)` whatever else the document holds. */
  lemma NotRevokedIgnoresRest(doc: PyValue)
    requires doc.PyDict? && Get(doc.entries, PyStr("revoked")).Some?
    requires !Truthy(Get(doc.entries, PyStr("revoked")).value)
    ensures DecodeRevocation(doc) == Ok(NotRevoked)
  {
    GetPresent(doc.entries, PyStr("revoked"));
  }

  /** A truthy `revoked` gives the document's own revoked, reason and message and the parsed date. */
  lemma RevokedFields(doc: PyValue, revoked: PyValue, reason: PyValue, date: string, message: PyValue)
    requires doc.PyDict? && Truthy(revoked)
    requires Get(doc.entries, PyStr("revoked")) == Some(revoked)
    requires Get(doc.entries, PyStr("revocation_reason")) == Some(reason)
    requires Get(doc.entries, PyStr("revocation_date")) == Some(PyStr(date))
    requires Get(doc.entries, PyStr("message")) == Some(message)
    requires Helpers.ParseTs(date).Ok?
    ensures DecodeRevocation(doc) == Ok(Revocation(revoked, reason, Some(Helpers.ParseTs(date).value), message))
  {
    GetPresent(doc.entries, PyStr("revoked"));
    GetPresent(doc.entries, PyStr("revocation_reason"));
    GetPresent(doc.entries, PyStr("revocation_date"));
    GetPresent(doc.entries, PyStr("message"));
  }

  /** A truthy `revoked` with a field missing raises KeyError for the first missing one. */
  lemma RevokedMissingField(doc: PyValue, revoked: PyValue)
    requires doc.PyDict? && Truthy(revoked)
    requires Get(doc.entries, PyStr("revoked")) == Some(revoked)
    requires Get(doc.entries, PyStr("revocation_reason")).None?
    ensures DecodeRevocation(doc) == Err(KeyError("revocation_reason"))
  {
    GetPresent(doc.entries, PyStr("revoked"));
    GetPresent(doc.entries, PyStr("revocation_reason"));
  }

  /** Status first, then `json.loads`, then the decoding rule. */
  function GetCertStatusResult(resp: JsonResponse): (r: Result<Revocation, PyError>)
    ensures resp.status != SuccessStatus(GetCertStatus)
      ==> r == Err(if Helpers.Dump(resp.body).Ok? then RuntimeError("") else UnicodeDecodeError)
    ensures resp.status == SuccessStatus(GetCertStatus) && resp.json.None? ==> r == Err(JsonDecodeError)
    ensures resp.status == SuccessStatus(GetCertStatus) && resp.json.Some? ==> r == DecodeRevocation(resp.json.value)
  {
    var _ :- CheckStatus(GetCertStatus, resp.status, resp.body);
    match resp.json
    case None => Err(JsonDecodeError)
    case Some(doc) => DecodeRevocation(doc)
  }

  // ---------------------------------------------------------------------------------------
  // add_end_entity

  /** `value.decode()` for an optional bytes argument. */
  function DecodeOptional(b: Option<seq<byte>>): (r: Result<Option<string>, PyError>)
    ensures b.None? ==> r == Ok(None)
    ensures b.Some? ==> (r.Ok? <==> DecodeBytes(b.value).Ok?)
    ensures b.Some? && r.Ok? ==> r.value == Some(DecodeBytes(b.value).value)
    ensures r.Err? ==> r.error == UnicodeDecodeError
  {
    match b
    case None => Ok(None)
    case Some(x) =>
      var s :- DecodeBytes(x);
      Ok(Some(s))
  }

  /**
   * The clone of lines 151-158 over the first entries of the extension map: each value, then
   * each key, is decoded when it is bytes, and stored under the decoded key.
   */
  function DecodeExtensions(ext: Dict<PyValue, PyValue>): (r: Result<Dict<PyValue, PyValue>, PyError>)
    ensures r.Err? ==> r.error == UnicodeDecodeError
    decreases |ext|
  {
    if ext == [] then Ok([])
    else
      var prev :- DecodeExtensions(ext[..|ext| - 1]);
      var value :- DecodeIfBytes(ext[|ext| - 1].1);
      var key :- DecodeIfBytes(ext[|ext| - 1].0);
      Ok(Put(prev, key, value))
  }

  /** What the clone makes of a key or a value that decodes (anything that is not bytes is kept). */
  function Cloned(v: PyValue): PyValue
  {
    match DecodeIfBytes(v)
    case Ok(x) => x
    case Err(_) => v
  }

  function CloneKeys(ext: Dict<PyValue, PyValue>): (r: seq<PyValue>)
    ensures |r| == |ext| && forall i :: 0 <= i < |ext| ==> r[i] == Cloned(ext[i].0)
    decreases |ext|
  {
    if ext == [] then [] else CloneKeys(ext[..|ext| - 1]) + [Cloned(ext[|ext| - 1].0)]
  }

  predicate EntryDecodes(e: (PyValue, PyValue))
  {
    DecodeIfBytes(e.0).Ok? && DecodeIfBytes(e.1).Ok?
  }

  /** The clone succeeds exactly when every key and value decodes. */
  lemma {:induction false} DecodeExtensionsOk(ext: Dict<PyValue, PyValue>)
    ensures DecodeExtensions(ext).Ok? <==> forall i :: 0 <= i < |ext| ==> EntryDecodes(ext[i])
    decreases |ext|
  {
    if ext != [] {
      var init := ext[..|ext| - 1];
      DecodeExtensionsOk(init);
      DecodeExtensionsStep(ext);
      EntriesSnoc(ext);
    }
  }

  lemma DecodeExtensionsStep(ext: Dict<PyValue, PyValue>)
    requires ext != []
    ensures DecodeExtensions(ext).Ok? <==> DecodeExtensions(ext[..|ext| - 1]).Ok? && EntryDecodes(ext[|ext| - 1])
  {
  }

  lemma EntriesSnoc(ext: Dict<PyValue, PyValue>)
    requires ext != []
    ensures var init := ext[..|ext| - 1];
      (forall i :: 0 <= i < |ext| ==> EntryDecodes(ext[i]))
      <==> (forall i :: 0 <= i < |init| ==> EntryDecodes(init[i])) && EntryDecodes(ext[|ext| - 1])
  {
    var init := ext[..|ext| - 1];
    assert forall i :: 0 <= i < |init| ==> init[i] == ext[i];
  }

  /** A failure on a prefix of the map is a failure of the whole clone. */
  lemma {:induction false} DecodeExtensionsErrPrefix(ext: Dict<PyValue, PyValue>, n: nat)
    requires n <= |ext| && DecodeExtensions(ext[..n]).Err?
    ensures DecodeExtensions(ext).Err?
  {
    DecodeExtensionsOk(ext[..n]);
    DecodeExtensionsOk(ext);
    var i :| 0 <= i < n && !EntryDecodes(ext[..n][i]);
    assert ext[..n][i] == ext[i];
  }

  /** The clone keeps the keys in the order they first occur, each decoded key once. */
  lemma {:induction false} DecodeExtensionsKeys(ext: Dict<PyValue, PyValue>)
    requires DecodeExtensions(ext).Ok?
    ensures Keys(DecodeExtensions(ext).value) == FirstOccurrences(CloneKeys(ext))
    ensures DistinctKeys(DecodeExtensions(ext).value)
    decreases |ext|
  {
    if ext == [] {
    } else {
      var init := ext[..|ext| - 1];
      DecodeExtensionsKeys(init);
      DecodeExtensionsPut(ext);
      var ks := CloneKeys(ext);
      assert ks[..|ks| - 1] == CloneKeys(init);
    }
  }

  /** One step of a clone that succeeds: the last entry, decoded, is stored into the clone of the rest. */
  lemma DecodeExtensionsPut(ext: Dict<PyValue, PyValue>)
    requires ext != [] && DecodeExtensions(ext).Ok?
    ensures DecodeExtensions(ext[..|ext| - 1]).Ok?
    ensures DecodeExtensions(ext).value
      == Put(DecodeExtensions(ext[..|ext| - 1]).value, Cloned(ext[|ext| - 1].0), Cloned(ext[|ext| - 1].1))
  {
  }

  /** A key takes the decoded value of the last entry whose decoded key it is. */
  lemma {:induction false} DecodeExtensionsLastWins(ext: Dict<PyValue, PyValue>, i: nat)
    requires DecodeExtensions(ext).Ok? && i < |ext|
    requires forall j :: i < j < |ext| ==> Cloned(ext[j].0) != Cloned(ext[i].0)
    ensures Get(DecodeExtensions(ext).value, Cloned(ext[i].0)) == Some(Cloned(ext[i].1))
    decreases |ext|
  {
    var init := ext[..|ext| - 1];
    DecodeExtensionsOk(ext);
    assert EntryDecodes(ext[i]) && EntryDecodes(ext[|ext| - 1]);
    if i < |ext| - 1 {
      DecodeExtensionsOk(init);
      assert init[i] == ext[i];
      forall j | i < j < |init| ensures Cloned(init[j].0) != Cloned(init[i].0) {
        assert init[j] == ext[j];
      }
      DecodeExtensionsLastWins(init, i);
    }
  }

  /** A map with no bytes in it is cloned unchanged. */
  lemma {:induction false} DecodeExtensionsPassThrough(ext: Dict<PyValue, PyValue>)
    requires forall i :: 0 <= i < |ext| ==> !ext[i].0.PyBytes? && !ext[i].1.PyBytes?
    requires forall i, j :: 0 <= i < j < |ext| ==> ext[i].0 != ext[j].0
    ensures DecodeExtensions(ext) == Ok(ext)
    decreases |ext|
  {
    if ext != [] {
      var init := ext[..|ext| - 1];
      var last := ext[|ext| - 1];
      assert ext == init + [last];
      DecodeExtensionsPassThrough(init);
      assert DecodeIfBytes(last.1) == Ok(last.1) && DecodeIfBytes(last.0) == Ok(last.0);
      assert DecodeExtensions(ext) == Ok(Put(init, last.0, last.1));
      KeysLength(init);
      assert last.0 !in Keys(init) by {
        forall i | 0 <= i < |init| ensures Keys(init)[i] != last.0 {
          assert init[i] == ext[i];
        }
      }
    }
  }

  /** The dict display of lines 137-145. */
  function RequiredFields(username: string, password: string, subject: string, caName: string,
                          certProfileName: string, endEntityProfileName: string, token: string): Dict<PyValue, PyValue>
  {
    [ (PyStr("username"), PyStr(username)),
      (PyStr("password"), PyStr(password)),
      (PyStr("subject_dn"), PyStr(subject)),
      (PyStr("ca_name"), PyStr(caName)),
      (PyStr("certificate_profile_name"), PyStr(certProfileName)),
      (PyStr("end_entity_profile_name"), PyStr(endEntityProfileName)),
      (PyStr("token"), PyStr(token)) ]
  }

  const RequiredKeys: seq<PyValue> := [
    PyStr("username"), PyStr("password"), PyStr("subject_dn"), PyStr("ca_name"),
    PyStr("certificate_profile_name"), PyStr("end_entity_profile_name"), PyStr("token")]

  function OptionalField(name: string, value: Option<string>): Dict<PyValue, PyValue>
  {
    if value.Some? then [(PyStr(name), PyStr(value.value))] else []
  }

  function OptionalKey(name: string, present: bool): seq<PyValue>
  {
    if present then [PyStr(name)] else []
  }

  /** The dict of lines 137-165 once every argument is decoded. */
  function BodyOf(u: string, p: string, s: string, c: string, cp: string, ep: string, token: string,
                  alt: Option<string>, mail: Option<string>, ext2: Dict<PyValue, PyValue>): Dict<PyValue, PyValue>
  {
    RequiredFields(u, p, s, c, cp, ep, token) + OptionalField("subject_alt_name", alt)
    + OptionalField("email", mail) + [(PyStr("extensions_data"), PyDict(ext2))]
  }

  /** The JSON document `add_end_entity` posts, or the decode error it raises first. */
  function EndEntityBody(username: seq<byte>, password: seq<byte>, subject: seq<byte>, caName: seq<byte>,
                         certProfileName: seq<byte>, endEntityProfileName: seq<byte>, token: string,
                         san: Option<seq<byte>>, email: Option<seq<byte>>,
                         extensions: Option<Dict<PyValue, PyValue>>): (r: Result<Dict<PyValue, PyValue>, PyError>)
    ensures r.Err? ==> r.error == UnicodeDecodeError
  {
    var u :- DecodeBytes(username);
    var p :- DecodeBytes(password);
    var s :- DecodeBytes(subject);
    var c :- DecodeBytes(caName);
    var cp :- DecodeBytes(certProfileName);
    var ep :- DecodeBytes(endEntityProfileName);
    var ext2 :- DecodeExtensions(if extensions.None? then [] else extensions.value);
    var alt :- DecodeOptional(san);
    var mail :- DecodeOptional(email);
    Ok(BodyOf(u, p, s, c, cp, ep, token, alt, mail, ext2))
  }

  function EndEntityRequest(host: string, username: seq<byte>, password: seq<byte>, subject: seq<byte>, caName: seq<byte>,
                            certProfileName: seq<byte>, endEntityProfileName: seq<byte>, token: string,
                            san: Option<seq<byte>>, email: Option<seq<byte>>,
                            extensions: Option<Dict<PyValue, PyValue>>): (r: Result<Request, PyError>)
    ensures r.Err? ==> r.error == UnicodeDecodeError || r.error == TypeError
    ensures r.Ok? ==> r.value.verb == POST && r.value.url == EndEntityUrl(host) && r.value.headers == JsonHeaders
    ensures r.Ok? ==> r.value.body.Json? && JsonSerialisable(r.value.body.document)
  {
    var body :- EndEntityBody(username, password, subject, caName, certProfileName, endEntityProfileName, token, san, email, extensions);
    // line 167: `json.dumps(d)` raises TypeError on a value it cannot write
    if !JsonSerialisable(PyDict(body)) then Err(TypeError)
    else Ok(Request(POST, EndEntityUrl(host), JsonHeaders, Json(PyDict(body))))
  }

  lemma RequiredFieldsKeys(u: string, p: string, s: string, c: string, cp: string, ep: string, token: string)
    ensures Keys(RequiredFields(u, p, s, c, cp, ep, token)) == RequiredKeys
  {
    var d := RequiredFields(u, p, s, c, cp, ep, token);
    KeysLength(d);
  }

  lemma BodyKeysDistinct(alt: bool, mail: bool)
    ensures var ks := RequiredKeys + OptionalKey("subject_alt_name", alt) + OptionalKey("email", mail) + [PyStr("extensions_data")];
      forall i, j :: 0 <= i < j < |ks| ==> ks[i] != ks[j]
  {
  }

  lemma BodyOfKeys(u: string, p: string, s: string, c: string, cp: string, ep: string, token: string,
                   alt: Option<string>, mail: Option<string>, ext2: Dict<PyValue, PyValue>)
    ensures Keys(BodyOf(u, p, s, c, cp, ep, token, alt, mail, ext2))
         == RequiredKeys + OptionalKey("subject_alt_name", alt.Some?) + OptionalKey("email", mail.Some?) + [PyStr("extensions_data")]
    ensures DistinctKeys(BodyOf(u, p, s, c, cp, ep, token, alt, mail, ext2))
  {
    var req, o1, o2 := RequiredFields(u, p, s, c, cp, ep, token), OptionalField("subject_alt_name", alt), OptionalField("email", mail);
    var last: Dict<PyValue, PyValue> := [(PyStr("extensions_data"), PyDict(ext2))];
    RequiredFieldsKeys(u, p, s, c, cp, ep, token);
    KeysAppend(req, o1);
    KeysAppend(req + o1, o2);
    KeysAppend(req + o1 + o2, last);
    var d := BodyOf(u, p, s, c, cp, ep, token, alt, mail, ext2);
    assert d == req + o1 + o2 + last;
    KeysLength(d);
    BodyKeysDistinct(alt.Some?, mail.Some?);
    DistinctKeysIndex(d);
  }

  /** The decoded arguments land under their own keys: the document pairs each key with its value. */
  lemma BodyOfValues(u: string, p: string, s: string, c: string, cp: string, ep: string, token: string,
                     alt: Option<string>, mail: Option<string>, ext2: Dict<PyValue, PyValue>)
    ensures var d := BodyOf(u, p, s, c, cp, ep, token, alt, mail, ext2);
      && Get(d, PyStr("username")) == Some(PyStr(u))
      && Get(d, PyStr("password")) == Some(PyStr(p))
      && Get(d, PyStr("subject_dn")) == Some(PyStr(s))
      && Get(d, PyStr("ca_name")) == Some(PyStr(c))
      && Get(d, PyStr("certificate_profile_name")) == Some(PyStr(cp))
      && Get(d, PyStr("end_entity_profile_name")) == Some(PyStr(ep))
      && Get(d, PyStr("token")) == Some(PyStr(token))
      && (alt.Some? ==> Get(d, PyStr("subject_alt_name")) == Some(PyStr(alt.value)))
      && (mail.Some? ==> Get(d, PyStr("email")) == Some(PyStr(mail.value)))
      && Get(d, PyStr("extensions_data")) == Some(PyDict(ext2))
  {
    var d := BodyOf(u, p, s, c, cp, ep, token, alt, mail, ext2);
    BodyOfKeys(u, p, s, c, cp, ep, token, alt, mail, ext2);
    KeysLength(d);
    var n := |d|;
    DistinctGet(d, 0);
    DistinctGet(d, 1);
    DistinctGet(d, 2);
    DistinctGet(d, 3);
    DistinctGet(d, 4);
    DistinctGet(d, 5);
    DistinctGet(d, 6);
    DistinctGet(d, n - 1);
    if alt.Some? {
      DistinctGet(d, 7);
    }
    if mail.Some? {
      DistinctGet(d, n - 2);
    }
  }

  lemma EndEntityBodyShape(username: seq<byte>, password: seq<byte>, subject: seq<byte>, caName: seq<byte>,
                           certProfileName: seq<byte>, endEntityProfileName: seq<byte>, token: string,
                           san: Option<seq<byte>>, email: Option<seq<byte>>, extensions: Option<Dict<PyValue, PyValue>>)
    requires EndEntityBody(username, password, subject, caName, certProfileName, endEntityProfileName, token, san, email, extensions).Ok?
    ensures EndEntityBody(username, password, subject, caName, certProfileName, endEntityProfileName, token, san, email, extensions).value
         == BodyOf(DecodeBytes(username).value, DecodeBytes(password).value, DecodeBytes(subject).value,
                   DecodeBytes(caName).value, DecodeBytes(certProfileName).value, DecodeBytes(endEntityProfileName).value, token,
                   DecodeOptional(san).value, DecodeOptional(email).value,
                   DecodeExtensions(if extensions.None? then [] else extensions.value).value)
  {
  }

  /**
   * The body holds the seven required keys, then `subject_alt_name` and `email` exactly when
   * they were supplied, then `extensions_data` always, each key once.
   */
  lemma EndEntityBodyKeys(username: seq<byte>, password: seq<byte>, subject: seq<byte>, caName: seq<byte>,
                          certProfileName: seq<byte>, endEntityProfileName: seq<byte>, token: string,
                          san: Option<seq<byte>>, email: Option<seq<byte>>, extensions: Option<Dict<PyValue, PyValue>>)
    requires EndEntityBody(username, password, subject, caName, certProfileName, endEntityProfileName, token, san, email, extensions).Ok?
    ensures var d := EndEntityBody(username, password, subject, caName, certProfileName, endEntityProfileName, token, san, email, extensions).value;
      && Keys(d) == RequiredKeys + OptionalKey("subject_alt_name", san.Some?) + OptionalKey("email", email.Some?) + [PyStr("extensions_data")]
      && DistinctKeys(d)
  {
    EndEntityBodyShape(username, password, subject, caName, certProfileName, endEntityProfileName, token, san, email, extensions);
    BodyOfKeys(DecodeBytes(username).value, DecodeBytes(password).value, DecodeBytes(subject).value,
               DecodeBytes(caName).value, DecodeBytes(certProfileName).value, DecodeBytes(endEntityProfileName).value, token,
               DecodeOptional(san).value, DecodeOptional(email).value,
               DecodeExtensions(if extensions.None? then [] else extensions.value).value);
  }

  /** Every field is its argument decoded, `token` is the token as given, and no extensions give an empty map. */
  lemma EndEntityBodyValues(username: seq<byte>, password: seq<byte>, subject: seq<byte>, caName: seq<byte>,
                            certProfileName: seq<byte>, endEntityProfileName: seq<byte>, token: string,
                            san: Option<seq<byte>>, email: Option<seq<byte>>, extensions: Option<Dict<PyValue, PyValue>>)
    requires EndEntityBody(username, password, subject, caName, certProfileName, endEntityProfileName, token, san, email, extensions).Ok?
    ensures var d := EndEntityBody(username, password, subject, caName, certProfileName, endEntityProfileName, token, san, email, extensions).value;
      && Get(d, PyStr("username")) == Some(PyStr(DecodeBytes(username).value))
      && Get(d, PyStr("password")) == Some(PyStr(DecodeBytes(password).value))
      && Get(d, PyStr("subject_dn")) == Some(PyStr(DecodeBytes(subject).value))
      && Get(d, PyStr("ca_name")) == Some(PyStr(DecodeBytes(caName).value))
      && Get(d, PyStr("certificate_profile_name")) == Some(PyStr(DecodeBytes(certProfileName).value))
      && Get(d, PyStr("end_entity_profile_name")) == Some(PyStr(DecodeBytes(endEntityProfileName).value))
      && Get(d, PyStr("token")) == Some(PyStr(token))
      && (san.Some? ==> Get(d, PyStr("subject_alt_name")) == Some(PyStr(DecodeBytes(san.value).value)))
      && (email.Some? ==> Get(d, PyStr("email")) == Some(PyStr(DecodeBytes(email.value).value)))
      && Get(d, PyStr("extensions_data")) == Some(PyDict(DecodeExtensions(if extensions.None? then [] else extensions.value).value))
      && (extensions.None? ==> Get(d, PyStr("extensions_data")) == Some(PyDict([])))
  {
    EndEntityBodyShape(username, password, subject, caName, certProfileName, endEntityProfileName, token, san, email, extensions);
    BodyOfValues(DecodeBytes(username).value, DecodeBytes(password).value, DecodeBytes(subject).value,
                 DecodeBytes(caName).value, DecodeBytes(certProfileName).value, DecodeBytes(endEntityProfileName).value, token,
                 DecodeOptional(san).value, DecodeOptional(email).value,
                 DecodeExtensions(if extensions.None? then [] else extensions.value).value);
  }

  /** The body is built exactly when every bytes argument, and every bytes key and value of the map, decodes. */
  lemma EndEntityBodyOk(username: seq<byte>, password: seq<byte>, subject: seq<byte>, caName: seq<byte>,
                        certProfileName: seq<byte>, endEntityProfileName: seq<byte>, token: string,
                        san: Option<seq<byte>>, email: Option<seq<byte>>, extensions: Option<Dict<PyValue, PyValue>>)
    ensures var r := EndEntityBody(username, password, subject, caName, certProfileName, endEntityProfileName, token, san, email, extensions);
      && (r.Ok? <==>
          && DecodeBytes(username).Ok? && DecodeBytes(password).Ok? && DecodeBytes(subject).Ok?
          && DecodeBytes(caName).Ok? && DecodeBytes(certProfileName).Ok? && DecodeBytes(endEntityProfileName).Ok?
          && (san.Some? ==> DecodeBytes(san.value).Ok?) && (email.Some? ==> DecodeBytes(email.value).Ok?)
          && (extensions.Some? ==> forall i :: 0 <= i < |extensions.value| ==> EntryDecodes(extensions.value[i])))
      && (r.Err? ==> r.error == UnicodeDecodeError)
  {
    DecodeExtensionsOk(if extensions.None? then [] else extensions.value);
  }

  /**
   * The request in three cases: a decode error, the TypeError of `json.dumps` when the clone
   * kept a value JSON cannot hold, or the POST of the decoded document.
   */
  lemma EndEntityRequestCases(host: string, username: seq<byte>, password: seq<byte>, subject: seq<byte>, caName: seq<byte>,
                              certProfileName: seq<byte>, endEntityProfileName: seq<byte>, token: string,
                              san: Option<seq<byte>>, email: Option<seq<byte>>, extensions: Option<Dict<PyValue, PyValue>>)
    ensures var r := EndEntityRequest(host, username, password, subject, caName, certProfileName, endEntityProfileName, token, san, email, extensions);
      var decoded :=
          && DecodeBytes(username).Ok? && DecodeBytes(password).Ok? && DecodeBytes(subject).Ok?
          && DecodeBytes(caName).Ok? && DecodeBytes(certProfileName).Ok? && DecodeBytes(endEntityProfileName).Ok?
          && DecodeExtensions(if extensions.None? then [] else extensions.value).Ok?
          && DecodeOptional(san).Ok? && DecodeOptional(email).Ok?;
      && (r.Ok? <==> decoded && JsonSerialisable(PyDict(DecodeExtensions(if extensions.None? then [] else extensions.value).value)))
      && (r.Err? ==> r.error == if decoded then TypeError else UnicodeDecodeError)
      && (r.Ok? ==> r.value == Request(POST, EndEntityUrl(host), JsonHeaders, Json(PyDict(BodyOf(
            DecodeBytes(username).value, DecodeBytes(password).value, DecodeBytes(subject).value,
            DecodeBytes(caName).value, DecodeBytes(certProfileName).value, DecodeBytes(endEntityProfileName).value, token,
            DecodeOptional(san).value, DecodeOptional(email).value,
            DecodeExtensions(if extensions.None? then [] else extensions.value).value)))))
  {
    var b := EndEntityBody(username, password, subject, caName, certProfileName, endEntityProfileName, token, san, email, extensions);
    if b.Ok? {
      BodyOfSerialisable(DecodeBytes(username).value, DecodeBytes(password).value, DecodeBytes(subject).value,
                         DecodeBytes(caName).value, DecodeBytes(certProfileName).value, DecodeBytes(endEntityProfileName).value, token,
                         DecodeOptional(san).value, DecodeOptional(email).value,
                         DecodeExtensions(if extensions.None? then [] else extensions.value).value);
    }
  }

  /** Every field of the document but `extensions_data` is text, so only the clone can stop `json.dumps`. */
  lemma BodyOfSerialisable(u: string, p: string, s: string, c: string, cp: string, ep: string, token: string,
                           alt: Option<string>, mail: Option<string>, ext2: Dict<PyValue, PyValue>)
    ensures JsonSerialisable(PyDict(BodyOf(u, p, s, c, cp, ep, token, alt, mail, ext2))) <==> JsonSerialisable(PyDict(ext2))
  {
    var req, o1, o2 := RequiredFields(u, p, s, c, cp, ep, token), OptionalField("subject_alt_name", alt), OptionalField("email", mail);
    var last: Dict<PyValue, PyValue> := [(PyStr("extensions_data"), PyDict(ext2))];
    assert JsonSerialisable(PyDict(req));
    assert JsonSerialisable(PyDict(o1)) && JsonSerialisable(PyDict(o2));
    SingleSerialisable(PyStr("extensions_data"), PyDict(ext2));
    JsonSerialisableAppend(req, o1);
    JsonSerialisableAppend(req + o1, o2);
    JsonSerialisableAppend(req + o1 + o2, last);
  }

  /** Storing a writable value under a writable key keeps a dict writable. */
  lemma {:induction false} PutSerialisable(d: Dict<PyValue, PyValue>, k: PyValue, v: PyValue)
    requires JsonSerialisable(PyDict(d)) && JsonKey(k) && JsonSerialisable(v)
    ensures JsonSerialisable(PyDict(Put(d, k, v)))
  {
    if d != [] && d[0].0 != k {
      JsonSerialisableAppend([d[0]], d[1..]);
      assert d == [d[0]] + d[1..];
      PutSerialisable(d[1..], k, v);
      JsonSerialisableAppend([d[0]], Put(d[1..], k, v));
    } else if d != [] {
      JsonSerialisableAppend([d[0]], d[1..]);
      assert d == [d[0]] + d[1..];
      JsonSerialisableAppend([(k, v)], d[1..]);
    }
  }

  /** The clone is writable when every key and value is writable once top-level bytes are decoded. */
  lemma {:induction false} CloneSerialisable(ext: Dict<PyValue, PyValue>)
    requires DecodeExtensions(ext).Ok?
    requires forall i :: 0 <= i < |ext| ==> JsonKey(Cloned(ext[i].0)) && JsonSerialisable(Cloned(ext[i].1))
    ensures JsonSerialisable(PyDict(DecodeExtensions(ext).value))
    decreases |ext|
  {
    if ext != [] {
      var init := ext[..|ext| - 1];
      DecodeExtensionsPut(ext);
      assert forall i :: 0 <= i < |init| ==> init[i] == ext[i];
      CloneSerialisable(init);
      PutSerialisable(DecodeExtensions(init).value, Cloned(ext[|ext| - 1].0), Cloned(ext[|ext| - 1].1));
    }
  }

  /** Bytes below the top level survive the clone, so `json.dumps` refuses them: `{b"k": [b"v"]}`. */
  lemma NestedBytesRefused(host: string)
    ensures EndEntityRequest(host, [], [], [], [], [], [], "P12", None, None,
                             Some([(PyBytes([107]), PyList([PyBytes([118])]))])) == Err(TypeError)
  {
    var ext: Dict<PyValue, PyValue> := [(PyBytes([107]), PyList([PyBytes([118])]))];
    DecodeBytesEncode("");
    NestedBytesClone();
    var nested := [PyBytes([118])];
    assert !JsonSerialisable(nested[0]);
    SingleSerialisable(PyStr("k"), PyList(nested));
    EndEntityRequestCases(host, [], [], [], [], [], [], "P12", None, None, Some(ext));
  }

  /** The clone decodes the key only: the list and the bytes in it are kept. */
  lemma NestedBytesClone()
    ensures DecodeExtensions([(PyBytes([107]), PyList([PyBytes([118])]))]) == Ok([(PyStr("k"), PyList([PyBytes([118])]))])
  {
    var ext: Dict<PyValue, PyValue> := [(PyBytes([107]), PyList([PyBytes([118])]))];
    DecodeBytesEncode("k");
    assert Utf8.Encode("k") == [107];
    assert ext[..0] == [];
  }

  /** The loop of lines 151-158, copying the extension map into a new one. */
  method CloneExtensions(ext: Dict<PyValue, PyValue>) returns (r: Result<Dict<PyValue, PyValue>, PyError>)
    ensures r == DecodeExtensions(ext)
  {
    var ext2: Dict<PyValue, PyValue> := [];
    var i := 0;
    while i < |ext|
      invariant 0 <= i <= |ext|
      invariant DecodeExtensions(ext[..i]) == Ok(ext2)
    {
      assert ext[..i + 1][..i] == ext[..i];
      var value := DecodeIfBytes(ext[i].1);
      if value.Err? {
        DecodeExtensionsErrPrefix(ext, i + 1);
        return Err(value.error);
      }
      var key := DecodeIfBytes(ext[i].0);
      if key.Err? {
        DecodeExtensionsErrPrefix(ext, i + 1);
        return Err(key.error);
      }
      ext2 := Put(ext2, key.value, value.value);
      i := i + 1;
    }
    assert ext[..|ext|] == ext;
    r := Ok(ext2);
  }

  /** `d[name] = value` for an optional field, stored only when it was supplied (lines 160-163). */
  method StoreOptional(d: Dict<PyValue, PyValue>, name: string, value: Option<string>) returns (d2: Dict<PyValue, PyValue>)
    requires PyStr(name) !in Keys(d)
    ensures d2 == d + OptionalField(name, value)
  {
    d2 := d;
    if value.Some? {
      d2 := Put(d, PyStr(name), PyStr(value.value));
    }
  }

  /** The dict of lines 137-165 filled key by key from the decoded arguments. */
  method FillBody(u: string, p: string, s: string, c: string, cp: string, ep: string, token: string,
                  alt: Option<string>, mail: Option<string>, ext2: Dict<PyValue, PyValue>) returns (d: Dict<PyValue, PyValue>)
    ensures d == BodyOf(u, p, s, c, cp, ep, token, alt, mail, ext2)
  {
    var required := RequiredFields(u, p, s, c, cp, ep, token);
    FillBodyFresh(u, p, s, c, cp, ep, token, alt, mail);
    d := StoreOptional(required, "subject_alt_name", alt);
    d := StoreOptional(d, "email", mail);
    // `extensions` was replaced by {} when None, so the test at line 164 always holds.
    d := Put(d, PyStr("extensions_data"), PyDict(ext2));
  }

  /** Each key `FillBody` stores is not yet in the dict it is stored into. */
  lemma FillBodyFresh(u: string, p: string, s: string, c: string, cp: string, ep: string, token: string,
                      alt: Option<string>, mail: Option<string>)
    ensures var req := RequiredFields(u, p, s, c, cp, ep, token);
      var withAlt := req + OptionalField("subject_alt_name", alt);
      && PyStr("subject_alt_name") !in Keys(req)
      && PyStr("email") !in Keys(withAlt)
      && PyStr("extensions_data") !in Keys(withAlt + OptionalField("email", mail))
  {
    var req, o1, o2 := RequiredFields(u, p, s, c, cp, ep, token), OptionalField("subject_alt_name", alt), OptionalField("email", mail);
    RequiredFieldsKeys(u, p, s, c, cp, ep, token);
    KeysAppend(req, o1);
    KeysAppend(req + o1, o2);
    BodyKeysDistinct(alt.Some?, mail.Some?);
    var ks := RequiredKeys + OptionalKey("subject_alt_name", alt.Some?) + OptionalKey("email", mail.Some?) + [PyStr("extensions_data")];
    assert Keys(o1) == OptionalKey("subject_alt_name", alt.Some?);
    assert Keys(o2) == OptionalKey("email", mail.Some?);
    assert ks[|ks| - 1] == PyStr("extensions_data");
  }

  /** `add_end_entity` up to the request: the dict is filled step by step as in lines 137-165. */
  method AddEndEntityRequest(host: string, username: seq<byte>, password: seq<byte>, subject: seq<byte>, caName: seq<byte>,
                             certProfileName: seq<byte>, endEntityProfileName: seq<byte>, token: string := "P12",
                             san: Option<seq<byte>> := None, email: Option<seq<byte>> := None,
                             extensions: Option<Dict<PyValue, PyValue>> := None)
    returns (r: Result<Request, PyError>)
    ensures r == EndEntityRequest(host, username, password, subject, caName, certProfileName, endEntityProfileName, token, san, email, extensions)
  {
    EndEntityRequestCases(host, username, password, subject, caName, certProfileName, endEntityProfileName, token, san, email, extensions);
    var u :- DecodeBytes(username);
    var p :- DecodeBytes(password);
    var s :- DecodeBytes(subject);
    var c :- DecodeBytes(caName);
    var cp :- DecodeBytes(certProfileName);
    var ep :- DecodeBytes(endEntityProfileName);
    var ext2 :- CloneExtensions(if extensions.None? then [] else extensions.value);
    var alt :- DecodeOptional(san);
    var mail :- DecodeOptional(email);
    var d := FillBody(u, p, s, c, cp, ep, token, alt, mail, ext2);
    if !JsonSerialisable(PyDict(d)) {
      return Err(TypeError);
    }
    r := Ok(Request(POST, EndEntityUrl(host), JsonHeaders, Json(PyDict(d))));
  }

  function AddEndEntityResult(resp: Response): (r: Result<(), PyError>)
    ensures r.Ok? <==> resp.status == SuccessStatus(AddEndEntity)
    ensures r.Err? ==> r.error == (if Helpers.Dump(resp.body).Ok? then RuntimeError("") else UnicodeDecodeError)
  {
    CheckStatus(AddEndEntity, resp.status, resp.body)
  }

  // ---------------------------------------------------------------------------------------
  // delete_end_entity

  /** The username is decoded before the template is formatted, so a decode error comes first. */
  function DeleteEndEntityRequest(host: string, username: seq<byte>): (r: Result<Request, PyError>)
    ensures DecodeBytes(username).Err? ==> r == Err(UnicodeDecodeError)
    ensures DecodeBytes(username).Ok? && !LiteralForFormat(host) ==> r == Err(FormatError)
    ensures r.Ok? <==> DecodeBytes(username).Ok? && LiteralForFormat(host)
    ensures r.Ok? ==> r.value.verb == DELETE && r.value.headers == [] && r.value.body == NoBody
    ensures r.Ok? ==> r.value.url == EndEntityUrl2(host, DecodeBytes(username).value).value
  {
    var u :- DecodeBytes(username);
    var url :- EndEntityUrl2(host, u);
    Ok(Request(DELETE, url, [], NoBody))
  }

  /** The URL ends with the username's text exactly as decoded, with no percent-encoding. */
  lemma DeleteUrlCarriesUsername(host: string, username: seq<byte>)
    requires DeleteEndEntityRequest(host, username).Ok?
    ensures var url := DeleteEndEntityRequest(host, username).value.url;
      && url == "https://" + host + ApiRoot + "/endentity/" + DecodeBytes(username).value
      && Utf8.Encode(url[|url| - |DecodeBytes(username).value|..]) == username
  {
    var u := DecodeBytes(username).value;
    var url := DeleteEndEntityRequest(host, username).value.url;
    assert url[|url| - |u|..] == u;
  }

  function DeleteEndEntityResult(resp: Response): (r: Result<(), PyError>)
    ensures r.Ok? <==> resp.status == SuccessStatus(DeleteEndEntity)
    ensures r.Err? ==> r.error == (if Helpers.Dump(resp.body).Ok? then RuntimeError("") else UnicodeDecodeError)
  {
    CheckStatus(DeleteEndEntity, resp.status, resp.body)
  }

  // ---------------------------------------------------------------------------------------
  // enroll_keystore

  function EnrollKeystoreRequest(host: string, username: seq<byte>, password: seq<byte>, keyAlg: seq<byte>, keySpec: seq<byte>)
    : (r: Result<Request, PyError>)
    ensures r.Ok? <==> DecodeBytes(username).Ok? && DecodeBytes(password).Ok? && DecodeBytes(keyAlg).Ok? && DecodeBytes(keySpec).Ok?
    ensures r.Err? ==> r.error == UnicodeDecodeError
    ensures r.Ok? ==> r.value == Request(POST, EnrollKeystoreUrl(host), JsonHeaders, Json(PyDict([
      (PyStr("username"), PyStr(DecodeBytes(username).value)),
      (PyStr("password"), PyStr(DecodeBytes(password).value)),
      (PyStr("key_alg"), PyStr(DecodeBytes(keyAlg).value)),
      (PyStr("key_spec"), PyStr(DecodeBytes(keySpec).value))])))
  {
    var u :- DecodeBytes(username);
    var p :- DecodeBytes(password);
    var a :- DecodeBytes(keyAlg);
    var s :- DecodeBytes(keySpec);
    Ok(Request(POST, EnrollKeystoreUrl(host), JsonHeaders, Json(PyDict([
      (PyStr("username"), PyStr(u)), (PyStr("password"), PyStr(p)),
      (PyStr("key_alg"), PyStr(a)), (PyStr("key_spec"), PyStr(s))]))))
  }

  /**
   * On 201 the document's `certificate`, then its `response_format`, are looked up and
   * re-encoded; the pair comes back as (response_format, certificate).
   */
  function EnrollKeystoreResult(resp: JsonResponse): (r: Result<(seq<byte>, seq<byte>), PyError>)
    ensures r.Ok? ==> resp.status == SuccessStatus(EnrollKeystore) && resp.json.Some?
    ensures resp.status != SuccessStatus(EnrollKeystore)
      ==> r == Err(if Helpers.Dump(resp.body).Ok? then RuntimeError("") else UnicodeDecodeError)
  {
    var _ :- CheckStatus(EnrollKeystore, resp.status, resp.body);
    var doc :- if resp.json.None? then Err(JsonDecodeError) else Ok(resp.json.value);
    var certificate :- Subscript(doc, "certificate");
    var certificateBytes :- EncodeStr(certificate);
    var format :- Subscript(doc, "response_format");
    var formatBytes :- EncodeStr(format);
    Ok((formatBytes, certificateBytes))
  }

  /** The pair is (response_format, certificate), each the UTF-8 octets of the document's string. */
  lemma EnrollKeystoreOrder(resp: JsonResponse, certificate: string, format: string)
    requires resp.status == 201 && resp.json.Some? && resp.json.value.PyDict?
    requires Get(resp.json.value.entries, PyStr("certificate")) == Some(PyStr(certificate))
    requires Get(resp.json.value.entries, PyStr("response_format")) == Some(PyStr(format))
    ensures EnrollKeystoreResult(resp) == Ok((Utf8.Encode(format), Utf8.Encode(certificate)))
    ensures DecodeBytes(EnrollKeystoreResult(resp).value.0) == Ok(format)
    ensures DecodeBytes(EnrollKeystoreResult(resp).value.1) == Ok(certificate)
  {
    GetPresent(resp.json.value.entries, PyStr("certificate"));
    GetPresent(resp.json.value.entries, PyStr("response_format"));
  }

  /** A `certificate` that is not a string has no `encode`: AttributeError, before `response_format` is read. */
  lemma EnrollKeystoreNotString(resp: JsonResponse, certificate: PyValue)
    requires resp.status == 201 && resp.json.Some? && resp.json.value.PyDict?
    requires Get(resp.json.value.entries, PyStr("certificate")) == Some(certificate) && !certificate.PyStr?
    ensures EnrollKeystoreResult(resp) == Err(AttributeError)
  {
    GetPresent(resp.json.value.entries, PyStr("certificate"));
  }
}
