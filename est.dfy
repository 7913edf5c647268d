/**
 * The EST adapter of ejbca/est.py (RFC 7030): the well-known URLs, the RA-mode credential
 * check, the request headers with HTTP Basic authentication (section 2 of RFC 7617), and the
 * post-processing of a response body. The server's name and alias are the values the
 * module-level `ejbca.server` holds when the call is made; they are passed in.
 */
module Est {
  import opened Base
  import opened Dicts
  import opened PyObjects
  import opened Http
  import Base64
  import Helpers
  import Utf8

  const WellKnownPrefix: string := "/.well-known/est/"

  /** `_simpleenroll_url()`: section 4.2.1 of RFC 7030. */
  function SimpleEnrollUrl(name: string, alias: string): string
  {
    "https://" + name + WellKnownPrefix + alias + "/simpleenroll"
  }

  /** `_cacerts_url()`: section 4.1 of RFC 7030. */
  function CaCertsUrl(name: string, alias: string): string
  {
    "https://" + name + WellKnownPrefix + alias + "/cacerts"
  }

  /** Both operations live under the same well-known base for a server and differ in their last segment. */
  lemma WellKnownUrlsShareBase(name: string, alias: string)
    ensures var base := "https://" + name + WellKnownPrefix + alias;
      && SimpleEnrollUrl(name, alias) == base + "/simpleenroll"
      && CaCertsUrl(name, alias) == base + "/cacerts"
      && SimpleEnrollUrl(name, alias) != CaCertsUrl(name, alias)
  {
    var base := "https://" + name + WellKnownPrefix + alias;
    assert SimpleEnrollUrl(name, alias)[|base| + 1] == 's';
    assert CaCertsUrl(name, alias)[|base| + 1] == 'c';
  }

  // ---------------------------------------------------------------------------------------
  // simple_enroll

  const RaModeMessage: string := "RA mode requires username and password"

  /** The test of lines 37-38: an RA (non-client) caller must supply both username and password. */
  function CheckCredentials(clientMode: bool, username: Option<seq<byte>>, password: Option<seq<byte>>): (r: Result<(), PyError>)
    ensures r.Err? <==> !clientMode && (username.None? || password.None?)
    ensures r.Err? ==> r.error == ValueError(RaModeMessage)
  {
    if !clientMode && (username.None? || password.None?) then Err(ValueError(RaModeMessage)) else Ok(())
  }

  /** Lines 32-35: the override, decoded, or else the well-known enrollment URL. */
  function EnrollUrl(name: string, alias: string, url: Option<seq<byte>>): (r: Result<string, PyError>)
    ensures url.None? ==> r == Ok(SimpleEnrollUrl(name, alias))
    ensures url.Some? ==> r == DecodeBytes(url.value)
  {
    match url
    case None => Ok(SimpleEnrollUrl(name, alias))
    case Some(u) => DecodeBytes(u)
  }

  /** `username + b':' + password`, the user-pass of section 2 of RFC 7617. */
  function UserPass(username: seq<byte>, password: seq<byte>): seq<byte>
  {
    username + [':' as int] + password
  }

  /** The value of the Authorization header of line 55. */
  function BasicAuth(username: seq<byte>, password: seq<byte>): string
  {
    "Basic " + Base64.Encode(UserPass(username, password))
  }

  /** The headers of lines 47-51, in insertion order. */
  const EnrollFixedHeaders: Dict<string, string> := [
    ("Accept", "application/pkcs7-mime; smime-type=certs-only"),
    ("Content-Type", "application/pkcs10"),
    ("Content-Transfer-Encoding", "base64")]

  /** The headers `simple_enroll` sends: the fixed three, then Authorization unless in client mode. */
  function EnrollHeaders(clientMode: bool, username: seq<byte>, password: seq<byte>): Dict<string, string>
  {
    EnrollFixedHeaders + (if clientMode then [] else [("Authorization", BasicAuth(username, password))])
  }

  /** Lines 47-55: the header dict is built, then Authorization is inserted into it in RA mode. */
  method BuildEnrollHeaders(clientMode: bool, username: Option<seq<byte>>, password: Option<seq<byte>>)
    returns (headers: Dict<string, string>)
    requires CheckCredentials(clientMode, username, password).Ok?
    ensures !clientMode ==> headers == EnrollHeaders(false, username.value, password.value)
    ensures clientMode ==> headers == EnrollFixedHeaders
  {
    headers := EnrollFixedHeaders;
    if !clientMode {
      var token := Base64.Encode(UserPass(username.value, password.value));
      assert Keys(headers) == ["Accept", "Content-Type", "Content-Transfer-Encoding"];
      headers := Put(headers, "Authorization", "Basic " + token);
    }
  }

  /** An Authorization header is present exactly outside client mode, once, after the fixed three. */
  lemma EnrollHeadersKeys(clientMode: bool, username: seq<byte>, password: seq<byte>)
    ensures Keys(EnrollHeaders(clientMode, username, password))
         == ["Accept", "Content-Type", "Content-Transfer-Encoding"] + (if clientMode then [] else ["Authorization"])
    ensures DistinctKeys(EnrollHeaders(clientMode, username, password))
    ensures Get(EnrollHeaders(clientMode, username, password), "Authorization").Some? <==> !clientMode
  {
    var h := EnrollHeaders(clientMode, username, password);
    KeysLength(h);
    assert Keys(h) == ["Accept", "Content-Type", "Content-Transfer-Encoding"] + (if clientMode then [] else ["Authorization"]);
    GetPresent(h, "Authorization");
    DistinctKeysIndex(h);
  }

  /** The user-pass split at its first ':'; None when there is no ':'. */
  function SplitUserPass(b: seq<byte>): (r: Option<(seq<byte>, seq<byte>)>)
    ensures r.Some? ==> b == UserPass(r.value.0, r.value.1) && (':' as int) !in r.value.0
    ensures r.None? ==> (':' as int) !in b
  {
    if b == [] then None
    else if b[0] == ':' as int then Some(([], b[1..]))
    else
      var (u, p) :- SplitUserPass(b[1..]);
      Some(([b[0]] + u, p))
  }

  /** The server's reading of a Basic header: the scheme, then base64 of user-id ':' password. */
  function ParseBasicAuth(h: string): Option<(seq<byte>, seq<byte>)>
  {
    if |h| < 6 || h[..6] != "Basic " then None
    else
      var b :- Base64.Decode(h[6..]);
      SplitUserPass(b)
  }

  lemma {:induction false} SplitUserPassOf(username: seq<byte>, password: seq<byte>)
    requires (':' as int) !in username
    ensures SplitUserPass(UserPass(username, password)) == Some((username, password))
  {
    var b := UserPass(username, password);
    if username != [] {
      assert b[1..] == UserPass(username[1..], password);
      SplitUserPassOf(username[1..], password);
      assert username == [username[0]] + username[1..];
    }
  }

  /**
   * The header carries the credentials: a server reading it recovers username and password,
   * provided the username has no ':' (which section 2 of RFC 7617 forbids in a user-id).
   */
  lemma BasicAuthRoundTrip(username: seq<byte>, password: seq<byte>)
    requires (':' as int) !in username
    ensures ParseBasicAuth(BasicAuth(username, password)) == Some((username, password))
  {
    var h := BasicAuth(username, password);
    assert h[..6] == "Basic " && h[6..] == Base64.Encode(UserPass(username, password));
    Base64.DecodeEncode(UserPass(username, password));
    SplitUserPassOf(username, password);
  }

  /**
   * `simple_enroll` up to the request: the URL override is decoded first, then the RA-mode
   * check is made, then the headers are built; the body is the CSR as given.
   */
  method SimpleEnrollRequest(name: string, alias: string, csr: seq<byte>, clientMode: bool := false,
                             username: Option<seq<byte>> := None, password: Option<seq<byte>> := None,
                             url: Option<seq<byte>> := None)
    returns (r: Result<Request, PyError>)
    ensures EnrollUrl(name, alias, url).Err? ==> r == Err(UnicodeDecodeError)
    ensures EnrollUrl(name, alias, url).Ok? && !clientMode && (username.None? || password.None?)
            ==> r == Err(ValueError(RaModeMessage))
    ensures r.Ok? <==> EnrollUrl(name, alias, url).Ok? && CheckCredentials(clientMode, username, password).Ok?
    ensures r.Ok? ==> r.value.verb == POST && r.value.url == EnrollUrl(name, alias, url).value && r.value.body == Raw(csr)
    ensures r.Ok? && clientMode ==> r.value.headers == EnrollFixedHeaders
    ensures r.Ok? && !clientMode ==> r.value.headers == EnrollHeaders(false, username.value, password.value)
  {
    var target :- EnrollUrl(name, alias, url);
    var _ :- CheckCredentials(clientMode, username, password);
    var headers := BuildEnrollHeaders(clientMode, username, password);
    r := Ok(Request(POST, target, headers, Raw(csr)));
  }

  // ---------------------------------------------------------------------------------------
  // The response body

  const Newline: byte := 10

  /** `data.replace(b'\n', b'')`. */
  function StripNewlines(b: seq<byte>): (r: seq<byte>)
    ensures Newline !in r
    ensures |r| <= |b|
  {
    if b == [] then []
    else if b[0] == Newline then StripNewlines(b[1..])
    else [b[0]] + StripNewlines(b[1..])
  }

  lemma {:induction false} StripNewlinesAppend(a: seq<byte>, b: seq<byte>)
    ensures StripNewlines(a + b) == StripNewlines(a) + StripNewlines(b)
  {
    if a == [] {
      assert a + b == b;
    } else {
      assert (a + b)[1..] == a[1..] + b;
      StripNewlinesAppend(a[1..], b);
    }
  }

  /** Bytes other than '\n' are kept, in order: a body without newlines is returned unchanged. */
  lemma {:induction false} StripNewlinesIdentity(b: seq<byte>)
    requires Newline !in b
    ensures StripNewlines(b) == b
  {
    if b != [] {
      StripNewlinesIdentity(b[1..]);
    }
  }

  /** A newline anywhere is dropped and nothing around it changes. */
  lemma DropsNewline(a: seq<byte>, c: seq<byte>)
    ensures StripNewlines(a + [Newline] + c) == StripNewlines(a + c)
  {
    StripNewlinesAppend(a + [Newline], c);
    StripNewlinesAppend(a, [Newline]);
    StripNewlinesAppend(a, c);
    assert StripNewlines([Newline]) == [];
  }

  /** Stripping again changes nothing. */
  lemma StripNewlinesIdempotent(b: seq<byte>)
    ensures StripNewlines(StripNewlines(b)) == StripNewlines(b)
  {
    StripNewlinesIdentity(StripNewlines(b));
  }

  const EnrollFailure: string := "Enrollment (EST) failure"
  const CaCertsFailure: string := "CA certificate fetch failure"

  /**
   * Lines 75-85: only 200 succeeds, with the body's newlines removed. Any other status first
   * has `helpers.dump` decode the body (tracing being off), then raises the enrollment failure.
   */
  function SimpleEnrollResult(resp: Response): (r: Result<seq<byte>, PyError>)
    ensures r.Ok? <==> resp.status == 200
    ensures r.Ok? ==> r.value == StripNewlines(resp.body) && Newline !in r.value
    ensures r.Err? ==> r.error == (if Helpers.Dump(resp.body).Ok? then RuntimeError(EnrollFailure) else UnicodeDecodeError)
  {
    if resp.status == 200 then Ok(StripNewlines(resp.body))
    else
      var _ :- Helpers.Dump(resp.body);
      Err(RuntimeError(EnrollFailure))
  }

  // ---------------------------------------------------------------------------------------
  // ca_certs

  /** The headers of lines 101-105. */
  const CaCertsHeaders: Dict<string, string> := [
    ("Accept", "application/pkcs7-mime"),
    ("Content-Type", "application/pkcs7-mime"),
    ("Content-Transfer-Encoding", "base64")]

  /** `ca_certs` up to the request: a GET of the well-known URL with no credentials in the headers. */
  function CaCertsRequest(name: string, alias: string): (r: Request)
    ensures r.verb == GET && r.body == NoBody
    ensures r.url == CaCertsUrl(name, alias)
    ensures Get(r.headers, "Authorization") == None
    ensures Keys(r.headers) == ["Accept", "Content-Type", "Content-Transfer-Encoding"]
    ensures Get(r.headers, "Accept") == Some("application/pkcs7-mime")
    ensures Get(r.headers, "Content-Type") == Some("application/pkcs7-mime")
    ensures Get(r.headers, "Content-Transfer-Encoding") == Some("base64")
  {
    Request(GET, CaCertsUrl(name, alias), CaCertsHeaders, NoBody)
  }

  /** Lines 123-133: the same rule as for enrollment, with its own message. */
  function CaCertsResult(resp: Response): (r: Result<seq<byte>, PyError>)
    ensures r.Ok? <==> resp.status == 200
    ensures r.Ok? ==> r.value == StripNewlines(resp.body) && Newline !in r.value
    ensures r.Err? ==> r.error == (if Helpers.Dump(resp.body).Ok? then RuntimeError(CaCertsFailure) else UnicodeDecodeError)
  {
    if resp.status == 200 then Ok(StripNewlines(resp.body))
    else
      var _ :- Helpers.Dump(resp.body);
      Err(RuntimeError(CaCertsFailure))
  }

  /** A refused status with a text body raises the call's own message; the octet 0xFF makes `dump` raise first. */
  lemma FailureBody(status: int, t: string)
    requires status != 200
    ensures SimpleEnrollResult(Response(status, Utf8.Encode(t))) == Err(RuntimeError(EnrollFailure))
    ensures CaCertsResult(Response(status, Utf8.Encode(t))) == Err(RuntimeError(CaCertsFailure))
    ensures SimpleEnrollResult(Response(status, [0xFF])) == Err(UnicodeDecodeError)
    ensures CaCertsResult(Response(status, [0xFF])) == Err(UnicodeDecodeError)
  {
  }
}
