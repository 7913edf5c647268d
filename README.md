# ejbca client library: a Dafny model of its deterministic core

The `ejbca` Python package is a client for an EJBCA certificate authority. It speaks four
protocols: the REST management API, EST enrollment (RFC 7030), OCSP, and the RFC 4387
certificate store. Each call builds a request, hands it to `urllib3`, and classifies the
response. This project models everything up to the hand-off and from the response on, and
proves what that logic promises. The transport itself is not modelled.

Modules, one per source file plus shared ones:

- `Base`: octets, and the `Option`/`Result` wrappers. A `Result` error is the exception the
  source raises.
- `Dicts`: Python dicts as insertion-ordered lists of pairs (`Put` is `d[k] = v`).
- `PyObjects`: the values `json.loads` yields, the exceptions, truthiness, `v[key]`,
  `bytes.decode()` and `str.encode()`.
- `Utf8` and `Base64`: the two codecs, written out. Each has a strict decoder as its partner.
- `Http`: the request a call sends and the response it reads.
- `Helpers` (`ejbca/helpers.py`):
  - `quote`/`unquote` with no safe characters (sections 2.1 and 2.3 of RFC 3986);
  - `localurl`;
  - `parse_ts`, the `strptime` layout `%Y-%m-%dT%H:%M:%SZ` (the layout of section 5.6 of RFC 3339).
- `Ejbca` (`ejbca/__init__.py`): `Creds` and `Server` as classes whose setters change one
  field each, and the module defaults.
- `Rest` (`ejbca/rest.py`):
  - the URL templates;
  - the request of each of the five calls, and how each reads its response;
  - the end-entity body, filled step by step by a method, as the source does;
  - the extension-map clone, as a loop.
- `Est` (`ejbca/est.py`):
  - the well-known URLs;
  - the RA-mode credential check;
  - the headers, including HTTP Basic authentication (section 2 of RFC 7617);
  - newline stripping.
- `CertStore` (`ejbca/certstore.py`):
  - the LDAP-order canonicalisation, as a loop;
  - the 27-character `sHash` index;
  - the search request and the status check.

These inputs are parameters rather than ambient state:

- The server's `name` and `alias` are the module-level `ejbca.server` at call time (`host`,
  `name`, `alias`).
- File existence is the set of paths that exist.
- DER serialisation and SHA-1 are functions supplied by the caller. The digest is only known
  to be 20 octets.
- A response is its status and body. A response read as JSON also carries the document `json.loads` makes of that body.

Behaviour of the code that the model keeps as written:

- A refused status raises `RuntimeError`, with no message in `ejbca/rest.py`. In `ejbca/est.py` and
  `ejbca/certstore.py` it carries the source's messages. These are not distinct error classes.
  In `ejbca/rest.py` and `ejbca/est.py`, `helpers.dump` decodes the body first, so a body that is
  not UTF-8 raises UnicodeDecodeError instead (`Rest.FailureBody`, `Est.FailureBody`).
- `ejbca/est.py` holds a single definition of `simple_enroll` and of `ca_certs`. These are the
  ones modelled: the RA-mode Basic-auth variant, which requires both username and password.
- A username given to `delete_end_entity` is put into the URL as decoded, without
  percent-encoding (`Rest.DeleteUrlCarriesUsername`).
- `extensions_data` is always present in the end-entity body. Line 147 replaces a missing map
  by `{}`, so the test at line 164 always holds.

## Model

| member | source | states |
|---|---|---|
| PyObjects.Subscript | ejbca/rest.py:105 | `doc[key]` succeeds exactly on a dict holding the key, with its value; otherwise it is KeyError, or TypeError for a non-dict |
| PyObjects.DecodeBytes | ejbca/rest.py:139-144 | a successful `decode()` yields text whose UTF-8 encoding is the input; a failure is UnicodeDecodeError |
| PyObjects.DecodeBytesEncode | ejbca/rest.py:305-306 | decoding the UTF-8 encoding of any text gives that text back |
| PyObjects.EncodeStr | ejbca/rest.py:305-306 | `encode()` succeeds exactly on a str, and its octets decode back to it; anything else raises AttributeError |
| PyObjects.DecodeIfBytes | ejbca/rest.py:153-157 | non-bytes pass unchanged; bytes become the str they decode to, or UnicodeDecodeError |
| Dicts.Put | ejbca/rest.py:158 | `d[k] = v`: k maps to v and other keys are unchanged; a new key is appended, a present key keeps its place; distinct keys stay distinct |
| Dicts.FirstOccurrencesMeaning | ejbca/rest.py:151-158 | the key order of a dict filled from a sequence of keys holds every key once, and only the keys of the sequence |
| Utf8.DecodeEncode | ejbca/rest.py:305-306 | strict UTF-8 decoding undoes encoding, for every text |
| Utf8.EncodeDecode | ejbca/rest.py:139-144 | every octet string that decodes is the encoding of what it decodes to |
| Base64.DecodeEncode | ejbca/est.py:54 | the strict RFC 4648 decoder undoes `b64encode`, for every octet string |
| Base64.EncodeDecodeInverse | ejbca/est.py:54 | every text the strict decoder accepts is the `b64encode` output of its result |
| Base64.PaddingAtEnd | ejbca/certstore.py:63-66 | '=' appears exactly in the last (3 - n mod 3) mod 3 positions of the encoding of n octets |
| Helpers.QuoteAppend | ejbca/helpers.py:36-37 | `quote` works octet by octet: the quote of a concatenation is the concatenation of the quotes |
| Helpers.QuoteEscapes | ejbca/helpers.py:36-37 | an unreserved octet is written as itself; every other octet, '/' included, is '%' and two upper-case hex digits |
| Helpers.Quote | ejbca/helpers.py:33-37 | `quote(s, safe='')` writes only unreserved characters and '%'; how each octet is written is Helpers.QuoteEscapes, the length Helpers.QuoteLength |
| Helpers.QuoteText | ejbca/helpers.py:36-37 | `quote` of a str percent-encodes its UTF-8 octets; Helpers.QuoteTextRoundTrip undoes it |
| Helpers.QuoteHasNoDelimiters | ejbca/helpers.py:36-37 | the output never holds '/', '?', '#', ';', '=' or '&' |
| Helpers.QuoteLength | ejbca/helpers.py:36-37 | output length is the input length plus two per escaped octet |
| Helpers.QuoteUnreservedIdentity | ejbca/helpers.py:36-37 | on input made only of unreserved octets, `quote` is the identity |
| Helpers.Unquote | ejbca/helpers.py:39-40 | `unquote_to_bytes` of a str, which reads its UTF-8 octets; Helpers.UnquoteQuote shows it undoes `quote` |
| Helpers.UnquoteQuote | ejbca/helpers.py:36-40 | `unquote_to_bytes(quote(s)) == s` for every octet string; Helpers.QuoteTextRoundTrip is the round trip through the text forms of lines 36-37 and 42-43 |
| Helpers.QuoteTextRoundTrip | ejbca/helpers.py:36-43 | the same round trip for text, through its UTF-8 octets |
| Helpers.UnquoteText | ejbca/helpers.py:42-43 | a result is text whose UTF-8 octets are the unquoted octets; None exactly when those octets are the encoding of no text |
| Helpers.LocalUrl | ejbca/helpers.py:45-54 | the local URL starts with the path, and is exactly the path when params, query and fragment are empty; Helpers.LocalUrlRoundTrip shows what follows the path |
| Helpers.LocalUrlIgnoresSchemeAndHost | ejbca/helpers.py:45-54 | scheme and host have no influence on the local URL |
| Helpers.LocalUrlRoundTrip | ejbca/helpers.py:45-54 | for pieces as `urlparse` returns them, splitting the local URL by `urlparse`'s rules gives back path, params, query and fragment: each appears exactly when non-empty, after its own delimiter, in that order |
| Helpers.ParseTs | ejbca/helpers.py:30-31 | a parsed timestamp is a valid date and time; any failure is strptime's ValueError |
| Helpers.ParseFormatTs | ejbca/helpers.py:30-31 | every valid date and time written in the layout `%Y-%m-%dT%H:%M:%SZ` parses back to itself; any trailing text makes the parse fail |
| Helpers.ScanLayout | ejbca/helpers.py:30-31 | text of the layout is split at the literal separators (case-insensitively for 'T' and 'Z') into its fields; unconsumed text is refused |
| Helpers.FieldExamples | ejbca/helpers.py:30-31 | strptime's field rules on concrete inputs: one- or two-digit fields, a space-padded day, range limits, leap years, seconds 60 and 61 refused by datetime |
| Helpers.Dump | ejbca/helpers.py:24-28 | `dump` fails exactly when the body is the UTF-8 encoding of no text, and then with UnicodeDecodeError |
| Ejbca.CheckFile | ejbca/__init__.py:16-18 | a supplied path that does not exist raises FileNotFoundError carrying it; anything else passes |
| Ejbca.CheckCredsFiles | ejbca/__init__.py:28-35 | construction checks bundle, then cert, then key; it fails exactly when a supplied path is missing, with the first missing one |
| Ejbca.NoPathsNoFailure | ejbca/__init__.py:20-26 | with no paths there is nothing to check, whatever exists |
| Ejbca.CheckCredsFilesLocal | ejbca/__init__.py:16-18 | the outcome depends only on whether the supplied paths exist |
| Ejbca.Creds.Init | ejbca/__init__.py:27-36 | each field holds its argument verbatim |
| Ejbca.Creds.New | ejbca/__init__.py:20-36 | `Creds(...)` fails with the checks' error, or yields a fresh object whose fields are the arguments |
| Ejbca.Creds.Default | ejbca/__init__.py:20-26 | `Creds()` is not secure and has no bundle, cert or key |
| Ejbca.Creds.SetSecure | ejbca/__init__.py:48-50 | sets `secure` and leaves the other fields unchanged |
| Ejbca.Creds.SetBundle | ejbca/__init__.py:56-58 | sets `bundle` to any path, with no existence check; other fields unchanged |
| Ejbca.Creds.SetCert | ejbca/__init__.py:64-66 | sets `cert` with no existence check; other fields unchanged |
| Ejbca.Creds.SetKey | ejbca/__init__.py:72-74 | sets `key` with no existence check; other fields unchanged |
| Ejbca.Server.constructor | ejbca/__init__.py:80-82 | a new server has the given name and alias 'est' |
| Ejbca.Server.SetName | ejbca/__init__.py:88-90 | sets the name; the alias is unchanged |
| Ejbca.Server.SetAlias | ejbca/__init__.py:96-98 | sets the alias; the name is unchanged |
| Ejbca.DefaultServer | ejbca/__init__.py:100 | the module-level server is named 'ca.primekey.se' with alias 'est' |
| Rest.CheckStatus | ejbca/rest.py:53-56 | a call succeeds exactly on its one success status (201 for `enroll_keystore`, 200 otherwise); any other status raises UnicodeDecodeError from `helpers.dump` when the body is not UTF-8, and otherwise a bare RuntimeError |
| Rest.FailureBody | ejbca/rest.py:53-56 | for every call, a refused status with a text body raises RuntimeError, and with the octet 0xFF raises UnicodeDecodeError |
| Rest.FormatHex | ejbca/rest.py:63-75 | `{:x}` of a serial: non-empty lower-case hex digits with no leading zero except for 0 itself, after a '-' exactly for a negative serial; Rest.FormatHexRoundTrip reads it back |
| Rest.HexValueOfHexNat | ejbca/rest.py:63-64 | the lower-case hex digits of n read back as n |
| Rest.ParseSignedHex | ejbca/rest.py:63-64 | the reader of the serial segment takes an optional '-' and lower-case hex digits to their value, negated after the '-' |
| Rest.FormatHexRoundTrip | ejbca/rest.py:63-75 | parsing the `{:x}` form of any serial, negative ones included, gives the serial |
| Rest.FormatHexAlphabet | ejbca/rest.py:63-64 | the serial segment is lower-case hex digits, with a leading '-' only for a negative serial; no '/', no `0x` |
| Rest.CertUrl | ejbca/rest.py:21-32 | formatting fails exactly when the host holds a brace |
| Rest.CertUrlSegment | ejbca/rest.py:21-32 | the certificate URL is the fixed prefix, one segment with no '/' that unquotes to the subject, then `/certificate/download` |
| Rest.RevocationUrl | ejbca/rest.py:63-75 | formatting fails exactly when the host holds a brace |
| Rest.RevocationUrlSegments | ejbca/rest.py:63-75 | the revocation URL has the issuer in one segment that unquotes to it, and the serial in the next segment, which parses back to the serial |
| Rest.EndEntityUrl2 | ejbca/rest.py:206-214 | formatting fails exactly when the host holds a brace |
| Rest.EndEntityUrl | ejbca/rest.py:118-119 | the `add_end_entity` URL; for a host without a brace, the `delete_end_entity` URL of any username is it, '/', then the username |
| Rest.EnrollKeystoreUrl | ejbca/rest.py:241-242 | the `enroll_keystore` URL; what the request with it carries is Rest.EnrollKeystoreRequest |
| Rest.GetCertRequest | ejbca/rest.py:24-49 | `getcert` sends a GET of the certificate URL with no headers or body, or fails as formatting does |
| Rest.GetCertResult | ejbca/rest.py:53-61 | the certificate is the body, unchanged, on 200 only; otherwise the error of Rest.CheckStatus |
| Rest.GetCertStatusRequest | ejbca/rest.py:66-92 | `getcertstatus` sends a GET of the revocation URL, or fails as formatting does |
| Rest.RevocationDate | ejbca/rest.py:112-113 | the date is parsed exactly when it is a str that `parse_ts` accepts |
| Rest.DecodeRevocation | ejbca/rest.py:103-116 | a date is present exactly when `revoked` is truthy; a falsy `revoked` gives `(False, None, None, None)` |
| Rest.NotRevokedIgnoresRest | ejbca/rest.py:105-109 | a falsy `revoked` gives `(False, None, None, None)` whatever else the document holds |
| Rest.RevokedFields | ejbca/rest.py:111-116 | a truthy `revoked` gives the document's revoked, reason and message, and the parsed date |
| Rest.RevokedMissingField | ejbca/rest.py:111 | a truthy `revoked` without `revocation_reason` raises KeyError for it |
| Rest.GetCertStatusResult | ejbca/rest.py:97-116 | the status is checked first (a refused one raises as Rest.CheckStatus says), then the JSON text, then the decoding rule |
| Rest.DecodeOptional | ejbca/rest.py:160-163 | an absent optional argument stays absent; a present one is decoded or raises UnicodeDecodeError |
| Rest.DecodeExtensions | ejbca/rest.py:151-158 | the only error of the clone is UnicodeDecodeError |
| Rest.DecodeExtensionsOk | ejbca/rest.py:151-158 | the clone succeeds exactly when every key and value decodes |
| Rest.DecodeExtensionsErrPrefix | ejbca/rest.py:151-158 | a failure on the first entries is a failure of the whole clone |
| Rest.DecodeExtensionsKeys | ejbca/rest.py:151-158 | the clone's keys are the decoded keys in order of first occurrence, each once |
| Rest.DecodeExtensionsLastWins | ejbca/rest.py:151-158 | a decoded key takes the decoded value of the last entry with that decoded key |
| Rest.DecodeExtensionsPassThrough | ejbca/rest.py:151-158 | a map with no bytes keys or values is copied unchanged |
| Rest.CloneExtensions | ejbca/rest.py:151-158 | the loop computes the clone, stopping at the first entry that fails to decode |
| Rest.RequiredFieldsKeys | ejbca/rest.py:137-145 | the dict display holds the seven required keys, in order |
| Rest.BodyKeysDistinct | ejbca/rest.py:137-165 | the body's possible keys are pairwise distinct |
| Rest.BodyOfKeys | ejbca/rest.py:137-165 | the body's keys are the seven required ones, then `subject_alt_name` and `email` when supplied, then `extensions_data`, each once |
| Rest.BodyOfValues | ejbca/rest.py:137-165 | each key of the body maps to its own argument |
| Rest.EndEntityBodyKeys | ejbca/rest.py:137-165 | the body holds the seven required keys, `subject_alt_name` and `email` exactly when supplied, and `extensions_data` always, each once |
| Rest.EndEntityBodyValues | ejbca/rest.py:137-165 | each field is its argument decoded and `token` is as given; `extensions_data` is the clone, and `{}` when no map is given |
| Rest.EndEntityBodyOk | ejbca/rest.py:137-163 | the body is built exactly when every bytes argument and every bytes key and value of the map decodes; otherwise UnicodeDecodeError |
| Rest.EndEntityBody | ejbca/rest.py:137-165 | building the body fails only with UnicodeDecodeError; its keys and values are Rest.EndEntityBodyKeys and Rest.EndEntityBodyValues |
| Rest.EndEntityRequest | ejbca/rest.py:135-167 | the request is a POST of a JSON-serialisable document to the end-entity URL with the JSON headers, or UnicodeDecodeError from a decode, or TypeError from `json.dumps` |
| Rest.BodyOfSerialisable | ejbca/rest.py:137-167 | `json.dumps` of the body fails exactly when the extension clone holds something it cannot serialise |
| Rest.PutSerialisable | ejbca/rest.py:158 | storing a serialisable key and value keeps a dict serialisable |
| Rest.CloneSerialisable | ejbca/rest.py:151-158 | the clone is serialisable when every key and value is, once the bytes among them are decoded |
| Rest.NestedBytesClone | ejbca/rest.py:151-158 | the clone decodes a bytes key but leaves bytes inside a list value as they are |
| Rest.NestedBytesRefused | ejbca/rest.py:151-167 | a map whose value is a list holding bytes makes `add_end_entity` raise TypeError |
| Rest.EndEntityRequestCases | ejbca/rest.py:135-194 | the request is UnicodeDecodeError when a decode fails, TypeError when the decoded document is not serialisable, and otherwise the POST of that document to the end-entity URL with the JSON headers |
| Rest.StoreOptional | ejbca/rest.py:160-163 | an optional field is appended under a new key exactly when supplied |
| Rest.FillBody | ejbca/rest.py:137-165 | filling the dict key by key gives the body described above |
| Rest.AddEndEntityRequest | ejbca/rest.py:121-194 | the step-by-step construction, with the `json.dumps` test of line 167, sends exactly the request described above, or raises the same error |
| Rest.AddEndEntityResult | ejbca/rest.py:199-202 | succeeds on 200 only; otherwise the error of Rest.CheckStatus |
| Rest.DeleteEndEntityRequest | ejbca/rest.py:209-231 | a request is built exactly when the username decodes and the host has no brace; it is a DELETE of the end-entity URL of the decoded username, with no headers or body; a username that does not decode raises UnicodeDecodeError before formatting |
| Rest.DeleteUrlCarriesUsername | ejbca/rest.py:206-214 | the URL ends with the decoded username as it is, not percent-encoded |
| Rest.DeleteEndEntityResult | ejbca/rest.py:236-239 | succeeds on 200 only; otherwise the error of Rest.CheckStatus |
| Rest.EnrollKeystoreRequest | ejbca/rest.py:252-288 | the POST carries the four decoded fields under their keys, or UnicodeDecodeError |
| Rest.EnrollKeystoreResult | ejbca/rest.py:293-308 | success needs status 201 and a JSON document; any other status raises as Rest.CheckStatus says |
| Rest.EnrollKeystoreOrder | ejbca/rest.py:303-308 | returns `(response_format, certificate)` in that order, each the octets of the document's string |
| Rest.EnrollKeystoreNotString | ejbca/rest.py:305 | a non-string `certificate` raises AttributeError |
| Est.SimpleEnrollUrl | ejbca/est.py:20-21 | the well-known `simpleenroll` URL (section 4.2.1 of RFC 7030); its shape is Est.WellKnownUrlsShareBase |
| Est.CaCertsUrl | ejbca/est.py:87-88 | the well-known `cacerts` URL (section 4.1 of RFC 7030); its shape is Est.WellKnownUrlsShareBase |
| Est.WellKnownUrlsShareBase | ejbca/est.py:20-21 | `simpleenroll` and `cacerts` share the base `https://name/.well-known/est/alias` and are different URLs |
| Est.CheckCredentials | ejbca/est.py:37-38 | the check fails exactly outside client mode with a username or password missing, with the source's ValueError |
| Est.EnrollUrl | ejbca/est.py:32-35 | with no override the URL is the well-known `simpleenroll` URL; an override is used decoded |
| Est.BasicAuth | ejbca/est.py:54-55 | the Authorization value `Basic` + base64(username ':' password); Est.BasicAuthRoundTrip recovers both parts from it |
| Est.EnrollHeaders | ejbca/est.py:47-55 | the headers `simple_enroll` sends; their keys are Est.EnrollHeadersKeys, the construction Est.BuildEnrollHeaders |
| Est.BuildEnrollHeaders | ejbca/est.py:47-55 | the three fixed headers, then Authorization `Basic` + base64(username ':' password) outside client mode only |
| Est.EnrollHeadersKeys | ejbca/est.py:47-55 | an Authorization header is present exactly outside client mode, once, after the fixed three |
| Est.SplitUserPass | ejbca/est.py:54 | a user-pass splits at its first ':' into parts that rebuild it |
| Est.SplitUserPassOf | ejbca/est.py:54 | a username without ':' is recovered from the user-pass |
| Est.BasicAuthRoundTrip | ejbca/est.py:53-55 | a server reading the header recovers username and password, provided the username has no ':' |
| Est.SimpleEnrollRequest | ejbca/est.py:23-70 | the override is decoded first, then the RA-mode check made; the POST carries the CSR unchanged and the headers above |
| Est.StripNewlines | ejbca/est.py:83 | no newline remains, and the result is no longer than the input |
| Est.StripNewlinesAppend | ejbca/est.py:83 | stripping distributes over concatenation |
| Est.StripNewlinesIdentity | ejbca/est.py:83 | a body without newlines is returned unchanged |
| Est.DropsNewline | ejbca/est.py:83 | a newline anywhere is dropped and nothing around it changes |
| Est.StripNewlinesIdempotent | ejbca/est.py:83 | stripping again changes nothing |
| Est.SimpleEnrollResult | ejbca/est.py:75-85 | succeeds on 200 only, with the body's newlines stripped; otherwise UnicodeDecodeError from `helpers.dump` when the body is not UTF-8, and RuntimeError('Enrollment (EST) failure') when it is |
| Est.CaCertsRequest | ejbca/est.py:90-118 | a GET of the well-known `cacerts` URL with no body and exactly the three headers of lines 101-105: Accept and Content-Type `application/pkcs7-mime`, Content-Transfer-Encoding `base64`; no Authorization header |
| Est.CaCertsResult | ejbca/est.py:123-133 | succeeds on 200 only, newlines stripped; otherwise UnicodeDecodeError from `helpers.dump` when the body is not UTF-8, and RuntimeError('CA certificate fetch failure') when it is |
| Est.FailureBody | ejbca/est.py:75-78 | a refused status with a text body raises the call's own RuntimeError, and with the octet 0xFF raises UnicodeDecodeError, for both calls |
| CertStore.LastValue | ejbca/certstore.py:33 | a type has a value exactly when the name holds an attribute of that type |
| CertStore.AttributeMap | ejbca/certstore.py:33 | the comprehension maps each type to the value of its last occurrence |
| CertStore.Canonical | ejbca/certstore.py:24-44 | what `_ldap_canonicalize` returns; its properties are CertStore.CanonicalAttributes, CertStore.CanonicalPresence, CertStore.CanonicalOrder and CertStore.CanonicalIdempotent |
| CertStore.LdapCanonicalize | ejbca/certstore.py:24-44 | the loop over the preferred order computes the canonical name |
| CertStore.PickShape | ejbca/certstore.py:35-40 | each picked attribute is of a listed type and carries that type's last value |
| CertStore.PickPresence | ejbca/certstore.py:36-40 | a listed type is picked exactly when the name holds it |
| CertStore.PickSame | ejbca/certstore.py:36-40 | names that agree on the listed types' last values pick the same attributes |
| CertStore.CanonicalAttributes | ejbca/certstore.py:26-42 | only C, O and CN survive, each with the value of its last occurrence |
| CertStore.CanonicalPresence | ejbca/certstore.py:36-40 | C, O or CN appears in the output exactly when it appears in the input |
| CertStore.CanonicalOrder | ejbca/certstore.py:26-40 | the output holds each type at most once, in the order C, O, CN |
| CertStore.CanonicalLastValue | ejbca/certstore.py:33-40 | canonicalisation keeps the last value of each listed type |
| CertStore.CanonicalIdempotent | ejbca/certstore.py:24-44 | canonicalising twice is canonicalising once |
| CertStore.LastOccurrenceWins | ejbca/certstore.py:33 | when a type repeats, the output carries the value of its last occurrence |
| CertStore.IndexHash | ejbca/certstore.py:63-66 | the index of a 20-octet digest is 27 characters with no '=', and with one '=' added decodes to the digest |
| CertStore.IndexHashCutsPadding | ejbca/certstore.py:63-66 | the base64 text is 28 characters: the index followed by a single '=' |
| CertStore.IndexHashInjective | ejbca/certstore.py:63-66 | distinct digests give distinct indexes |
| CertStore.SearchUrl | ejbca/certstore.py:46-47 | the template of line 68 fails exactly when the host holds a brace |
| CertStore.SearchUrlCarriesHash | ejbca/certstore.py:63-68 | the URL ends with `?sHash=` and the 27-character index, which decodes to the digest |
| CertStore.SearchSubjectRequest | ejbca/certstore.py:49-80 | the GET of the search URL for the hash of the name's DER; the name is canonicalised only under `ldap_order`, and otherwise hashed unchanged |
| CertStore.LdapOrderIgnoresOtherAttributes | ejbca/certstore.py:55-61 | under `ldap_order`, names that agree on C, O and CN give the same hash and URL |
| CertStore.SearchSubjectResult | ejbca/certstore.py:86-91 | succeeds on 200 only, returning the body; otherwise RuntimeError('Certificate fetch (cert-store) failure') |

## Left out

- Transport: `urllib3.PoolManager` and its TLS settings, the connect timeout and `retries=False`. A call ends with the request it would send; its result is computed from a given response.
- Diagnostics: what `eprint`, `helpers.dump` and `Creds.dump` write to stdout or stderr is not modelled. The exception `helpers.dump` raises on a body that is not UTF-8 is (`Helpers.Dump`); with `ejbca.tracing` at its default False (`Ejbca.Tracing`), it runs only on a refused status, before the RuntimeError.
- Tracing on: with `ejbca.tracing` set, `helpers.dump` also runs before the status test, so a body that is not UTF-8 raises UnicodeDecodeError even on success. The results are modelled with tracing off only.
- `ejbca/ocsp.py` is not part of this model. Its work is done by the `cryptography` OCSP builder and parser.
- Certificate handling: DER encoding of names, SHA-1 and `load_der_x509_certificate`. The first two are caller-supplied functions; the cert-store result is the DER body, not a parsed certificate.
- JSON text: `json.dumps` and `json.loads`. A body is a decoded document; a response that is not JSON is a document of None. `json.dumps` is modelled only by which documents it refuses (`PyObjects.JsonSerialisable`): bytes anywhere, and dict keys other than str, int, bool or None raise TypeError. The text it writes, and its conversion of int, bool and None keys to strings, are not modelled.
- Rest.GetCertStatusResult, Rest.EnrollKeystoreResult: `json.loads` of a body that is not UTF-8 raises UnicodeDecodeError; the model reports every unreadable body as JsonDecodeError.
- PyObjects.EncodeStr: a Python str may hold a lone surrogate such as `"\ud800"`, on which `.encode()` raises UnicodeEncodeError. A Dafny `char` cannot be a surrogate, so that error is not modelled.
- Floating point: the values of `PyObjects` have no floats, so float keys and values of an extension map are not modelled.
- Dicts: a `Dict` that lists a key twice stands for no Python dict. Every dict the model builds keeps its keys distinct (`Dicts.Put`); an extension map given as input may repeat a key, and reading it as its entries in order, the last one winning, is what iterating a dict built from those entries would give. A key that is a list or a dict stands for no Python dict either, since those types are unhashable; the model accepts such keys without complaint.
- `urlparse` itself: `localurl` is modelled on the pieces `urlparse` returns.
- Unicode digits: `strptime` accepts non-ASCII Unicode digits in numeric fields; only ASCII digits are modelled.
- `datetime` values are their six fields. Time zones and microseconds do not arise in this layout.
- Concurrency: nothing in the code is concurrent. The shared `server` and `Creds` objects are modelled as single-threaded objects.
- A dict key `1` and a key `True` are equal in Python but distinct here. The extension clone treats them as different keys.
- Rest.CertUrl: a host with a brace always raises FormatError here. `str.format` would accept `{{`/`}}` escapes and fields that happen to be valid; the same holds for Rest.RevocationUrl, Rest.EndEntityUrl2 and CertStore.SearchUrl.
- Helpers.UnquoteText: the text form of `unquote` is strict UTF-8. It yields None on octets that `parse.unquote` would replace with U+FFFD.
- Est.SimpleEnrollRequest: `client_mode` is a bool. A `client_mode` of None behaves as False in the source, and that is what the default False models.
- Rest.EnrollKeystoreResult: states only the status rule and its shape. The order of the pair and the lookups are the content of Rest.EnrollKeystoreOrder and Rest.EnrollKeystoreNotString.
- CertStore.Name: a name is the sequence of its attributes, so a multi-valued RDN is not distinguished from consecutive single-valued ones. The canonical name is rebuilt with one attribute per RDN, as `x509.Name(attrs)` does.
