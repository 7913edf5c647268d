/**
 * The codec helpers of ejbca/helpers.py: percent-encoding with no safe characters and its
 * inverse (sections 2.1 and 2.3 of RFC 3986), the local part of a parsed URL, and the
 * fixed-layout timestamp parser.
 */
module Helpers {
  import opened Base
  import Utf8
  import opened PyObjects

  // ---------------------------------------------------------------------------------------
  // Percent-encoding

  /** The unreserved octets of section 2.3 of RFC 3986: A-Z a-z 0-9 - . _ ~ */
  predicate Unreserved(b: byte)
  {
    || ('A' as int <= b <= 'Z' as int)
    || ('a' as int <= b <= 'z' as int)
    || ('0' as int <= b <= '9' as int)
    || b == '-' as int || b == '.' as int || b == '_' as int || b == '~' as int
  }

  predicate UnreservedChar(c: char)
  {
    c as int < 256 && Unreserved(c as int)
  }

  /** Upper-case hexadecimal digit, as `quote` writes it. */
  function HexDigit(d: nat): char
    requires d < 16
  {
    if d < 10 then ('0' as int + d) as char else ('A' as int + (d - 10)) as char
  }

  function QuoteByte(b: byte): (r: string)
    ensures forall i :: 0 <= i < |r| ==> UnreservedChar(r[i]) || r[i] == '%'
  {
    if Unreserved(b) then [b as char] else ['%', HexDigit(b / 16), HexDigit(b % 16)]
  }

  /**
   * `quote(s, safe='')` on a bytes value (the form every caller in the library uses). The
   * output is made of unreserved characters and '%' only.
   */
  function Quote(s: seq<byte>): (r: string)
    ensures forall i :: 0 <= i < |r| ==> UnreservedChar(r[i]) || r[i] == '%'
  {
    if s == [] then "" else QuoteByte(s[0]) + Quote(s[1..])
  }

  /** `quote(s, safe='')` on a str value: its UTF-8 octets, percent-encoded. */
  function QuoteText(s: string): string
  {
    Quote(Utf8.Encode(s))
  }

  predicate IsHexOctet(b: byte)
  {
    ('0' as int <= b <= '9' as int) || ('a' as int <= b <= 'f' as int) || ('A' as int <= b <= 'F' as int)
  }

  function HexOctetValue(b: byte): (d: nat)
    requires IsHexOctet(b)
    ensures d < 16
  {
    if b <= '9' as int then b - '0' as int
    else if b <= 'F' as int then b - 'A' as int + 10
    else b - 'a' as int + 10
  }

  /** `unquote_to_bytes` on octets: each '%' followed by two hex digits (either case) becomes one octet. */
  function UnquoteOctets(s: seq<byte>): seq<byte>
  {
    if s == [] then []
    else if s[0] == '%' as int && |s| >= 3 && IsHexOctet(s[1]) && IsHexOctet(s[2]) then
      [HexOctetValue(s[1]) * 16 + HexOctetValue(s[2])] + UnquoteOctets(s[3..])
    else [s[0]] + UnquoteOctets(s[1..])
  }

  /** `unquote_to_bytes` on a str value, which first encodes it as UTF-8. */
  function Unquote(s: string): seq<byte>
  {
    UnquoteOctets(Utf8.Encode(s))
  }

  /** `unquote(s)`: the unquoted octets read as UTF-8; None where they are not valid UTF-8. */
  function UnquoteText(s: string): (r: Option<string>)
    ensures r.Some? ==> Utf8.Encode(r.value) == Unquote(s)
    ensures r.None? ==> forall t :: Utf8.Encode(t) != Unquote(s)
  {
    var b := Unquote(s);
    match Utf8.Decode(b)
    case Some(t) => Utf8.EncodeDecode(b); Some(t)
    case None => Utf8.NotAnEncoding(b); None
  }

  /** The number of octets that `Quote` escapes. */
  function EscapedCount(s: seq<byte>): nat
  {
    if s == [] then 0 else (if Unreserved(s[0]) then 0 else 1) + EscapedCount(s[1..])
  }

  lemma {:induction false} QuoteAppend(a: seq<byte>, b: seq<byte>)
    ensures Quote(a + b) == Quote(a) + Quote(b)
  {
    if a == [] {
      assert a + b == b;
    } else {
      assert (a + b)[1..] == a[1..] + b;
      QuoteAppend(a[1..], b);
    }
  }

  /**
   * Every octet outside the unreserved set becomes '%' and two upper-case hex digits,
   * every unreserved octet is copied, and the pieces follow the input order.
   */
  lemma QuoteEscapes(a: seq<byte>, x: byte, b: seq<byte>)
    ensures Quote(a + [x] + b) == Quote(a) + (if Unreserved(x) then [x as char] else ['%', HexDigit(x / 16), HexDigit(x % 16)]) + Quote(b)
  {
    QuoteAppend(a + [x], b);
    QuoteAppend(a, [x]);
    QuoteSingle(x);
  }

  lemma QuoteSingle(x: byte)
    ensures Quote([x]) == QuoteByte(x)
  {
    assert [x][1..] == [];
  }

  /** In particular no delimiter that would end or split a path segment or query survives. */
  lemma QuoteHasNoDelimiters(s: seq<byte>)
    ensures '/' !in Quote(s) && '?' !in Quote(s) && '#' !in Quote(s)
    ensures ';' !in Quote(s) && '=' !in Quote(s) && '&' !in Quote(s)
  {
  }

  /** Each unreserved octet costs one character, each other octet three. */
  lemma {:induction false} QuoteLength(s: seq<byte>)
    ensures |Quote(s)| == |s| + 2 * EscapedCount(s)
  {
    if s != [] {
      QuoteLength(s[1..]);
    }
  }

  /** On input made only of unreserved octets, `quote` changes nothing. */
  lemma {:induction false} QuoteUnreservedIdentity(s: seq<byte>)
    requires forall i :: 0 <= i < |s| ==> Unreserved(s[i])
    ensures |Quote(s)| == |s|
    ensures forall i :: 0 <= i < |s| ==> Quote(s)[i] == s[i] as char
  {
    if s != [] {
      QuoteUnreservedIdentity(s[1..]);
    }
  }

  lemma UnquoteQuoteByte(x: byte, rest: seq<byte>)
    ensures UnquoteOctets(Utf8.Encode(QuoteByte(x)) + rest) == [x] + UnquoteOctets(rest)
  {
    var q := QuoteByte(x);
    assert Utf8.IsAscii(q);
    Utf8.EncodeAscii(q);
    var e := Utf8.Encode(q);
    if Unreserved(x) {
      assert e == [x];
    } else {
      assert e == ['%' as int, HexDigit(x / 16) as int, HexDigit(x % 16) as int];
      var s := e + rest;
      assert s[3..] == rest;
      assert HexOctetValue(s[1]) == x / 16 && HexOctetValue(s[2]) == x % 16;
    }
  }

  /** Unquoting undoes quoting for every octet string. */
  lemma {:induction false} UnquoteQuote(s: seq<byte>)
    ensures Unquote(Quote(s)) == s
  {
    if s != [] {
      var q, r := QuoteByte(s[0]), Quote(s[1..]);
      Utf8.EncodeAppend(q, r);
      UnquoteQuoteByte(s[0], Utf8.Encode(r));
      UnquoteQuote(s[1..]);
      assert [s[0]] + s[1..] == s;
    }
  }

  /** For text: `unquote(quote(s)) == s`. */
  lemma QuoteTextRoundTrip(s: string)
    ensures UnquoteText(QuoteText(s)) == Some(s)
  {
    UnquoteQuote(Utf8.Encode(s));
    Utf8.DecodeEncode(s);
  }

  // ---------------------------------------------------------------------------------------
  // The local part of a URL

  /** The six pieces `urllib.parse.urlparse` splits a URL into. */
  datatype UrlParts = UrlParts(scheme: string, netloc: string, path: string, params: string, query: string, fragment: string)

  /**
   * `localurl`: the path, then ';params', '?query' and '#fragment', each only when non-empty.
   * The result starts with the path, and is the path alone exactly when the other three are empty.
   */
  function LocalUrl(u: UrlParts): (r: string)
    ensures u.path <= r
    ensures r == u.path <==> u.params == "" && u.query == "" && u.fragment == ""
  {
    var s := u.path;
    var s := if u.params != "" then s + ";" + u.params else s;
    var s := if u.query != "" then s + "?" + u.query else s;
    if u.fragment != "" then s + "#" + u.fragment else s
  }

  /** The index of the first `c` in `s`. */
  function FindFirst(s: string, c: char): (r: Option<nat>)
    ensures r.Some? ==> r.value < |s| && s[r.value] == c && c !in s[..r.value]
    ensures r.None? ==> c !in s
  {
    if s == [] then None
    else if s[0] == c then Some(0)
    else match FindFirst(s[1..], c)
      case None => None
      case Some(i) => assert s[..i + 1] == [s[0]] + s[1..][..i]; Some(i + 1)
  }

  /** Where the last segment of a path starts: just after its last '/', or 0 when it has none. */
  function SegmentStart(path: string): (k: nat)
    ensures k <= |path| && '/' !in path[k..]
    ensures k > 0 ==> path[k - 1] == '/'
    decreases |path|
  {
    if path == [] then 0
    else if path[|path| - 1] == '/' then |path|
    else
      var k := SegmentStart(path[..|path| - 1]);
      assert path[k..] == path[..|path| - 1][k..] + [path[|path| - 1]];
      k
  }

  /** The text after the last '/' of a path (all of it when there is none). */
  function LastSegment(path: string): string
  {
    path[SegmentStart(path)..]
  }

  /** The shape of what `urlparse` returns for a URL whose scheme takes parameters (http, https). */
  predicate UrlparseShape(u: UrlParts)
  {
    && '#' !in u.path && '#' !in u.params && '#' !in u.query
    && '?' !in u.path && '?' !in u.params
    && '/' !in u.params
    && ';' !in LastSegment(u.path)
  }

  /**
   * The local part split the way `urlparse` splits it: the fragment after the first '#', the
   * query after the first '?', the parameters after the first ';' of the last path segment.
   */
  function SplitLocal(s: string): (string, string, string, string)
  {
    var (rest, fragment) := CutAt(s, '#');
    var (rest, query) := CutAt(rest, '?');
    var (path, params) := SplitParams(rest);
    (path, params, query, fragment)
  }

  /** The text before the first `c` and the text after it; all of `s` and "" when there is none. */
  function CutAt(s: string, c: char): (string, string)
  {
    match FindFirst(s, c)
    case Some(i) => (s[..i], s[i + 1..])
    case None => (s, "")
  }

  /** `_splitparams`: the parameters start at the first ';' after the last '/'. */
  function SplitParams(s: string): (string, string)
  {
    var start := SegmentStart(s);
    match FindFirst(s[start..], ';')
    case None => (s, "")
    case Some(i) => (s[..start + i], s[start + i + 1..])
  }

  /** The scheme and the network location never enter the local part. */
  lemma LocalUrlIgnoresSchemeAndHost(u: UrlParts, scheme: string, netloc: string)
    ensures LocalUrl(u.(scheme := scheme, netloc := netloc)) == LocalUrl(u)
  {
  }

  lemma FindFirstAt(a: string, c: char, b: string)
    requires c !in a
    ensures FindFirst(a + [c] + b, c) == Some(|a|)
  {
    var s := a + [c] + b;
    assert s[|a|] == c;
    assert s[..|a|] == a;
  }

  /** The two properties of `SegmentStart` pin it down. */
  lemma SegmentStartUnique(path: string, k: nat)
    requires k <= |path| && '/' !in path[k..] && (k > 0 ==> path[k - 1] == '/')
    ensures SegmentStart(path) == k
  {
  }

  lemma SplitParamsOf(path: string, params: string)
    requires '/' !in params && ';' !in LastSegment(path)
    ensures SplitParams(if params != "" then path + ";" + params else path) == (path, params)
  {
    var start := SegmentStart(path);
    if params != "" {
      var s := path + ";" + params;
      assert s[start..] == path[start..] + [';'] + params;
      SegmentStartUnique(s, start);
      FindFirstAt(path[start..], ';', params);
      assert s[..|path|] == path && s[|path| + 1..] == params;
    }
  }

  lemma CutAtOf(a: string, c: char, b: string)
    requires c !in a
    ensures CutAt(if b != "" then a + [c] + b else a, c) == (a, b)
  {
    if b != "" {
      FindFirstAt(a, c, b);
      assert (a + [c] + b)[..|a|] == a && (a + [c] + b)[|a| + 1..] == b;
    }
  }

  /** Re-splitting the local part recovers path, parameters, query and fragment. */
  lemma LocalUrlRoundTrip(u: UrlParts)
    requires UrlparseShape(u)
    ensures SplitLocal(LocalUrl(u)) == (u.path, u.params, u.query, u.fragment)
  {
    var s1 := if u.params != "" then u.path + ";" + u.params else u.path;
    var s2 := if u.query != "" then s1 + "?" + u.query else s1;
    assert '#' !in s1 && '?' !in s1 && '#' !in s2;
    CutAtOf(s2, '#', u.fragment);
    CutAtOf(s1, '?', u.query);
    SplitParamsOf(u.path, u.params);
  }

  // ---------------------------------------------------------------------------------------
  // Timestamps: datetime.strptime(timestamp, '%Y-%m-%dT%H:%M:%SZ')

  /** The layout `parse_ts` hands to strptime (section 5.6 of RFC 3339, UTC only). */
  const Iso8601Format: string := "%Y-%m-%dT%H:%M:%SZ"

  /** The fields of the naive `datetime` that strptime builds. */
  datatype DateTime = DateTime(year: int, month: int, day: int, hour: int, minute: int, second: int)

  predicate IsLeapYear(y: int)
  {
    y % 4 == 0 && (y % 100 != 0 || y % 400 == 0)
  }

  function DaysInMonth(y: int, m: int): int
    requires 1 <= m <= 12
  {
    if m == 2 then (if IsLeapYear(y) then 29 else 28)
    else if m == 4 || m == 6 || m == 9 || m == 11 then 30
    else 31
  }

  /** What the `datetime` constructor accepts. */
  predicate ValidDateTime(t: DateTime)
  {
    && 1 <= t.year <= 9999
    && 1 <= t.month <= 12
    && 1 <= t.day <= DaysInMonth(t.year, t.month)
    && 0 <= t.hour < 24
    && 0 <= t.minute < 60
    && 0 <= t.second < 60
  }

  predicate IsDigit(c: char) { '0' <= c <= '9' }

  function DigitValue(c: char): nat
    requires IsDigit(c)
  {
    c as int - '0' as int
  }

  /** `\d\d\d\d` (the %Y directive). */
  function YearField(t: string): Option<int>
  {
    if |t| == 4 && IsDigit(t[0]) && IsDigit(t[1]) && IsDigit(t[2]) && IsDigit(t[3])
    then Some(DigitValue(t[0]) * 1000 + DigitValue(t[1]) * 100 + DigitValue(t[2]) * 10 + DigitValue(t[3]))
    else None
  }

  /**
   * A one- or two-digit directive: one digit of value at least `lo`, or two digits with value
   * in `lo..hi`. With (lo, hi) = (1, 12) this is %m `1[0-2]|0[1-9]|[1-9]`, (0, 23) is %H
   * `2[0-3]|[0-1]\d|\d`, (0, 59) is %M `[0-5]\d|\d` and (0, 61) is %S `6[0-1]|[0-5]\d|\d`.
   */
  function NumberField(t: string, lo: nat, hi: nat): Option<int>
  {
    if |t| == 1 && IsDigit(t[0]) && lo <= DigitValue(t[0]) then Some(DigitValue(t[0]))
    else if |t| == 2 && IsDigit(t[0]) && IsDigit(t[1]) && lo <= DigitValue(t[0]) * 10 + DigitValue(t[1]) <= hi
    then Some(DigitValue(t[0]) * 10 + DigitValue(t[1]))
    else None
  }

  /** %d: `3[0-1]|[1-2]\d|0[1-9]|[1-9]| [1-9]`, so also a space and one digit. */
  function DayField(t: string): Option<int>
  {
    if |t| == 2 && t[0] == ' ' && IsDigit(t[1]) && 1 <= DigitValue(t[1]) then Some(DigitValue(t[1]))
    else NumberField(t, 1, 31)
  }

  /**
   * The text before the first character of `seps`, and the text after it. The characters a
   * directive matches are digits (and the space of %d), never a separator, so the directive's
   * match must end exactly where this split puts it.
   */
  function SplitAt(t: string, seps: set<char>): (r: Option<(string, string)>)
    ensures r.Some? ==> |r.value.0| + 1 + |r.value.1| == |t| && r.value.1 == t[|r.value.0| + 1..]
  {
    if t == [] then None
    else if t[0] in seps then Some(("", t[1..]))
    else match SplitAt(t[1..], seps)
      case None => None
      case Some((a, b)) => Some(([t[0]] + a, b))
  }

  /** The separators after the year, each as the set of characters the case-blind pattern accepts. */
  const Separators: seq<set<char>> := [{'-'}, {'T', 't'}, {':'}, {':'}, {'Z', 'z'}]

  /** Cuts `t` into the fields that end at each separator in turn; nothing may follow the last one. */
  function SplitFields(t: string, seps: seq<set<char>>): (r: Option<seq<string>>)
    ensures r.Some? ==> |r.value| == |seps|
    decreases |seps|
  {
    if seps == [] then (if t == "" then Some([]) else None)
    else
      var p :- SplitAt(t, seps[0]);
      var rest :- SplitFields(p.1, seps[1..]);
      Some([p.0] + rest)
  }

  /** The month, day, hour, minute and second fields, read as the pattern's groups read them. */
  function ReadFields(y: string, f: seq<string>): Option<DateTime>
    requires |f| == 5
  {
    var year :- YearField(y);
    var month :- NumberField(f[0], 1, 12);
    var day :- DayField(f[1]);
    var hour :- NumberField(f[2], 0, 23);
    var minute :- NumberField(f[3], 0, 59);
    var second :- NumberField(f[4], 0, 61);
    Some(DateTime(year, month, day, hour, minute, second))
  }

  /**
   * The match of the strptime pattern for the layout, then the check that no text is left:
   * the pattern is compiled ignoring case, so 't' and 'z' stand for 'T' and 'Z'.
   */
  function ScanTimestamp(s: string): Option<DateTime>
  {
    if |s| < 5 || s[4] != '-' then None
    else
      var f :- SplitFields(s[5..], Separators);
      ReadFields(s[..4], f)
  }

  /** `parse_ts`: strptime either matches and builds a valid datetime, or raises ValueError. */
  function ParseTs(s: string): (r: Result<DateTime, PyError>)
    ensures r.Ok? ==> ValidDateTime(r.value)
    ensures r.Err? ==> r.error == TimestampError
  {
    match ScanTimestamp(s)
    case Some(t) => if ValidDateTime(t) then Ok(t) else Err(TimestampError)
    case None => Err(TimestampError)
  }

  /** `n` written with exactly `w` decimal digits, zero-padded. */
  function Digits(n: nat, w: nat): (r: string)
    ensures |r| == w && forall i :: 0 <= i < w ==> IsDigit(r[i])
  {
    if w == 0 then "" else Digits(n / 10, w - 1) + [('0' as int + n % 10) as char]
  }

  /** A timestamp in the layout, with the year zero-padded to four digits and every other field to two. */
  function FormatTs(t: DateTime): string
    requires ValidDateTime(t)
  {
    Digits(t.year, 4) + "-" + Digits(t.month, 2) + "-" + Digits(t.day, 2) + "T"
    + Digits(t.hour, 2) + ":" + Digits(t.minute, 2) + ":" + Digits(t.second, 2) + "Z"
  }

  lemma TwoDigits(n: nat)
    requires n < 100
    ensures var r := Digits(n, 2); DigitValue(r[0]) * 10 + DigitValue(r[1]) == n
  {
    assert Digits(n, 2) == [('0' as int + n / 10) as char, ('0' as int + n % 10) as char];
  }

  lemma FourDigits(n: nat)
    requires n < 10000
    ensures YearField(Digits(n, 4)) == Some(n)
  {
    var hi := n / 100;
    DecimalSplit(n);
    var r := Digits(n, 4);
    assert Digits(n / 10, 3) == Digits(hi, 2) + [('0' as int + n / 10 % 10) as char];
    assert r == Digits(hi, 2) + [('0' as int + n / 10 % 10) as char, ('0' as int + n % 10) as char];
    TwoDigits(hi);
  }

  lemma DecimalSplit(n: nat)
    ensures n / 10 / 10 == n / 100
    ensures n == n / 100 * 100 + n / 10 % 10 * 10 + n % 10
  {
  }

  lemma NumberFieldDigits(n: nat, lo: nat, hi: nat)
    requires lo <= n <= hi < 100
    ensures NumberField(Digits(n, 2), lo, hi) == Some(n)
    ensures DayField(Digits(n, 2)) == (if 1 <= n <= 31 then Some(n) else None)
  {
    TwoDigits(n);
  }

  /** A field ends exactly at the first separator character after it. */
  lemma {:induction false} SplitAtField(d: string, sep: char, rest: string, seps: set<char>)
    requires sep in seps && forall i :: 0 <= i < |d| ==> d[i] !in seps
    ensures SplitAt(d + [sep] + rest, seps) == Some((d, rest))
  {
    if d == [] {
      assert d + [sep] + rest == [sep] + rest;
    } else {
      assert (d + [sep] + rest)[1..] == d[1..] + [sep] + rest;
      SplitAtField(d[1..], sep, rest, seps);
      assert [d[0]] + d[1..] == d;
    }
  }

  /** Fields each followed by its separator. */
  function Join(fs: seq<string>, ends: seq<char>): string
    requires |fs| == |ends|
  {
    if fs == [] then "" else fs[0] + [ends[0]] + Join(fs[1..], ends[1..])
  }

  /** Fields that hold none of their own terminators are cut back out, and only when nothing follows. */
  lemma {:induction false} SplitFieldsJoin(fs: seq<string>, ends: seq<char>, seps: seq<set<char>>, tail: string)
    requires |fs| == |ends| == |seps|
    requires forall i :: 0 <= i < |fs| ==> ends[i] in seps[i]
    requires forall i, j :: 0 <= i < |fs| && 0 <= j < |fs[i]| ==> fs[i][j] !in seps[i]
    ensures SplitFields(Join(fs, ends) + tail, seps) == if tail == "" then Some(fs) else None
  {
    if fs == [] {
      assert Join(fs, ends) + tail == tail;
    } else {
      var rest := Join(fs[1..], ends[1..]) + tail;
      assert Join(fs, ends) + tail == fs[0] + [ends[0]] + rest;
      SplitAtField(fs[0], ends[0], rest, seps[0]);
      SplitFieldsJoin(fs[1..], ends[1..], seps[1..], tail);
      assert [fs[0]] + fs[1..] == fs;
    }
  }

  lemma ScanLayout(y: string, fs: seq<string>, ends: seq<char>, tail: string)
    requires |y| == 4 && |fs| == |ends| == 5
    requires forall i :: 0 <= i < 5 ==> ends[i] in Separators[i]
    requires forall i, j :: 0 <= i < 5 && 0 <= j < |fs[i]| ==> fs[i][j] !in Separators[i]
    ensures ScanTimestamp(y + "-" + Join(fs, ends) + tail) == if tail == "" then ReadFields(y, fs) else None
  {
    var s := y + "-" + Join(fs, ends) + tail;
    assert s[..4] == y && s[4] == '-' && s[5..] == Join(fs, ends) + tail;
    SplitFieldsJoin(fs, ends, Separators, tail);
  }

  /** The fields of a formatted timestamp, in the order the layout writes them. */
  function FormattedFields(t: DateTime): (fs: seq<string>)
    requires ValidDateTime(t)
    ensures |fs| == 5 && forall i, j :: 0 <= i < 5 && 0 <= j < |fs[i]| ==> IsDigit(fs[i][j])
  {
    [Digits(t.month, 2), Digits(t.day, 2), Digits(t.hour, 2), Digits(t.minute, 2), Digits(t.second, 2)]
  }

  lemma FormatTsLayout(t: DateTime)
    requires ValidDateTime(t)
    ensures FormatTs(t) == Digits(t.year, 4) + "-" + Join(FormattedFields(t), "-T::Z")
  {
    JoinFive(Digits(t.month, 2), Digits(t.day, 2), Digits(t.hour, 2), Digits(t.minute, 2), Digits(t.second, 2));
  }

  lemma JoinFive(a: string, b: string, c: string, d: string, e: string)
    ensures Join([a, b, c, d, e], "-T::Z") == a + "-" + b + "T" + c + ":" + d + ":" + e + "Z"
  {
    var fs, ends := [a, b, c, d, e], "-T::Z";
    assert Join(fs[4..], ends[4..]) == e + "Z";
    assert Join(fs[3..], ends[3..]) == d + ":" + e + "Z";
    assert Join(fs[2..], ends[2..]) == c + ":" + d + ":" + e + "Z";
    assert Join(fs[1..], ends[1..]) == b + "T" + c + ":" + d + ":" + e + "Z";
  }

  lemma DigitsAvoidSeparators(fs: seq<string>)
    requires |fs| == 5 && forall i, j :: 0 <= i < 5 && 0 <= j < |fs[i]| ==> IsDigit(fs[i][j])
    ensures forall i, j :: 0 <= i < 5 && 0 <= j < |fs[i]| ==> fs[i][j] !in Separators[i]
  {
    forall i, j | 0 <= i < 5 && 0 <= j < |fs[i]| ensures fs[i][j] !in Separators[i] {
      assert i == 0 || i == 1 || i == 2 || i == 3 || i == 4;
    }
  }

  /** `parse_ts` reads back every timestamp written in its layout, and refuses anything appended. */
  lemma ParseFormatTs(t: DateTime, tail: string)
    requires ValidDateTime(t)
    ensures ParseTs(FormatTs(t) + tail) == if tail == "" then Ok(t) else Err(TimestampError)
  {
    var fs := FormattedFields(t);
    FormatTsLayout(t);
    DigitsAvoidSeparators(fs);
    ScanLayout(Digits(t.year, 4), fs, "-T::Z", tail);
    ReadFormattedFields(t);
  }

  lemma ReadFormattedFields(t: DateTime)
    requires ValidDateTime(t)
    ensures ReadFields(Digits(t.year, 4), FormattedFields(t)) == Some(t)
  {
    FourDigits(t.year);
    NumberFieldDigits(t.month, 1, 12);
    NumberFieldDigits(t.day, 1, 31);
    NumberFieldDigits(t.hour, 0, 23);
    NumberFieldDigits(t.minute, 0, 59);
    NumberFieldDigits(t.second, 0, 61);
  }

  /**
   * The directives' own leniency and the datetime constructor's extra checks: one-digit and
   * space-padded fields match, a thirteenth month does not, a sixty-first second matches the
   * pattern but no datetime holds it, and February 29th exists only in leap years.
   */
  lemma FieldExamples()
    ensures NumberField("7", 1, 12) == Some(7) && NumberField("07", 1, 12) == Some(7)
    ensures NumberField("0", 1, 12) == None && NumberField("13", 1, 12) == None
    ensures DayField(" 9") == Some(9) && DayField("32") == None
    ensures NumberField("61", 0, 61) == Some(61) && !ValidDateTime(DateTime(2023, 1, 1, 0, 0, 61))
    ensures !ValidDateTime(DateTime(2023, 2, 29, 0, 0, 0)) && ValidDateTime(DateTime(2024, 2, 29, 0, 0, 0))
    ensures !ValidDateTime(DateTime(1900, 2, 29, 0, 0, 0)) && ValidDateTime(DateTime(2000, 2, 29, 0, 0, 0))
  {
  }

  // ---------------------------------------------------------------------------------------
  // Diagnostics

  /**
   * `dump(req)` (lines 24-28): what it prints is not modelled, but its `req.data.decode()`
   * raises UnicodeDecodeError when the body is the UTF-8 encoding of no text.
   */
  function Dump(data: seq<byte>): (r: Result<(), PyError>)
    ensures r.Err? <==> forall t :: Utf8.Encode(t) != data
    ensures r.Err? ==> r.error == UnicodeDecodeError
  {
    match Utf8.Decode(data)
    case Some(_) => Utf8.EncodeDecode(data); Ok(())
    case None => Utf8.NotAnEncoding(data); Err(UnicodeDecodeError)
  }
}
