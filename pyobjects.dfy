/**
 * The Python values the library handles (as `json.loads` produces them, plus `bytes`), the
 * exceptions it raises, and the few built-in operations it applies to them.
 */
module PyObjects {
  import opened Base
  import opened Dicts
  import Utf8

  datatype PyValue =
    | PyNone
    | PyBool(b: bool)
    | PyInt(i: int)
    | PyStr(s: string)
    | PyBytes(bytes: seq<byte>)
    | PyList(items: seq<PyValue>)
    | PyDict(entries: Dict<PyValue, PyValue>)

  /** The exceptions the core raises, with the payload the source gives them. */
  datatype PyError =
    | RuntimeError(message: string)
    | ValueError(message: string)
    | KeyError(key: string)
    | TypeError
    | AttributeError
    | UnicodeDecodeError
    | JsonDecodeError
    | TimestampError      // the ValueError strptime raises for text that does not fit
    | FormatError         // str.format met a brace in the literal part of a template
    | FileNotFoundError(path: seq<byte>)

  /** Python truthiness (`if x:`). */
  predicate Truthy(v: PyValue)
  {
    match v
    case PyNone => false
    case PyBool(b) => b
    case PyInt(i) => i != 0
    case PyStr(s) => s != ""
    case PyBytes(b) => b != []
    case PyList(items) => items != []
    case PyDict(entries) => entries != []
  }

  /** `v[key]` for a string key: a dict looks it up, anything else is not subscriptable by a string. */
  function Subscript(v: PyValue, key: string): (r: Result<PyValue, PyError>)
    ensures r.Ok? <==> v.PyDict? && PyStr(key) in Keys(v.entries)
    ensures r.Ok? ==> Get(v.entries, PyStr(key)) == Some(r.value)
    ensures r.Err? ==> r.error == (if v.PyDict? then KeyError(key) else TypeError)
  {
    match v
    case PyDict(entries) =>
      GetPresent(entries, PyStr(key));
      (match Get(entries, PyStr(key))
       case Some(x) => Ok(x)
       case None => Err(KeyError(key)))
    case _ => Err(TypeError)
  }

  /** `b.decode()` on a bytes value. */
  function DecodeBytes(b: seq<byte>): (r: Result<string, PyError>)
    ensures r.Ok? ==> Utf8.Encode(r.value) == b
    ensures r.Err? ==> r.error == UnicodeDecodeError
  {
    match Utf8.Decode(b)
    case Some(s) => Utf8.EncodeDecode(b); Ok(s)
    case None => Err(UnicodeDecodeError)
  }

  /** Every octet string that is the encoding of some text decodes, to that text. */
  lemma DecodeBytesEncode(s: string)
    ensures DecodeBytes(Utf8.Encode(s)) == Ok(s)
  {
    Utf8.DecodeEncode(s);
  }

  /** `s.encode()` on a str value; any other value has no `encode` attribute. */
  function EncodeStr(v: PyValue): (r: Result<seq<byte>, PyError>)
    ensures r.Ok? <==> v.PyStr?
    ensures r.Ok? ==> DecodeBytes(r.value) == Ok(v.s)
    ensures r.Err? ==> r.error == AttributeError
  {
    match v
    case PyStr(s) => DecodeBytesEncode(s); Ok(Utf8.Encode(s))
    case _ => Err(AttributeError)
  }

  /** The conversion the extension-map clone applies to each key and value: bytes are decoded, all else is kept. */
  function DecodeIfBytes(v: PyValue): (r: Result<PyValue, PyError>)
    ensures !v.PyBytes? ==> r == Ok(v)
    ensures v.PyBytes? ==> (r.Ok? <==> DecodeBytes(v.bytes).Ok?)
    ensures v.PyBytes? && r.Ok? ==> r.value.PyStr? && Utf8.Encode(r.value.s) == v.bytes
    ensures r.Err? ==> r.error == UnicodeDecodeError
  {
    match v
    case PyBytes(b) =>
      (match DecodeBytes(b)
       case Ok(s) => Ok(PyStr(s))
       case Err(e) => Err(e))
    case _ => Ok(v)
  }

  /** A dict key `json.dumps` accepts (floats are not part of this model). */
  predicate JsonKey(k: PyValue)
  {
    k.PyNone? || k.PyBool? || k.PyInt? || k.PyStr?
  }

  /**
   * What `json.dumps` can write: bytes, at any depth, and a dict key of any other kind make it
   * raise TypeError.
   */
  predicate JsonSerialisable(v: PyValue)
    decreases v
  {
    match v
    case PyBytes(_) => false
    case PyList(items) => forall i :: 0 <= i < |items| ==> JsonSerialisable(items[i])
    case PyDict(entries) => forall i :: 0 <= i < |entries| ==> JsonKey(entries[i].0) && JsonSerialisable(entries[i].1)
    case _ => true
  }

  /** A dict can be written exactly when both of its parts can. */
  lemma JsonSerialisableAppend(a: Dict<PyValue, PyValue>, b: Dict<PyValue, PyValue>)
    ensures JsonSerialisable(PyDict(a + b)) <==> JsonSerialisable(PyDict(a)) && JsonSerialisable(PyDict(b))
  {
    var d := a + b;
    assert forall i :: 0 <= i < |a| ==> d[i] == a[i];
    assert forall i :: 0 <= i < |b| ==> d[|a| + i] == b[i];
    if JsonSerialisable(PyDict(a)) && JsonSerialisable(PyDict(b)) {
      forall i | 0 <= i < |d| ensures JsonKey(d[i].0) && JsonSerialisable(d[i].1) {
        if i >= |a| {
          assert d[i] == b[i - |a|];
        }
      }
    }
  }

  lemma SingleSerialisable(k: PyValue, v: PyValue)
    ensures JsonSerialisable(PyDict([(k, v)])) <==> JsonKey(k) && JsonSerialisable(v)
  {
    assert [(k, v)][0] == (k, v);
  }
}
