/**
  PhpSerializer (wsh.py:39-85): a recursive-descent decoder for the text
  that PHP's serialize() writes. Every decoder takes the stream and gives back
  the decoded value and what is left of the stream.

  The functions (Var, DecodeInt, ..., DecodeArray, Entries) are the reference
  definition; UnserializeVar and UnserializeArray are the imperative decoder
  with its loop, proved equal to them. Python exceptions become Err values.
*/
module PhpSerializer {
  import opened Wrappers
  import opened PyText

  /**
    A dictionary key. Python hashes True like 1 (and False like 0), so a
    boolean key lands on the integer key; a decoded dict is unhashable and has
    no key form. A float key is kept by its text, so it stays apart from an
    equal int key and from the same number written otherwise.
  */
  datatype Key = IntKey(i: int) | FloatKey(text: string) | NoneKey | StrKey(s: string)

  /** The value tree `unserialize` builds. A `d:` payload is kept as its text. */
  datatype Value =
    | Int(i: int)
    | Bool(b: bool)
    | Float(text: string)
    | Null
    | Str(s: string)
    | Dict(entries: map<Key, Value>)

  /** The exceptions the decoder can raise, by cause. */
  datatype DecodeError =
    | EmptyStream            // IndexError from s[0] on an empty stream
    | UnknownTag(tag: char)  // KeyError from the dispatch table
    | BadInteger(text: string) // ValueError from int()
    | UnhashableKey          // TypeError from a[k] = v with a dict as key

  /**
    A decoding result: the value and the position in the stream where the
    unread part starts, or the exception that was raised.
  */
  type Decoded = Result<(Value, nat), DecodeError>

  /** The part of a float text before its exponent marker 'e' or 'E'. */
  function Mantissa(w: string): string {
    if w == [] || w[0] == 'e' || w[0] == 'E' then [] else [w[0]] + Mantissa(w[1..])
  }

  /**
    Whether float(t) is zero: an optional sign, then a mantissa of only '0'
    and '.' with at least one '0', whatever exponent follows it.
  */
  predicate FloatIsZero(t: string) {
    var u := Strip(t);
    var w := if |u| > 0 && (u[0] == '-' || u[0] == '+') then u[1..] else u;
    ZeroDigits(Mantissa(w))
  }

  /** Only '0' and '.', with at least one '0'. */
  predicate ZeroDigits(m: string) {
    '0' in m && forall i :: 0 <= i < |m| ==> m[i] == '0' || m[i] == '.'
  }

  /** Zero with an exponent is still zero, whatever its sign. */
  lemma FloatZeroExample()
    ensures FloatIsZero("0e0") && FloatIsZero("-0.0E5")
  {
    assert Strip("0e0") == "0e0" && Mantissa("0e0") == "0";
    assert Strip("-0.0E5") == "-0.0E5" && "-0.0E5"[1..] == "0.0E5";
    assert Mantissa("0.0E5") == "0.0";
  }

  /** A digit other than 0 in the mantissa makes a float nonzero. */
  lemma FloatNonzeroExample()
    ensures !FloatIsZero("0.5") && !FloatIsZero("1e0")
  {
    var a, b := "0.5", "1e0";
    assert Strip(a) == a && Mantissa(a) == a;
    NonzeroAt(a, 2);
    assert Strip(b) == b && Mantissa(b) == "1";
    NonzeroAt(b, 0);
  }

  lemma NonzeroAt(t: string, i: nat)
    requires Strip(t) == t && |t| > 0 && t[0] != '-' && t[0] != '+'
    requires i < |Mantissa(t)| && Mantissa(t)[i] != '0' && Mantissa(t)[i] != '.'
    ensures !FloatIsZero(t)
  {
    assert !ZeroDigits(Mantissa(t));
  }

  /** Python truthiness, the `if k:` test of the array loop. */
  predicate Truthy(v: Value) {
    match v
    case Int(i) => i != 0
    case Bool(b) => b
    case Float(t) => !FloatIsZero(t)
    case Null => false
    case Str(s) => s != []
    case Dict(m) => m != map[]
  }

  /** The key a value is stored under, or None when Python cannot hash it. */
  function AsKey(v: Value): (r: Option<Key>)
    ensures r.None? <==> v.Dict?
    ensures v.Bool? ==> r == Some(IntKey(if v.b then 1 else 0))
    ensures r.Some? && r.value.StrKey? <==> v.Str?
  {
    match v
    case Int(i) => Some(IntKey(i))
    case Bool(b) => Some(IntKey(if b then 1 else 0))
    case Float(t) => Some(FloatKey(t))
    case Null => Some(NoneKey)
    case Str(s) => Some(StrKey(s))
    case Dict(_) => None
  }

  /** The set of type characters the dispatch table knows. */
  predicate KnownTag(c: char) {
    c == 'i' || c == 'b' || c == 'd' || c == 'n' || c == 's' || c == 'a'
  }

  // ---------------------------------------------------------------------
  // Scalar decoders. Each reads the stream s from position u, just after
  // the two-character `<type>:` marker. Python passes the unread part s[u:]
  // itself; its slices of that part are DropFrom and SliceFrom on s.
  // ---------------------------------------------------------------------

  /** _unserialize_int: int() of the text before the first ';', the rest after it. */
  function DecodeInt(s: string, u: nat): (r: Decoded)
    requires u <= |s|
    ensures r.Ok? ==> r.value.0.Int? && u <= r.value.1 <= |s|
    ensures r.Err? ==> r.error.BadInteger?
  {
    var (text, t) := PartitionFrom(s, u, ';');
    match ParseInt(text)
    case None => Err(BadInteger(text))
    case Some(n) => Ok((Int(n), t))
  }

  /** _unserialize_bool: true exactly when the text before the first ';' is "1". */
  function DecodeBool(s: string, u: nat): (r: Decoded)
    requires u <= |s|
    ensures r.Ok? && r.value.0.Bool? && u <= r.value.1 <= |s|
  {
    var (text, t) := PartitionFrom(s, u, ';');
    Ok((Bool(text == "1"), t))
  }

  /** _unserialize_double: the text before the first ';', kept as the payload. */
  function DecodeDouble(s: string, u: nat): (r: Decoded)
    requires u <= |s|
    ensures r.Ok? && r.value.0.Float? && u <= r.value.1 <= |s|
  {
    var (text, t) := PartitionFrom(s, u, ';');
    Ok((Float(text), t))
  }

  /** _unserialize_null: nothing consumed beyond the marker. */
  function DecodeNull(s: string, u: nat): (r: Decoded)
    requires u <= |s|
    ensures r.Ok? && r.value.0 == Null && r.value.1 == u
  {
    Ok((Null, u))
  }

  /**
    _unserialize_string: L is int() of the text before the first ':'; of
    what follows the ':', the payload is [1:L+1] and the rest [L+3:], with
    Python's clamping slices. The quote and `";` delimiters are not checked.
  */
  function DecodeString(s: string, u: nat): (r: Decoded)
    requires u <= |s|
    ensures r.Ok? ==> r.value.0.Str? && u <= r.value.1 <= |s|
    ensures r.Err? ==> r.error.BadInteger?
  {
    var (text, t) := PartitionFrom(s, u, ':');
    match ParseInt(text)
    case None => Err(BadInteger(text))
    case Some(l) => Ok((Str(SliceFrom(s, t, 1, l + 1)), DropFrom(s, t, l + 3)))
  }

  // ---------------------------------------------------------------------
  // The recursive part: dispatch, arrays and their key/value loop.
  // ---------------------------------------------------------------------

  /**
    _unserialize_var: dispatch on the lower-cased first unread character,
    handing the handler what follows the first two characters.
  */
  function Var(s: string, p: nat): (r: Decoded)
    requires p <= |s|
    ensures r.Ok? ==> p < r.value.1 <= |s|
    decreases |s| - p, 0
  {
    if p == |s| then Err(EmptyStream)
    else
      var u := DropFrom(s, p, 2);
      match Lower(s[p])
      case 'i' => DecodeInt(s, u)
      case 'b' => DecodeBool(s, u)
      case 'd' => DecodeDouble(s, u)
      case 'n' => DecodeNull(s, u)
      case 's' => DecodeString(s, u)
      case 'a' => DecodeArray(s, u)
      case _ => Err(UnknownTag(s[p]))
  }

  /** The number of values the array loop decodes: range(0, int(l) * 2). */
  function ValueCount(l: int): (r: nat)
    ensures r % 2 == 0 && r / 2 == if l > 0 then l else 0
  {
    if l > 0 then 2 * l else 0
  }

  /**
    _unserialize_array: L is int() of the text before the first ':'; one
    character after it is dropped (the '{'), 2*L values are decoded and paired,
    and one more character is dropped (the '}').
  */
  function DecodeArray(s: string, u: nat): (r: Decoded)
    requires u <= |s|
    ensures r.Ok? ==> r.value.0.Dict? && u <= r.value.1 <= |s|
    decreases |s| - u, 3
  {
    var (text, t) := PartitionFrom(s, u, ':');
    match ParseInt(text)
    case None => Err(BadInteger(text))
    case Some(l) =>
      match Entries(s, DropFrom(s, t, 1), ValueCount(l), map[], Null)
      case Err(e) => Err(e)
      case Ok((a, q)) => Ok((Dict(a), DropFrom(s, q, 1)))
  }

  /**
    One turn of the pairing in _unserialize_array: the dict and the pending
    key after value v is decoded. A truthy pending key k takes v and is
    cleared; any other k is replaced by v.
  */
  function Pair(a: map<Key, Value>, k: Value, v: Value): Result<(map<Key, Value>, Value), DecodeError> {
    if Truthy(k) then
      match AsKey(k)
      case None => Err(UnhashableKey)
      case Some(key) => Ok((a[key := v], Null))
    else Ok((a, v))
  }

  /**
    The loop of _unserialize_array reading from position p with n values
    still to decode, the dict a built so far and the pending key k (Null when
    none is held).
  */
  function Entries(s: string, p: nat, n: nat, a: map<Key, Value>, k: Value): (r: Result<(map<Key, Value>, nat), DecodeError>)
    requires p <= |s|
    ensures r.Ok? ==> p <= r.value.1 <= |s|
    decreases |s| - p, 2, n
  {
    if n == 0 then Ok((a, p)) else Next(s, p, Var(s, p), n, a, k)
  }

  /** One turn of that loop, n values to go, once the value at p was decoded as d. */
  function Next(s: string, p: nat, d: Decoded, n: nat, a: map<Key, Value>, k: Value): (r: Result<(map<Key, Value>, nat), DecodeError>)
    requires p <= |s| && n > 0
    requires d.Ok? ==> p < d.value.1 <= |s|
    ensures r.Ok? ==> p <= r.value.1 <= |s|
    decreases |s| - p, 1, n
  {
    match d
    case Err(e) => Err(e)
    case Ok((v, q)) =>
      match Pair(a, k, v)
      case Err(e) => Err(e)
      case Ok((a', k')) =>
        Entries(s, q, n - 1, a', k')
  }

  /** With values to go, the loop decodes the value at p first. */
  lemma EntriesNext(s: string, p: nat, n: nat, a: map<Key, Value>, k: Value, d: Decoded,
                    e: Result<(map<Key, Value>, nat), DecodeError>)
    requires p <= |s| && n > 0 && d == Var(s, p) && Next(s, p, d, n, a, k) == e
    ensures Entries(s, p, n, a, k) == e
  {
  }

  /** A turn whose value decoded and paired continues from where that value ended. */
  lemma NextStep(s: string, p: nat, v: Value, q: nat, n: nat, m: nat, a: map<Key, Value>, k: Value,
                 a': map<Key, Value>, k': Value)
    requires p < q <= |s| && n == m + 1 && Pair(a, k, v) == Ok((a', k'))
    ensures Next(s, p, Ok((v, q)), n, a, k) == Entries(s, q, m, a', k')
  {
    assert n - 1 == m;
  }

  /** unserialize: the value of the first token; whatever follows it is ignored. */
  function Unserialize(s: string): (r: Result<Value, DecodeError>)
    ensures r.Ok? <==> Var(s, 0).Ok?
    ensures r.Ok? ==> r.value == Var(s, 0).value.0
  {
    match Var(s, 0)
    case Err(e) => Err(e)
    case Ok((v, _)) => Ok(v)
  }

  // ---------------------------------------------------------------------
  // The imperative decoder.
  // ---------------------------------------------------------------------

  method UnserializeVar(s: string, p: nat) returns (r: Decoded)
    requires p <= |s|
    ensures r == Var(s, p)
    decreases |s| - p, 0
  {
    if p == |s| {
      return Err(EmptyStream);
    }
    var u := DropFrom(s, p, 2);
    var tag := Lower(s[p]);
    if tag == 'i' {
      r := DecodeInt(s, u);
    } else if tag == 'b' {
      r := DecodeBool(s, u);
    } else if tag == 'd' {
      r := DecodeDouble(s, u);
    } else if tag == 'n' {
      r := DecodeNull(s, u);
    } else if tag == 's' {
      r := DecodeString(s, u);
    } else if tag == 'a' {
      r := UnserializeArray(s, u);
    } else {
      r := Err(UnknownTag(s[p]));
    }
  }

  method UnserializeArray(s: string, u: nat) returns (r: Decoded)
    requires u <= |s|
    ensures r == DecodeArray(s, u)
    decreases |s| - u, 1
  {
    var (text, t) := PartitionFrom(s, u, ':');
    var l := ParseInt(text);
    if l.None? {
      return Err(BadInteger(text));
    }
    var a: map<Key, Value> := map[];
    var k: Value := Null;
    var p := DropFrom(s, t, 1);
    var left := ValueCount(l.value);
    ghost var total := Entries(s, p, left, a, k);
    while left > 0
      invariant u <= p <= |s|
      invariant Entries(s, p, left, a, k) == total
    {
      var vr := UnserializeVar(s, p);
      EntriesNext(s, p, left, a, k, vr, Next(s, p, vr, left, a, k));
      if vr.Err? {
        return Err(vr.error);
      }
      var (v, q) := vr.value;
      var next: nat := left - 1;
      if Truthy(k) {
        var key := AsKey(k);
        if key.None? {
          return Err(UnhashableKey);
        }
        NextStep(s, p, v, q, left, next, a, k, a[key.value := v], Null);
        a, k := a[key.value := v], Null;
      } else {
        NextStep(s, p, v, q, left, next, a, k, a, v);
        k := v;
      }
      p, left := q, next;
    }
    r := Ok((Dict(a), DropFrom(s, p, 1)));
  }
}
