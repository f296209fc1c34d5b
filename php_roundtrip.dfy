/**
  The other direction of PhpSerializer (wsh.py:39-85): the text PHP's
  serialize() writes for a value, and the proof that the decoder reads every
  well-formed serialized value back, wherever it stands in a stream, and
  goes on reading right after it.

  A Term is the PHP value before serialization; an array keeps its entries
  in order, so that what the decoder does with a repeated key can be stated.
*/
module PhpRoundTrip {
  import opened Wrappers
  import opened PyText
  import opened PhpSerializer
  import opened PhpTokens

  datatype Term =
    | TInt(i: int)
    | TBool(b: bool)
    | TDouble(text: string)
    | TNull
    | TStr(s: string)
    | TArray(entries: seq<(Term, Term)>)

  /** serialize() in PHP. A double is written as the text it is given. */
  function Serialize(t: Term): string
    decreases t, 1
  {
    match t
    case TInt(i) => "i:" + IntToString(i) + ";"
    case TBool(b) => "b:" + (if b then "1" else "0") + ";"
    case TDouble(x) => "d:" + x + ";"
    case TNull => "N;"
    case TStr(x) => "s:" + IntToString(|x|) + ":\"" + x + "\";"
    case TArray(es) => "a:" + IntToString(|es|) + ":{" + SerializeFrom(t, 0) + "}"
  }

  /** The key and value texts of the entries of array t from the i-th on. */
  function SerializeFrom(t: Term, i: nat): string
    requires t.TArray? && i <= |t.entries|
    decreases t, 0, |t.entries| - i
  {
    if i == |t.entries| then ""
    else Serialize(t.entries[i].0) + Serialize(t.entries[i].1) + SerializeFrom(t, i + 1)
  }

  /** A key PHP writes is an integer or a string; the decoder needs it truthy to pair it. */
  predicate KeyTerm(k: Term) {
    (k.TInt? && k.i != 0) || (k.TStr? && k.s != [])
  }

  function KeyOf(k: Term): Key
    requires KeyTerm(k)
  {
    if k.TInt? then IntKey(k.i) else StrKey(k.s)
  }

  /**
    The terms the decoder reads back as they are: double texts hold no ';',
    and every array key is a truthy integer or string.
  */
  predicate WellFormed(t: Term)
    decreases t, 1
  {
    match t
    case TDouble(x) => ';' !in x
    case TArray(es) => WellFormedFrom(t, 0)
    case _ => true
  }

  predicate WellFormedFrom(t: Term, i: nat)
    requires t.TArray? && i <= |t.entries|
    decreases t, 0, |t.entries| - i
  {
    i == |t.entries| ||
    (KeyTerm(t.entries[i].0) && WellFormed(t.entries[i].1) && WellFormedFrom(t, i + 1))
  }

  /** The value unserialize builds for a term: the entries stored in order, a later key overwriting. */
  function Materialize(t: Term): Value
    requires WellFormed(t)
    decreases t, 1
  {
    match t
    case TInt(i) => Int(i)
    case TBool(b) => Bool(b)
    case TDouble(x) => Float(x)
    case TNull => Null
    case TStr(x) => Str(x)
    case TArray(es) => Dict(FoldFrom(t, 0, map[]))
  }

  /** The dict a with the entries of array t from the i-th on stored into it, left to right. */
  function FoldFrom(t: Term, i: nat, a: map<Key, Value>): map<Key, Value>
    requires t.TArray? && i <= |t.entries| && WellFormedFrom(t, i)
    decreases t, 0, |t.entries| - i
  {
    if i == |t.entries| then a
    else FoldFrom(t, i + 1, a[KeyOf(t.entries[i].0) := Materialize(t.entries[i].1)])
  }

  // ---------------------------------------------------------------------
  // The decoder and the texts under non-recursive aliases, there for the
  // prover only: they add no concept. A lemma whose conclusion names one of
  // these unfolds the recursive definition behind it one level less than a
  // lemma naming the definition itself, which keeps the entry and array
  // lemmas below within the solver's resource limit.
  // ---------------------------------------------------------------------

  /** The decoder at position p of s. */
  function ReadAt(s: string, p: nat): Decoded
    requires p <= |s|
  {
    Var(s, p)
  }

  /** The array loop at position p of s, with n values still to read. */
  function EntriesAt(s: string, p: nat, n: nat, a: map<Key, Value>, k: Value): Result<(map<Key, Value>, nat), DecodeError>
    requires p <= |s|
  {
    Entries(s, p, n, a, k)
  }

  /** The text of a term. */
  function TextOf(t: Term): string {
    Serialize(t)
  }

  /** The text of the entries of array t from the i-th on. */
  function TextFrom(t: Term, i: nat): string
    requires t.TArray? && i <= |t.entries|
  {
    SerializeFrom(t, i)
  }

  /** The value of a term. */
  function ValueOf(t: Term): Value
    requires WellFormed(t)
  {
    Materialize(t)
  }

  /** The dict built from the entries of array t from the i-th on. */
  function DictFrom(t: Term, i: nat, a: map<Key, Value>): map<Key, Value>
    requires t.TArray? && i <= |t.entries| && WellFormedFrom(t, i)
  {
    FoldFrom(t, i, a)
  }

  // ---------------------------------------------------------------------
  // One lemma per kind of token, each about a token at position p of s.
  // ---------------------------------------------------------------------

  lemma IntRoundTrip(t: Term, s: string, p: nat)
    requires t.TInt? && At(s, p, TextOf(t))
    ensures ReadAt(s, p) == Ok((ValueOf(t), p + |TextOf(t)|))
  {
    var text := IntToString(t.i);
    assert Serialize(t) == "i:" + text + ";";
    AtConcat(s, p, "i:" + text, ";");
    AtConcat(s, p, "i:", text);
    AtChar(s, p + 2 + |text|, ';');
    AtHead(s, p, "i:");
    IntToStringChars(t.i);
    ParseIntToString(t.i);
    IntToken(s, p, text);
  }

  lemma BoolRoundTrip(t: Term, s: string, p: nat)
    requires t.TBool? && At(s, p, TextOf(t))
    ensures ReadAt(s, p) == Ok((ValueOf(t), p + |TextOf(t)|))
  {
    var text := if t.b then "1" else "0";
    assert Serialize(t) == "b:" + text + ";";
    AtConcat(s, p, "b:" + text, ";");
    AtConcat(s, p, "b:", text);
    AtChar(s, p + 3, ';');
    AtHead(s, p, "b:");
    BoolToken(s, p, text);
  }

  lemma DoubleRoundTrip(t: Term, s: string, p: nat)
    requires t.TDouble? && ';' !in t.text && At(s, p, TextOf(t))
    ensures ReadAt(s, p) == Ok((Float(t.text), p + |TextOf(t)|))
  {
    var x := t.text;
    assert Serialize(t) == "d:" + x + ";";
    AtConcat(s, p, "d:" + x, ";");
    AtConcat(s, p, "d:", x);
    AtChar(s, p + 2 + |x|, ';');
    AtHead(s, p, "d:");
    DoubleToken(s, p, x);
  }

  lemma NullRoundTrip(t: Term, s: string, p: nat)
    requires t.TNull? && At(s, p, TextOf(t))
    ensures ReadAt(s, p) == Ok((ValueOf(t), p + |TextOf(t)|))
  {
    assert Serialize(t) == "N;";
    AtHead(s, p, "N;");
    NullToken(s, p);
  }

  lemma StrRoundTrip(t: Term, s: string, p: nat)
    requires t.TStr? && At(s, p, TextOf(t))
    ensures ReadAt(s, p) == Ok((ValueOf(t), p + |TextOf(t)|))
  {
    var x := t.s;
    var lt := IntToString(|x|);
    assert Serialize(t) == "s:" + lt + ":\"" + x + "\";";
    AtConcat(s, p, "s:" + lt + ":\"" + x, "\";");
    AtConcat(s, p, "s:" + lt + ":\"", x);
    AtConcat(s, p, "s:" + lt, ":\"");
    AtConcat(s, p, "s:", lt);
    AtHead(s, p, "s:");
    AtHead(s, p + 2 + |lt|, ":\"");
    IntToStringChars(|x|);
    ParseIntToString(|x|);
    StringToken(s, p, lt, x);
  }

  /**
    An array token `a:<count>:{<entries>}` with a count text int() reads as
    l: the marker and the two characters around the entries are not
    inspected, the entries are read as l key-then-value pairs, and the
    character after them is dropped.
  */
  lemma ArrayToken(s: string, p: nat, lt: string, c: nat, l: int, a: map<Key, Value>, q: nat)
    requires p + 2 <= |s| && Lower(s[p]) == 'a'
    requires PartitionFrom(s, p + 2, ':') == (lt, c) && ParseInt(lt) == Some(l) && c < |s|
    requires EntriesAt(s, c + 1, ValueCount(l), map[], Null) == Ok((a, q)) && q < |s|
    ensures ReadAt(s, p) == Ok((Dict(a), q + 1))
  {
    ArrayMarker(s, p);
    ArrayStep(s, p + 2, lt, c, l, a, q);
  }

  /** An array token is handed to the array decoder after its marker. */
  lemma ArrayMarker(s: string, p: nat)
    requires p + 2 <= |s| && Lower(s[p]) == 'a'
    ensures Var(s, p) == DecodeArray(s, p + 2)
  {
  }

  lemma ArrayStep(s: string, u: nat, lt: string, t: nat, l: int, a: map<Key, Value>, q: nat)
    requires u <= |s| && PartitionFrom(s, u, ':') == (lt, t) && ParseInt(lt) == Some(l) && t < |s|
    requires EntriesAt(s, t + 1, ValueCount(l), map[], Null) == Ok((a, q)) && q < |s|
    ensures DecodeArray(s, u) == Ok((Dict(a), q + 1))
  {
  }

  // ---------------------------------------------------------------------
  // The round trip.
  // ---------------------------------------------------------------------

  /**
    Wherever the text of a well-formed term stands in a stream, the decoder
    reads exactly that text and gives back the term's value; whatever follows
    is left unread.
  */
  lemma RoundTrip(t: Term, s: string, p: nat)
    requires WellFormed(t) && At(s, p, Serialize(t))
    ensures Var(s, p) == Ok((Materialize(t), p + |Serialize(t)|))
  {
    ReadTerm(t, s, p);
  }

  lemma {:induction false} ReadTerm(t: Term, s: string, p: nat)
    requires WellFormed(t) && At(s, p, TextOf(t))
    ensures ReadAt(s, p) == Ok((ValueOf(t), p + |TextOf(t)|))
    decreases t, 2
  {
    match t
    case TInt(_) => IntRoundTrip(t, s, p);
    case TBool(_) => BoolRoundTrip(t, s, p);
    case TDouble(_) => DoubleRoundTrip(t, s, p);
    case TNull => NullRoundTrip(t, s, p);
    case TStr(_) => StrRoundTrip(t, s, p);
    case TArray(_) => ArrayRoundTrip(t, s, p);
  }

  lemma {:induction false} ArrayRoundTrip(t: Term, s: string, p: nat)
    requires t.TArray? && WellFormed(t) && At(s, p, TextOf(t))
    ensures ReadAt(s, p) == Ok((ValueOf(t), p + |TextOf(t)|))
    decreases t, 1
  {
    var lt, body := IntToString(|t.entries|), SerializeFrom(t, 0);
    ArrayParts(t, s, p);
    ArrayToken(s, p, lt, p + |lt| + 3, |t.entries|, DictFrom(t, 0, map[]), p + |lt| + 4 + |body|);
  }

  /** What the array decoder meets in the text of an array. */
  lemma {:induction false} ArrayParts(t: Term, s: string, p: nat)
    requires t.TArray? && WellFormed(t) && At(s, p, TextOf(t))
    ensures var lt, body := IntToString(|t.entries|), TextFrom(t, 0);
      && ValueOf(t) == Dict(DictFrom(t, 0, map[]))
      && |TextOf(t)| == |lt| + |body| + 5
      && p + 2 <= |s| && Lower(s[p]) == 'a' && p + |lt| + 4 + |body| < |s|
      && PartitionFrom(s, p + 2, ':') == (lt, p + |lt| + 3) && ParseInt(lt) == Some(|t.entries|)
      && EntriesAt(s, p + |lt| + 4, ValueCount(|t.entries|), map[], Null) ==
         Ok((DictFrom(t, 0, map[]), p + |lt| + 4 + |body|))
    decreases t, 0, |t.entries| + 2
  {
    ArrayLayout(t, s, p);
    ArrayEntries(t, s, p, IntToString(|t.entries|), SerializeFrom(t, 0));
  }

  /** Where the parts of an array's text stand when the whole text is at p. */
  lemma ArrayLayout(t: Term, s: string, p: nat)
    requires t.TArray? && At(s, p, TextOf(t))
    ensures WellFormed(t) ==> ValueOf(t) == Dict(DictFrom(t, 0, map[]))
    ensures var lt, body := IntToString(|t.entries|), TextFrom(t, 0);
      && |TextOf(t)| == |lt| + |body| + 5
      && p + 2 <= |s| && Lower(s[p]) == 'a' && Field(s, p + 2, lt, ':')
      && At(s, p + |lt| + 4, body) && p + |lt| + 4 + |body| < |s|
  {
    ArrayText(t);
    IntToStringChars(|t.entries|);
    ArrayTextAt(s, p, IntToString(|t.entries|), SerializeFrom(t, 0));
  }

  /** The text of an array, and the dict it stands for. */
  lemma ArrayText(t: Term)
    requires t.TArray?
    ensures Serialize(t) == "a:" + IntToString(|t.entries|) + ":{" + SerializeFrom(t, 0) + "}"
    ensures WellFormed(t) ==> Materialize(t) == Dict(FoldFrom(t, 0, map[]))
  {
  }

  /** The same for any count text free of ':' and any body. */
  lemma ArrayTextAt(s: string, p: nat, lt: string, body: string)
    requires ':' !in lt && At(s, p, "a:" + lt + ":{" + body + "}")
    ensures p + 2 <= |s| && s[p] == 'a' && Field(s, p + 2, lt, ':')
    ensures At(s, p + |lt| + 4, body) && p + |lt| + 4 + |body| < |s|
  {
    AtConcat(s, p, "a:" + lt + ":{" + body, "}");
    AtConcat(s, p, "a:" + lt + ":{", body);
    AtConcat(s, p, "a:" + lt, ":{");
    AtConcat(s, p, "a:", lt);
    AtChar(s, p + |lt| + 4 + |body|, '}');
    AtHead(s, p, "a:");
    AtHead(s, p + 2 + |lt|, ":{");
  }

  /** The count text is read, and then the entries, from the character after the one that follows it. */
  lemma {:induction false} ArrayEntries(t: Term, s: string, p: nat, lt: string, body: string)
    requires t.TArray? && WellFormedFrom(t, 0)
    requires lt == IntToString(|t.entries|) && body == TextFrom(t, 0)
    requires Field(s, p + 2, lt, ':') && At(s, p + |lt| + 4, body) && p + |lt| + 4 + |body| < |s|
    ensures PartitionFrom(s, p + 2, ':') == (lt, p + |lt| + 3) && ParseInt(lt) == Some(|t.entries|)
    ensures EntriesAt(s, p + |lt| + 4, ValueCount(|t.entries|), map[], Null) ==
            Ok((DictFrom(t, 0, map[]), p + |lt| + 4 + |body|))
    decreases t, 0, |t.entries| + 1
  {
    PartitionFromAt(s, p + 2, ':', lt);
    ParseIntToString(|t.entries|);
    EntriesRoundTrip(t, 0, s, p + |lt| + 4, map[]);
  }

  /**
    The array loop reads the entries from the i-th on as key-then-value
    pairs and stores each into the dict it has built so far.
  */
  lemma {:induction false} EntriesRoundTrip(t: Term, i: nat, s: string, p: nat, a: map<Key, Value>)
    requires t.TArray? && i <= |t.entries| && WellFormedFrom(t, i) && At(s, p, TextFrom(t, i))
    ensures EntriesAt(s, p, 2 * (|t.entries| - i), a, Null) == Ok((DictFrom(t, i, a), p + |TextFrom(t, i)|))
    decreases t, 0, |t.entries| - i, 1
  {
    if i < |t.entries| {
      var (k, v) := t.entries[i];
      var p1 := p + |TextOf(k)|;
      EntryLayout(t, i, s, p);
      EntryKey(t, i, s, p, a);
      EntryValue(t, i, s, p1, a);
      EntriesRoundTrip(t, i + 1, s, p1 + |TextOf(v)|, a[KeyOf(k) := ValueOf(v)]);
    }
  }

  /** Where the key, the value and the later entries stand. */
  lemma EntryLayout(t: Term, i: nat, s: string, p: nat)
    requires t.TArray? && i < |t.entries| && At(s, p, TextFrom(t, i))
    ensures var k, v, rest := TextOf(t.entries[i].0), TextOf(t.entries[i].1), TextFrom(t, i + 1);
      && |TextFrom(t, i)| == |k| + |v| + |rest|
      && At(s, p, k) && At(s, p + |k|, v) && At(s, p + |k| + |v|, rest)
  {
    var k, v, rest := TextOf(t.entries[i].0), TextOf(t.entries[i].1), TextFrom(t, i + 1);
    EntryText(t, i);
    AtConcat(s, p, k + v, rest);
    AtConcat(s, p, k, v);
  }

  /** The entries' text from the i-th on is the i-th key, its value, then the rest. */
  lemma EntryText(t: Term, i: nat)
    requires t.TArray? && i < |t.entries|
    ensures TextFrom(t, i) == TextOf(t.entries[i].0) + TextOf(t.entries[i].1) + TextFrom(t, i + 1)
  {
  }

  /** The loop reads the i-th entry's key and holds it. */
  lemma {:induction false} EntryKey(t: Term, i: nat, s: string, p: nat, a: map<Key, Value>)
    requires t.TArray? && i < |t.entries| && WellFormedFrom(t, i) && At(s, p, TextOf(t.entries[i].0))
    ensures EntriesAt(s, p, 2 * (|t.entries| - i), a, Null) ==
            EntriesAt(s, p + |TextOf(t.entries[i].0)|, 2 * (|t.entries| - i) - 1, a, ValueOf(t.entries[i].0))
    decreases t, 0, |t.entries| - i, 0
  {
    ReadTerm(t.entries[i].0, s, p);
    HeldKey(s, p, p + |TextOf(t.entries[i].0)|, 2 * (|t.entries| - i), a, Null, ValueOf(t.entries[i].0));
  }

  /** The loop reads the i-th entry's value and stores it under the key it holds. */
  lemma {:induction false} EntryValue(t: Term, i: nat, s: string, p: nat, a: map<Key, Value>)
    requires t.TArray? && i < |t.entries| && WellFormedFrom(t, i) && At(s, p, TextOf(t.entries[i].1))
    ensures EntriesAt(s, p, 2 * (|t.entries| - i) - 1, a, ValueOf(t.entries[i].0)) ==
            EntriesAt(s, p + |TextOf(t.entries[i].1)|, 2 * (|t.entries| - i - 1), a[KeyOf(t.entries[i].0) := ValueOf(t.entries[i].1)], Null)
    decreases t, 0, |t.entries| - i, 0
  {
    var (k, v) := t.entries[i];
    ReadTerm(v, s, p);
    KeyValue(k);
    StoredValue(s, p, p + |TextOf(v)|, 2 * (|t.entries| - i) - 1, a, ValueOf(k), ValueOf(v), KeyOf(k));
  }

  /** A key term decodes to a truthy value the dict accepts as the key KeyOf names. */
  lemma KeyValue(k: Term)
    requires KeyTerm(k)
    ensures WellFormed(k) && Truthy(ValueOf(k)) && AsKey(ValueOf(k)) == Some(KeyOf(k))
  {
  }

  /** With no key held, or a falsy one, the loop holds the value it reads as the next key. */
  lemma HeldKey(s: string, p: nat, q: nat, n: nat, a: map<Key, Value>, k: Value, kv: Value)
    requires p <= |s| && n >= 1 && ReadAt(s, p) == Ok((kv, q)) && !Truthy(k)
    ensures q <= |s| && EntriesAt(s, p, n, a, k) == EntriesAt(s, q, n - 1, a, kv)
  {
    var m: nat := n - 1;
    EntriesNext(s, p, n, a, k, Var(s, p), Next(s, p, Var(s, p), n, a, k));
    NextStep(s, p, kv, q, n, m, a, k, a, kv);
  }

  /** With a truthy key held, the loop stores the value it reads under that key and holds nothing. */
  lemma StoredValue(s: string, p: nat, q: nat, n: nat, a: map<Key, Value>, kv: Value, vv: Value, key: Key)
    requires p <= |s| && n >= 1 && ReadAt(s, p) == Ok((vv, q))
    requires Truthy(kv) && AsKey(kv) == Some(key)
    ensures q <= |s| && EntriesAt(s, p, n, a, kv) == EntriesAt(s, q, n - 1, a[key := vv], Null)
  {
    var m: nat := n - 1;
    EntriesNext(s, p, n, a, kv, Var(s, p), Next(s, p, Var(s, p), n, a, kv));
    NextStep(s, p, vv, q, n, m, a, kv, a[key := vv], Null);
  }

  /** unserialize reads a serialized well-formed term back, whatever text follows it. */
  lemma UnserializeSerialize(t: Term, rest: string)
    requires WellFormed(t)
    ensures Unserialize(Serialize(t) + rest) == Ok(Materialize(t))
  {
    var s := Serialize(t) + rest;
    assert s[0..|Serialize(t)|] == Serialize(t);
    AtSlice(s, 0, Serialize(t));
    RoundTrip(t, s, 0);
  }

  // ---------------------------------------------------------------------
  // Repeated keys.
  // ---------------------------------------------------------------------

  /**
    The dict holds, under the key of the j-th entry, that entry's value when
    no later entry has the same key: the last write wins.
  */
  lemma {:induction false} LastWriteWins(t: Term, i: nat, a: map<Key, Value>, j: nat)
    requires t.TArray? && i <= j < |t.entries| && WellFormedFrom(t, i) && WellFormedFrom(t, j)
    requires forall m :: j < m < |t.entries| ==> t.entries[m].0 != t.entries[j].0
    ensures var key := KeyOf(t.entries[j].0);
      key in FoldFrom(t, i, a) && FoldFrom(t, i, a)[key] == Materialize(t.entries[j].1)
    decreases |t.entries| - i
  {
    var a' := a[KeyOf(t.entries[i].0) := Materialize(t.entries[i].1)];
    if i < j {
      LastWriteWins(t, i + 1, a', j);
    } else {
      KeptLater(t, i + 1, a', t.entries[j].0);
    }
  }

  /** A key that no entry from the i-th on has keeps its value. */
  lemma {:induction false} KeptLater(t: Term, i: nat, a: map<Key, Value>, k: Term)
    requires t.TArray? && i <= |t.entries| && WellFormedFrom(t, i) && KeyTerm(k) && KeyOf(k) in a
    requires forall m :: i <= m < |t.entries| ==> t.entries[m].0 != k
    ensures KeyOf(k) in FoldFrom(t, i, a) && FoldFrom(t, i, a)[KeyOf(k)] == a[KeyOf(k)]
    decreases |t.entries| - i
  {
    if i < |t.entries| {
      KeptLater(t, i + 1, a[KeyOf(t.entries[i].0) := Materialize(t.entries[i].1)], k);
    }
  }

  // ---------------------------------------------------------------------
  // A falsy key.
  // ---------------------------------------------------------------------

  /**
    The list ["a", "b"] as PHP serializes it: the key 0 is falsy, so the loop
    does not hold it as a key; "a" becomes the key of 1, and "b" is left
    pending when the loop ends.
  */
  lemma FalsyKeyShift()
    ensures Unserialize("a:2:{i:0;s:1:\"a\";i:1;s:1:\"b\";}") == Ok(Dict(map[StrKey("a") := Int(1)]))
  {
    var s := "a:2:{" + "i:0;" + "s:1:\"a\";" + "i:1;" + "s:1:\"b\";" + "}";
    assert s == "a:2:{i:0;s:1:\"a\";i:1;s:1:\"b\";}";
    var m := map[StrKey("a") := Int(1)];
    ShiftPieces(s);
    ShiftValues(s);
    HeldKey(s, 5, 9, 4, map[], Null, Int(0));
    HeldKey(s, 9, 17, 3, map[], Int(0), Str("a"));
    StoredValue(s, 17, 21, 2, map[], Str("a"), Int(1), StrKey("a"));
    HeldKey(s, 21, 29, 1, m, Null, Str("b"));
    ShiftHeader(s);
    ArrayToken(s, 0, "2", 4, 2, m, 29);
  }

  /** The four value texts of that list, each where the one before it ends. */
  lemma ShiftPieces(s: string)
    requires s == "a:2:{" + "i:0;" + "s:1:\"a\";" + "i:1;" + "s:1:\"b\";" + "}"
    ensures |s| == 30
    ensures At(s, 5, "i:0;") && At(s, 9, "s:1:\"a\";") && At(s, 17, "i:1;") && At(s, 21, "s:1:\"b\";")
  {
    var h, i0, sa, i1, sb := "a:2:{", "i:0;", "s:1:\"a\";", "i:1;", "s:1:\"b\";";
    AtAppend(h, i0);
    AtAppend(h + i0, sa);
    AtAppend(h + i0 + sa, i1);
    AtAppend(h + i0 + sa + i1, sb);
    AtExtend(h + i0, sa, 5, i0);
    AtExtend(h + i0 + sa, i1, 5, i0);
    AtExtend(h + i0 + sa + i1, sb, 5, i0);
    AtExtend(h + i0 + sa + i1 + sb, "}", 5, i0);
    AtExtend(h + i0 + sa, i1, 9, sa);
    AtExtend(h + i0 + sa + i1, sb, 9, sa);
    AtExtend(h + i0 + sa + i1 + sb, "}", 9, sa);
    AtExtend(h + i0 + sa + i1, sb, 17, i1);
    AtExtend(h + i0 + sa + i1 + sb, "}", 17, i1);
    AtExtend(h + i0 + sa + i1 + sb, "}", 21, sb);
  }

  /** The four values of that list's text, each read where the one before it ends. */
  lemma ShiftValues(s: string)
    requires At(s, 5, "i:0;") && At(s, 9, "s:1:\"a\";") && At(s, 17, "i:1;") && At(s, 21, "s:1:\"b\";")
    ensures ReadAt(s, 5) == Ok((Int(0), 9)) && ReadAt(s, 9) == Ok((Str("a"), 17))
    ensures ReadAt(s, 17) == Ok((Int(1), 21)) && ReadAt(s, 21) == Ok((Str("b"), 29))
  {
    ShiftTexts();
    IntRoundTrip(TInt(0), s, 5);
    StrRoundTrip(TStr("a"), s, 9);
    IntRoundTrip(TInt(1), s, 17);
    StrRoundTrip(TStr("b"), s, 21);
  }

  lemma ShiftTexts()
    ensures TextOf(TInt(0)) == "i:0;" && TextOf(TInt(1)) == "i:1;"
    ensures TextOf(TStr("a")) == "s:1:\"a\";" && TextOf(TStr("b")) == "s:1:\"b\";"
  {
    assert IntToString(0) == "0" && IntToString(1) == "1";
  }

  /** An integer whose sign is followed by whitespace decodes, as int("- 5") does. */
  lemma SpacedIntExample()
    ensures Unserialize("i:- 5;") == Ok(Int(-5))
  {
    var s := "i:- 5;";
    assert s[0] == 'i' && s[2] == '-' && s[3] == ' ' && s[4] == '5' && s[5] == ';';
    assert DropFrom(s, 0, 2) == 2;
    assert At(s, 2, "- 5") by { AtSlice(s, 2, "- 5"); }
    AtChar(s, 5, ';');
    PartitionFromAt(s, 2, ';', "- 5");
    assert ParseInt("- 5") == Some(-5) by { ParseIntSpec("- 5"); }
  }

  /** That list's header `a:2:{`. */
  lemma ShiftHeader(s: string)
    requires s == "a:2:{" + "i:0;" + "s:1:\"a\";" + "i:1;" + "s:1:\"b\";" + "}"
    ensures Lower(s[0]) == 'a' && PartitionFrom(s, 2, ':') == ("2", 4) && ParseInt("2") == Some(2)
  {
    var h := "a:2:{";
    var t := "i:0;" + "s:1:\"a\";" + "i:1;" + "s:1:\"b\";" + "}";
    assert s == h + t;
    AtAppend(h, t);
    assert h[0] == 'a' && h[2] == '2' && h[3] == ':';
    assert s[0] == 'a' && s[2] == '2' && s[3] == ':';
    AtChar(s, 2, '2');
    PartitionFromAt(s, 2, ':', "2");
    ParseIntToString(2);
    assert IntToString(2) == "2";
  }
}
