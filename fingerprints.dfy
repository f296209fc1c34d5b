/**
  The fingerprint table of Detector.load_finter_print (wsh.py:118-140): the
  database text is base64-decoded and unserialized into a dict, and every
  entry except "version" becomes an entry of the table, keyed by its
  pattern text. A key holding "bb:" is itself base64 after every "bb:" is
  removed. The catch_exc decorator (wsh.py:13-21) turns any exception into an
  empty table.

  base64.decodestring is a parameter (`b64`), None where it raises. The
  compiled `re.escape(fpt)` pattern is kept as its text, the literal
  substring it searches for, so the table maps a pattern to the shell
  descriptor that the database stores for it.
*/
module Fingerprints {
  import opened Wrappers
  import opened PyText
  import opened PhpSerializer

  /** The loaded table: pattern text to shell descriptor as unserialize gave it. */
  type Table = map<string, Value>

  /** What the loop body does with one key of the database. */
  datatype KeyAction = Skip | Use(pattern: string) | Fail

  const Version: string := "version"
  const Marker: string := "bb:"

  /**
    One key: "version" is skipped; any other key that is not a string raises
    TypeError at the `in` test; a string holding "bb:" is base64-decoded once
    every "bb:" is removed; any other string is used as it is.
  */
  function Classify(k: Key, b64: string -> Option<string>): (r: KeyAction)
    ensures r.Skip? <==> k == StrKey(Version)
    ensures !k.StrKey? ==> r.Fail?
    ensures r.Fail? && k.StrKey? ==> Contains(k.s, Marker) && b64(RemoveAll(k.s, Marker)).None?
    ensures k.StrKey? && k != StrKey(Version) && !Contains(k.s, Marker) ==> r == Use(k.s)
  {
    if k == StrKey(Version) then Skip
    else if !k.StrKey? then Fail
    else if Contains(k.s, Marker) then
      match b64(RemoveAll(k.s, Marker))
      case None => Fail
      case Some(f) => Use(f)
    else Use(k.s)
  }

  /** Some key of the database makes the loop raise. */
  predicate Raises(db: map<Key, Value>, b64: string -> Option<string>) {
    exists k :: k in db && Classify(k, b64).Fail?
  }

  /** The patterns the keys of the database give. */
  function Patterns(db: map<Key, Value>, b64: string -> Option<string>): set<string> {
    set k | k in db && Classify(k, b64).Use? :: Classify(k, b64).pattern
  }

  /**
    t is a table the loop can build from db in some order of its keys: it has
    exactly the patterns of the keys, and each entry is the value of a key
    giving that pattern (the last such key visited wins).
  */
  predicate TableOf(db: map<Key, Value>, b64: string -> Option<string>, t: Table) {
    && t.Keys == Patterns(db, b64)
    && forall f :: f in t ==> exists k :: k in db && Classify(k, b64) == Use(f) && t[f] == db[k]
  }

  /** No two keys of the database give the same pattern. */
  predicate Distinct(db: map<Key, Value>, b64: string -> Option<string>) {
    forall j, k :: j in db && k in db && Classify(j, b64).Use? && Classify(j, b64) == Classify(k, b64) ==> j == k
  }

  /**
    The loop over fingerprints.iteritems() (wsh.py:131-140). Python visits
    the keys in an order of its own; here each step takes any key not yet
    visited. None is the exception that the loop raises at a bad key.
  */
  method BuildTable(db: map<Key, Value>, b64: string -> Option<string>) returns (r: Option<Table>)
    ensures r.None? <==> Raises(db, b64)
    ensures r.Some? ==> TableOf(db, b64, r.value)
  {
    var results: Table := map[];
    var rest := db.Keys;
    while rest != {}
      invariant rest <= db.Keys
      invariant forall k :: k in db && k !in rest ==> !Classify(k, b64).Fail?
      invariant results.Keys == set k | k in db && k !in rest && Classify(k, b64).Use? :: Classify(k, b64).pattern
      invariant forall f :: f in results ==> exists k :: k in db && k !in rest && Classify(k, b64) == Use(f) && results[f] == db[k]
      decreases rest
    {
      var k :| k in rest;
      var action := Classify(k, b64);
      if action.Fail? {
        return None;
      }
      rest := rest - {k};
      if action.Use? {
        results := results[action.pattern := db[k]];
      }
    }
    return Some(results);
  }

  /** With no two keys giving one pattern, every used key's value is in the table under its pattern. */
  lemma DistinctTable(db: map<Key, Value>, b64: string -> Option<string>, t: Table)
    requires TableOf(db, b64, t) && Distinct(db, b64)
    ensures forall k :: k in db && Classify(k, b64).Use? ==> Classify(k, b64).pattern in t && t[Classify(k, b64).pattern] == db[k]
  {
    forall k | k in db && Classify(k, b64).Use?
      ensures Classify(k, b64).pattern in t && t[Classify(k, b64).pattern] == db[k]
    {
      var f := Classify(k, b64).pattern;
      assert f in Patterns(db, b64);
      var j :| j in db && Classify(j, b64) == Use(f) && t[f] == db[j];
    }
  }

  /** The "version" entry gives no pattern, so only another key can put "version" in the table. */
  lemma VersionSkipped(db: map<Key, Value>, b64: string -> Option<string>, t: Table)
    requires TableOf(db, b64, t)
    ensures forall f :: f in t ==> exists k :: k in db && k != StrKey(Version) && Classify(k, b64) == Use(f) && t[f] == db[k]
  {
    forall f | f in t
      ensures exists k :: k in db && k != StrKey(Version) && Classify(k, b64) == Use(f) && t[f] == db[k]
    {
      var k :| k in db && Classify(k, b64) == Use(f) && t[f] == db[k];
      assert k != StrKey(Version);
    }
  }

  /** A string key without the marker, other than "version", is its own pattern. */
  lemma PlainKey(s: string, b64: string -> Option<string>)
    requires s != Version && !Contains(s, Marker)
    ensures Classify(StrKey(s), b64) == Use(s) && RemoveAll(s, Marker) == s
  {
    RemoveAbsent(s, Marker);
  }

  /**
    load_finter_print on the database text: None for empty text (the bare
    `return`); the empty table when base64 or unserialize raises, when the
    decoded value is not a dict (no iteritems), or when the key loop raises;
    otherwise the table the loop builds.
  */
  method LoadFingerPrint(content: string, b64: string -> Option<string>) returns (r: Option<Table>)
    ensures content == [] <==> r.None?
    ensures content != [] && Decodes(content, b64) ==> r.Some? && Loads(content, b64, r.value)
    ensures content != [] && !Decodes(content, b64) ==> r == Some(map[])
  {
    if content == [] {
      return None;
    }
    var text := b64(content);
    if text.None? {
      return Some(map[]);
    }
    var v := UnserializeVar(text.value, 0);
    if v.Err? || !v.value.0.Dict? {
      return Some(map[]);
    }
    var t := BuildTable(v.value.0.entries, b64);
    if t.None? {
      return Some(map[]);
    }
    return t;
  }

  /** The database text decodes to a dict whose keys all classify without raising. */
  predicate Decodes(content: string, b64: string -> Option<string>) {
    match b64(content)
    case None => false
    case Some(text) =>
      var v := Var(text, 0);
      v.Ok? && v.value.0.Dict? && !Raises(v.value.0.entries, b64)
  }

  /** The table is one the key loop builds from the decoded dict. */
  predicate Loads(content: string, b64: string -> Option<string>, t: Table) {
    Decodes(content, b64) && TableOf(Var(b64(content).value, 0).value.0.entries, b64, t)
  }
}
