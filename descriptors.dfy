/**
  FingerReg (wsh.py:35): the pattern `^(.+?)\[(.+?)\]\[(.+?)\]\[(.+?)\]`
  that splits a shell descriptor `name[rev][flag][type]` into its four
  fields. The pattern is anchored at the start, so findall gives at most one
  match and `[0]` of it is that match; no m or s flags are given, so `.`
  matches anything but a newline. The lazy groups with backtracking select,
  among all ways to match, the one whose group end positions are smallest
  in lexicographic order: the first group as short as any match allows, then
  the second, and so on.

  The search is written on end positions: a match is the sequence of the
  four positions where the groups end (the `[` after the name, the `]` after
  each bracketed field).
*/
module Descriptors {
  import opened Wrappers
  import opened PyText

  /** The fields of a descriptor, in the order of the groups. */
  datatype Descriptor = Descriptor(name: string, rev: string, flag: string, kind: string)

  /** No newline in s[a..b]. */
  predicate Clear(s: string, a: nat, b: nat)
    requires b <= |s|
  {
    forall k :: a <= k < b ==> s[k] != '\n'
  }

  /** s[st..e] is a non-empty run of characters that `.` matches. */
  predicate Group(s: string, st: nat, e: nat) {
    st < e <= |s| && Clear(s, st, e)
  }

  /** From position i, `[group]` once per end position in ends. */
  predicate Bracketed(s: string, i: nat, ends: seq<nat>)
    decreases |ends|
  {
    |ends| == 0 ||
    (i < |s| && s[i] == '[' && Group(s, i + 1, ends[0]) && ends[0] < |s| && s[ends[0]] == ']'
     && Bracketed(s, ends[0] + 1, ends[1..]))
  }

  /** ends are the group ends of a match of the whole pattern at the start of s. */
  predicate Matches(s: string, ends: seq<nat>) {
    |ends| == 4 && Group(s, 0, ends[0]) && Bracketed(s, ends[0], ends[1..])
  }

  /** Lexicographic order on equally long sequences of positions. */
  predicate LexLeq(a: seq<nat>, b: seq<nat>)
    requires |a| == |b|
    decreases |a|
  {
    |a| == 0 || a[0] < b[0] || (a[0] == b[0] && LexLeq(a[1..], b[1..]))
  }

  // ---------------------------------------------------------------------
  // The backtracking search.
  // ---------------------------------------------------------------------

  /**
    A bracketed group that started at st is tried with end e, then with each
    later end, each followed by `]` and n more bracketed groups.
  */
  function Close(s: string, st: nat, e: nat, n: nat): (r: Option<seq<nat>>)
    requires st < e <= |s| && Clear(s, st, e - 1)
    ensures r.Some? ==> |r.value| == n + 1 && e <= r.value[0] && Group(s, st, r.value[0])
                        && r.value[0] < |s| && s[r.value[0]] == ']' && Bracketed(s, r.value[0] + 1, r.value[1..])
    decreases n, 1, |s| - e
  {
    if s[e - 1] == '\n' || e == |s| then None
    else if s[e] == ']' && Open(s, e + 1, n).Some? then Some([e] + Open(s, e + 1, n).value)
    else Close(s, st, e + 1, n)
  }

  /** n bracketed groups from position i, each group as short as the rest allows. */
  function Open(s: string, i: nat, n: nat): (r: Option<seq<nat>>)
    requires i <= |s|
    ensures r.Some? ==> |r.value| == n && Bracketed(s, i, r.value)
    decreases n, 0
  {
    if n == 0 then Some([])
    else if i + 1 < |s| && s[i] == '[' then Close(s, i + 1, i + 2, n - 1)
    else None
  }

  /** The name group s[0..e] is tried with end e, then with each later end. */
  function Lead(s: string, e: nat): (r: Option<seq<nat>>)
    requires 0 < e <= |s| && Clear(s, 0, e - 1)
    ensures r.Some? ==> Matches(s, r.value) && e <= r.value[0]
    decreases |s| - e
  {
    if s[e - 1] == '\n' then None
    else if Open(s, e, 3).Some? then Some([e] + Open(s, e, 3).value)
    else if e < |s| then Lead(s, e + 1)
    else None
  }

  /** The four groups of a match. */
  function FieldsOf(s: string, ends: seq<nat>): Descriptor
    requires Matches(s, ends)
  {
    var b := ends[1..];
    assert Bracketed(s, b[0] + 1, b[1..]);
    assert Bracketed(s, b[1] + 1, b[2..]);
    Descriptor(s[..ends[0]], s[ends[0] + 1..ends[1]], s[ends[1] + 2..ends[2]], s[ends[2] + 2..ends[3]])
  }

  /** FingerReg.findall(s)[0]; None where findall finds nothing and `[0]` raises IndexError. */
  function ParseDescriptor(s: string): Option<Descriptor> {
    if |s| == 0 then None
    else match Lead(s, 1)
      case None => None
      case Some(ends) => Some(FieldsOf(s, ends))
  }

  // ---------------------------------------------------------------------
  // The search finds the least match.
  // ---------------------------------------------------------------------

  lemma {:induction false} CloseLeast(s: string, st: nat, e: nat, n: nat, ends: seq<nat>)
    requires st < e <= |s| && Clear(s, st, e - 1) && |ends| == n + 1 && e <= ends[0]
    requires Group(s, st, ends[0]) && ends[0] < |s| && s[ends[0]] == ']' && Bracketed(s, ends[0] + 1, ends[1..])
    ensures Close(s, st, e, n).Some? && LexLeq(Close(s, st, e, n).value, ends)
    decreases n, 1, |s| - e
  {
    assert s[e - 1] != '\n';
    if ends[0] == e {
      OpenLeast(s, e + 1, n, ends[1..]);
      var r := Close(s, st, e, n).value;
      assert r == [e] + Open(s, e + 1, n).value;
      assert r[1..] == Open(s, e + 1, n).value;
    } else if s[e] != ']' || Open(s, e + 1, n).None? {
      CloseLeast(s, st, e + 1, n, ends);
    }
  }

  lemma {:induction false} OpenLeast(s: string, i: nat, n: nat, ends: seq<nat>)
    requires i <= |s| && |ends| == n && Bracketed(s, i, ends)
    ensures Open(s, i, n).Some? && LexLeq(Open(s, i, n).value, ends)
    decreases n, 0
  {
    if n > 0 {
      CloseLeast(s, i + 1, i + 2, n - 1, ends);
    }
  }

  lemma {:induction false} LeadLeast(s: string, e: nat, ends: seq<nat>)
    requires 0 < e <= |s| && Clear(s, 0, e - 1) && Matches(s, ends) && e <= ends[0]
    ensures Lead(s, e).Some? && LexLeq(Lead(s, e).value, ends)
    decreases |s| - e
  {
    assert s[e - 1] != '\n';
    if ends[0] == e {
      OpenLeast(s, e, 3, ends[1..]);
      var r := Lead(s, e).value;
      assert r == [e] + Open(s, e, 3).value;
      assert r[1..] == Open(s, e, 3).value;
    } else if Open(s, e, 3).None? {
      LeadLeast(s, e + 1, ends);
    }
  }

  // ---------------------------------------------------------------------
  // The same facts about descriptors as text.
  // ---------------------------------------------------------------------

  /** The text a descriptor is written as. */
  function DescriptorText(d: Descriptor): string {
    d.name + "[" + d.rev + "][" + d.flag + "][" + d.kind + "]"
  }

  /** A field the lazy `.+?` can match: non-empty and without a newline. */
  predicate Dotted(w: string) {
    |w| > 0 && '\n' !in w
  }

  predicate WellFormed(d: Descriptor) {
    Dotted(d.name) && Dotted(d.rev) && Dotted(d.flag) && Dotted(d.kind)
  }

  /** The group ends of the match that d's text would give. */
  function EndsOf(d: Descriptor): seq<nat> {
    var e0 := |d.name|;
    var e1 := e0 + 1 + |d.rev|;
    var e2 := e1 + 2 + |d.flag|;
    [e0, e1, e2, e2 + 2 + |d.kind|]
  }

  lemma DottedGroup(s: string, p: nat, w: string)
    requires At(s, p, w) && Dotted(w)
    ensures Group(s, p, p + |w|)
  {
    forall k | p <= k < p + |w| ensures s[k] != '\n' {
      assert s[k] == w[k - p];
    }
  }

  lemma GroupDotted(s: string, p: nat, e: nat)
    requires Group(s, p, e)
    ensures Dotted(s[p..e])
  {
    assert forall k :: 0 <= k < e - p ==> s[p..e][k] == s[p + k];
  }

  lemma StartsAt(s: string, w: string)
    ensures StartsWith(s, w) <==> At(s, 0, w)
  {
    AtSlice(s, 0, w);
    if |w| <= |s| {
      assert s[..|w|] == s[0..|w|];
    }
  }

  /** Each piece of d's text at its place in s. */
  predicate Pieces(s: string, d: Descriptor) {
    var e := EndsOf(d);
    At(s, 0, d.name) && At(s, e[0], "[") && At(s, e[0] + 1, d.rev) && At(s, e[1], "][")
    && At(s, e[1] + 2, d.flag) && At(s, e[2], "][") && At(s, e[2] + 2, d.kind) && At(s, e[3], "]")
  }

  /** d's text is at the start of s exactly when each of its pieces is at its place. */
  lemma TextPieces(s: string, d: Descriptor)
    ensures At(s, 0, DescriptorText(d)) <==> Pieces(s, d)
  {
    var t1 := d.name + "[";
    var t2 := t1 + d.rev;
    var t3 := t2 + "][";
    var t4 := t3 + d.flag;
    var t5 := t4 + "][";
    var t6 := t5 + d.kind;
    AtConcat(s, 0, t6, "]");
    AtConcat(s, 0, t5, d.kind);
    AtConcat(s, 0, t4, "][");
    AtConcat(s, 0, t3, d.flag);
    AtConcat(s, 0, t2, "][");
    AtConcat(s, 0, t1, d.rev);
    AtConcat(s, 0, d.name, "[");
  }

  lemma Brackets(s: string, p: nat)
    ensures At(s, p, "][") <==> p + 1 < |s| && s[p] == ']' && s[p + 1] == '['
  {
    assert "][" == "]" + "[";
    AtConcat(s, p, "]", "[");
    AtChar(s, p, ']');
    AtChar(s, p + 1, '[');
  }

  /** The separator characters of d's text, where it starts s. */
  lemma TextLayout(s: string, d: Descriptor)
    requires Pieces(s, d)
    ensures var e := EndsOf(d);
      && e[3] < |s| && s[e[0]] == '[' && s[e[1]] == ']' && s[e[1] + 1] == '['
      && s[e[2]] == ']' && s[e[2] + 1] == '[' && s[e[3]] == ']'
  {
    var e := EndsOf(d);
    AtChar(s, e[0], '[');
    Brackets(s, e[1]);
    Brackets(s, e[2]);
    AtChar(s, e[3], ']');
  }

  /** A descriptor's text, at the start of s, is a match with that descriptor's ends. */
  lemma TextMatches(s: string, d: Descriptor)
    requires WellFormed(d) && StartsWith(s, DescriptorText(d))
    ensures Matches(s, EndsOf(d)) && FieldsOf(s, EndsOf(d)) == d
  {
    StartsAt(s, DescriptorText(d));
    TextPieces(s, d);
    var e := EndsOf(d);
    TextLayout(s, d);
    DottedGroup(s, 0, d.name);
    DottedGroup(s, e[0] + 1, d.rev);
    DottedGroup(s, e[1] + 2, d.flag);
    DottedGroup(s, e[2] + 2, d.kind);
    MatchFromGroups(s, e);
    AtSlice(s, 0, d.name);
    AtSlice(s, e[0] + 1, d.rev);
    AtSlice(s, e[1] + 2, d.flag);
    AtSlice(s, e[2] + 2, d.kind);
    assert s[..e[0]] == s[0..e[0]];
  }

  /** The four groups and the separators between them make a match. */
  lemma MatchFromGroups(s: string, e: seq<nat>)
    requires |e| == 4 && e[3] < |s|
    requires Group(s, 0, e[0]) && Group(s, e[0] + 1, e[1]) && Group(s, e[1] + 2, e[2]) && Group(s, e[2] + 2, e[3])
    requires s[e[0]] == '[' && s[e[1]] == ']' && s[e[1] + 1] == '[' && s[e[2]] == ']' && s[e[2] + 1] == '[' && s[e[3]] == ']'
    ensures Matches(s, e)
  {
    assert Bracketed(s, e[3] + 1, e[4..]);
    assert e[3..][1..] == e[4..];
    assert e[2..][1..] == e[3..];
    assert e[1..][1..] == e[2..];
  }

  /** The groups and separators of a match. */
  lemma MatchGroups(s: string, e: seq<nat>)
    requires Matches(s, e)
    ensures e[0] < e[1] && e[1] + 2 < e[2] && e[2] + 2 < e[3] < |s|
    ensures Group(s, 0, e[0]) && Group(s, e[0] + 1, e[1]) && Group(s, e[1] + 2, e[2]) && Group(s, e[2] + 2, e[3])
    ensures s[e[0]] == '[' && s[e[1]] == ']' && s[e[1] + 1] == '[' && s[e[2]] == ']' && s[e[2] + 1] == '[' && s[e[3]] == ']'
  {
    var b := e[1..];
    assert Bracketed(s, b[0] + 1, b[1..]);
    assert Bracketed(s, b[1] + 1, b[2..]);
  }

  /** A group, as text, is a field at its place. */
  lemma FieldAt(s: string, a: nat, b: nat)
    requires Group(s, a, b)
    ensures At(s, a, s[a..b]) && Dotted(s[a..b]) && |s[a..b]| == b - a
  {
    GroupDotted(s, a, b);
    AtSlice(s, a, s[a..b]);
  }

  /** The fields of a match, each at its place. */
  lemma MatchPieces(s: string, ends: seq<nat>)
    requires Matches(s, ends)
    ensures WellFormed(FieldsOf(s, ends)) && Pieces(s, FieldsOf(s, ends)) && EndsOf(FieldsOf(s, ends)) == ends
  {
    MatchGroups(s, ends);
    assert s[..ends[0]] == s[0..ends[0]];
    FieldAt(s, 0, ends[0]);
    FieldAt(s, ends[0] + 1, ends[1]);
    FieldAt(s, ends[1] + 2, ends[2]);
    FieldAt(s, ends[2] + 2, ends[3]);
    AtChar(s, ends[0], '[');
    Brackets(s, ends[1]);
    Brackets(s, ends[2]);
    AtChar(s, ends[3], ']');
  }

  /** The fields of a match are well formed and the match's text starts s. */
  lemma MatchText(s: string, ends: seq<nat>)
    requires Matches(s, ends)
    ensures WellFormed(FieldsOf(s, ends)) && StartsWith(s, DescriptorText(FieldsOf(s, ends)))
    ensures EndsOf(FieldsOf(s, ends)) == ends
  {
    var d := FieldsOf(s, ends);
    MatchPieces(s, ends);
    TextPieces(s, d);
    StartsAt(s, DescriptorText(d));
  }

  /**
    Soundness: a parsed descriptor has fields the groups can match, and s
    starts with its text.
  */
  lemma ParseSound(s: string)
    requires ParseDescriptor(s).Some?
    ensures WellFormed(ParseDescriptor(s).value) && StartsWith(s, DescriptorText(ParseDescriptor(s).value))
  {
    MatchText(s, Lead(s, 1).value);
  }

  /**
    Completeness and laziness: whenever s starts with the text of some well
    formed descriptor g, the pattern matches, and its groups end no later than
    g's do, in lexicographic order.
  */
  lemma ParseComplete(s: string, g: Descriptor)
    requires WellFormed(g) && StartsWith(s, DescriptorText(g))
    ensures ParseDescriptor(s).Some? && LexLeq(EndsOf(ParseDescriptor(s).value), EndsOf(g))
  {
    TextMatches(s, g);
    LeadLeast(s, 1, EndsOf(g));
    MatchText(s, Lead(s, 1).value);
  }

  /** Fields free of brackets. */
  predicate Plain(w: string) {
    '[' !in w && ']' !in w
  }

  predicate PlainFields(d: Descriptor) {
    Plain(d.name) && Plain(d.rev) && Plain(d.flag) && Plain(d.kind)
  }

  /** No bracket in s[a..b]. */
  predicate NoBracket(s: string, a: nat, b: nat)
    requires b <= |s|
  {
    forall k :: a <= k < b ==> s[k] != '[' && s[k] != ']'
  }

  lemma PlainAt(s: string, p: nat, w: string)
    requires At(s, p, w) && Plain(w)
    ensures NoBracket(s, p, p + |w|)
  {
    forall k | p <= k < p + |w| ensures s[k] != '[' && s[k] != ']' {
      assert s[k] == w[k - p];
    }
  }

  /** The groups of match b hold no bracket. */
  predicate PlainGroups(s: string, b: seq<nat>)
    requires Matches(s, b)
  {
    MatchGroups(s, b);
    NoBracket(s, 0, b[0]) && NoBracket(s, b[0] + 1, b[1]) && NoBracket(s, b[1] + 2, b[2]) && NoBracket(s, b[2] + 2, b[3])
  }

  /** A match no later than a match with bracket-free groups is that match. */
  lemma LeastPlain(s: string, a: seq<nat>, b: seq<nat>)
    requires Matches(s, a) && Matches(s, b) && PlainGroups(s, b) && LexLeq(a, b)
    ensures a == b
  {
    MatchGroups(s, a);
    MatchGroups(s, b);
    assert a[0] == b[0];
    assert LexLeq(a[1..], b[1..]);
    assert a[1] == b[1];
    assert LexLeq(a[2..], b[2..]) by { assert a[1..][1..] == a[2..] && b[1..][1..] == b[2..]; }
    assert a[2] == b[2];
    assert LexLeq(a[3..], b[3..]) by { assert a[2..][1..] == a[3..] && b[2..][1..] == b[3..]; }
    assert a[3] == b[3];
  }

  /**
    A descriptor whose fields hold no brackets parses back to exactly its
    fields, whatever follows its text.
  */
  lemma ParsePlain(s: string, g: Descriptor)
    requires WellFormed(g) && PlainFields(g) && StartsWith(s, DescriptorText(g))
    ensures ParseDescriptor(s) == Some(g)
  {
    var b := EndsOf(g);
    TextMatches(s, g);
    StartsAt(s, DescriptorText(g));
    TextPieces(s, g);
    PlainAt(s, 0, g.name);
    PlainAt(s, b[0] + 1, g.rev);
    PlainAt(s, b[1] + 2, g.flag);
    PlainAt(s, b[2] + 2, g.kind);
    LeadLeast(s, 1, b);
    LeastPlain(s, Lead(s, 1).value, b);
  }

  /** A descriptor as the fingerprint database writes one. */
  lemma ParseExample()
    ensures ParseDescriptor("c99shell[1.0][3][php]") == Some(Descriptor("c99shell", "1.0", "3", "php"))
  {
    var g := Descriptor("c99shell", "1.0", "3", "php");
    assert DescriptorText(g) == "c99shell[1.0][3][php]";
    ParsePlain("c99shell[1.0][3][php]", g);
  }

  /** findall(...)[0] fails exactly when s starts with the text of no well formed descriptor. */
  lemma ParseFails(s: string)
    ensures ParseDescriptor(s) == None <==> forall g :: WellFormed(g) ==> !StartsWith(s, DescriptorText(g))
  {
    if ParseDescriptor(s).Some? {
      ParseSound(s);
    }
    forall g | WellFormed(g) && StartsWith(s, DescriptorText(g)) ensures ParseDescriptor(s).Some? {
      ParseComplete(s, g);
    }
  }
}
