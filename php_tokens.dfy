/**
  What each token of the PHP serialize() format decodes to under
  PhpSerializer (wsh.py:39-85), for a token at any position of a stream,
  and the decoder's quirks: the unchecked marker and quote characters, the
  clamping of an overlong string length, and the pairing shift that a falsy
  array key causes.
*/
module PhpTokens {
  import opened Wrappers
  import opened PyText
  import opened PhpSerializer

  /** An integer token `i:<text>;`: int() of the text before the first ';', read on after it. */
  lemma IntToken(s: string, p: nat, text: string)
    requires p < |s| && Lower(s[p]) == 'i' && Field(s, p + 2, text, ';')
    ensures Var(s, p) ==
              match ParseInt(text)
              case None => Err(BadInteger(text))
              case Some(n) => Ok((Int(n), p + |text| + 3))
  {
    PartitionFromAt(s, p + 2, ';', text);
  }

  /** A boolean token `b:<text>;` is true exactly when the text is "1". */
  lemma BoolToken(s: string, p: nat, text: string)
    requires p < |s| && Lower(s[p]) == 'b' && Field(s, p + 2, text, ';')
    ensures Var(s, p) == Ok((Bool(text == "1"), p + |text| + 3))
  {
    PartitionFromAt(s, p + 2, ';', text);
  }

  /** A double token `d:<text>;` keeps the text before the first ';'. */
  lemma DoubleToken(s: string, p: nat, text: string)
    requires p < |s| && Lower(s[p]) == 'd' && Field(s, p + 2, text, ';')
    ensures Var(s, p) == Ok((Float(text), p + |text| + 3))
  {
    PartitionFromAt(s, p + 2, ';', text);
  }

  /** The null token consumes its two marker characters (`N;`) and nothing else. */
  lemma NullToken(s: string, p: nat)
    requires p + 2 <= |s| && Lower(s[p]) == 'n'
    ensures Var(s, p) == Ok((Null, p + 2))
  {
  }

  /** A string token is handed to the string decoder after its marker. */
  lemma StringMarker(s: string, p: nat)
    requires p + 2 <= |s| && Lower(s[p]) == 's'
    ensures Var(s, p) == DecodeString(s, p + 2)
  {
  }

  /**
    A string token `s:L:"<payload>";` gives exactly the payload and reads on
    after its closing two characters, for any length text L that int() reads
    as the payload's length; the quote characters around the payload and the
    final ';' are not inspected.
  */
  lemma StringToken(s: string, p: nat, lt: string, payload: string)
    requires p < |s| && Lower(s[p]) == 's' && Field(s, p + 2, lt, ':')
    requires ParseInt(lt) == Some(|payload|)
    requires At(s, p + |lt| + 4, payload) && p + |lt| + |payload| + 6 <= |s|
    ensures Var(s, p) == Ok((Str(payload), p + |lt| + |payload| + 6))
  {
    StringTokenBody(s, p, lt, payload);
    StringMarker(s, p);
  }

  lemma StringTokenBody(s: string, p: nat, lt: string, payload: string)
    requires p < |s| && Field(s, p + 2, lt, ':')
    requires ParseInt(lt) == Some(|payload|)
    requires At(s, p + |lt| + 4, payload) && p + |lt| + |payload| + 6 <= |s|
    ensures DecodeString(s, p + 2) == Ok((Str(payload), p + |lt| + |payload| + 6))
  {
    PartitionFromAt(s, p + 2, ':', lt);
    PayloadFitsTail(s, p + 2, lt, p + |lt| + 3, payload);
  }

  lemma PayloadFitsTail(s: string, u: nat, lt: string, t: nat, payload: string)
    requires u <= |s| && PartitionFrom(s, u, ':') == (lt, t) && ParseInt(lt) == Some(|payload|)
    requires At(s, t + 1, payload) && t + |payload| + 3 <= |s|
    ensures DecodeString(s, u) == Ok((Str(payload), t + |payload| + 3))
  {
    StringLength(s, u, lt, t, |payload|);
    PayloadFits(s, t, payload);
  }

  /** The string decoder slices what follows the ':' by the length it read. */
  lemma StringLength(s: string, u: nat, lt: string, t: nat, l: int)
    requires u <= |s| && PartitionFrom(s, u, ':') == (lt, t) && ParseInt(lt) == Some(l)
    ensures DecodeString(s, u) == Ok((Str(SliceFrom(s, t, 1, l + 1)), DropFrom(s, t, l + 3)))
  {
  }

  /** With room for the payload and its two closing characters, the slices are exact. */
  lemma PayloadFits(s: string, t: nat, payload: string)
    requires At(s, t + 1, payload) && t + |payload| + 3 <= |s|
    ensures SliceFrom(s, t, 1, |payload| + 1) == payload
    ensures DropFrom(s, t, |payload| + 3) == t + |payload| + 3
  {
    AtSlice(s, t + 1, payload);
  }

  /**
    A string length that runs past the end of the stream is clamped by the
    slices: the payload is everything after the character that follows the
    ':', nothing is left unread, and no error is raised.
  */
  lemma StringOverrun(s: string, p: nat, lt: string, l: int)
    requires p < |s| && Lower(s[p]) == 's' && Field(s, p + 2, lt, ':')
    requires ParseInt(lt) == Some(l) && |s| <= p + |lt| + 3 + l + 1
    ensures Var(s, p) == Ok((Str(if p + |lt| + 3 < |s| then s[p + |lt| + 4..] else []), |s|))
  {
    StringOverrunBody(s, p, lt, l);
    StringMarker(s, p);
  }

  lemma StringOverrunBody(s: string, p: nat, lt: string, l: int)
    requires p < |s| && Field(s, p + 2, lt, ':')
    requires ParseInt(lt) == Some(l) && |s| <= p + |lt| + 3 + l + 1
    ensures DecodeString(s, p + 2) == Ok((Str(if p + |lt| + 3 < |s| then s[p + |lt| + 4..] else []), |s|))
  {
    PartitionFromAt(s, p + 2, ':', lt);
    PayloadOverrunsTail(s, p + 2, lt, p + |lt| + 3, l);
  }

  lemma PayloadOverrunsTail(s: string, u: nat, lt: string, t: nat, l: int)
    requires u <= |s| && PartitionFrom(s, u, ':') == (lt, t) && ParseInt(lt) == Some(l)
    requires t <= |s| <= t + l + 1
    ensures DecodeString(s, u) == Ok((Str(if t < |s| then s[t + 1..] else []), |s|))
  {
    StringLength(s, u, lt, t, l);
    PayloadOverruns(s, t, l);
  }

  /** Without that room, both slices run to the end of the stream. */
  lemma PayloadOverruns(s: string, t: nat, l: int)
    requires t <= |s| <= t + l + 1
    ensures SliceFrom(s, t, 1, l + 1) == if t < |s| then s[t + 1..] else []
    ensures DropFrom(s, t, l + 3) == |s|
  {
  }

  /** Whether a decoding failure, if it is an unknown-tag failure, names a tag outside the table. */
  predicate TagErrorUnknown<T>(r: Result<T, DecodeError>) {
    r.Err? && r.error.UnknownTag? ==> !KnownTag(Lower(r.error.tag))
  }

  /** Every UnknownTag failure, at any depth of nesting, names a character the table lacks. */
  lemma {:induction false} VarTags(s: string, p: nat)
    requires p <= |s|
    ensures TagErrorUnknown(Var(s, p))
    decreases |s| - p, 0
  {
    if p < |s| {
      var u := DropFrom(s, p, 2);
      match Lower(s[p])
      case 'a' => ArrayTags(s, u);
      case _ =>
    }
  }

  lemma {:induction false} ArrayTags(s: string, u: nat)
    requires u <= |s|
    ensures TagErrorUnknown(DecodeArray(s, u))
    decreases |s| - u, 3
  {
    var (text, t) := PartitionFrom(s, u, ':');
    var l := ParseInt(text);
    if l.Some? {
      EntriesTags(s, DropFrom(s, t, 1), ValueCount(l.value), map[], Null);
    }
  }

  lemma {:induction false} EntriesTags(s: string, p: nat, n: nat, a: map<Key, Value>, k: Value)
    requires p <= |s|
    ensures TagErrorUnknown(Entries(s, p, n, a, k))
    decreases |s| - p, 2, n
  {
    if n > 0 {
      VarTags(s, p);
      NextTags(s, p, Var(s, p), n, a, k);
      EntriesNext(s, p, n, a, k, Var(s, p), Next(s, p, Var(s, p), n, a, k));
    }
  }

  lemma {:induction false} NextTags(s: string, p: nat, d: Decoded, n: nat, a: map<Key, Value>, k: Value)
    requires p <= |s| && n > 0 && TagErrorUnknown(d)
    requires d.Ok? ==> p < d.value.1 <= |s|
    ensures TagErrorUnknown(Next(s, p, d, n, a, k))
    decreases |s| - p, 1, n
  {
    if d.Ok? {
      var (v, q) := d.value;
      var pr := Pair(a, k, v);
      if pr.Ok? {
        var next: nat := n - 1;
        EntriesTags(s, q, next, pr.value.0, pr.value.1);
        NextStep(s, p, v, q, n, next, a, k, pr.value.0, pr.value.1);
      }
    }
  }

  /**
    The dispatch table: a stream with nothing left fails on s[0], and
    otherwise decoding fails with the first unread character exactly when
    that character, lower-cased, is not one of i, b, d, n, s, a.
  */
  lemma Dispatch(s: string, p: nat)
    requires p <= |s|
    ensures p == |s| ==> Var(s, p) == Err(EmptyStream)
    ensures p < |s| ==> (Var(s, p) == Err(UnknownTag(s[p])) <==> !KnownTag(Lower(s[p])))
  {
    VarTags(s, p);
  }
}
