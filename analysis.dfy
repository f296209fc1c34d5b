/**
  Detector._anaylize (wsh.py:154-223): the scoring of one file's content.
  Empty content, or content the heuristic pattern finds nothing in, gives
  the empty result `{}` (here Clean). Otherwise the report lists the
  suspicious lines, numbered by a counter that counts only the lines that
  match, the fingerprints whose pattern occurs in the content, each split by
  FingerReg, and an alarm level: the greatest fingerprint flag, starting
  from 1, looked up in FLAG_MAP.

  The heuristic `Regex.findall` is a parameter (`findall`); reading the file
  is left to the caller, and the os.stat fields get_fileinfo adds to the
  report are not part of this model. Exceptions that escape _anaylize (it
  has no catch_exc) are the Err values.
*/
module Analysis {
  import opened Wrappers
  import opened PyText
  import opened PhpSerializer
  import opened Descriptors
  import opened Fingerprints

  /** One entry of result["suspicious"]: its number and the heuristic's matches on that line. */
  datatype LineHit = LineHit(line: int, funcs: seq<string>)

  /** One entry of the fingerprint list: the four fields of the shell's descriptor. */
  datatype Hit = Hit(name: string, kind: string, rev: string, flag: string)

  datatype Report = Report(suspicious: seq<LineHit>, fingerprint: seq<Hit>, alarm: string)

  /** `{}` for content with nothing suspicious, or the filled-in result dict. */
  datatype Outcome = Clean | Flagged(report: Report)

  /** The exceptions the scoring raises. */
  datatype AnalyzeError =
    | NoTable                  // TypeError: iterating a table that loading left as None
    | NotText                  // TypeError: FingerReg.findall on a descriptor that is not a string
    | NoDescriptor(shell: string) // IndexError: findall(shell)[0] with no match
    | BadFlag(flag: string)    // ValueError: the flag is not an integer

  /** FLAG_MAP.get(m, "medium") (wsh.py:26-31, wsh.py:222). */
  function FlagLabel(m: int): (r: string)
    ensures r in {"normal", "low", "medium", "high"}
    ensures r == "normal" <==> m == -1
    ensures r == "low" <==> m == 1
    ensures r == "high" <==> m == 3
    ensures m !in {-1, 1, 2, 3} ==> r == "medium"
  {
    if m == -1 then "normal"
    else if m == 1 then "low"
    else if m == 2 then "medium"
    else if m == 3 then "high"
    else "medium"
  }

  // ---------------------------------------------------------------------
  // Suspicious lines (wsh.py:192-201).
  // ---------------------------------------------------------------------

  /** The entries the line loop appends, numbering from count. */
  function Suspicious(lines: seq<string>, findall: string -> seq<string>, count: int): seq<LineHit>
    decreases |lines|
  {
    if |lines| == 0 then []
    else if findall(lines[0]) == [] then Suspicious(lines[1..], findall, count)
    else [LineHit(count, findall(lines[0]))] + Suspicious(lines[1..], findall, count + 1)
  }

  /** The lines on which the heuristic finds something, in order. */
  function MatchingLines(lines: seq<string>, findall: string -> seq<string>): seq<string>
    decreases |lines|
  {
    if |lines| == 0 then []
    else if findall(lines[0]) == [] then MatchingLines(lines[1..], findall)
    else [lines[0]] + MatchingLines(lines[1..], findall)
  }

  /**
    The suspicious list has one entry per matching line, the i-th numbered
    count + i whatever line of the file it is, carrying that line's matches.
  */
  lemma {:induction false} SuspiciousNumbering(lines: seq<string>, findall: string -> seq<string>, count: int)
    ensures var s, m := Suspicious(lines, findall, count), MatchingLines(lines, findall);
      |s| == |m| && forall i :: 0 <= i < |s| ==> s[i] == LineHit(count + i, findall(m[i]))
    decreases |lines|
  {
    if |lines| > 0 {
      if findall(lines[0]) == [] {
        SuspiciousNumbering(lines[1..], findall, count);
      } else {
        SuspiciousNumbering(lines[1..], findall, count + 1);
        var s, m := Suspicious(lines, findall, count), MatchingLines(lines, findall);
        forall i | 0 <= i < |s| ensures s[i] == LineHit(count + i, findall(m[i])) {
          if i > 0 {
            assert s[i] == Suspicious(lines[1..], findall, count + 1)[i - 1];
            assert m[i] == MatchingLines(lines[1..], findall)[i - 1];
          }
        }
      }
    }
  }

  /** Every matching line is a line that the heuristic finds something on. */
  lemma {:induction false} MatchingLinesMatch(lines: seq<string>, findall: string -> seq<string>)
    ensures |MatchingLines(lines, findall)| <= |lines|
    ensures forall i :: 0 <= i < |MatchingLines(lines, findall)| ==>
              MatchingLines(lines, findall)[i] in lines && findall(MatchingLines(lines, findall)[i]) != []
    decreases |lines|
  {
    if |lines| > 0 {
      MatchingLinesMatch(lines[1..], findall);
      var m := MatchingLines(lines, findall);
      forall i | 0 <= i < |m| ensures m[i] in lines && findall(m[i]) != [] {
        if findall(lines[0]) == [] {
          assert m[i] in lines[1..];
        } else if i > 0 {
          assert m[i] == MatchingLines(lines[1..], findall)[i - 1];
          assert m[i] in lines[1..];
        }
      }
    }
  }

  /**
    idx lists, in increasing order, exactly the indices of the lines on which
    the heuristic finds something, and m holds those lines in that order.
  */
  predicate Selects(lines: seq<string>, findall: string -> seq<string>, idx: seq<nat>, m: seq<string>) {
    && |idx| == |m|
    && (forall j :: 0 <= j < |idx| ==> idx[j] < |lines| && m[j] == lines[idx[j]] && findall(lines[idx[j]]) != [])
    && (forall j, k :: 0 <= j < k < |idx| ==> idx[j] < idx[k])
    && (forall i :: 0 <= i < |lines| && findall(lines[i]) != [] ==> i in idx)
  }

  /**
    The matching lines are the lines the loop keeps and no others: every line
    with a non-empty findall result appears, once, in file order.
  */
  lemma {:induction false} MatchingLinesIndices(lines: seq<string>, findall: string -> seq<string>) returns (idx: seq<nat>)
    ensures Selects(lines, findall, idx, MatchingLines(lines, findall))
    decreases |lines|
  {
    if |lines| == 0 {
      idx := [];
    } else {
      var rest := MatchingLinesIndices(lines[1..], findall);
      var shifted := seq(|rest|, j requires 0 <= j < |rest| => rest[j] + 1);
      var m := MatchingLines(lines[1..], findall);
      ShiftSelects(lines, findall, rest, m, shifted);
      if findall(lines[0]) == [] {
        idx := shifted;
        SelectsSkip(lines, findall, m, shifted);
      } else {
        idx := [0] + shifted;
        SelectsKeep(lines, findall, m, shifted);
      }
    }
  }

  /** Indices into the tail, shifted by one, index the same lines of the whole. */
  lemma ShiftSelects(lines: seq<string>, findall: string -> seq<string>, rest: seq<nat>, m: seq<string>, shifted: seq<nat>)
    requires |lines| > 0 && Selects(lines[1..], findall, rest, m)
    requires |shifted| == |rest| && forall j :: 0 <= j < |rest| ==> shifted[j] == rest[j] + 1
    ensures Shifted(lines, findall, shifted, m)
  {
    forall i | 0 < i < |lines| && findall(lines[i]) != []
      ensures i in shifted
    {
      assert lines[1..][i - 1] == lines[i];
      var j :| 0 <= j < |rest| && rest[j] == i - 1;
      assert shifted[j] == i;
    }
  }

  /** shifted selects the matching lines of the whole except possibly the first, and m holds them. */
  predicate Shifted(lines: seq<string>, findall: string -> seq<string>, shifted: seq<nat>, m: seq<string>) {
    && |shifted| == |m|
    && (forall j :: 0 <= j < |shifted| ==> 0 < shifted[j] < |lines| && m[j] == lines[shifted[j]] && findall(lines[shifted[j]]) != [])
    && (forall j, k :: 0 <= j < k < |shifted| ==> shifted[j] < shifted[k])
    && (forall i :: 0 < i < |lines| && findall(lines[i]) != [] ==> i in shifted)
  }

  lemma SelectsSkip(lines: seq<string>, findall: string -> seq<string>, m: seq<string>, shifted: seq<nat>)
    requires |lines| > 0 && findall(lines[0]) == [] && m == MatchingLines(lines[1..], findall)
    requires Shifted(lines, findall, shifted, m)
    ensures Selects(lines, findall, shifted, MatchingLines(lines, findall))
  {
  }

  lemma SelectsKeep(lines: seq<string>, findall: string -> seq<string>, m: seq<string>, shifted: seq<nat>)
    requires |lines| > 0 && findall(lines[0]) != [] && m == MatchingLines(lines[1..], findall)
    requires Shifted(lines, findall, shifted, m)
    ensures Selects(lines, findall, [0] + shifted, MatchingLines(lines, findall))
  {
    assert MatchingLines(lines, findall) == [lines[0]] + m;
    KeepLines(lines, findall, m, shifted);
    KeepOrder(shifted);
    KeepComplete(lines, findall, m, shifted);
  }

  lemma KeepLines(lines: seq<string>, findall: string -> seq<string>, m: seq<string>, shifted: seq<nat>)
    requires |lines| > 0 && findall(lines[0]) != [] && |shifted| == |m|
    requires forall j :: 0 <= j < |shifted| ==> 0 < shifted[j] < |lines| && m[j] == lines[shifted[j]] && findall(lines[shifted[j]]) != []
    ensures var idx, all := [0] + shifted, [lines[0]] + m;
      forall j :: 0 <= j < |idx| ==> idx[j] < |lines| && all[j] == lines[idx[j]] && findall(lines[idx[j]]) != []
  {
    var idx, all := [0] + shifted, [lines[0]] + m;
    forall j | 0 < j < |idx|
      ensures idx[j] < |lines| && all[j] == lines[idx[j]] && findall(lines[idx[j]]) != []
    {
      assert idx[j] == shifted[j - 1] && all[j] == m[j - 1];
    }
  }

  lemma KeepOrder(shifted: seq<nat>)
    requires forall j :: 0 <= j < |shifted| ==> 0 < shifted[j]
    requires forall j, k :: 0 <= j < k < |shifted| ==> shifted[j] < shifted[k]
    ensures var idx := [0] + shifted; forall j, k :: 0 <= j < k < |idx| ==> idx[j] < idx[k]
  {
    var idx := [0] + shifted;
    forall j, k | 0 <= j < k < |idx|
      ensures idx[j] < idx[k]
    {
      assert idx[k] == shifted[k - 1];
      if j > 0 {
        assert idx[j] == shifted[j - 1];
      }
    }
  }

  lemma KeepComplete(lines: seq<string>, findall: string -> seq<string>, m: seq<string>, shifted: seq<nat>)
    requires |lines| > 0
    requires forall i :: 0 < i < |lines| && findall(lines[i]) != [] ==> i in shifted
    ensures forall i :: 0 <= i < |lines| && findall(lines[i]) != [] ==> i in [0] + shifted
  {
    var idx := [0] + shifted;
    forall i | 0 < i < |lines| && findall(lines[i]) != []
      ensures i in idx
    {
      var j :| 0 <= j < |shifted| && shifted[j] == i;
      assert idx[j + 1] == i;
    }
  }

  /** The line loop: `count` goes up only when a line is appended. */
  method SuspiciousLines(content: string, findall: string -> seq<string>) returns (hits: seq<LineHit>)
    ensures hits == Suspicious(Split(content, '\n'), findall, 1)
  {
    var lines := Split(content, '\n');
    var count := 1;
    hits := [];
    for i := 0 to |lines|
      invariant hits + Suspicious(lines[i..], findall, count) == Suspicious(lines, findall, 1)
    {
      assert lines[i..][1..] == lines[i + 1..];
      var lmatches := findall(lines[i]);
      if lmatches == [] {
        continue;
      }
      hits := hits + [LineHit(count, lmatches)];
      count := count + 1;
    }
    assert lines[|lines|..] == [];
  }

  // ---------------------------------------------------------------------
  // Fingerprint hits and the alarm (wsh.py:203-222).
  // ---------------------------------------------------------------------

  /**
    One matching table entry's descriptor split by FingerReg, with its flag
    as an integer; or the exception the loop body raises on it.
  */
  function Describe(shell: Value): (r: Result<Hit, AnalyzeError>)
    ensures r.Ok? ==> ParseInt(r.value.flag).Some?
  {
    if !shell.Str? then Err(NotText)
    else match ParseDescriptor(shell.s)
      case None => Err(NoDescriptor(shell.s))
      case Some(d) =>
        if ParseInt(d.flag).None? then Err(BadFlag(d.flag))
        else Ok(Hit(d.name, d.kind, d.rev, d.flag))
  }

  /** Every hit's flag reads as an integer. */
  predicate Leveled(hits: seq<Hit>) {
    forall i :: 0 <= i < |hits| ==> ParseInt(hits[i].flag).Some?
  }

  function Level(h: Hit): int
    requires ParseInt(h.flag).Some?
  {
    ParseInt(h.flag).value
  }

  /** max_flag after the hits: it starts at 1 and takes a hit's flag only when that flag is greater. */
  function MaxFlag(hits: seq<Hit>): (r: int)
    requires Leveled(hits)
    ensures r >= 1
    decreases |hits|
  {
    if |hits| == 0 then 1
    else
      var m := MaxFlag(hits[..|hits| - 1]);
      var l := Level(hits[|hits| - 1]);
      if l > m then l else m
  }

  /** max_flag is the greatest of 1 and the hits' flags. */
  lemma {:induction false} MaxFlagIsMax(hits: seq<Hit>)
    requires Leveled(hits)
    ensures MaxFlag(hits) >= 1
    ensures forall i :: 0 <= i < |hits| ==> Level(hits[i]) <= MaxFlag(hits)
    ensures MaxFlag(hits) == 1 || exists i :: 0 <= i < |hits| && Level(hits[i]) == MaxFlag(hits)
    decreases |hits|
  {
    if |hits| > 0 {
      var front := hits[..|hits| - 1];
      assert forall i :: 0 <= i < |front| ==> front[i] == hits[i];
      MaxFlagIsMax(front);
    }
  }

  /** The order the table is visited in does not change max_flag. */
  lemma MaxFlagOrder(a: seq<Hit>, b: seq<Hit>)
    requires Leveled(a) && Leveled(b) && multiset(a) == multiset(b)
    ensures MaxFlag(a) == MaxFlag(b)
  {
    MaxFlagIsMax(a);
    MaxFlagIsMax(b);
    forall i | 0 <= i < |a| ensures Level(a[i]) <= MaxFlag(b) {
      assert a[i] in multiset(b);
      var j :| 0 <= j < |b| && b[j] == a[i];
    }
    forall j | 0 <= j < |b| ensures Level(b[j]) <= MaxFlag(a) {
      assert b[j] in multiset(a);
      var i :| 0 <= i < |a| && a[i] == b[j];
    }
  }

  /** The alarm for the hits: FLAG_MAP.get(max_flag, "medium"). */
  function Alarm(hits: seq<Hit>): (r: string)
    requires Leveled(hits)
    ensures r != "normal"
    ensures |hits| == 0 ==> r == "low"
    ensures r == "high" <==>
              (exists i :: 0 <= i < |hits| && Level(hits[i]) == 3) && forall i :: 0 <= i < |hits| ==> Level(hits[i]) <= 3
  {
    MaxFlagIsMax(hits);
    FlagLabel(MaxFlag(hits))
  }

  /** The table's patterns that occur in the content (reg.findall(content) non-empty). */
  function Matched(table: Table, content: string): set<string> {
    set p | p in table && Contains(content, p)
  }

  /** order lists the set's members, each once. */
  predicate Enumerates(order: seq<string>, s: set<string>) {
    && (forall i, j :: 0 <= i < j < |order| ==> order[i] != order[j])
    && (forall i :: 0 <= i < |order| ==> order[i] in s)
    && (forall p :: p in s ==> p in order)
  }

  /** The patterns in order are table entries that describe without raising. */
  predicate Visits(table: Table, order: seq<string>) {
    forall i :: 0 <= i < |order| ==> order[i] in table && Describe(table[order[i]]).Ok?
  }

  /** The hits of the table's entries for the patterns in order. */
  function HitsOf(table: Table, order: seq<string>): (hits: seq<Hit>)
    requires Visits(table, order)
    ensures |hits| == |order| && Leveled(hits)
    decreases |order|
  {
    if |order| == 0 then []
    else HitsOf(table, order[..|order| - 1]) + [Describe(table[order[|order| - 1]]).value]
  }

  lemma HitsOfSnoc(table: Table, order: seq<string>, p: string)
    requires Visits(table, order)
    requires p in table && Describe(table[p]).Ok?
    ensures HitsOf(table, order + [p]) == HitsOf(table, order) + [Describe(table[p]).value]
  {
    assert (order + [p])[..|order|] == order;
  }

  lemma MaxFlagSnoc(hits: seq<Hit>, h: Hit)
    requires Leveled(hits) && ParseInt(h.flag).Some?
    ensures Leveled(hits + [h])
    ensures MaxFlag(hits + [h]) == if Level(h) > MaxFlag(hits) then Level(h) else MaxFlag(hits)
  {
    assert (hits + [h])[..|hits|] == hits;
  }

  /** Some matching entry makes the loop body raise. */
  predicate ScoreRaises(table: Table, content: string) {
    exists p :: p in table && Contains(content, p) && Describe(table[p]).Err?
  }

  /** The matching patterns among those visited, the keys of the table not in rest. */
  function Seen(table: Table, content: string, rest: set<string>): set<string> {
    set p | p in table && p !in rest && Contains(content, p)
  }

  /** Visiting p adds it to the seen patterns exactly when it matches. */
  lemma SeenStep(table: Table, content: string, rest: set<string>, p: string)
    requires p in rest && rest <= table.Keys
    ensures p !in Seen(table, content, rest)
    ensures Seen(table, content, rest - {p}) ==
              if Contains(content, p) then Seen(table, content, rest) + {p} else Seen(table, content, rest)
  {
  }

  lemma EnumeratesSnoc(order: seq<string>, s: set<string>, p: string)
    requires Enumerates(order, s) && p !in s
    ensures Enumerates(order + [p], s + {p})
  {
    var o := order + [p];
    forall q | q in s + {p} ensures q in o {
      if q != p {
        var i :| 0 <= i < |order| && order[i] == q;
        assert o[i] == q;
      } else {
        assert o[|order|] == p;
      }
    }
  }

  /**
    The state of the fingerprint loop with rest still to visit: order lists
    the matching patterns visited so far, none of which raised, hits are
    their hits in that order and maxFlag is max_flag over them.
  */
  predicate ScoreInv(table: Table, content: string, rest: set<string>, order: seq<string>, hits: seq<Hit>, maxFlag: int) {
    && rest <= table.Keys
    && (forall p :: p in Seen(table, content, rest) ==> Describe(table[p]).Ok?)
    && Visits(table, order)
    && Enumerates(order, Seen(table, content, rest))
    && hits == HitsOf(table, order)
    && maxFlag == MaxFlag(hits)
  }

  /** A pattern that does not occur leaves the loop state as it was. */
  lemma ScoreSkip(table: Table, content: string, rest: set<string>, order: seq<string>, hits: seq<Hit>, maxFlag: int, p: string)
    requires ScoreInv(table, content, rest, order, hits, maxFlag) && p in rest && !Contains(content, p)
    ensures ScoreInv(table, content, rest - {p}, order, hits, maxFlag)
  {
    SeenStep(table, content, rest, p);
  }

  /** A matching pattern whose descriptor raises makes the whole loop raise. */
  lemma ScoreFail(table: Table, content: string, p: string)
    requires p in table && Contains(content, p) && Describe(table[p]).Err?
    ensures ScoreRaises(table, content)
  {
  }

  /** A matching pattern's hit is appended, and max_flag takes its flag when that is greater. */
  lemma ScoreHit(table: Table, content: string, rest: set<string>, order: seq<string>, hits: seq<Hit>, maxFlag: int, p: string)
    requires ScoreInv(table, content, rest, order, hits, maxFlag) && p in rest && Contains(content, p)
    requires Describe(table[p]).Ok?
    ensures var h := Describe(table[p]).value;
      ScoreInv(table, content, rest - {p}, order + [p], hits + [h], if Level(h) > maxFlag then Level(h) else maxFlag)
  {
    var h := Describe(table[p]).value;
    SeenStep(table, content, rest, p);
    EnumeratesSnoc(order, Seen(table, content, rest), p);
    assert Visits(table, order + [p]) by {
      assert forall i :: 0 <= i < |order| ==> (order + [p])[i] == order[i];
    }
    HitsOfSnoc(table, order, p);
    MaxFlagSnoc(hits, h);
  }

  /** With nothing left to visit, order lists every matching pattern and none raised. */
  lemma ScoreDone(table: Table, content: string, order: seq<string>, hits: seq<Hit>, maxFlag: int)
    requires ScoreInv(table, content, {}, order, hits, maxFlag)
    ensures !ScoreRaises(table, content) && Enumerates(order, Matched(table, content))
  {
    assert Seen(table, content, {}) == Matched(table, content);
  }

  /**
    The fingerprint loop: each matching entry, in some order, appends its hit
    and raises max_flag to its flag when that is greater.
  */
  method Score(table: Table, content: string) returns (r: Result<(seq<Hit>, int), AnalyzeError>)
    ensures r.Err? <==> ScoreRaises(table, content)
    ensures r.Ok? ==> Leveled(r.value.0) && r.value.1 == MaxFlag(r.value.0)
    ensures r.Ok? ==> exists order :: Enumerates(order, Matched(table, content)) && r.value.0 == HitsOf(table, order)
  {
    var hits: seq<Hit> := [];
    var maxFlag := 1;
    var rest := table.Keys;
    ghost var order: seq<string> := [];
    while rest != {}
      invariant ScoreInv(table, content, rest, order, hits, maxFlag)
      decreases rest
    {
      var p :| p in rest;
      if !Contains(content, p) {
        ScoreSkip(table, content, rest, order, hits, maxFlag, p);
        rest := rest - {p};
        continue;
      }
      var d := Describe(table[p]);
      if d.Err? {
        ScoreFail(table, content, p);
        return Err(d.error);
      }
      var h := d.value;
      var flag := ParseInt(h.flag).value;
      ScoreHit(table, content, rest, order, hits, maxFlag, p);
      if flag > maxFlag {
        maxFlag := flag;
      }
      hits := hits + [h];
      order := order + [p];
      rest := rest - {p};
    }
    ScoreDone(table, content, order, hits, maxFlag);
    return Ok((hits, maxFlag));
  }

  class Detector {
    /** The fingerprint table, None where the database text was empty. */
    const table: Option<Table>
    /** Whether suspicious lines are listed (the show_line option). */
    const showLine: bool

    /** The detector, with its table loaded from the database text. */
    constructor(db: string, b64: string -> Option<string>, showLine: bool)
      ensures this.showLine == showLine
      ensures db == [] <==> table.None?
      ensures db != [] && Decodes(db, b64) ==> table.Some? && Loads(db, b64, table.value)
      ensures db != [] && !Decodes(db, b64) ==> table == Some(map[])
    {
      var t := LoadFingerPrint(db, b64);
      table := t;
      this.showLine := showLine;
    }

    /** _anaylize on a file's content. */
    method Analyze(content: string, findall: string -> seq<string>) returns (r: Result<Outcome, AnalyzeError>)
      ensures content == [] || findall(content) == [] ==> r == Ok(Clean)
      ensures content != [] && findall(content) != [] ==>
                (r.Err? <==> table.None? || ScoreRaises(table.value, content))
      ensures content != [] && findall(content) != [] && r.Ok? ==> r.value.Flagged?
      ensures r.Ok? && r.value.Flagged? ==>
                var rep := r.value.report;
                && content != [] && findall(content) != [] && table.Some?
                && rep.suspicious == (if showLine then Suspicious(Split(content, '\n'), findall, 1) else [])
                && Leveled(rep.fingerprint) && rep.alarm == Alarm(rep.fingerprint)
                && exists order :: Enumerates(order, Matched(table.value, content)) && rep.fingerprint == HitsOf(table.value, order)
    {
      if content == [] {
        return Ok(Clean);
      }
      var matches := findall(content);
      if matches == [] {
        return Ok(Clean);
      }
      var suspicious: seq<LineHit> := [];
      if showLine {
        suspicious := SuspiciousLines(content, findall);
      }
      if table.None? {
        return Err(NoTable);
      }
      var scored := Score(table.value, content);
      if scored.Err? {
        return Err(scored.error);
      }
      var (hits, maxFlag) := scored.value;
      r := Ok(Flagged(Report(suspicious, hits, FlagLabel(maxFlag))));
    }
  }

  // ---------------------------------------------------------------------
  // The flag comparison as written (wsh.py:210-213, wsh.py:222).
  // ---------------------------------------------------------------------

  /** The Python 2 objects max_flag holds: the int it starts as, or a flag string. */
  datatype PyObj = PInt(i: int) | PStr(s: string)

  /** Python 2 string order: by character code, a proper prefix first. */
  predicate StrLess(a: string, b: string)
    decreases |a|
  {
    |b| > 0 && (|a| == 0 || a[0] < b[0] || (a[0] == b[0] && StrLess(a[1..], b[1..])))
  }

  /** `x > y` in Python 2, where any int is less than any str. */
  predicate Py2Greater(x: PyObj, y: PyObj) {
    match (x, y)
    case (PInt(a), PInt(b)) => a > b
    case (PStr(_), PInt(_)) => true
    case (PInt(_), PStr(_)) => false
    case (PStr(a), PStr(b)) => StrLess(b, a)
  }

  /** max_flag as the source computes it: the flag string is compared with max_flag as it is. */
  function MaxFlagAsWritten(hits: seq<Hit>): (r: PyObj)
    ensures r == PInt(1) || exists i :: 0 <= i < |hits| && r == PStr(hits[i].flag)
    decreases |hits|
  {
    if |hits| == 0 then PInt(1)
    else
      var m := MaxFlagAsWritten(hits[..|hits| - 1]);
      var f := PStr(hits[|hits| - 1].flag);
      if Py2Greater(f, m) then f else m
  }

  /** FLAG_MAP.get(max_flag, "medium"): a string max_flag is no key of the int-keyed map. */
  function LabelAsWritten(m: PyObj): (r: string)
    ensures r in {"normal", "low", "medium", "high"}
    ensures m.PStr? ==> r == "medium"
  {
    match m
    case PInt(i) => FlagLabel(i)
    case PStr(_) => "medium"
  }

  /** As written, max_flag is a string after the first hit, whatever its flag. */
  lemma {:induction false} AsWrittenIsString(hits: seq<Hit>)
    requires |hits| > 0
    ensures MaxFlagAsWritten(hits).PStr?
    decreases |hits|
  {
    if |hits| > 1 {
      AsWrittenIsString(hits[..|hits| - 1]);
    }
  }

  /** As written, the alarm is "medium" once any fingerprint hits, and "low" otherwise. */
  lemma AsWrittenAlarm(hits: seq<Hit>)
    ensures LabelAsWritten(MaxFlagAsWritten(hits)) == if |hits| == 0 then "low" else "medium"
  {
    if |hits| > 0 {
      AsWrittenIsString(hits);
    }
  }

  /** One hit with flag "3": the source reports "medium", the integer comparison "high". */
  lemma FlagCompareExample()
    ensures var hits := [Hit("c99shell", "php", "1.0", "3")];
      && LabelAsWritten(MaxFlagAsWritten(hits)) == "medium"
      && Leveled(hits) && Alarm(hits) == "high"
  {
    var hits := [Hit("c99shell", "php", "1.0", "3")];
    AsWrittenAlarm(hits);
    assert ParseInt("3") == Some(3) by {
      ParseIntToString(3);
      assert IntToString(3) == "3";
    }
    assert Level(hits[0]) == 3;
  }
}
