/**
  The Python 2 string operations wsh.py relies on, written out so that the
  decoder and the scanner can be modelled with their exact edge cases:
  `str.find`/`str.partition`, slicing with negative and out-of-range bounds,
  `int()` on decimal text, `str.lower()` on one character, `str.replace`
  with an empty replacement, `str.split` and substring search.
*/
module PyText {
  import opened Wrappers

  /** s.find(c, i): index of the first c at or after i, or -1. */
  function FindFrom(s: string, c: char, i: nat): (r: int)
    requires i <= |s|
    ensures -1 <= r < |s|
    ensures r >= 0 ==> i <= r && s[r] == c
    ensures forall j :: i <= j < |s| && (r < 0 || j < r) ==> s[j] != c
    decreases |s| - i
  {
    if i == |s| then -1
    else if s[i] == c then i
    else FindFrom(s, c, i + 1)
  }

  /** str.find(c): index of the first c in s, or -1. */
  function Find(s: string, c: char): (i: int)
    ensures -1 <= i < |s|
    ensures i >= 0 ==> s[i] == c
    ensures forall j :: 0 <= j < |s| && (i < 0 || j < i) ==> s[j] != c
  {
    FindFrom(s, c, 0)
  }

  /**
    str.partition(sep) for a one-character separator: the text before the
    first sep, the separator itself (empty when absent) and the text after it.
    What the parts are is stated by PartitionParts.
  */
  function Partition(s: string, sep: char): (r: (string, string, string))
    ensures |r.2| <= |s|
  {
    var i := Find(s, sep);
    if i < 0 then (s, [], []) else (s[..i], [sep], s[i + 1..])
  }

  /** The three parts put back together are s, and the head holds no separator. */
  lemma PartitionParts(s: string, sep: char)
    ensures var r := Partition(s, sep);
      && r.0 + r.1 + r.2 == s
      && sep !in r.0
      && (r.1 == [] || r.1 == [sep])
      && (r.1 == [] ==> r.0 == s && r.2 == [])
  {
    var i := Find(s, sep);
    if i >= 0 {
      assert s == s[..i] + [sep] + s[i + 1..];
    }
  }

  /** Partition finds the first separator: a prefix free of sep is exactly the head. */
  lemma {:induction false} PartitionAt(a: string, sep: char, b: string)
    requires sep !in a
    ensures Partition(a + [sep] + b, sep) == (a, [sep], b)
  {
    FindAt(a, sep, b);
    var s := a + [sep] + b;
    assert s[..|a|] == a;
    assert s[|a| + 1..] == b;
  }

  lemma FindAt(a: string, c: char, b: string)
    requires c !in a
    ensures Find(a + [c] + b, c) == |a|
  {
    var s := a + [c] + b;
    assert s[|a|] == c;
    assert forall j :: 0 <= j < |a| ==> s[j] == a[j];
  }

  /** Python's clamping of a slice bound i against a sequence of length n. */
  function SliceBound(i: int, n: nat): (b: nat)
    ensures b <= n
    ensures 0 <= i <= n ==> b == i
    ensures i >= n ==> b == n
  {
    if i < 0 then (if i + n < 0 then 0 else i + n)
    else if i > n then n
    else i
  }

  /** s[i:j] in Python. */
  function Slice(s: string, i: int, j: int): (r: string)
    ensures |r| <= |s|
    ensures 0 <= i <= j <= |s| ==> r == s[i..j]
  {
    var lo, hi := SliceBound(i, |s|), SliceBound(j, |s|);
    if lo < hi then s[lo..hi] else []
  }

  /** s[i:] in Python: always a suffix of s. */
  function Drop(s: string, i: int): (r: string)
    ensures |r| <= |s|
    ensures 0 <= i <= |s| ==> r == s[i..]
    ensures i >= |s| ==> r == []
  {
    s[SliceBound(i, |s|)..]
  }

  // A stream read from left to right is a string s and the position where
  // the unread part s[p:] starts. The functions below are the string
  // operations above applied to s[p:], with the unread part that results
  // again given by its position in s.

  /** w occurs in s at position p: s[p:p + len(w)] == w, character by character. */
  predicate At(s: string, p: nat, w: string) {
    p + |w| <= |s| && forall k :: 0 <= k < |w| ==> s[p + k] == w[k]
  }

  /** At is the slice comparison. */
  lemma AtSlice(s: string, p: nat, w: string)
    ensures At(s, p, w) <==> p + |w| <= |s| && s[p..p + |w|] == w
  {
    if p + |w| <= |s| {
      if At(s, p, w) {
        assert s[p..p + |w|] == w by {
          forall k | 0 <= k < |w| ensures s[p..p + |w|][k] == w[k] {
          }
        }
      }
      if s[p..p + |w|] == w {
        forall k | 0 <= k < |w| ensures s[p + k] == w[k] {
          assert s[p..p + |w|][k] == w[k];
        }
      }
    }
  }

  /**
    s[i:].partition(sep): the head, and the position in s where the tail
    starts (just past the separator, or |s| when there is none).
  */
  function PartitionFrom(s: string, i: nat, sep: char): (r: (string, nat))
    requires i <= |s|
    ensures i <= r.1 <= |s|
  {
    var j := FindFrom(s, sep, i);
    if j < 0 then (s[i..], |s|) else (s[i..j], j + 1)
  }

  /** PartitionFrom is str.partition on the unread part. */
  lemma PartitionFromSpec(s: string, i: nat, sep: char)
    requires i <= |s|
    ensures var r, q := PartitionFrom(s, i, sep), Partition(s[i..], sep);
      r.0 == q.0 && s[r.1..] == q.2
  {
    var j, f := FindFrom(s, sep, i), Find(s[i..], sep);
    assert forall k :: i <= k < |s| ==> s[k] == s[i..][k - i];
    if j < 0 {
      assert f < 0;
    } else {
      assert f == j - i;
      assert s[i..][..f] == s[i..j];
      assert s[i..][f + 1..] == s[j + 1..];
    }
  }

  /** s holds a + b at p exactly when it holds a there and b right after it. */
  lemma AtConcat(s: string, p: nat, a: string, b: string)
    ensures At(s, p, a + b) <==> At(s, p, a) && At(s, p + |a|, b)
  {
    if At(s, p, a + b) {
      forall k | 0 <= k < |a| ensures s[p + k] == a[k] {
        assert (a + b)[k] == a[k];
      }
      forall k | 0 <= k < |b| ensures s[p + |a| + k] == b[k] {
        assert (a + b)[|a| + k] == b[k];
      }
    }
    if At(s, p, a) && At(s, p + |a|, b) {
      forall k | 0 <= k < |a + b| ensures s[p + k] == (a + b)[k] {
        if k >= |a| {
          assert b[k - |a|] == (a + b)[k];
        }
      }
    }
  }

  /** The first character of a word that occurs at p stands at p. */
  lemma AtHead(s: string, p: nat, w: string)
    requires At(s, p, w) && |w| > 0
    ensures p < |s| && s[p] == w[0]
  {
  }

  /** s holds a one-character string at p exactly when s[p] is that character. */
  lemma AtChar(s: string, p: nat, c: char)
    ensures At(s, p, [c]) <==> p < |s| && s[p] == c
  {
    assert [c][0] == c;
  }

  /** At i, s holds w and then sep, and w holds no sep. */
  predicate Field(s: string, i: nat, w: string, sep: char) {
    At(s, i, w) && i + |w| < |s| && s[i + |w|] == sep && sep !in w
  }

  /** Each part of a concatenation is at its place in it. */
  lemma AtAppend(x: string, y: string)
    ensures At(x + y, 0, x) && At(x + y, |x|, y)
  {
    assert forall k :: 0 <= k < |y| ==> (x + y)[|x| + k] == y[k];
  }

  /** A word at its place stays there when text is appended. */
  lemma AtExtend(x: string, y: string, p: nat, w: string)
    requires At(x, p, w)
    ensures At(x + y, p, w)
  {
    assert forall k :: 0 <= k < |w| ==> (x + y)[p + k] == w[k];
  }

  /** Reading up to the first sep from i gives the field there. */
  lemma PartitionFromAt(s: string, i: nat, sep: char, w: string)
    requires Field(s, i, w, sep)
    ensures PartitionFrom(s, i, sep) == (w, i + |w| + 1)
  {
    AtSlice(s, i, w);
    assert forall k :: i <= k < i + |w| ==> s[k] == w[k - i];
  }

  /** Where s[t:][i:] starts in s. */
  function DropFrom(s: string, t: nat, i: int): (r: nat)
    requires t <= |s|
    ensures t <= r <= |s|
  {
    t + SliceBound(i, |s| - t)
  }

  /** s[t:][i:j]. */
  function SliceFrom(s: string, t: nat, i: int, j: int): (r: string)
    requires t <= |s|
  {
    var lo, hi := DropFrom(s, t, i), DropFrom(s, t, j);
    if lo < hi then s[lo..hi] else []
  }

  /** DropFrom and SliceFrom are Python's slices of the unread part. */
  lemma SliceFromSpec(s: string, t: nat, i: int, j: int)
    requires t <= |s|
    ensures s[DropFrom(s, t, i)..] == Drop(s[t..], i)
    ensures SliceFrom(s, t, i, j) == Slice(s[t..], i, j)
  {
    var lo, hi := DropFrom(s, t, i), DropFrom(s, t, j);
    assert s[lo..] == s[t..][lo - t..];
    if lo < hi {
      assert s[lo..hi] == s[t..][lo - t..hi - t];
    }
  }

  /** c.lower() for one character; only ASCII letters change. */
  function Lower(c: char): (r: char)
    ensures !('A' <= r <= 'Z')
    ensures r == c || ('A' <= c <= 'Z' && r as int - c as int == 'a' as int - 'A' as int)
  {
    if 'A' <= c <= 'Z' then (c as int + 32) as char else c
  }

  /** The characters str.strip() removes: space, \t, \n, \v, \f and \r. */
  predicate IsSpace(c: char) {
    c == ' ' || '\t' <= c <= '\r'
  }

  /** The first index at or after i that does not hold a space. */
  function SpaceEnd(s: string, i: nat): (r: nat)
    requires i <= |s|
    ensures i <= r <= |s|
    decreases |s| - i
  {
    if i < |s| && IsSpace(s[i]) then SpaceEnd(s, i + 1) else i
  }

  /** The index after the last character in s[lo..j] that is not a space, or lo. */
  function SpaceStart(s: string, lo: nat, j: nat): (r: nat)
    requires lo <= j <= |s|
    ensures lo <= r <= j
    decreases j
  {
    if j > lo && IsSpace(s[j - 1]) then SpaceStart(s, lo, j - 1) else j
  }

  /** str.strip(): what int() ignores around its digits. */
  function Strip(s: string): string {
    var lo := SpaceEnd(s, 0);
    s[lo..SpaceStart(s, lo, |s|)]
  }

  /** A run of spaces ends at SpaceEnd. */
  lemma {:induction false} SpaceEndSpec(s: string, i: nat)
    requires i <= |s|
    ensures forall k :: i <= k < SpaceEnd(s, i) ==> IsSpace(s[k])
    ensures SpaceEnd(s, i) == |s| || !IsSpace(s[SpaceEnd(s, i)])
    decreases |s| - i
  {
    if i < |s| && IsSpace(s[i]) {
      SpaceEndSpec(s, i + 1);
    }
  }

  /** A run of spaces starts at SpaceStart. */
  lemma {:induction false} SpaceStartSpec(s: string, lo: nat, j: nat)
    requires lo <= j <= |s|
    ensures forall k :: SpaceStart(s, lo, j) <= k < j ==> IsSpace(s[k])
    ensures SpaceStart(s, lo, j) == lo || !IsSpace(s[SpaceStart(s, lo, j) - 1])
    decreases j
  {
    if j > lo && IsSpace(s[j - 1]) {
      SpaceStartSpec(s, lo, j - 1);
    }
  }

  /**
    strip() removes exactly the leading and trailing spaces: what is left is
    a slice of s with no space at either end, and everything cut off is space.
  */
  lemma StripSpec(s: string) returns (lo: nat, hi: nat)
    ensures lo == SpaceEnd(s, 0) && lo <= hi <= |s| && Strip(s) == s[lo..hi]
    ensures forall k :: 0 <= k < lo || hi <= k < |s| ==> IsSpace(s[k])
    ensures lo < hi ==> !IsSpace(s[lo]) && !IsSpace(s[hi - 1])
  {
    lo := SpaceEnd(s, 0);
    hi := SpaceStart(s, lo, |s|);
    SpaceEndSpec(s, 0);
    SpaceStartSpec(s, lo, |s|);
  }

  predicate IsDigit(c: char) {
    '0' <= c <= '9'
  }

  function DigitOf(c: char): nat
    requires IsDigit(c)
  {
    (c as int) - ('0' as int)
  }

  /** t[a..b] is all decimal digits. */
  predicate DigitsIn(t: string, a: nat, b: nat)
    requires a <= b <= |t|
  {
    forall k :: a <= k < b ==> IsDigit(t[k])
  }

  /** The value of the decimal digits t[a..b]. */
  function Decimal(t: string, a: nat, b: nat): nat
    requires a <= b <= |t| && DigitsIn(t, a, b)
    decreases b
  {
    if b == a then 0 else Decimal(t, a, b - 1) * 10 + DigitOf(t[b - 1])
  }

  /** The same digits have the same value wherever they stand. */
  lemma {:induction false} DecimalEq(s: string, a: nat, t: string, c: nat, n: nat)
    requires a + n <= |s| && c + n <= |t| && DigitsIn(s, a, a + n)
    requires s[a..a + n] == t[c..c + n]
    ensures DigitsIn(t, c, c + n) && Decimal(s, a, a + n) == Decimal(t, c, c + n)
  {
    forall k | c <= k < c + n
      ensures IsDigit(t[k])
    {
      assert t[k] == t[c..c + n][k - c] == s[a..a + n][k - c];
    }
    if n > 0 {
      assert s[a..a + n - 1] == s[a..a + n][..n - 1];
      assert t[c..c + n - 1] == t[c..c + n][..n - 1];
      assert s[a + n - 1] == s[a..a + n][n - 1];
      assert t[c + n - 1] == t[c..c + n][n - 1];
      DecimalEq(s, a, t, c, n - 1);
    }
  }

  /** -v when neg holds, v otherwise. */
  function Signed(neg: bool, v: nat): int {
    if neg then -(v as int) else v
  }

  /**
    What int(t) means in base 10: t without surrounding whitespace, which is
    t[lo..hi], is an optional sign and then at least one decimal digit;
    Python 2 also lets whitespace stand between the sign and the digits, so
    int("- 5") is -5. None stands for the ValueError Python raises.
  */
  function IntLiteral(t: string): Option<int> {
    var lo := SpaceEnd(t, 0);
    var hi := SpaceStart(t, lo, |t|);
    if lo < hi && (t[lo] == '-' || t[lo] == '+') then
      var d := SpaceEnd(t, lo + 1);
      if d < hi && DigitsIn(t, d, hi) then Some(Signed(t[lo] == '-', Decimal(t, d, hi)))
      else None
    else if lo < hi && DigitsIn(t, lo, hi) then Some(Decimal(t, lo, hi))
    else None
  }

  /** Where int() is in its reading of the text. */
  datatype IntScan =
    | Lead                            // only whitespace so far
    | Sign(neg: bool)                 // a sign and perhaps whitespace, no digit yet
    | Digits(neg: bool, acc: nat)     // in the digits, acc their value so far
    | Trail(neg: bool, acc: nat)      // in the whitespace after the digits

  /** int(t) read left to right from position i in state st. */
  function ScanInt(t: string, i: nat, st: IntScan): Option<int>
    requires i <= |t|
    decreases |t| - i
  {
    if i == |t| then
      match st
      case Digits(neg, acc) => Some(Signed(neg, acc))
      case Trail(neg, acc) => Some(Signed(neg, acc))
      case _ => None
    else
      var c := t[i];
      match st
      case Lead =>
        if IsSpace(c) then ScanInt(t, i + 1, Lead)
        else if c == '-' || c == '+' then ScanInt(t, i + 1, Sign(c == '-'))
        else if IsDigit(c) then ScanInt(t, i + 1, Digits(false, DigitOf(c)))
        else None
      case Sign(neg) =>
        if IsSpace(c) then ScanInt(t, i + 1, Sign(neg))
        else if IsDigit(c) then ScanInt(t, i + 1, Digits(neg, DigitOf(c)))
        else None
      case Digits(neg, acc) =>
        if IsDigit(c) then ScanInt(t, i + 1, Digits(neg, acc * 10 + DigitOf(c)))
        else if IsSpace(c) then ScanInt(t, i + 1, Trail(neg, acc))
        else None
      case Trail(neg, acc) =>
        if IsSpace(c) then ScanInt(t, i + 1, Trail(neg, acc)) else None
  }

  /** int(t) in base 10, as a scan of t. ParseIntSpec shows it is IntLiteral. */
  function ParseInt(t: string): Option<int> {
    ScanInt(t, 0, Lead)
  }

  predicate SpacesFrom(t: string, i: nat) {
    forall k :: i <= k < |t| ==> IsSpace(t[k])
  }

  /** The first index at or after i that does not hold a digit. */
  function DigitEnd(t: string, i: nat): (r: nat)
    requires i <= |t|
    ensures i <= r <= |t|
    decreases |t| - i
  {
    if i < |t| && IsDigit(t[i]) then DigitEnd(t, i + 1) else i
  }

  lemma {:induction false} TrailScan(t: string, i: nat, neg: bool, acc: nat)
    requires i <= |t|
    ensures ScanInt(t, i, Trail(neg, acc)) == if SpacesFrom(t, i) then Some(Signed(neg, acc)) else None
    decreases |t| - i
  {
    if i < |t| && IsSpace(t[i]) {
      TrailScan(t, i + 1, neg, acc);
    }
  }

  /** Reading digits that started at st: the value of the whole run, if only whitespace follows it. */
  lemma {:induction false} DigitScan(t: string, st: nat, i: nat, neg: bool)
    requires st < i <= |t| && DigitsIn(t, st, i)
    ensures var e := DigitEnd(t, i);
      && DigitsIn(t, st, e) && (e == |t| || !IsDigit(t[e]))
      && ScanInt(t, i, Digits(neg, Decimal(t, st, i))) ==
           if SpacesFrom(t, e) then Some(Signed(neg, Decimal(t, st, e))) else None
    decreases |t| - i
  {
    if i < |t| {
      if IsDigit(t[i]) {
        assert Decimal(t, st, i + 1) == Decimal(t, st, i) * 10 + DigitOf(t[i]);
        DigitScan(t, st, i + 1, neg);
      } else if IsSpace(t[i]) {
        TrailScan(t, i + 1, neg, Decimal(t, st, i));
      }
    }
  }

  lemma {:induction false} LeadScan(t: string, i: nat)
    requires i <= |t|
    ensures ScanInt(t, i, Lead) == ScanInt(t, SpaceEnd(t, i), Lead)
    decreases |t| - i
  {
    if i < |t| && IsSpace(t[i]) {
      LeadScan(t, i + 1);
    }
  }

  /**
    A digit run from st to e, after which only whitespace follows, is exactly
    what strip() leaves from st on; any other run is not.
  */
  lemma RunIsStripped(t: string, hi: nat, st: nat, e: nat)
    requires st < e <= |t| && st < hi <= |t|
    requires (forall k :: hi <= k < |t| ==> IsSpace(t[k])) && !IsSpace(t[hi - 1])
    requires DigitsIn(t, st, e) && (e == |t| || !IsDigit(t[e]))
    ensures SpacesFrom(t, e) <==> e == hi
    ensures e == hi <==> DigitsIn(t, st, hi)
  {
    assert IsDigit(t[e - 1]);
    if DigitsIn(t, st, hi) {
      assert IsDigit(t[hi - 1]);
    }
  }

  lemma {:induction false} SignSpaceScan(t: string, i: nat, neg: bool)
    requires i <= |t|
    ensures ScanInt(t, i, Sign(neg)) == ScanInt(t, SpaceEnd(t, i), Sign(neg))
    decreases |t| - i
  {
    if i < |t| && IsSpace(t[i]) {
      SignSpaceScan(t, i + 1, neg);
    }
  }

  lemma SignScan(t: string, lo: nat, hi: nat)
    requires lo == SpaceEnd(t, 0) && hi == SpaceStart(t, lo, |t|) && lo < hi
    requires (forall k :: hi <= k < |t| ==> IsSpace(t[k])) && !IsSpace(t[hi - 1])
    requires t[lo] == '-' || t[lo] == '+'
    ensures ScanInt(t, lo, Lead) == IntLiteral(t)
  {
    var neg, d := t[lo] == '-', SpaceEnd(t, lo + 1);
    assert ScanInt(t, lo, Lead) == ScanInt(t, lo + 1, Sign(neg));
    SignSpaceScan(t, lo + 1, neg);
    SpaceEndSpec(t, lo + 1);
    if d < |t| && IsDigit(t[d]) {
      SignDigitScan(t, hi, d, neg);
    } else if d < hi {
      assert !DigitsIn(t, d, hi);
    }
  }

  /** After the sign and its whitespace, a digit starts the run int() reads. */
  lemma SignDigitScan(t: string, hi: nat, d: nat, neg: bool)
    requires d < |t| && IsDigit(t[d]) && 0 < hi <= |t|
    requires (forall k :: hi <= k < |t| ==> IsSpace(t[k])) && !IsSpace(t[hi - 1])
    ensures d < hi
    ensures ScanInt(t, d, Sign(neg)) == if DigitsIn(t, d, hi) then Some(Signed(neg, Decimal(t, d, hi))) else None
  {
    assert ScanInt(t, d, Sign(neg)) == ScanInt(t, d + 1, Digits(neg, Decimal(t, d, d + 1)));
    DigitScan(t, d, d + 1, neg);
    RunIsStripped(t, hi, d, DigitEnd(t, d + 1));
  }

  lemma DigitFirstScan(t: string, lo: nat, hi: nat)
    requires lo == SpaceEnd(t, 0) && hi == SpaceStart(t, lo, |t|) && lo < hi
    requires (forall k :: hi <= k < |t| ==> IsSpace(t[k])) && !IsSpace(t[hi - 1])
    requires IsDigit(t[lo])
    ensures ScanInt(t, lo, Lead) == IntLiteral(t)
  {
    DigitScan(t, lo, lo + 1, false);
    RunIsStripped(t, hi, lo, DigitEnd(t, lo + 1));
  }

  /** The scan reads what IntLiteral describes. */
  lemma ParseIntSpec(t: string)
    ensures ParseInt(t) == IntLiteral(t)
  {
    var lo := SpaceEnd(t, 0);
    var hi := SpaceStart(t, lo, |t|);
    LeadScan(t, 0);
    SpaceEndSpec(t, 0);
    SpaceStartSpec(t, lo, |t|);
    if lo < |t| {
      assert lo < hi;
      if t[lo] == '-' || t[lo] == '+' {
        SignScan(t, lo, hi);
      } else if IsDigit(t[lo]) {
        DigitFirstScan(t, lo, hi);
      }
    }
  }

  /** Whitespace may follow the sign but not stand inside the digits. */
  lemma SpacedSignExample()
    ensures ParseInt(" - 5 ") == Some(-5)
    ensures ParseInt("-5 5") == None && ParseInt("- ") == None
  {
    ParseIntSpec(" - 5 ");
    ParseIntSpec("-5 5");
    ParseIntSpec("- ");
  }

  function DigitChar(n: nat): (c: char)
    requires n < 10
    ensures IsDigit(c) && DigitOf(c) == n
  {
    (n + '0' as int) as char
  }

  /** The decimal digits of n, as PHP and Python print it. */
  function NatToString(n: nat): (r: string)
    ensures |r| > 0
  {
    if n < 10 then [DigitChar(n)] else NatToString(n / 10) + [DigitChar(n % 10)]
  }

  /** Every character printed for a natural number is a decimal digit. */
  lemma {:induction false} NatDigits(n: nat)
    ensures DigitsIn(NatToString(n), 0, |NatToString(n)|)
  {
    if n >= 10 {
      NatDigits(n / 10);
    }
  }

  function IntToString(n: int): (r: string)
    ensures |r| > 0
  {
    if n < 0 then ['-'] + NatToString(-n) else NatToString(n)
  }

  lemma {:induction false} DigitsOfNat(n: nat)
    ensures DigitsIn(NatToString(n), 0, |NatToString(n)|)
    ensures Decimal(NatToString(n), 0, |NatToString(n)|) == n
  {
    NatDigits(n);
    if n >= 10 {
      var d, e := NatToString(n), NatToString(n / 10);
      assert d[0..|e|] == e[0..|e|];
      DecimalEq(e, 0, d, 0, |e|);
      DigitsOfNat(n / 10);
    }
  }

  /** int() reads back what IntToString prints. */
  lemma ParseIntToString(n: int)
    ensures ParseInt(IntToString(n)) == Some(n)
  {
    ParseIntSpec(IntToString(n));
    var s := IntToString(n);
    DigitsOfNat(if n < 0 then -n else n);
    assert SpaceEnd(s, 0) == 0;
    assert SpaceStart(s, 0, |s|) == |s|;
    if n < 0 {
      var d := NatToString(-n);
      assert SpaceEnd(s, 1) == 1;
      assert s[1..1 + |d|] == d[0..|d|];
      DecimalEq(d, 0, s, 1, |d|);
    }
  }

  /** A printed integer holds neither separator the decoder splits on. */
  lemma IntToStringChars(n: int)
    ensures ':' !in IntToString(n) && ';' !in IntToString(n)
  {
    var s := IntToString(n);
    if n < 0 {
      var d := NatToString(-n);
      NatDigits(-n);
      assert forall i :: 1 <= i < |s| ==> s[i] == d[i - 1];
    } else {
      NatDigits(n);
    }
  }

  predicate StartsWith(s: string, p: string) {
    |p| <= |s| && s[..|p|] == p
  }

  /** `p in s` for strings, and re.escape(p) matched with findall: a literal substring search. */
  predicate Contains(s: string, p: string)
    decreases |s|
  {
    StartsWith(s, p) || (|s| > 0 && Contains(s[1..], p))
  }

  lemma {:induction false} ContainsAt(s: string, p: string, i: nat)
    requires i + |p| <= |s| && s[i..i + |p|] == p
    ensures Contains(s, p)
  {
    if i > 0 {
      assert s[1..][i - 1..i - 1 + |p|] == s[i..i + |p|];
      ContainsAt(s[1..], p, i - 1);
    }
  }

  lemma {:induction false} ContainsWitness(s: string, p: string) returns (i: nat)
    requires Contains(s, p)
    ensures i + |p| <= |s| && s[i..i + |p|] == p
    decreases |s|
  {
    if StartsWith(s, p) {
      i := 0;
    } else {
      var j := ContainsWitness(s[1..], p);
      assert s[1..][j..j + |p|] == s[j + 1..j + 1 + |p|];
      i := j + 1;
    }
  }

  /** m occurs in s starting at index i. */
  predicate OccursAt(s: string, m: string, i: nat) {
    i + |m| <= |s| && s[i..i + |m|] == m
  }

  /** OccursAt and StartsWith are At, read through slices. */
  lemma OccursAtIsAt(s: string, m: string, i: nat)
    ensures OccursAt(s, m, i) <==> At(s, i, m)
    ensures StartsWith(s, m) <==> At(s, 0, m)
  {
    AtSlice(s, i, m);
    AtSlice(s, 0, m);
  }

  /** `p in s` holds exactly when p occurs in s at some index. */
  lemma ContainsOccurs(s: string, p: string)
    ensures Contains(s, p) <==> exists i :: OccursAt(s, p, i)
  {
    if Contains(s, p) {
      var i := ContainsWitness(s, p);
      assert OccursAt(s, p, i);
    }
    if exists i :: OccursAt(s, p, i) {
      var i :| OccursAt(s, p, i);
      ContainsAt(s, p, i);
    }
  }

  /** s.replace(m, ''): every non-overlapping occurrence of m, scanning left to right, removed. */
  function RemoveAll(s: string, m: string): (r: string)
    requires |m| > 0
    ensures |r| <= |s|
    decreases |s|
  {
    if |s| < |m| then s
    else if s[..|m|] == m then RemoveAll(s[|m|..], m)
    else [s[0]] + RemoveAll(s[1..], m)
  }

  /** A string without the marker comes out of the replacement unchanged. */
  lemma {:induction false} RemoveAbsent(s: string, m: string)
    requires |m| > 0 && !Contains(s, m)
    ensures RemoveAll(s, m) == s
    decreases |s|
  {
    if |s| >= |m| {
      assert !StartsWith(s, m);
      RemoveAbsent(s[1..], m);
      assert s == [s[0]] + s[1..];
    }
  }

  /** A string holding the marker loses at least one copy of it. */
  lemma {:induction false} RemovePresent(s: string, m: string)
    requires |m| > 0 && Contains(s, m)
    ensures |RemoveAll(s, m)| <= |s| - |m|
    decreases |s|
  {
    var i := ContainsWitness(s, m);
    if s[..|m|] != m {
      RemovePresent(s[1..], m);
    }
  }

  /**
    The replacement scans left to right: when the leftmost occurrence of m
    starts right after a, the text before it is kept, that occurrence is
    removed, and the scan resumes after it.
  */
  lemma {:induction false} RemoveLeftmost(a: string, m: string, b: string)
    requires |m| > 0
    requires forall i :: 0 <= i < |a| ==> !OccursAt(a + m + b, m, i)
    ensures RemoveAll(a + m + b, m) == a + RemoveAll(b, m)
    decreases |a|
  {
    if |a| == 0 {
      RemoveHere(m, b);
    } else {
      NoOccurrenceTail(a, m, b);
      RemoveLeftmost(a[1..], m, b);
      RemoveKept(a, m, b);
    }
  }

  /** An occurrence at the start is removed and the scan resumes after it. */
  lemma RemoveHere(m: string, b: string)
    requires |m| > 0
    ensures RemoveAll(m + b, m) == RemoveAll(b, m)
  {
    var s := m + b;
    assert s[..|m|] == m && s[|m|..] == b;
  }

  /** No occurrence starting in a means none starting in a's tail either. */
  lemma NoOccurrenceTail(a: string, m: string, b: string)
    requires |a| > 0 && forall i :: 0 <= i < |a| ==> !OccursAt(a + m + b, m, i)
    ensures forall i :: 0 <= i < |a[1..]| ==> !OccursAt(a[1..] + m + b, m, i)
  {
    var s, a' := a + m + b, a[1..];
    forall i | 0 <= i < |a'|
      ensures !OccursAt(a' + m + b, m, i)
    {
      assert !OccursAt(s, m, i + 1);
      assert (a' + m + b)[i..i + |m|] == s[i + 1..i + 1 + |m|];
    }
  }

  /** A first character where no occurrence starts is kept. */
  lemma RemoveKept(a: string, m: string, b: string)
    requires |m| > 0 && |a| > 0 && !OccursAt(a + m + b, m, 0)
    requires RemoveAll(a[1..] + m + b, m) == a[1..] + RemoveAll(b, m)
    ensures RemoveAll(a + m + b, m) == a + RemoveAll(b, m)
  {
    var c, a', r := a[0], a[1..], RemoveAll(b, m);
    assert a == [c] + a';
    assert a + m + b == [c] + (a' + m + b);
    RemoveStep(c, a' + m + b, m);
    assert [c] + (a' + r) == a + r;
  }

  /** Where no occurrence starts at the front, the first character is kept. */
  lemma RemoveStep(c: char, x: string, m: string)
    requires |m| > 0 && !OccursAt([c] + x, m, 0)
    ensures RemoveAll([c] + x, m) == [c] + RemoveAll(x, m)
  {
    var s := [c] + x;
    assert s[1..] == x;
    if |s| >= |m| {
      assert s[0..|m|] == s[..|m|];
    }
  }

  /** "\n".join(parts), the inverse of Split. */
  function Join(parts: seq<string>, c: char): string
    requires |parts| > 0
  {
    if |parts| == 1 then parts[0] else parts[0] + [c] + Join(parts[1..], c)
  }

  /** s.split(c): the pieces between separators; an empty s gives one empty piece. */
  function Split(s: string, c: char): (parts: seq<string>)
    ensures |parts| > 0
    decreases |s|
  {
    var i := Find(s, c);
    if i < 0 then [s] else [s[..i]] + Split(s[i + 1..], c)
  }

  /** No piece of a split holds the separator. */
  lemma {:induction false} SplitPieces(s: string, c: char)
    ensures forall i :: 0 <= i < |Split(s, c)| ==> c !in Split(s, c)[i]
    decreases |s|
  {
    var i := Find(s, c);
    if i >= 0 {
      SplitPieces(s[i + 1..], c);
      assert forall j :: 0 <= j < |s[..i]| ==> s[..i][j] == s[j];
    }
  }

  lemma JoinCons(p: string, parts: seq<string>, c: char)
    requires |parts| > 0
    ensures Join([p] + parts, c) == p + [c] + Join(parts, c)
  {
    assert ([p] + parts)[1..] == parts;
  }

  /** Joining the pieces of a split gives the text back. */
  lemma {:induction false} JoinSplit(s: string, c: char)
    ensures Join(Split(s, c), c) == s
    decreases |s|
  {
    var i := Find(s, c);
    if i >= 0 {
      var rest := Split(s[i + 1..], c);
      JoinSplit(s[i + 1..], c);
      JoinCons(s[..i], rest, c);
      assert s == s[..i] + [c] + s[i + 1..];
    }
  }

  /** Splitting a joined list of separator-free pieces gives the pieces back. */
  lemma {:induction false} SplitJoin(parts: seq<string>, c: char)
    requires |parts| > 0
    requires forall i :: 0 <= i < |parts| ==> c !in parts[i]
    ensures Split(Join(parts, c), c) == parts
  {
    if |parts| == 1 {
      assert Find(parts[0], c) < 0;
    } else {
      var rest := Join(parts[1..], c);
      FindAt(parts[0], c, rest);
      var s := parts[0] + [c] + rest;
      assert s[..|parts[0]|] == parts[0];
      assert s[|parts[0]| + 1..] == rest;
      SplitJoin(parts[1..], c);
    }
  }
}
