/**
 * Character and string primitives shared by the ADIF scanners: JavaScript's
 * whitespace set (used by `trim` and by `\s`), ASCII case folding (what the
 * `/i` flag does for the ASCII tags of this program), decimal digits, and
 * searching and splitting on a literal pattern.
 */
module Text {

  /** The characters JavaScript's `String.prototype.trim` and `\s` treat as whitespace. */
  predicate IsSpace(c: char) {
    c == ' ' || c == '\t' || c == '\n' || c == '\r' || c == '\U{000B}' || c == '\U{000C}'
    || c == '\U{00A0}' || c == '\U{FEFF}' || c == '\U{1680}' || ('\U{2000}' <= c <= '\U{200A}')
    || c == '\U{2028}' || c == '\U{2029}' || c == '\U{202F}' || c == '\U{205F}' || c == '\U{3000}'
  }

  predicate IsDigit(c: char) {
    '0' <= c <= '9'
  }

  predicate AllDigits(s: string) {
    forall i :: 0 <= i < |s| ==> IsDigit(s[i])
  }

  predicate AllSpace(s: string) {
    forall i :: 0 <= i < |s| ==> IsSpace(s[i])
  }

  /** ASCII lower-casing: the only case mapping the modelled tags and names need. */
  function Lower(c: char): (r: char)
    ensures 'A' <= c <= 'Z' ==> r as int == c as int + 32
    ensures !('A' <= c <= 'Z') ==> r == c
  {
    if 'A' <= c <= 'Z' then (c as int + 32) as char else c
  }

  function LowerStr(s: string): (r: string)
    ensures |r| == |s|
    ensures forall i :: 0 <= i < |s| ==> r[i] == Lower(s[i])
  {
    if s == [] then [] else [Lower(s[0])] + LowerStr(s[1..])
  }

  // ---------------------------------------------------------------------------
  // Trimming

  /** Index of the first non-space character at or after `i`, or |s|. */
  function SkipSpace(s: string, i: nat): (r: nat)
    requires i <= |s|
    ensures i <= r <= |s|
    ensures forall k :: i <= k < r ==> IsSpace(s[k])
    ensures r < |s| ==> !IsSpace(s[r])
    decreases |s| - i
  {
    if i == |s| || !IsSpace(s[i]) then i else SkipSpace(s, i + 1)
  }

  /** One past the last non-space character before `j`, or 0. */
  function SkipSpaceBack(s: string, j: nat): (r: nat)
    requires j <= |s|
    ensures r <= j
    ensures forall k :: r <= k < j ==> IsSpace(s[k])
    ensures r > 0 ==> !IsSpace(s[r - 1])
  {
    if j == 0 || !IsSpace(s[j - 1]) then j else SkipSpaceBack(s, j - 1)
  }

  /** JavaScript's `trim`: drop leading and trailing whitespace. */
  function Trim(s: string): string
  {
    var i := SkipSpace(s, 0);
    var j := SkipSpaceBack(s, |s|);
    if i < j then s[i..j] else []
  }

  /** `trim` leaves no whitespace at either end, and gives "" exactly for an all-whitespace text. */
  lemma TrimEnds(s: string)
    ensures var r := Trim(s); r == [] || (!IsSpace(r[0]) && !IsSpace(r[|r| - 1]))
    ensures Trim(s) == [] <==> AllSpace(s)
  {
  }

  /** A string equal to its own trim: empty, or neither end is whitespace. */
  predicate IsTrimmed(s: string) {
    s == [] || (!IsSpace(s[0]) && !IsSpace(s[|s| - 1]))
  }

  lemma TrimOfTrimmed(s: string)
    requires IsTrimmed(s)
    ensures Trim(s) == s
  {
    if s != [] {
      assert SkipSpace(s, 0) == 0;
      assert SkipSpaceBack(s, |s|) == |s|;
    }
  }

  /** Whitespace around a trimmed non-empty core disappears under `trim`. */
  lemma {:induction false} TrimPadded(a: string, t: string, b: string)
    requires AllSpace(a) && AllSpace(b) && t != [] && IsTrimmed(t)
    ensures Trim(a + t + b) == t
  {
    var s := a + t + b;
    SkipSpaceAt(s, 0, |a|);
    SkipSpaceBackAt(s, |s|, |a| + |t|);
    assert s[|a|..|a| + |t|] == t;
  }

  lemma {:induction false} SkipSpaceAt(s: string, i: nat, k: nat)
    requires i <= k < |s|
    requires forall j :: i <= j < k ==> IsSpace(s[j])
    requires !IsSpace(s[k])
    ensures SkipSpace(s, i) == k
    decreases k - i
  {
    if i < k { SkipSpaceAt(s, i + 1, k); }
  }

  lemma {:induction false} SkipSpaceBackAt(s: string, j: nat, k: nat)
    requires 0 < k <= j <= |s|
    requires forall m :: k <= m < j ==> IsSpace(s[m])
    requires !IsSpace(s[k - 1])
    ensures SkipSpaceBack(s, j) == k
    decreases j - k
  {
    if k < j { SkipSpaceBackAt(s, j - 1, k); }
  }

  lemma TrimIdempotent(s: string)
    ensures Trim(Trim(s)) == Trim(s)
  {
    TrimOfTrimmed(Trim(s));
  }

  /** The trim sits right after the leading whitespace, with only whitespace after it. */
  lemma TrimSplit(s: string)
    ensures var i := SkipSpace(s, 0);
      i + |Trim(s)| <= |s| && s[i..i + |Trim(s)|] == Trim(s)
      && AllSpace(s[..i]) && AllSpace(s[i + |Trim(s)|..])
  {
    var i := SkipSpace(s, 0);
    var j := SkipSpaceBack(s, |s|);
    if i >= j {
      assert AllSpace(s);
    }
  }

  /** Whitespace added after a text does not change its trim. */
  lemma TrimPadsRight(x: string, b: string)
    requires AllSpace(b)
    ensures Trim(x + b) == Trim(x)
  {
    var s := x + b;
    if AllSpace(x) {
      assert AllSpace(s);
    } else {
      var k :| 0 <= k < |x| && !IsSpace(x[k]);
      var i := SkipSpace(x, 0);
      var j := SkipSpaceBack(x, |x|);
      assert i <= k < j;
      SkipSpaceAt(s, 0, i);
      SkipSpaceBackAt(s, |s|, j);
      SliceBeforePad(x, b, i, j);
    }
  }

  /** Whitespace added before a text does not change its trim. */
  lemma TrimPadsLeft(a: string, x: string)
    requires AllSpace(a)
    ensures Trim(a + x) == Trim(x)
  {
    var s := a + x;
    assert s[|a|..] == x;
    forall m | 0 <= m < |a| ensures IsSpace(s[m]) {
      assert s[m] == a[m];
    }
    TrimDropLead(s, |a|);
  }

  /** Dropping a blank prefix does not change the trim. */
  lemma TrimDropLead(s: string, d: nat)
    requires d <= |s| && forall m :: 0 <= m < d ==> IsSpace(s[m])
    ensures Trim(s) == Trim(s[d..])
  {
    var x := s[d..];
    if AllSpace(x) {
      forall m | d <= m < |s| ensures IsSpace(s[m]) {
        assert s[m] == x[m - d];
      }
      assert AllSpace(s);
    } else {
      var lo, hi := TrimSpan(x);
      forall m | 0 <= m < d + lo ensures IsSpace(s[m]) {
        if m >= d { assert s[m] == x[m - d]; }
      }
      forall m | d + hi <= m < |s| ensures IsSpace(s[m]) {
        assert s[m] == x[m - d];
      }
      assert s[d + lo] == x[lo] && s[d + hi - 1] == x[hi - 1];
      TrimAt(s, d + lo, d + hi);
      assert s[d + lo..d + hi] == x[lo..hi];
    }
  }

  /** Where the trim of a text with a non-space character starts and ends. */
  lemma TrimSpan(x: string) returns (lo: nat, hi: nat)
    requires !AllSpace(x)
    ensures lo < hi <= |x| && Trim(x) == x[lo..hi]
    ensures forall m :: 0 <= m < lo ==> IsSpace(x[m])
    ensures forall m :: hi <= m < |x| ==> IsSpace(x[m])
    ensures !IsSpace(x[lo]) && !IsSpace(x[hi - 1])
  {
    var k :| 0 <= k < |x| && !IsSpace(x[k]);
    lo := SkipSpace(x, 0);
    hi := SkipSpaceBack(x, |x|);
    assert lo <= k < hi;
  }

  /** Blank on both sides of `[lo, hi)` with non-space characters at its ends: that span is the trim. */
  lemma TrimAt(s: string, lo: nat, hi: nat)
    requires lo < hi <= |s|
    requires forall m :: 0 <= m < lo ==> IsSpace(s[m])
    requires forall m :: hi <= m < |s| ==> IsSpace(s[m])
    requires !IsSpace(s[lo]) && !IsSpace(s[hi - 1])
    ensures Trim(s) == s[lo..hi]
  {
    SkipSpaceAt(s, 0, lo);
    SkipSpaceBackAt(s, |s|, hi);
  }

  lemma SliceBeforePad(x: string, b: string, i: nat, j: nat)
    requires i <= j <= |x|
    ensures (x + b)[i..j] == x[i..j]
  {
  }


  // ---------------------------------------------------------------------------
  // Decimal numbers

  /** `parseInt` of a string of decimal digits. */
  function DigitsValue(s: string): nat
    requires AllDigits(s)
  {
    if s == [] then 0 else DigitsValue(s[..|s| - 1]) * 10 + (s[|s| - 1] as int - '0' as int)
  }

  /** The value of a decimal digit (0 for any other character). */
  function DigitOf(c: char): (r: nat)
    ensures r < 10
  {
    if IsDigit(c) then c as int - '0' as int else 0
  }

  /** `parseInt` of the digits `s[i..j]`, read in place. */
  function DigitsIn(s: string, i: nat, j: nat): nat
    requires i <= j <= |s|
    decreases j - i
  {
    if j == i then 0 else DigitsIn(s, i, j - 1) * 10 + DigitOf(s[j - 1])
  }

  /** Read in place, a run of digits has the value `parseInt` gives it. */
  lemma {:induction false} DigitsInValue(s: string, i: nat, j: nat)
    requires i <= j <= |s| && AllDigits(s[i..j])
    ensures DigitsIn(s, i, j) == DigitsValue(s[i..j])
    decreases j - i
  {
    if j > i {
      assert s[i..j][..j - i - 1] == s[i..j - 1];
      assert s[i..j][j - i - 1] == s[j - 1];
      DigitsInValue(s, i, j - 1);
    }
  }

  /** `Number.prototype.toString()` of a non-negative integer. */
  function NatToString(n: nat): (r: string)
    ensures r != [] && AllDigits(r)
    ensures DigitsValue(r) == n
    ensures n < 10 <==> |r| == 1
  {
    if n < 10 then [('0' as int + n) as char]
    else
      var r := NatToString(n / 10) + [('0' as int + n % 10) as char];
      assert r[..|r| - 1] == NatToString(n / 10);
      r
  }

  /** Zero-padding to two digits, as `String(n).padStart(2, "0")`. */
  function Pad2(n: nat): (r: string)
    requires n < 100
    ensures |r| == 2 && AllDigits(r) && DigitsValue(r) == n
  {
    var r := [('0' as int + n / 10) as char, ('0' as int + n % 10) as char];
    assert r[..1] == [r[0]] && r[..1][..0] == [];
    assert DigitsValue(r[..1]) == n / 10;
    r
  }

  /** `10` to the power `k`. */
  function Pow10(k: nat): (r: nat)
    ensures r >= 1
  {
    if k == 0 then 1 else 10 * Pow10(k - 1)
  }

  /** A number below `10^k` is written with at most `k` digits. */
  lemma {:induction false} DigitsWithin(n: nat, k: nat)
    requires 0 < k && n < Pow10(k)
    ensures |NatToString(n)| <= k
    decreases k
  {
    if n >= 10 {
      assert Pow10(k) == 10 * Pow10(k - 1);
      DigitsWithin(n / 10, k - 1);
    }
  }

  /** A leading zero changes neither the digits nor their value. */
  lemma {:induction false} LeadingZero(s: string)
    requires AllDigits(s)
    ensures AllDigits("0" + s) && DigitsValue("0" + s) == DigitsValue(s)
    decreases |s|
  {
    if s != [] {
      var t := "0" + s;
      assert t[..|t| - 1] == "0" + s[..|s| - 1];
      LeadingZero(s[..|s| - 1]);
    }
  }

  /** `s.padStart(width, "0")` on a string of digits: as long as `width` at least, with the same value. */
  function ZeroPad(s: string, width: nat): (r: string)
    requires AllDigits(s)
    ensures |r| == if |s| < width then width else |s|
    ensures AllDigits(r) && DigitsValue(r) == DigitsValue(s)
    ensures |s| >= width ==> r == s
    decreases width - |s|
  {
    if |s| >= width then s
    else
      LeadingZero(s);
      ZeroPad("0" + s, width)
  }

  /** `String(n)` of any integer: a minus sign before the digits of a negative one. */
  function IntToString(n: int): (r: string)
    ensures n >= 0 ==> r == NatToString(n)
    ensures n < 0 ==> r == "-" + NatToString(-n)
  {
    if n >= 0 then NatToString(n) else "-" + NatToString(-n)
  }

  // ---------------------------------------------------------------------------
  // String order

  /** `a <= b` on strings: character by character, a proper prefix first. */
  predicate LexLe(a: string, b: string)
    decreases |a|
  {
    a == [] || (b != [] && (a[0] < b[0] || (a[0] == b[0] && LexLe(a[1..], b[1..]))))
  }

  lemma {:induction false} LexLeRefl(a: string)
    ensures LexLe(a, a)
    decreases |a|
  {
    if a != [] {
      LexLeRefl(a[1..]);
    }
  }

  /** A common prefix does not change the order. */
  lemma {:induction false} LexLeCommonPrefix(p: string, a: string, b: string)
    requires LexLe(a, b)
    ensures LexLe(p + a, p + b)
    decreases |p|
  {
    if p != [] {
      LexLeCommonPrefix(p[1..], a, b);
      assert (p + a)[1..] == p[1..] + a;
      assert (p + b)[1..] == p[1..] + b;
    } else {
      assert p + a == a && p + b == b;
    }
  }

  /** Any two strings are ordered one way or the other. */
  lemma {:induction false} LexLeTotal(a: string, b: string)
    ensures LexLe(a, b) || LexLe(b, a)
    decreases |a|
  {
    if a != [] && b != [] && a[0] == b[0] {
      LexLeTotal(a[1..], b[1..]);
    }
  }

  /** Strings ordered both ways are equal. */
  lemma {:induction false} LexLeAntisymmetric(a: string, b: string)
    requires LexLe(a, b) && LexLe(b, a)
    ensures a == b
    decreases |a|
  {
    if a != [] {
      LexLeAntisymmetric(a[1..], b[1..]);
      assert a == [a[0]] + a[1..] && b == [b[0]] + b[1..];
    }
  }

  lemma {:induction false} LexLeTransitive(a: string, b: string, c: string)
    requires LexLe(a, b) && LexLe(b, c)
    ensures LexLe(a, c)
    decreases |a|
  {
    if a != [] && a[0] == b[0] && b[0] == c[0] {
      LexLeTransitive(a[1..], b[1..], c[1..]);
    }
  }

  /** Two-digit fields order their strings by value, whatever follows them. */
  lemma Pad2Order(m: nat, n: nat, x: string, y: string)
    requires m < n < 100
    ensures LexLe(Pad2(m) + x, Pad2(n) + y)
  {
    var a := Pad2(m) + x;
    var b := Pad2(n) + y;
    assert a[0] == Pad2(m)[0] && b[0] == Pad2(n)[0];
    assert a[1..][0] == Pad2(m)[1] && b[1..][0] == Pad2(n)[1];
  }

  /** End of the run of digits starting at `i`. */
  function DigitRunEnd(s: string, i: nat): (r: nat)
    requires i <= |s|
    ensures i <= r <= |s|
    ensures r < |s| ==> !IsDigit(s[r])
    decreases |s| - i
  {
    if i < |s| && IsDigit(s[i]) then DigitRunEnd(s, i + 1) else i
  }

  lemma {:induction false} DigitRunDigits(s: string, i: nat)
    requires i <= |s|
    ensures AllDigits(s[i..DigitRunEnd(s, i)])
    decreases |s| - i
  {
    if i < |s| && IsDigit(s[i]) {
      DigitRunDigits(s, i + 1);
      var r := DigitRunEnd(s, i);
      assert s[i..r] == [s[i]] + s[i + 1..r];
    }
  }

  // ---------------------------------------------------------------------------
  // Literal patterns

  /** `p` occurs in `s` at `i`, case-sensitively. */
  predicate MatchAt(s: string, i: nat, p: string) {
    i + |p| <= |s| && s[i..i + |p|] == p
  }

  /** `p` occurs in `s` at `i`, ignoring ASCII case. */
  predicate MatchCIAt(s: string, i: nat, p: string) {
    i + |p| <= |s| && forall k :: 0 <= k < |p| ==> Lower(s[i + k]) == Lower(p[k])
  }

  /** `s.includes(p)`. */
  predicate Contains(s: string, p: string) {
    exists i :: 0 <= i <= |s| && MatchAt(s, i, p)
  }

  /** No case-insensitive occurrence of `p` in `s`. */
  predicate NoCI(s: string, p: string) {
    forall i :: 0 <= i <= |s| ==> !MatchCIAt(s, i, p)
  }

  /** The first case-insensitive occurrence of `p` at or after `from`. */
  function FindCI(s: string, p: string, from: nat): (r: Option<nat>)
    requires p != []
    ensures r.Some? ==> from <= r.value && MatchCIAt(s, r.value, p)
    ensures r.Some? ==> forall j :: from <= j < r.value ==> !MatchCIAt(s, j, p)
    ensures r.None? ==> forall j :: from <= j <= |s| ==> !MatchCIAt(s, j, p)
    decreases |s| - from
  {
    if from + |p| > |s| then None
    else if MatchCIAt(s, from, p) then Some(from)
    else FindCI(s, p, from + 1)
  }

  /** Number of non-overlapping case-insensitive occurrences (`(s.match(/p/gi) || []).length`). */
  function CountCI(s: string, p: string): nat
    requires p != []
    decreases |s|
  {
    match FindCI(s, p, 0)
    case None => 0
    case Some(i) => 1 + CountCI(s[i + |p|..], p)
  }

  /** `s.split(/p/i)`: the pieces between non-overlapping occurrences. */
  function SplitCI(s: string, p: string): (r: seq<string>)
    requires p != []
    ensures |r| >= 1
    decreases |s|
  {
    match FindCI(s, p, 0)
    case None => [s]
    case Some(i) => [s[..i]] + SplitCI(s[i + |p|..], p)
  }

  /** `s.split(/p/i)[1] || ""`. */
  function SecondPiece(s: string, p: string): string
    requires p != []
  {
    var pieces := SplitCI(s, p);
    if |pieces| >= 2 then pieces[1] else ""
  }

  datatype Option<+T> = None | Some(value: T)

  // ---------------------------------------------------------------------------
  // Facts about literal patterns whose first character does not recur

  /** The first character of `p` does not reappear later in `p`, ignoring case. */
  predicate Unbordered(p: string) {
    p != [] && forall k :: 1 <= k < |p| ==> Lower(p[k]) != Lower(p[0])
  }

  /**
   * For a pattern whose first character does not recur, an occurrence at
   * `|a|` in `a + p + b` is the first one as soon as `a` holds none.
   */
  lemma SplitAtPattern(a: string, p: string, b: string)
    requires Unbordered(p) && NoCI(a, p)
    ensures SplitCI(a + p + b, p) == [a] + SplitCI(b, p)
  {
    var s := a + p + b;
    forall j | 0 <= j < |a| ensures !MatchCIAt(s, j, p) {
      if j + |p| <= |a| {
        assert !MatchCIAt(a, j, p);
        var k :| 0 <= k < |p| && Lower(a[j + k]) != Lower(p[k]);
        assert s[j + k] == a[j + k];
        assert Lower(s[j + k]) != Lower(p[k]);
      } else {
        var k := |a| - j;
        assert s[j + k] == p[0];
        assert Lower(s[j + k]) != Lower(p[k]);
      }
    }
    assert MatchCIAt(s, |a|, p) by {
      forall k | 0 <= k < |p| ensures Lower(s[|a| + k]) == Lower(p[k]) {
        assert s[|a| + k] == p[k];
      }
    }
    assert FindCI(s, p, 0) == Some(|a|);
    assert s[..|a|] == a;
    assert s[|a| + |p|..] == b;
  }

  /** The occurrence with none before it is the first one. */
  lemma FindCIIs(s: string, p: string, i: nat)
    requires p != [] && MatchCIAt(s, i, p)
    requires forall j :: 0 <= j < i ==> !MatchCIAt(s, j, p)
    ensures FindCI(s, p, 0) == Some(i)
  {
  }

  /** A string with no occurrence is its own only piece. */
  lemma SplitNoOccurrence(s: string, p: string)
    requires p != [] && NoCI(s, p)
    ensures SplitCI(s, p) == [s]
  {
  }

  /** Gluing two strings with a character the pattern lacks creates no occurrence. */
  lemma NoCIJoin(x: string, c: char, y: string, p: string)
    requires p != [] && NoCI(x, p) && NoCI(y, p)
    requires forall k :: 0 <= k < |p| ==> Lower(p[k]) != Lower(c)
    ensures NoCI(x + [c] + y, p)
  {
    var s := x + [c] + y;
    forall i | 0 <= i <= |s| ensures !MatchCIAt(s, i, p) {
      if i + |p| > |s| {
      } else if i + |p| <= |x| {
        assert !MatchCIAt(x, i, p);
        var k :| 0 <= k < |p| && Lower(x[i + k]) != Lower(p[k]);
        assert s[i + k] == x[i + k];
        assert Lower(s[i + k]) != Lower(p[k]);
      } else if i <= |x| {
        assert s[i + (|x| - i)] == c;
        assert Lower(s[i + (|x| - i)]) != Lower(p[|x| - i]);
      } else {
        var i' := i - |x| - 1;
        assert !MatchCIAt(y, i', p);
        var k :| 0 <= k < |p| && Lower(y[i' + k]) != Lower(p[k]);
        assert s[i + k] == y[i' + k];
        assert Lower(s[i + k]) != Lower(p[k]);
      }
    }
  }

  /** A slice of a string without occurrences has none either. */
  lemma NoCISlice(s: string, i: nat, j: nat, p: string)
    requires i <= j <= |s| && NoCI(s, p)
    ensures NoCI(s[i..j], p)
  {
    forall k | 0 <= k <= j - i ensures !MatchCIAt(s[i..j], k, p) {
      if k + |p| <= j - i {
        assert !MatchCIAt(s, i + k, p);
        var m :| 0 <= m < |p| && Lower(s[i + k + m]) != Lower(p[m]);
        assert s[i..j][k + m] == s[i + k + m];
      }
    }
  }

  /** Trimming a string without occurrences leaves none. */
  lemma NoCITrim(s: string, p: string)
    requires NoCI(s, p)
    ensures NoCI(Trim(s), p)
  {
    var i := SkipSpace(s, 0);
    var j := SkipSpaceBack(s, |s|);
    if i < j {
      NoCISlice(s, i, j, p);
    } else {
      assert !MatchCIAt(s, 0, p);
    }
  }

  /** No piece of a split holds the separator. */
  lemma {:induction false} SplitPiecesNoCI(s: string, p: string)
    requires p != []
    ensures forall k :: 0 <= k < |SplitCI(s, p)| ==> NoCI(SplitCI(s, p)[k], p)
    decreases |s|
  {
    match FindCI(s, p, 0)
    case None =>
    case Some(i) =>
      forall j | 0 <= j <= i ensures !MatchCIAt(s[..i], j, p) {
        if j + |p| <= i {
          assert !MatchCIAt(s, j, p);
          var m :| 0 <= m < |p| && Lower(s[j + m]) != Lower(p[m]);
          assert s[..i][j + m] == s[j + m];
        }
      }
      SplitPiecesNoCI(s[i + |p|..], p);
      assert SplitCI(s, p) == [s[..i]] + SplitCI(s[i + |p|..], p);
  }

  /** Gluing two strings with a character the pattern lacks creates no (case-sensitive) occurrence. */
  lemma NotContainsJoin(x: string, c: char, y: string, p: string)
    requires p != [] && !Contains(x, p) && !Contains(y, p)
    requires forall k :: 0 <= k < |p| ==> p[k] != c
    ensures !Contains(x + [c] + y, p)
  {
    var s := x + [c] + y;
    forall i | 0 <= i <= |s| ensures !MatchAt(s, i, p) {
      if i + |p| > |s| {
      } else if i + |p| <= |x| {
        assert s[i..i + |p|] == x[i..i + |p|];
        assert !MatchAt(x, i, p);
      } else if i <= |x| {
        assert s[i..i + |p|][|x| - i] == c;
      } else {
        var i' := i - |x| - 1;
        assert s[i..i + |p|] == y[i'..i' + |p|];
        assert !MatchAt(y, i', p);
      }
    }
  }
}
