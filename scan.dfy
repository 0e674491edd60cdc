/**
 * Hand-coded scanners for the few regular expressions the ADI handling uses.
 * Each `...At` function says whether the expression matches at one position
 * (all of them are deterministic: every quantifier stops at the first
 * character it may not consume); the `First...` and `All...` functions give
 * the leftmost match and the left-to-right sequence of a `g`-flagged scan.
 */
module Scan {
  import opened Text

  /** Index of the first `<` at or after `i`, or |s|: where `[^<]*` stops. */
  function NextLt(s: string, i: nat): (r: nat)
    requires i <= |s|
    ensures i <= r <= |s|
    ensures forall k :: i <= k < r ==> s[k] != '<'
    ensures r < |s| ==> s[r] == '<'
    decreases |s| - i
  {
    if i == |s| || s[i] == '<' then i else NextLt(s, i + 1)
  }

  /** Index of the first `c` at or after `i`, or |s|. */
  function NextChar(s: string, i: nat, c: char): (r: nat)
    requires i <= |s|
    ensures i <= r <= |s|
    ensures forall k :: i <= k < r ==> s[k] != c
    ensures r < |s| ==> s[r] == c
    decreases |s| - i
  {
    if i == |s| || s[i] == c then i else NextChar(s, i + 1, c)
  }

  /** Index of the first `:` or `>` at or after `i`, or |s|: where `[^:>]+` stops. */
  function NextColonOrGt(s: string, i: nat): (r: nat)
    requires i <= |s|
    ensures i <= r <= |s|
    ensures forall k :: i <= k < r ==> s[k] != ':' && s[k] != '>'
    ensures r < |s| ==> s[r] == ':' || s[r] == '>'
    decreases |s| - i
  {
    if i == |s| || s[i] == ':' || s[i] == '>' then i else NextColonOrGt(s, i + 1)
  }

  // ---------------------------------------------------------------------------
  // The generic field expression <([^:>]+):(\d+)>([^<]*)

  /** One match of the field expression: the name, the length digits, the raw value text, and where it lies. */
  datatype Field = Field(name: string, digits: string, raw: string, start: nat, end: nat) {
    /** The declared length, `parseInt` of the digits. */
    function Declared(): nat {
      if AllDigits(digits) then DigitsValue(digits) else 0
    }
  }

  /** The field expression tried at position `i`. */
  function FieldAt(s: string, i: nat): (r: Option<Field>)
    requires i <= |s|
    ensures r.Some? ==> i == r.value.start < r.value.end <= |s|
  {
    if i < |s| && s[i] == '<' then
      var n := NextColonOrGt(s, i + 1);
      if n > i + 1 && n < |s| && s[n] == ':' then
        var d := DigitRunEnd(s, n + 1);
        if d > n + 1 && d < |s| && s[d] == '>' then
          var v := NextLt(s, d + 1);
          Some(Field(s[i + 1..n], s[n + 1..d], s[d + 1..v], i, v))
        else None
      else None
    else None
  }

  /**
   * A field match spells out `<name:digits>raw` exactly: a non-empty name
   * free of `:` and `>`, a non-empty run of digits, and a value running to
   * the next `<` or the end of the text.
   */
  lemma FieldAtSpells(s: string, i: nat)
    requires i <= |s| && FieldAt(s, i).Some?
    ensures var f := FieldAt(s, i).value;
      && f.name != [] && f.digits != [] && AllDigits(f.digits)
      && (forall k :: 0 <= k < |f.name| ==> f.name[k] != ':' && f.name[k] != '>')
      && (forall k :: 0 <= k < |f.raw| ==> f.raw[k] != '<')
      && (f.end == |s| || s[f.end] == '<')
      && s[i..f.end] == "<" + f.name + ":" + f.digits + ">" + f.raw
  {
    var f := FieldAt(s, i).value;
    var n := NextColonOrGt(s, i + 1);
    var d := DigitRunEnd(s, n + 1);
    var v := NextLt(s, d + 1);
    DigitRunDigits(s, n + 1);
    assert f == Field(s[i + 1..n], s[n + 1..d], s[d + 1..v], i, v);
    CutAtThree(s, i, n, d, v);
  }

  /** A slice cut at three of its characters. */
  lemma CutAtThree(s: string, i: nat, n: nat, d: nat, v: nat)
    requires i < n < d < v <= |s|
    ensures s[i..v] == [s[i]] + s[i + 1..n] + [s[n]] + s[n + 1..d] + [s[d]] + s[d + 1..v]
  {
    assert s[i..v] == [s[i]] + s[i + 1..v];
    assert s[i + 1..v] == s[i + 1..n] + s[n..v];
    assert s[n..v] == [s[n]] + s[n + 1..v];
    assert s[n + 1..v] == s[n + 1..d] + s[d..v];
    assert s[d..v] == [s[d]] + s[d + 1..v];
  }

  /** All matches of the `g`-flagged field expression from position `i` on, left to right. */
  function AllFields(s: string, i: nat): (r: seq<Field>)
    requires i <= |s|
    ensures forall k :: 0 <= k < |r| ==> i <= r[k].start <= |s| && FieldAt(s, r[k].start) == Some(r[k])
    decreases |s| - i
  {
    if i == |s| then []
    else match FieldAt(s, i)
      case Some(f) => [f] + AllFields(s, f.end)
      case None => AllFields(s, i + 1)
  }

  /** No field match starts in `[a, b)`. */
  predicate NoFieldIn(s: string, a: nat, b: nat) {
    forall j :: a <= j < b && j <= |s| ==> FieldAt(s, j).None?
  }

  /**
   * `r` is what the `g` scan finds from `i` on: no match starts before the
   * first element of `r` (or anywhere, when `r` is empty), and the rest of
   * `r` is what the scan finds from the end of that match. So the matches
   * come left to right without overlapping, and none is skipped.
   */
  predicate FieldScan(s: string, i: nat, r: seq<Field>)
    decreases |r|
  {
    if r == [] then NoFieldIn(s, i, |s|)
    else i <= r[0].start && NoFieldIn(s, i, r[0].start) && FieldScan(s, r[0].end, r[1..])
  }

  /** `AllFields` is the `g` scan: its matches are in order and none is skipped. */
  lemma {:induction false} AllFieldsScan(s: string, i: nat)
    requires i <= |s|
    ensures FieldScan(s, i, AllFields(s, i))
    decreases |s| - i, 1
  {
    if i < |s| {
      var f := FieldAt(s, i);
      if f.Some? {
        FieldsMatchHere(s, i, f.value);
      } else {
        FieldsNoMatchHere(s, i);
      }
    }
  }

  /** One step of `AllFieldsScan`: a match at `i`. */
  lemma {:induction false} FieldsMatchHere(s: string, i: nat, f: Field)
    requires i < |s| && FieldAt(s, i) == Some(f)
    ensures FieldScan(s, i, AllFields(s, i))
    decreases |s| - i, 0
  {
    var rest := AllFields(s, f.end);
    AllFieldsScan(s, f.end);
    var r := [f] + rest;
    assert r[0] == f && r[1..] == rest;
    assert AllFields(s, i) == r;
  }

  /** One step of `AllFieldsScan`: no match at `i`. */
  lemma {:induction false} FieldsNoMatchHere(s: string, i: nat)
    requires i < |s| && FieldAt(s, i).None?
    ensures FieldScan(s, i, AllFields(s, i))
    decreases |s| - i, 0
  {
    var rest := AllFields(s, i + 1);
    AllFieldsScan(s, i + 1);
    ScanSkip(s, i, rest);
    assert AllFields(s, i) == rest;
  }

  /** A position without a match, before the scan from the next one, leaves the scan as it is. */
  lemma ScanSkip(s: string, i: nat, r: seq<Field>)
    requires i < |s| && FieldAt(s, i).None?
    requires FieldScan(s, i + 1, r)
    ensures FieldScan(s, i, r)
  {
    if r == [] {
      assert NoFieldIn(s, i + 1, |s|);
    } else {
      assert NoFieldIn(s, i + 1, r[0].start) && FieldScan(s, r[0].end, r[1..]);
    }
  }

  // ---------------------------------------------------------------------------
  // Named tags: <TAG:(\d+)> followed by a value expression, case-insensitive

  /** What may follow `<TAG:n>`: `[^<]*` (or the equivalent lazy `[\s\S]*?(?=<|$)`), `[^<]+`, or `\d+`. */
  datatype ValueForm = UpToLt | NonEmptyUpToLt | Digits

  datatype Tag = Tag(start: nat, declared: nat, valueStart: nat, valueEnd: nat)

  /** End of the value of form `form` that starts at `v`. */
  function ValueEnd(s: string, v: nat, form: ValueForm): (r: nat)
    requires v <= |s|
    ensures v <= r <= |s|
  {
    match form
    case UpToLt => NextLt(s, v)
    case NonEmptyUpToLt => NextLt(s, v)
    case Digits => DigitRunEnd(s, v)
  }

  /** `a` and `b` are the same string ignoring ASCII case. */
  predicate EqCI(a: string, b: string)
    decreases |a|
  {
    |a| == |b| && (a == [] || (Lower(a[0]) == Lower(b[0]) && EqCI(a[1..], b[1..])))
  }

  lemma {:induction false} EqCIRefl(a: string)
    ensures EqCI(a, a)
    decreases |a|
  {
    if a != [] {
      EqCIRefl(a[1..]);
    }
  }

  lemma {:induction false} EqCIAt(a: string, b: string, k: nat)
    requires EqCI(a, b) && k < |a|
    ensures Lower(a[k]) == Lower(b[k])
    decreases k
  {
    if k > 0 {
      EqCIAt(a[1..], b[1..], k - 1);
    }
  }

  /** The head `<tag:` of a tag expression at `i`, the tag name ignoring case. */
  predicate HeadAt(s: string, i: nat, tag: string) {
    i + |tag| + 2 <= |s| && s[i] == '<' && EqCI(s[i + 1..i + 1 + |tag|], tag) && s[i + 1 + |tag|] == ':'
  }

  /** `<TAG:(\d+)>value` matched at `i`, ignoring case, with the value of form `form`. */
  function TagAt(s: string, i: nat, tag: string, form: ValueForm): (r: Option<Tag>)
    requires i <= |s|
    ensures r.Some? ==> r.value.start == i < r.value.valueStart <= r.value.valueEnd <= |s|
    ensures r.Some? ==> s[i] == '<'
  {
    if HeadAt(s, i, tag) then
      var n := i + |tag| + 2;
      var d := DigitRunEnd(s, n);
      if d > n && d < |s| && s[d] == '>' then
        var e := ValueEnd(s, d + 1, form);
        if form != UpToLt && e == d + 1 then None
        else Some(Tag(i, DigitsIn(s, n, d), d + 1, e))
      else None
    else None
  }

  /** The leftmost match at or after `from` (a regular expression without `g`). */
  function FirstTag(s: string, tag: string, form: ValueForm, from: nat): (r: Option<Tag>)
    requires from <= |s|
    ensures r.Some? ==> from <= r.value.start <= |s| && TagAt(s, r.value.start, tag, form) == r
    ensures r.Some? ==> forall j :: from <= j < r.value.start ==> TagAt(s, j, tag, form).None?
    ensures r.None? ==> forall j :: from <= j <= |s| ==> TagAt(s, j, tag, form).None?
    decreases |s| - from
  {
    var here := TagAt(s, from, tag, form);
    if here.Some? then here
    else if from == |s| then None
    else FirstTag(s, tag, form, from + 1)
  }

  /** All matches of the `g`-flagged tag expression from `from` on, left to right. */
  function AllTags(s: string, tag: string, form: ValueForm, from: nat): (r: seq<Tag>)
    requires from <= |s|
    ensures forall k :: 0 <= k < |r| ==> from <= r[k].start <= |s| && TagAt(s, r[k].start, tag, form) == Some(r[k])
    ensures forall k :: 0 <= k < |r| ==> r[k].valueStart <= r[k].valueEnd <= |s|
    decreases |s| - from
  {
    match FirstTag(s, tag, form, from)
    case None => []
    case Some(t) => [t] + AllTags(s, tag, form, t.valueEnd)
  }

  /** No tag match starts in `[a, b)`. */
  predicate NoTagIn(s: string, tag: string, form: ValueForm, a: nat, b: nat) {
    forall j :: a <= j < b && j <= |s| ==> TagAt(s, j, tag, form).None?
  }

  /**
   * `r` is what the `gi` scan finds from `from` on: no match starts before
   * the first element of `r` (or anywhere, when `r` is empty), and the rest
   * of `r` is what the scan finds from the end of that match's value.
   */
  predicate TagScan(s: string, tag: string, form: ValueForm, from: nat, r: seq<Tag>)
    decreases |r|
  {
    if r == [] then NoTagIn(s, tag, form, from, |s| + 1)
    else from <= r[0].start && NoTagIn(s, tag, form, from, r[0].start) && TagScan(s, tag, form, r[0].valueEnd, r[1..])
  }

  /** `AllTags` is the `gi` scan: its matches are in order and none is skipped. */
  lemma {:induction false} AllTagsScan(s: string, tag: string, form: ValueForm, from: nat)
    requires from <= |s|
    ensures TagScan(s, tag, form, from, AllTags(s, tag, form, from))
    decreases |s| - from, 1
  {
    var t := FirstTag(s, tag, form, from);
    if t.Some? {
      TagsMatchFirst(s, tag, form, from, t.value);
    }
  }

  /** One step of `AllTagsScan`: the leftmost match from `from` is `t`. */
  lemma {:induction false} TagsMatchFirst(s: string, tag: string, form: ValueForm, from: nat, t: Tag)
    requires from <= |s| && FirstTag(s, tag, form, from) == Some(t)
    ensures TagScan(s, tag, form, from, AllTags(s, tag, form, from))
    decreases |s| - from, 0
  {
    var rest := AllTags(s, tag, form, t.valueEnd);
    AllTagsScan(s, tag, form, t.valueEnd);
    var r := [t] + rest;
    assert r[0] == t && r[1..] == rest;
    assert AllTags(s, tag, form, from) == r;
  }

  /** The value text of a tag match. */
  function ValueOf(s: string, t: Tag): string
    requires t.valueStart <= t.valueEnd <= |s|
  {
    s[t.valueStart..t.valueEnd]
  }

  /** `value.substring(0, declared)`: at most `declared` characters. */
  function Cut(value: string, declared: nat): (r: string)
    ensures |r| <= declared && r <= value
    ensures |value| <= declared ==> r == value
  {
    if |value| <= declared then value else value[..declared]
  }

  /** Replace `s[i..j]` by `by`, as `String.prototype.replace` does with the first match. */
  function Splice(s: string, i: nat, j: nat, repl: string): (r: string)
    requires i <= j <= |s|
    ensures |r| == |s| - (j - i) + |repl|
    ensures r[..i] == s[..i] && r[i..i + |repl|] == repl && r[i + |repl|..] == s[j..]
  {
    s[..i] + repl + s[j..]
  }

  /** A splice that ends before `p` leaves the text from `p` on as it was. */
  lemma SpliceBefore(s: string, p: nat, i: nat, j: nat, f: string)
    requires i <= j <= p <= |s|
    ensures Splice(s, i, j, f) == Splice(s[..p], i, j, f) + s[p..]
  {
    assert s[j..] == s[..p][j..] + s[p..];
  }

  /** Two texts that agree up to `v` agree on every slice that ends by `v`. */
  lemma SamePrefixSlice(x: string, y: string, v: nat, a: nat, b: nat)
    requires a <= b <= v <= |x| && v <= |y| && x[..v] == y[..v]
    ensures x[a..b] == y[a..b]
  {
    forall k | a <= k < b ensures x[k] == y[k] {
      assert x[..v][k] == y[..v][k];
    }
  }

  // ---------------------------------------------------------------------------
  // <PROGRAMID:[^>]*>Generated at [^<]*<\/PROGRAMID>, case-insensitive

  const ProgramIdOpen := "<PROGRAMID:"
  const GeneratedAt := "Generated at "
  const ProgramIdClose := "</PROGRAMID>"

  /** End of the "Generated at" PROGRAMID field starting at `i`, if it starts there. */
  function ProgramIdAt(s: string, i: nat): (r: Option<nat>)
    requires i <= |s|
    ensures r.Some? ==> i < r.value <= |s| && MatchCIAt(s, i, ProgramIdOpen)
    ensures r.Some? ==> r.value >= i + |ProgramIdClose| && MatchCIAt(s, r.value - |ProgramIdClose|, ProgramIdClose)
  {
    if MatchCIAt(s, i, ProgramIdOpen) then
      var g := NextChar(s, i + |ProgramIdOpen|, '>');
      if g < |s| && MatchCIAt(s, g + 1, GeneratedAt) then
        var v := NextLt(s, g + 1 + |GeneratedAt|);
        if MatchCIAt(s, v, ProgramIdClose) then Some(v + |ProgramIdClose|) else None
      else None
    else None
  }

  /** The leftmost "Generated at" PROGRAMID field at or after `from`, as (start, end). */
  function FirstProgramId(s: string, from: nat): (r: Option<(nat, nat)>)
    requires from <= |s|
    ensures r.Some? ==> from <= r.value.0 < r.value.1 <= |s| && ProgramIdAt(s, r.value.0) == Some(r.value.1)
    ensures r.None? ==> forall j :: from <= j <= |s| ==> ProgramIdAt(s, j).None?
    decreases |s| - from
  {
    var here := ProgramIdAt(s, from);
    if here.Some? then Some((from, here.value))
    else if from == |s| then None
    else FirstProgramId(s, from + 1)
  }

  // ---------------------------------------------------------------------------
  // Rewriting the first match of a tag expression

  /** `<tag:n>value` with `n` the length of `value`: the field the header rewrites write. */
  function TagField(tag: string, value: string): (r: string)
    ensures |r| == |tag| + 3 + |NatToString(|value|)| + |value|
  {
    "<" + tag + ":" + NatToString(|value|) + ">" + value
  }

  /** A value the expression of form `form` reads back whole. */
  predicate Fits(value: string, form: ValueForm) {
    match form
    case UpToLt => forall k :: 0 <= k < |value| ==> value[k] != '<'
    case NonEmptyUpToLt => value != [] && forall k :: 0 <= k < |value| ==> value[k] != '<'
    case Digits => value != [] && AllDigits(value)
  }

  /** `s.replace(/<tag:\d+>form/i, TagField(tag, value))`: the first match rewritten, if any. */
  function ReplaceTag(s: string, tag: string, form: ValueForm, value: string): (r: string)
  {
    match FirstTag(s, tag, form, 0)
    case None => s
    case Some(t) => Splice(s, t.start, t.valueEnd, TagField(tag, value))
  }

  /** A digit run that stops at a non-digit `s1[m]` is decided by `s1[..m + 1]`. */
  lemma {:induction false} DigitRunLocal(s1: string, s2: string, i: nat, m: nat)
    requires i <= m < |s1| && m < |s2| && s1[..m + 1] == s2[..m + 1] && !IsDigit(s1[m])
    ensures DigitRunEnd(s1, i) == DigitRunEnd(s2, i)
    decreases m - i
  {
    assert s1[..m + 1][i] == s2[..m + 1][i];
    if i < m && IsDigit(s1[i]) {
      DigitRunLocal(s1, s2, i + 1, m);
    }
  }

  /** A digit run stops at the latest at a non-digit `s[m]`. */
  lemma {:induction false} DigitRunStops(s: string, i: nat, m: nat)
    requires i <= m < |s| && !IsDigit(s[m])
    ensures DigitRunEnd(s, i) <= m
    decreases m - i
  {
    if i < m && IsDigit(s[i]) {
      DigitRunStops(s, i + 1, m);
    }
  }

  /** A scan for `<` that meets one at `s1[m]` is decided by `s1[..m + 1]`. */
  lemma {:induction false} NextLtLocal(s1: string, s2: string, i: nat, m: nat)
    requires i <= m < |s1| && m < |s2| && s1[..m + 1] == s2[..m + 1] && s1[m] == '<'
    ensures NextLt(s1, i) == NextLt(s2, i)
    decreases m - i
  {
    assert s1[..m + 1][i] == s2[..m + 1][i];
    if i < m && s1[i] != '<' {
      NextLtLocal(s1, s2, i + 1, m);
    }
  }

  /** A head that occurs before a `<` at `m` ends before `m`: the tag name has no `<`. */
  lemma HeadBeforeLt(s: string, i: nat, m: nat, tag: string)
    requires HeadAt(s, i, tag) && i < m < |s| && s[m] == '<'
    requires forall k :: 0 <= k < |tag| ==> tag[k] != '<'
    ensures i + |tag| + 2 <= m
  {
    if m < i + 1 + |tag| {
      var w := s[i + 1..i + 1 + |tag|];
      EqCIAt(w, tag, m - i - 1);
    }
  }

  /** Whether the head `<tag:` occurs before a `<` at `m` depends only on the text up to `m`. */
  lemma HeadLocal(s1: string, s2: string, i: nat, m: nat, tag: string)
    requires i < m < |s1| && m < |s2| && s1[..m + 1] == s2[..m + 1] && s1[m] == '<'
    requires forall k :: 0 <= k < |tag| ==> tag[k] != '<'
    ensures HeadAt(s1, i, tag) == HeadAt(s2, i, tag)
    ensures HeadAt(s1, i, tag) ==> i + |tag| + 2 <= m
  {
    assert s2[m] == s1[m] by { assert s1[..m + 1][m] == s2[..m + 1][m]; }
    if HeadAt(s1, i, tag) {
      HeadBeforeLt(s1, i, m, tag);
    }
    if HeadAt(s2, i, tag) {
      HeadBeforeLt(s2, i, m, tag);
    }
    if i + |tag| + 2 <= m {
      assert s1[i] == s2[i] by { assert s1[..m + 1][i] == s2[..m + 1][i]; }
      var c := i + 1 + |tag|;
      assert s1[c] == s2[c] by { assert s1[..m + 1][c] == s2[..m + 1][c]; }
      assert s1[i + 1..c] == s2[i + 1..c] by {
        assert s1[i + 1..c] == s1[..m + 1][i + 1..c];
        assert s2[i + 1..c] == s2[..m + 1][i + 1..c];
      }
    }
  }

  /** The value of a tag that starts before a `<` at `m` ends at `m` at the latest, the same in both texts. */
  lemma ValueEndLocal(s1: string, s2: string, v: nat, m: nat, form: ValueForm)
    requires v <= m < |s1| && m < |s2| && s1[..m + 1] == s2[..m + 1] && s1[m] == '<'
    ensures ValueEnd(s1, v, form) == ValueEnd(s2, v, form)
  {
    match form
    case Digits => DigitRunLocal(s1, s2, v, m);
    case UpToLt => NextLtLocal(s1, s2, v, m);
    case NonEmptyUpToLt => NextLtLocal(s1, s2, v, m);
  }

  /** The length digits of a tag before a `<` at `m` read the same in both texts. */
  lemma DigitsLocal(s1: string, s2: string, n: nat, m: nat)
    requires n <= m < |s1| && m < |s2| && s1[..m + 1] == s2[..m + 1] && s1[m] == '<'
    ensures DigitRunEnd(s1, n) == DigitRunEnd(s2, n) <= m
    ensures DigitsIn(s1, n, DigitRunEnd(s1, n)) == DigitsIn(s2, n, DigitRunEnd(s1, n))
    ensures DigitRunEnd(s1, n) < m ==> s1[DigitRunEnd(s1, n)] == s2[DigitRunEnd(s1, n)]
    ensures s2[m] == '<'
  {
    assert s1[..m + 1][m] == s2[..m + 1][m];
    DigitRunLocal(s1, s2, n, m);
    DigitRunStops(s1, n, m);
    var d := DigitRunEnd(s1, n);
    assert d < m ==> s1[d] == s2[d] by {
      if d < m { assert s1[..m + 1][d] == s2[..m + 1][d]; }
    }
    DigitsInLocal(s1, s2, n, d, m);
  }

  lemma {:induction false} DigitsInLocal(s1: string, s2: string, n: nat, d: nat, m: nat)
    requires n <= d <= m < |s1| && m < |s2| && s1[..m + 1] == s2[..m + 1]
    ensures DigitsIn(s1, n, d) == DigitsIn(s2, n, d)
    decreases d - n
  {
    if d > n {
      assert s1[..m + 1][d - 1] == s2[..m + 1][d - 1];
      DigitsInLocal(s1, s2, n, d - 1, m);
    }
  }

  /** Whether a tag matches before a `<` at `m` depends only on the text up to `m`. */
  lemma TagAtLocal(s1: string, s2: string, i: nat, m: nat, tag: string, form: ValueForm)
    requires i < m < |s1| && m < |s2| && s1[..m + 1] == s2[..m + 1] && s1[m] == '<'
    requires forall k :: 0 <= k < |tag| ==> tag[k] != '<'
    ensures TagAt(s1, i, tag, form) == TagAt(s2, i, tag, form)
  {
    HeadLocal(s1, s2, i, m, tag);
    if HeadAt(s1, i, tag) {
      TagAtLocalAfterHead(s1, s2, i, m, tag, form);
    }
  }

  lemma TagAtLocalAfterHead(s1: string, s2: string, i: nat, m: nat, tag: string, form: ValueForm)
    requires i + |tag| + 2 <= m < |s1| && m < |s2| && s1[..m + 1] == s2[..m + 1] && s1[m] == '<'
    requires HeadAt(s1, i, tag) && HeadAt(s2, i, tag)
    ensures TagAt(s1, i, tag, form) == TagAt(s2, i, tag, form)
  {
    var n := i + |tag| + 2;
    DigitsLocal(s1, s2, n, m);
    var d := DigitRunEnd(s1, n);
    var e := if d > n && d < m && s1[d] == '>' then ValueEnd(s1, d + 1, form) else d + 1;
    if d > n && d < m && s1[d] == '>' {
      ValueEndLocal(s1, s2, d + 1, m, form);
    }
    TagAfterHead(s1, i, tag, form, d, e);
    TagAfterHead(s2, i, tag, form, d, e);
  }

  /** Past its head, a match is decided by where the digits end and where the value ends. */
  lemma TagAfterHead(s: string, i: nat, tag: string, form: ValueForm, d: nat, e: nat)
    requires HeadAt(s, i, tag) && d == DigitRunEnd(s, i + |tag| + 2)
    requires d > i + |tag| + 2 && d < |s| && s[d] == '>' ==> e == ValueEnd(s, d + 1, form)
    ensures TagAt(s, i, tag, form) ==
      if d > i + |tag| + 2 && d < |s| && s[d] == '>' then
        if form != UpToLt && e == d + 1 then None else Some(Tag(i, DigitsIn(s, i + |tag| + 2, d), d + 1, e))
      else None
  {
  }

  /** The text after a match cannot extend its value. */
  lemma TagAtEnds(s: string, t: Tag, tag: string, form: ValueForm)
    requires t.start <= |s| && TagAt(s, t.start, tag, form) == Some(t)
    ensures t.valueEnd < |s| ==> (if form == Digits then !IsDigit(s[t.valueEnd]) else s[t.valueEnd] == '<')
  {
  }


  /** A match at `p` with none before it is the leftmost one. */
  lemma FirstTagIs(s: string, tag: string, form: ValueForm, p: nat)
    requires p <= |s| && TagAt(s, p, tag, form).Some?
    requires forall j :: 0 <= j < p ==> TagAt(s, j, tag, form).None?
    ensures FirstTag(s, tag, form, 0) == TagAt(s, p, tag, form)
  {
    var first := FirstTag(s, tag, form, 0);
    assert first.Some? && first.value.start == p;
  }

  lemma {:induction false} DigitRunExact(s: string, i: nat, k: nat)
    requires i + k <= |s| && (forall j :: i <= j < i + k ==> IsDigit(s[j])) && (i + k == |s| || !IsDigit(s[i + k]))
    ensures DigitRunEnd(s, i) == i + k
    decreases k
  {
    if k > 0 {
      DigitRunExact(s, i + 1, k - 1);
    }
  }

  lemma {:induction false} NextLtExact(s: string, i: nat, k: nat)
    requires i + k <= |s| && (forall j :: i <= j < i + k ==> s[j] != '<') && (i + k == |s| || s[i + k] == '<')
    ensures NextLt(s, i) == i + k
    decreases k
  {
    if k > 0 {
      NextLtExact(s, i + 1, k - 1);
    }
  }

  /** A value that fits its form ends where the text stops extending it. */
  lemma ValueEndOfFit(s: string, v: nat, form: ValueForm, value: string)
    requires v + |value| <= |s| && (forall j :: 0 <= j < |value| ==> s[v + j] == value[j]) && Fits(value, form)
    requires v + |value| < |s| ==> (if form == Digits then !IsDigit(s[v + |value|]) else s[v + |value|] == '<')
    ensures ValueEnd(s, v, form) == v + |value|
  {
    assert forall j :: v <= j < v + |value| ==> s[j] == value[j - v] by {
      forall j | v <= j < v + |value| ensures s[j] == value[j - v] {
        assert s[v + (j - v)] == value[j - v];
      }
    }
    match form
    case Digits =>
      DigitRunExact(s, v, |value|);
    case UpToLt =>
      NextLtExact(s, v, |value|);
    case NonEmptyUpToLt =>
      NextLtExact(s, v, |value|);
  }

  /** The characters of `f` laid down at `i` in `r`. */
  predicate LaidAt(r: string, i: nat, f: string) {
    i + |f| <= |r| && forall k :: 0 <= k < |f| ==> r[i + k] == f[k]
  }

  lemma SliceLaidAt(r: string, i: nat, f: string)
    requires i + |f| <= |r| && r[i..i + |f|] == f
    ensures LaidAt(r, i, f)
  {
    forall k | 0 <= k < |f| ensures r[i + k] == f[k] {
      assert r[i..i + |f|][k] == f[k];
    }
  }

  lemma LaidSlice(r: string, i: nat, f: string)
    requires LaidAt(r, i, f)
    ensures r[i..i + |f|] == f
  {
    forall k | 0 <= k < |f| ensures r[i..i + |f|][k] == f[k] {
      assert r[i + k] == f[k];
    }
  }

  /** A part laid inside `f` lies, once `f` is laid at `i`, at the shifted place. */
  lemma LaidIn(r: string, i: nat, f: string, a: nat, part: string)
    requires LaidAt(r, i, f) && LaidAt(f, a, part)
    ensures LaidAt(r, i + a, part)
  {
    forall k | 0 <= k < |part| ensures r[i + a + k] == part[k] {
      assert r[i + (a + k)] == f[a + k];
    }
  }

  /** `f` spells `<tag:len>value`. */
  predicate Spells(f: string, tag: string, len: string, value: string) {
    |f| == |tag| + 2 + |len| + 1 + |value|
    && f[0] == '<' && LaidAt(f, 1, tag) && f[|tag| + 1] == ':'
    && LaidAt(f, |tag| + 2, len) && f[|tag| + 2 + |len|] == '>' && LaidAt(f, |tag| + 2 + |len| + 1, value)
  }

  lemma ConcatSpells(tag: string, len: string, value: string)
    ensures Spells(['<'] + tag + [':'] + len + ['>'] + value, tag, len, value)
  {
    var f := ['<'] + tag + [':'] + len + ['>'] + value;
    assert f[1..1 + |tag|] == tag;
    SliceLaidAt(f, 1, tag);
    assert f[|tag| + 2..|tag| + 2 + |len|] == len;
    SliceLaidAt(f, |tag| + 2, len);
    assert f[|tag| + 2 + |len| + 1..|tag| + 2 + |len| + 1 + |value|] == value;
    SliceLaidAt(f, |tag| + 2 + |len| + 1, value);
  }

  lemma TagFieldSpells(tag: string, value: string)
    ensures Spells(TagField(tag, value), tag, NatToString(|value|), value)
  {
    var len := NatToString(|value|);
    assert TagField(tag, value) == ['<'] + tag + [':'] + len + ['>'] + value;
    ConcatSpells(tag, len, value);
  }

  /** The head `<tag:` of a field laid at `i`. */
  lemma FieldHead(r: string, i: nat, f: string, tag: string, len: string, value: string)
    requires LaidAt(r, i, f) && Spells(f, tag, len, value)
    ensures HeadAt(r, i, tag)
  {
    assert r[i + 0] == f[0];
    assert r[i + (|tag| + 1)] == f[|tag| + 1];
    LaidIn(r, i, f, 1, tag);
    LaidSlice(r, i + 1, tag);
    EqCIRefl(tag);
  }

  /** A run of digits laid at `n` and followed by a non-digit is read as exactly that run. */
  lemma DigitsLaid(r: string, n: nat, len: string)
    requires LaidAt(r, n, len) && AllDigits(len) && n + |len| < |r| && !IsDigit(r[n + |len|])
    ensures DigitRunEnd(r, n) == n + |len| && DigitsIn(r, n, n + |len|) == DigitsValue(len)
  {
    forall j | n <= j < n + |len| ensures IsDigit(r[j]) {
      assert r[n + (j - n)] == len[j - n];
    }
    DigitRunExact(r, n, |len|);
    LaidSlice(r, n, len);
    DigitsInValue(r, n, n + |len|);
  }

  /** The length digits of a field laid at `i`. */
  lemma FieldDigits(r: string, i: nat, f: string, tag: string, len: string, value: string)
    requires LaidAt(r, i, f) && Spells(f, tag, len, value) && AllDigits(len)
    ensures i + |tag| + 2 + |len| < |r| && r[i + |tag| + 2 + |len|] == '>'
    ensures DigitRunEnd(r, i + |tag| + 2) == i + |tag| + 2 + |len|
    ensures DigitsIn(r, i + |tag| + 2, i + |tag| + 2 + |len|) == DigitsValue(len)
  {
    assert r[i + (|tag| + 2 + |len|)] == f[|tag| + 2 + |len|];
    LaidIn(r, i, f, |tag| + 2, len);
    DigitsLaid(r, i + |tag| + 2, len);
  }

  /** The value of a field laid at `i`, when the text after it cannot extend the value. */
  lemma FieldValue(r: string, i: nat, f: string, tag: string, form: ValueForm, len: string, value: string)
    requires LaidAt(r, i, f) && Spells(f, tag, len, value) && Fits(value, form)
    requires i + |f| < |r| ==> (if form == Digits then !IsDigit(r[i + |f|]) else r[i + |f|] == '<')
    ensures var v := i + |tag| + 2 + |len| + 1;
      v + |value| <= |r| && ValueEnd(r, v, form) == v + |value| && r[v..v + |value|] == value
  {
    LaidIn(r, i, f, |tag| + 2 + |len| + 1, value);
    ValueEndOfFit(r, i + |tag| + 2 + |len| + 1, form, value);
    LaidSlice(r, i + |tag| + 2 + |len| + 1, value);
  }

  /**
   * A field laid at `i` is read back whole when the text after it cannot
   * extend its value.
   */
  lemma FieldRead(r: string, i: nat, f: string, tag: string, form: ValueForm, len: string, value: string)
    requires LaidAt(r, i, f) && Spells(f, tag, len, value) && Fits(value, form)
    requires len != [] && AllDigits(len) && DigitsValue(len) == |value|
    requires i + |f| < |r| ==> (if form == Digits then !IsDigit(r[i + |f|]) else r[i + |f|] == '<')
    ensures var x := TagAt(r, i, tag, form);
      x.Some? && x.value.declared == |value| && x.value.valueStart + |value| == x.value.valueEnd
      && r[x.value.valueStart..x.value.valueEnd] == value && x.value.valueEnd == i + |f|
  {
    FieldHead(r, i, f, tag, len, value);
    FieldDigits(r, i, f, tag, len, value);
    FieldValue(r, i, f, tag, form, len, value);
    TagFieldIs(r, i, tag, form, len, value);
  }

  /** `<tag:`, then digits `len` declaring the length of `value`, `>`, and `value`: a tag match. */
  lemma TagFieldIs(r: string, i: nat, tag: string, form: ValueForm, len: string, value: string)
    requires HeadAt(r, i, tag) && len != []
    requires i + |tag| + 2 + |len| < |r| && r[i + |tag| + 2 + |len|] == '>'
    requires DigitRunEnd(r, i + |tag| + 2) == i + |tag| + 2 + |len|
    requires DigitsIn(r, i + |tag| + 2, i + |tag| + 2 + |len|) == |value|
    requires var v := i + |tag| + 2 + |len| + 1;
      v + |value| <= |r| && ValueEnd(r, v, form) == v + |value|
    requires form != UpToLt ==> |value| > 0
    ensures var v := i + |tag| + 2 + |len| + 1;
      TagAt(r, i, tag, form) == Some(Tag(i, |value|, v, v + |value|))
  {
    var n := i + |tag| + 2;
    var d := n + |len|;
    assert DigitRunEnd(r, n) == d > n && d < |r| && r[d] == '>';
    assert ValueEnd(r, d + 1, form) == d + 1 + |value|;
  }


  /**
   * Rewriting the first match leaves a first match at the same place whose
   * declared length is the new value's length and whose value reads back as
   * the new value; with no match the text is unchanged.
   */
  lemma ReplaceTagReads(s: string, tag: string, form: ValueForm, value: string)
    requires Fits(value, form)
    requires forall k :: 0 <= k < |tag| ==> tag[k] != '<'
    ensures FirstTag(s, tag, form, 0).None? ==> ReplaceTag(s, tag, form, value) == s
    ensures FirstTag(s, tag, form, 0).Some? ==>
      var r := ReplaceTag(s, tag, form, value);
      var t := FirstTag(r, tag, form, 0);
      t.Some? && t.value.start == FirstTag(s, tag, form, 0).value.start
      && t.value.declared == |value| && ValueOf(r, t.value) == value
  {
    match FirstTag(s, tag, form, 0)
    case None =>
    case Some(t) =>
      ReplacedField(s, t, tag, form, value);
  }

  /** The first match rewritten: read back at the same place, and still the first. */
  lemma ReplacedField(s: string, t: Tag, tag: string, form: ValueForm, value: string)
    requires FirstTag(s, tag, form, 0) == Some(t)
    requires Fits(value, form)
    requires forall k :: 0 <= k < |tag| ==> tag[k] != '<'
    ensures var r := Splice(s, t.start, t.valueEnd, TagField(tag, value));
      var first := FirstTag(r, tag, form, 0);
      first.Some? && first.value.start == t.start && first.value.declared == |value|
      && first.value.valueStart + |value| == first.value.valueEnd
      && r[first.value.valueStart..first.value.valueEnd] == value
      && first.value.valueEnd == t.start + |TagField(tag, value)|
  {
    SplicedRead(s, t, tag, form, value);
    ReplaceTagFirst(s, t, tag, form, value);
  }

  /** A splice lays its replacement at `i` and is followed by what followed `s[..j]`. */
  lemma SplicedAround(s: string, i: nat, j: nat, f: string)
    requires i <= j <= |s|
    ensures var r := Splice(s, i, j, f);
      LaidAt(r, i, f) && (i + |f| < |r| <==> j < |s|) && (j < |s| ==> r[i + |f|] == s[j])
  {
    var r := Splice(s, i, j, f);
    SliceLaidAt(r, i, f);
    if i + |f| < |r| {
      assert r[i + |f|..][0] == s[j..][0];
    }
  }

  /** The written field is read back at the place of the match it replaced. */
  lemma SplicedRead(s: string, t: Tag, tag: string, form: ValueForm, value: string)
    requires FirstTag(s, tag, form, 0) == Some(t)
    requires Fits(value, form)
    ensures var r := Splice(s, t.start, t.valueEnd, TagField(tag, value));
      var x := TagAt(r, t.start, tag, form);
      x.Some? && x.value.declared == |value| && x.value.valueStart + |value| == x.value.valueEnd
      && r[x.value.valueStart..x.value.valueEnd] == value && x.value.valueEnd == t.start + |TagField(tag, value)|
  {
    TagAtEnds(s, t, tag, form);
    SplicedReadAt(s, t.start, t.valueEnd, tag, form, value);
  }

  /** A field spliced in where the next character ends its value reads back whole. */
  lemma SplicedReadAt(s: string, i: nat, j: nat, tag: string, form: ValueForm, value: string)
    requires i <= j <= |s| && Fits(value, form)
    requires j < |s| ==> (if form == Digits then !IsDigit(s[j]) else s[j] == '<')
    ensures var r := Splice(s, i, j, TagField(tag, value));
      var x := TagAt(r, i, tag, form);
      x.Some? && x.value.declared == |value| && x.value.valueStart + |value| == x.value.valueEnd
      && r[x.value.valueStart..x.value.valueEnd] == value && x.value.valueEnd == i + |TagField(tag, value)|
  {
    var f := TagField(tag, value);
    var r := Splice(s, i, j, f);
    SplicedAround(s, i, j, f);
    TagFieldSpells(tag, value);
    FieldRead(r, i, f, tag, form, NatToString(|value|), value);
  }

  /** The rewritten field is the first match: the text before it is untouched. */
  lemma ReplaceTagFirst(s: string, t: Tag, tag: string, form: ValueForm, value: string)
    requires FirstTag(s, tag, form, 0) == Some(t)
    requires forall k :: 0 <= k < |tag| ==> tag[k] != '<'
    requires TagAt(Splice(s, t.start, t.valueEnd, TagField(tag, value)), t.start, tag, form).Some?
    ensures var r := Splice(s, t.start, t.valueEnd, TagField(tag, value));
      FirstTag(r, tag, form, 0) == TagAt(r, t.start, tag, form)
  {
    var r := Splice(s, t.start, t.valueEnd, TagField(tag, value));
    assert TagField(tag, value)[0] == '<';
    SplicedPrefix(s, t.start, t.valueEnd, TagField(tag, value));
    NoTagBefore(s, r, t.start, tag, form);
    FirstTagIs(r, tag, form, t.start);
  }

  /** A splice whose replacement starts with the character it replaces keeps the text up to and including it. */
  lemma SplicedPrefix(s: string, i: nat, j: nat, f: string)
    requires i < j <= |s| && f != [] && f[0] == s[i]
    ensures var r := Splice(s, i, j, f); i < |r| && r[..i + 1] == s[..i + 1]
  {
    var r := Splice(s, i, j, f);
    assert r[i] == f[0] by {
      assert r[i..i + |f|][0] == f[0];
    }
    forall k | 0 <= k <= i ensures r[k] == s[k] {
      if k < i {
        assert r[..i][k] == s[..i][k];
      }
    }
  }

  /** With no match before the `<` at `m` in one text, there is none in another agreeing with it up to `m`. */
  lemma NoTagBefore(s: string, r: string, m: nat, tag: string, form: ValueForm)
    requires m < |s| && m < |r| && s[..m + 1] == r[..m + 1] && s[m] == '<'
    requires forall k :: 0 <= k < |tag| ==> tag[k] != '<'
    requires forall j :: 0 <= j < m ==> TagAt(s, j, tag, form).None?
    ensures forall j :: 0 <= j < m ==> TagAt(r, j, tag, form).None?
  {
    forall j | 0 <= j < m ensures TagAt(r, j, tag, form).None? {
      TagAtLocal(s, r, j, m, tag, form);
    }
  }

  // ---------------------------------------------------------------------------
  // Where a count-like tag `<tag:\d+>\d+` must stop

  /** A character at which no part of `<tag:\d+>\d+` can go on, for a tag name of letters and `_`. */
  predicate Stops(c: char) {
    !IsDigit(c) && c != '>' && c != ':' && c != '_' && !('A' <= c <= 'Z') && !('a' <= c <= 'z')
  }

  /** A tag name made of letters and `_`. */
  predicate PlainTag(tag: string) {
    forall k :: 0 <= k < |tag| ==> 'A' <= tag[k] <= 'Z' || 'a' <= tag[k] <= 'z' || tag[k] == '_'
  }

  /** A digit run that meets a non-digit at `m` in two texts agreeing before `m` ends at the same place. */
  lemma {:induction false} DigitRunCut(s1: string, s2: string, i: nat, m: nat)
    requires i <= m < |s1| && m < |s2| && s1[..m] == s2[..m] && !IsDigit(s1[m]) && !IsDigit(s2[m])
    ensures DigitRunEnd(s1, i) == DigitRunEnd(s2, i) <= m
    decreases m - i
  {
    if i < m {
      assert s1[..m][i] == s2[..m][i];
      if IsDigit(s1[i]) {
        DigitRunCut(s1, s2, i + 1, m);
      }
    }
  }

  /** A head that starts before a stopping character ends before it. */
  lemma HeadCut(s: string, i: nat, m: nat, tag: string)
    requires HeadAt(s, i, tag) && i < m < |s| && Stops(s[m]) && PlainTag(tag)
    ensures i + |tag| + 2 <= m
  {
    if m < i + 1 + |tag| {
      EqCIAt(s[i + 1..i + 1 + |tag|], tag, m - i - 1);
    }
  }

  /**
   * A digit-valued tag that starts before a stopping character at `m` lies
   * before `m`, and matches alike in two texts that agree before `m`, whatever
   * stopping character each has there.
   */
  lemma TagAtCut(s1: string, s2: string, i: nat, m: nat, tag: string)
    requires i < m < |s1| && m < |s2| && s1[..m] == s2[..m] && Stops(s1[m]) && Stops(s2[m]) && PlainTag(tag)
    ensures TagAt(s1, i, tag, Digits) == TagAt(s2, i, tag, Digits)
    ensures TagAt(s1, i, tag, Digits).Some? ==> TagAt(s1, i, tag, Digits).value.valueEnd <= m
  {
    if HeadAt(s1, i, tag) {
      HeadCut(s1, i, m, tag);
    }
    if HeadAt(s2, i, tag) {
      HeadCut(s2, i, m, tag);
    }
    if i + |tag| + 2 <= m {
      var c := i + 1 + |tag|;
      assert s1[i] == s2[i] && s1[c] == s2[c] by {
        assert s1[..m][i] == s2[..m][i];
        assert s1[..m][c] == s2[..m][c];
      }
      SamePrefixSlice(s1, s2, m, i + 1, c);
      var n := c + 1;
      DigitRunCut(s1, s2, n, m);
      var d := DigitRunEnd(s1, n);
      var e := d + 1;
      if d < m {
        SamePrefixSlice(s1, s2, m, 0, d + 1);
        assert s1[..d + 1] == s1[0..d + 1] && s2[..d + 1] == s2[0..d + 1];
        assert s1[d] == s2[d] by {
          assert s1[..m][d] == s2[..m][d];
        }
        DigitsInLocal(s1, s2, n, d, d);
        DigitRunCut(s1, s2, d + 1, m);
        e := DigitRunEnd(s1, d + 1);
      }
      if HeadAt(s1, i, tag) {
        TagAfterHead(s1, i, tag, Digits, d, e);
        TagAfterHead(s2, i, tag, Digits, d, e);
      }
    }
  }
}
