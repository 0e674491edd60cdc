/**
 * The merge engine of lib/adif-processor.js: an ADI file read as header and
 * records, new QSOs appended, QSL confirmations reconciled by QSO timestamp,
 * and the record count repaired. Each transform is a function from the texts
 * it reads (and the "Generated at" time it stamps) to the text it writes;
 * the methods read and write the file around it in a `FileStore`.
 */
module AdifProcessor {
  import opened Text
  import opened Scan
  import opened Common
  import opened ConfigContext
  import opened FileManager
  import opened TimestampUtils
  import opened AdifRecords

  const Eoh := "<eoh>"

  // ---------------------------------------------------------------------------
  // _readADIFFileParts

  /** `adif.match(/^[\s\S]*?<eoh>/i)`: the text up to and including the first `<eoh>`, or "" without one. */
  function HeaderOf(adif: string): (h: string)
    ensures h <= adif
    ensures h == "" <==> NoCI(adif, Eoh)
    ensures h != "" ==> |h| >= |Eoh| && FindCI(adif, Eoh, 0) == Some(|h| - |Eoh|)
  {
    match FindCI(adif, Eoh, 0)
    case None => ""
    case Some(p) => adif[..p + |Eoh|]
  }

  /** The records part of a file: what follows the first `<eoh>` up to a second one, with `\n<APP_LoTW_EOF>` appended to its trim when it lacks the marker. */
  function RecordsOf(adif: string): (records: string)
    ensures Contains(records, Eof)
    ensures Contains(SecondPiece(adif, Eoh), Eof) ==> records == SecondPiece(adif, Eoh)
  {
    var records := SecondPiece(adif, Eoh);
    if Contains(records, Eof) then records
    else
      var r := Trim(records) + "\n" + Eof;
      assert MatchAt(r, |r| - |Eof|, Eof);
      r
  }

  /** The first piece of a split is where the text starts, and the whole text when the pattern is absent. */
  lemma FirstPiece(s: string, p: string)
    requires p != []
    ensures SplitCI(s, p)[0] <= s
    ensures NoCI(s, p) ==> SplitCI(s, p)[0] == s
  {
  }

  /**
   * The header and the raw records lie next to each other at the start of
   * the file, and cover all of it when no second `<eoh>` follows the first;
   * a file without `<eoh>` has neither.
   */
  lemma HeaderThenRecords(adif: string)
    ensures HeaderOf(adif) + SecondPiece(adif, Eoh) <= adif
    ensures HeaderOf(adif) == "" ==> SecondPiece(adif, Eoh) == ""
    ensures HeaderOf(adif) != "" && NoCI(adif[|HeaderOf(adif)|..], Eoh) ==>
      HeaderOf(adif) + SecondPiece(adif, Eoh) == adif
  {
    match FindCI(adif, Eoh, 0)
    case None =>
    case Some(p) =>
      var rest := adif[p + |Eoh|..];
      assert SplitCI(adif, Eoh) == [adif[..p]] + SplitCI(rest, Eoh);
      FirstPiece(rest, Eoh);
      assert adif == adif[..p + |Eoh|] + rest;
  }

  /** `_readADIFFileParts(path)`: the header and records of the file, or "ADIF file not found". */
  method ReadADIFFileParts(store: FileStore, path: Path) returns (r: Result<(string, string)>)
    ensures r.Fail? <==> path !in store.files
    ensures r.Fail? ==> r.error == AdifNotFound(path)
    ensures r.Ok? ==> r.value == (HeaderOf(TextOf(store.files[path].content)), RecordsOf(TextOf(store.files[path].content)))
  {
    if path !in store.files {
      return Fail(AdifNotFound(path));
    }
    var adifData := TextOf(store.files[path].content);
    var header := HeaderOf(adifData);
    var records := SecondPiece(adifData, Eoh);
    if !Contains(records, Eof) {
      records := Trim(records) + "\n" + Eof;
    }
    r := Ok((header, records));
  }

  // ---------------------------------------------------------------------------
  // The records of an incoming download

  /** `.replace(/^\s*<APP_LoTW_EOF>\s*\/, "")`: a marker at the start, and the whitespace around it, removed. */
  function StripLeadingEof(s: string): (r: string)
    ensures |r| <= |s| && r == s[|s| - |r|..]
  {
    var i := SkipSpace(s, 0);
    if MatchAt(s, i, Eof) then s[SkipSpace(s, i + |Eof|)..] else s
  }

  /** `.replace(/<APP_LoTW_EOF>\s*$/, "")`: a marker at the end, and the whitespace after it, removed. */
  function StripTrailingEof(s: string): (r: string)
    ensures r <= s
  {
    var e := SkipSpaceBack(s, |s|);
    if e >= |Eof| && MatchAt(s, e - |Eof|, Eof) then s[..e - |Eof|] else s
  }

  /** The records of an incoming QSO download: after its first `<eoh>`, a leading marker removed, trimmed. */
  function IncomingQsoRecords(incoming: string): string {
    Trim(StripLeadingEof(SecondPiece(incoming, Eoh)))
  }

  /** The records of an incoming QSL download: after its first `<eoh>`, a leading and a trailing marker removed, trimmed. */
  function IncomingQslRecords(incoming: string): string {
    Trim(StripTrailingEof(StripLeadingEof(SecondPiece(incoming, Eoh))))
  }

  /**
   * Only a leading marker goes. Write the text as leading whitespace `a`,
   * its trim `t` and trailing whitespace `b`: when `t` starts with
   * `<APP_LoTW_EOF>` the result trims to what follows the marker, and
   * otherwise the text is left as it is.
   */
  lemma LeadingEofStripped(a: string, t: string, b: string)
    requires AllSpace(a) && AllSpace(b) && IsTrimmed(t)
    ensures Trim(a + t + b) == t
    ensures MatchAt(t, 0, Eof) ==> Trim(StripLeadingEof(a + t + b)) == Trim(t[|Eof|..])
    ensures !MatchAt(t, 0, Eof) ==> StripLeadingEof(a + t + b) == a + t + b
  {
    var s := a + t + b;
    if t == [] {
      assert AllSpace(s);
      assert SkipSpace(s, 0) == |s|;
      return;
    }
    TrimPadded(a, t, b);
    SkipSpaceAt(s, 0, |a|);
    if MatchAt(t, 0, Eof) {
      LeadingMatch(a, t, b);
    } else {
      LeadingMatchInside(a, t, b);
    }
  }

  lemma LeadingMatch(a: string, t: string, b: string)
    requires AllSpace(b) && SkipSpace(a + t + b, 0) == |a| && MatchAt(t, 0, Eof)
    ensures Trim(StripLeadingEof(a + t + b)) == Trim(t[|Eof|..])
  {
    var s := a + t + b;
    var n := |a| + |Eof|;
    MiddleSlice(a, t, b, |Eof|);
    var j := SkipSpace(s, n);
    assert StripLeadingEof(s) == s[j..];
    LeadingRest(s, n, j);
    TailSlice(a, t, b, |Eof|);
    TrimPadsRight(t[|Eof|..], b);
  }

  lemma MiddleSlice(a: string, t: string, b: string, k: nat)
    requires k <= |t|
    ensures (a + t + b)[|a|..|a| + k] == t[..k]
  {
  }

  lemma TailSlice(a: string, t: string, b: string, k: nat)
    requires k <= |t|
    ensures (a + t + b)[|a| + k..] == t[k..] + b
  {
  }

  /** Whitespace skipped from `n` to `j` does not change the trim of what follows `n`. */
  lemma LeadingRest(s: string, n: nat, j: nat)
    requires n <= j <= |s| && AllSpace(s[n..j])
    ensures Trim(s[j..]) == Trim(s[n..])
  {
    assert s[n..] == s[n..j] + s[j..];
    TrimPadsLeft(s[n..j], s[j..]);
  }

  /** A marker right after the leading whitespace lies inside the trimmed text, whose tail is whitespace. */
  lemma LeadingMatchInside(a: string, t: string, b: string)
    requires AllSpace(b)
    ensures MatchAt(a + t + b, |a|, Eof) ==> MatchAt(t, 0, Eof)
  {
    var s := a + t + b;
    if MatchAt(s, |a|, Eof) {
      var k := |a| + |Eof| - 1;
      assert s[k] == Eof[|Eof| - 1];
      assert forall j | |a| + |t| <= j < |s| :: s[j] == b[j - |a| - |t|];
      assert |a| + |t| > k;
      assert t[..|Eof|] == s[|a|..|a| + |Eof|];
    }
  }

  /** The text ends with `<APP_LoTW_EOF>`. */
  predicate EndsWithEof(t: string) {
    |t| >= |Eof| && MatchAt(t, |t| - |Eof|, Eof)
  }

  /**
   * Only a trailing marker goes. Write the text as leading whitespace `a`,
   * its trim `t` and trailing whitespace `b`: when `t` ends with
   * `<APP_LoTW_EOF>` the result trims to what precedes the marker, and
   * otherwise the text is left as it is.
   */
  lemma TrailingEofStripped(a: string, t: string, b: string)
    requires AllSpace(a) && AllSpace(b) && IsTrimmed(t)
    ensures Trim(a + t + b) == t
    ensures EndsWithEof(t) ==> Trim(StripTrailingEof(a + t + b)) == Trim(t[..|t| - |Eof|])
    ensures !EndsWithEof(t) ==> StripTrailingEof(a + t + b) == a + t + b
  {
    var s := a + t + b;
    if t == [] {
      assert AllSpace(s);
      assert SkipSpaceBack(s, |s|) == 0;
      return;
    }
    TrimPadded(a, t, b);
    SkipSpaceBackAt(s, |s|, |a| + |t|);
    if EndsWithEof(t) {
      TrailingMatch(a, t, b);
    } else {
      TrailingMatchInside(a, t, b);
    }
  }

  lemma TrailingMatch(a: string, t: string, b: string)
    requires AllSpace(a) && SkipSpaceBack(a + t + b, |a + t + b|) == |a| + |t|
    requires |t| >= |Eof| && MatchAt(t, |t| - |Eof|, Eof)
    ensures Trim(StripTrailingEof(a + t + b)) == Trim(t[..|t| - |Eof|])
  {
    TrailingCut(a, t, b);
    TrimPadsLeft(a, t[..|t| - |Eof|]);
  }

  lemma TrailingCut(a: string, t: string, b: string)
    requires SkipSpaceBack(a + t + b, |a + t + b|) == |a| + |t|
    requires |t| >= |Eof| && MatchAt(t, |t| - |Eof|, Eof)
    ensures StripTrailingEof(a + t + b) == a + t[..|t| - |Eof|]
  {
    var s := a + t + b;
    var n := |t| - |Eof|;
    InnerSlice(a, t, b, n, |t|);
    assert MatchAt(s, |a| + n, Eof);
    assert StripTrailingEof(s) == s[..|a| + n];
    HeadSlice(a, t, b, n);
  }

  lemma InnerSlice(a: string, t: string, b: string, i: nat, j: nat)
    requires i <= j <= |t|
    ensures (a + t + b)[|a| + i..|a| + j] == t[i..j]
  {
  }

  lemma HeadSlice(a: string, t: string, b: string, k: nat)
    requires k <= |t|
    ensures (a + t + b)[..|a| + k] == a + t[..k]
  {
  }

  /** A marker right before the trailing whitespace lies inside the trimmed text, whose head is whitespace. */
  lemma TrailingMatchInside(a: string, t: string, b: string)
    requires AllSpace(a)
    ensures var e := |a| + |t|;
      e >= |Eof| && MatchAt(a + t + b, e - |Eof|, Eof) ==> |t| >= |Eof| && MatchAt(t, |t| - |Eof|, Eof)
  {
    var s := a + t + b;
    var e := |a| + |t|;
    if e >= |Eof| && MatchAt(s, e - |Eof|, Eof) {
      var k := e - |Eof|;
      assert s[k] == Eof[0];
      assert forall j | 0 <= j < |a| :: s[j] == a[j];
      assert k >= |a|;
      assert t[|t| - |Eof|..] == s[k..e];
    }
  }

  // ---------------------------------------------------------------------------
  // Header fields

  const NumRecTag := "APP_LoTW_NUMREC"
  const RxQslTag := "APP_LoTW_RXQSL"

  /** The count tag is made of letters and `_` only. */
  lemma NumRecTagPlain()
    ensures PlainTag(NumRecTag)
  {
  }

  /** The count a header declares: `parseInt` of the digits after its first `<APP_LoTW_NUMREC:n>`. */
  function NumRecOf(header: string): Option<nat> {
    match FirstTag(header, NumRecTag, Digits, 0)
    case None => None
    case Some(t) => Some(DigitsIn(header, t.valueStart, t.valueEnd))
  }

  /** `header.replace(/<APP_LoTW_NUMREC:\d+>\d+/i, ...)` with the digits of `count` and their number. */
  function SetNumRec(header: string, count: nat): string {
    ReplaceTag(header, NumRecTag, Digits, NatToString(count))
  }

  /**
   * Rewriting the count: a header without the field is unchanged; one with
   * it afterwards declares `count`, in a field at the same place whose
   * declared length is the number of digits written.
   */
  lemma SetNumRecReads(header: string, count: nat)
    ensures NumRecOf(header).None? ==> SetNumRec(header, count) == header
    ensures NumRecOf(header).Some? ==>
      var r := SetNumRec(header, count);
      var t := FirstTag(r, NumRecTag, Digits, 0);
      NumRecOf(r) == Some(count) && t.Some?
      && t.value.start == FirstTag(header, NumRecTag, Digits, 0).value.start
      && t.value.declared == |NatToString(count)|
  {
    var v := NatToString(count);
    ReplaceTagReads(header, NumRecTag, Digits, v);
    if NumRecOf(header).Some? {
      var r := SetNumRec(header, count);
      var t := FirstTag(r, NumRecTag, Digits, 0).value;
      assert r[t.valueStart..t.valueEnd] == v;
      DigitsInValue(r, t.valueStart, t.valueEnd);
    }
  }

  /** The QSO merge's count: the sum of the two headers' counts when both declare one, else the header as it was. */
  function MergedNumRec(header: string, incomingHeader: string): string {
    var mine := NumRecOf(header);
    var theirs := NumRecOf(incomingHeader);
    if mine.Some? && theirs.Some? then SetNumRec(header, mine.value + theirs.value) else header
  }

  /** Appending QSOs adds the two counts when both headers declare one and leaves the header alone otherwise. */
  lemma MergedNumRecSums(header: string, incomingHeader: string)
    ensures NumRecOf(header).Some? && NumRecOf(incomingHeader).Some? ==>
      NumRecOf(MergedNumRec(header, incomingHeader)) == Some(NumRecOf(header).value + NumRecOf(incomingHeader).value)
    ensures NumRecOf(header).None? || NumRecOf(incomingHeader).None? ==>
      MergedNumRec(header, incomingHeader) == header
  {
    if NumRecOf(header).Some? && NumRecOf(incomingHeader).Some? {
      SetNumRecReads(header, NumRecOf(header).value + NumRecOf(incomingHeader).value);
    }
  }

  /** The new QSL stamp an incoming header carries: the trimmed value of its first `<APP_LoTW_RXQSL:n>` with a non-empty value. */
  function RxQslOf(qslHeader: string): Option<string> {
    match FirstTag(qslHeader, RxQslTag, NonEmptyUpToLt, 0)
    case None => None
    case Some(t) => Some(Trim(ValueOf(qslHeader, t)))
  }

  /** `header.replace(/<APP_LoTW_RXQSL:\d+>[^<]*\/i, ...)` with the incoming stamp, when the incoming header has one. */
  function SetRxQsl(header: string, qslHeader: string): string {
    match RxQslOf(qslHeader)
    case None => header
    case Some(v) => ReplaceTag(header, RxQslTag, UpToLt, v)
  }

  predicate NoLt(s: string) {
    forall k :: 0 <= k < |s| ==> s[k] != '<'
  }

  /** A trimmed value read up to a `<` holds no `<`. */
  lemma StampHasNoLt(qslHeader: string)
    requires RxQslOf(qslHeader).Some?
    ensures NoLt(RxQslOf(qslHeader).value)
  {
    var t := FirstTag(qslHeader, RxQslTag, NonEmptyUpToLt, 0).value;
    var x := ValueOf(qslHeader, t);
    assert NoLt(x);
    TrimmedNoLt(x);
  }

  /** Trimming takes a slice, so it adds no `<`. */
  lemma TrimmedNoLt(x: string)
    requires NoLt(x)
    ensures NoLt(Trim(x))
  {
    TrimSplit(x);
    var i := SkipSpace(x, 0);
    var v := Trim(x);
    forall k | 0 <= k < |v| ensures v[k] != '<' {
      assert v[k] == x[i..i + |v|][k] == x[i + k];
    }
  }

  /**
   * The stamp is replaced, never added: without a stamp on either side the
   * header is unchanged; otherwise the header's first stamp field, at the
   * same place, afterwards declares the new stamp's length and holds it.
   */
  lemma SetRxQslReads(header: string, qslHeader: string)
    ensures RxQslOf(qslHeader).None? || FirstTag(header, RxQslTag, UpToLt, 0).None? ==>
      SetRxQsl(header, qslHeader) == header
    ensures RxQslOf(qslHeader).Some? && FirstTag(header, RxQslTag, UpToLt, 0).Some? ==>
      var v := RxQslOf(qslHeader).value;
      var r := SetRxQsl(header, qslHeader);
      var t := FirstTag(r, RxQslTag, UpToLt, 0);
      t.Some? && t.value.start == FirstTag(header, RxQslTag, UpToLt, 0).value.start
      && t.value.declared == |v| && ValueOf(r, t.value) == v
  {
    if RxQslOf(qslHeader).Some? {
      StampHasNoLt(qslHeader);
      ReplaceTagReads(header, RxQslTag, UpToLt, RxQslOf(qslHeader).value);
    }
  }

  /** `<PROGRAMID:n>Generated at now</PROGRAMID>` with `n` the length of `Generated at now`. */
  function ProgramIdField(now: string): string {
    ProgramIdOpen + NatToString(|GeneratedAt + now|) + ">" + GeneratedAt + now + ProgramIdClose
  }

  /** `header.replace(/<PROGRAMID:[^>]*>Generated at [^<]*<\/PROGRAMID>/i, ProgramIdField(now))`. */
  function StampProgramId(header: string, now: string): string {
    match FirstProgramId(header, 0)
    case None => header
    case Some((a, e)) => Splice(header, a, e, ProgramIdField(now))
  }

  /** A literal laid at `i` matches there, ignoring case. */
  lemma MatchLaid(r: string, i: nat, p: string)
    requires i + |p| <= |r| && r[i..i + |p|] == p
    ensures MatchCIAt(r, i, p)
  {
    forall k | 0 <= k < |p| ensures r[i + k] == p[k] {
      assert r[i..i + |p|][k] == p[k];
    }
  }

  /** A piece of a text laid at `a` lies at its offset. */
  lemma SubSlice(r: string, a: nat, f: string, x: nat, y: nat)
    requires a + |f| <= |r| && r[a..a + |f|] == f && x <= y <= |f|
    ensures r[a + x..a + y] == f[x..y]
  {
    forall k | 0 <= k < y - x ensures r[a + x..a + y][k] == f[x..y][k] {
      assert r[a..a + |f|][x + k] == f[x + k];
    }
  }

  /** The five pieces of a stamp field and its `>`, at their offsets. */
  lemma StampPieces(o: string, l: string, g: string, n: string, c: string)
    ensures var f := o + l + ">" + g + n + c;
      var y := |o| + |l|;
      var z := y + 1 + |g|;
      f[..|o|] == o && f[|o|..y] == l && f[y] == '>' && f[y + 1..z] == g
      && f[z..z + |n|] == n && f[z + |n|..] == c
  {
  }

  /** The pieces of a stamp field laid at `a` sit at their offsets. */
  lemma StampLaid(r: string, a: nat, o: string, l: string, g: string, n: string, c: string)
    requires var f := o + l + ">" + g + n + c; a + |f| <= |r| && r[a..a + |f|] == f
    ensures var x := a + |o|;
      var y := x + |l|;
      var z := y + 1 + |g|;
      var w := z + |n|;
      r[a..x] == o && r[x..y] == l && r[y] == '>' && r[y + 1..z] == g
      && r[z..w] == n && r[w..w + |c|] == c
  {
    var f := o + l + ">" + g + n + c;
    var y := |o| + |l|;
    var z := y + 1 + |g|;
    StampPieces(o, l, g, n, c);
    SubSlice(r, a, f, 0, |o|);
    SubSlice(r, a, f, |o|, y);
    SubSlice(r, a, f, y, y + 1);
    assert r[a + y..a + y + 1][0] == r[a + y];
    SubSlice(r, a, f, y + 1, z);
    SubSlice(r, a, f, z, z + |n|);
    SubSlice(r, a, f, z + |n|, |f|);
  }

  /** A text laid at `x` without `c` puts no `c` there. */
  lemma LaidNoChar(r: string, x: nat, l: string, c: char)
    requires x + |l| <= |r| && r[x..x + |l|] == l && forall k :: 0 <= k < |l| ==> l[k] != c
    ensures forall k :: x <= k < x + |l| ==> r[k] != c
  {
    forall k | x <= k < x + |l| ensures r[k] != c {
      assert r[x..x + |l|][k - x] == r[k];
    }
  }

  /** The first `c` from `i` on is at `j` when `j` holds one and nothing before it does. */
  lemma NextCharIs(s: string, i: nat, c: char, j: nat)
    requires i <= j < |s| && s[j] == c && forall k :: i <= k < j ==> s[k] != c
    ensures NextChar(s, i, c) == j
  {
  }

  /** The first `<` from `i` on is at `j` when `j` holds one and nothing before it does. */
  lemma NextLtIs(s: string, i: nat, j: nat)
    requires i <= j < |s| && s[j] == '<' && forall k :: i <= k < j ==> s[k] != '<'
    ensures NextLt(s, i) == j
  {
  }

  /** The steps of the PROGRAMID expression, each matched: a match ending after the close. */
  lemma ProgramIdAtIs(r: string, a: nat, y: nat, w: nat)
    requires MatchCIAt(r, a, ProgramIdOpen) && a + |ProgramIdOpen| <= y < |r|
    requires NextChar(r, a + |ProgramIdOpen|, '>') == y && MatchCIAt(r, y + 1, GeneratedAt)
    requires y + 1 + |GeneratedAt| <= w && NextLt(r, y + 1 + |GeneratedAt|) == w && MatchCIAt(r, w, ProgramIdClose)
    ensures ProgramIdAt(r, a) == Some(w + |ProgramIdClose|)
  {
  }

  /** The field the stamp writes reads back as a "Generated at" PROGRAMID match, when the time holds no `<`. */
  lemma ProgramIdFieldReads(r: string, a: nat, now: string)
    requires forall k :: 0 <= k < |now| ==> now[k] != '<'
    requires a + |ProgramIdField(now)| <= |r| && r[a..a + |ProgramIdField(now)|] == ProgramIdField(now)
    ensures ProgramIdAt(r, a) == Some(a + |ProgramIdField(now)|)
  {
    var l := NatToString(|GeneratedAt + now|);
    var f := ProgramIdField(now);
    assert |f| == |ProgramIdOpen| + |l| + 1 + |GeneratedAt| + |now| + |ProgramIdClose|;
    LaidFieldReads(r, a, l, now);
  }

  /** A PROGRAMID field with length digits `l` and time `now` laid at `a` reads back as a match. */
  lemma LaidFieldReads(r: string, a: nat, l: string, now: string)
    requires AllDigits(l) && forall k :: 0 <= k < |now| ==> now[k] != '<'
    requires var f := ProgramIdOpen + l + ">" + GeneratedAt + now + ProgramIdClose;
      a + |f| <= |r| && r[a..a + |f|] == f
    ensures ProgramIdAt(r, a) == Some(a + |ProgramIdOpen| + |l| + 1 + |GeneratedAt| + |now| + |ProgramIdClose|)
  {
    StampLaid(r, a, ProgramIdOpen, l, GeneratedAt, now, ProgramIdClose);
    var x := a + |ProgramIdOpen|;
    var y := x + |l|;
    var z := y + 1 + |GeneratedAt|;
    var w := z + |now|;
    MatchLaid(r, a, ProgramIdOpen);
    MatchLaid(r, y + 1, GeneratedAt);
    MatchLaid(r, w, ProgramIdClose);
    forall k | 0 <= k < |l| ensures l[k] != '>' {
      assert IsDigit(l[k]);
    }
    LaidNoChar(r, x, l, '>');
    NextCharIs(r, x, '>', y);
    LaidNoChar(r, z, now, '<');
    assert r[w] == r[w..w + |ProgramIdClose|][0];
    NextLtIs(r, z, w);
    ProgramIdAtIs(r, a, y, w);
  }

  /** `r` is `header` with `header[a..e]` replaced by the field for `now`, which reads back at `a`. */
  predicate StampedOver(header: string, r: string, a: nat, e: nat, now: string) {
    var n := |ProgramIdField(now)|;
    a <= e <= |header| && |r| == |header| - (e - a) + n
    && r[..a] == header[..a] && ProgramIdAt(r, a) == Some(a + n) && r[a + n..] == header[e..]
  }

  /** The stamp written over `header[a..e]`: read back at `a`, with the text around it kept. */
  lemma StampedAt(header: string, a: nat, e: nat, now: string, r: string)
    requires forall k :: 0 <= k < |now| ==> now[k] != '<'
    requires a <= e <= |header| && r == Splice(header, a, e, ProgramIdField(now))
    ensures StampedOver(header, r, a, e, now)
  {
    ProgramIdFieldReads(r, a, now);
  }

  /**
   * Stamping leaves a header without a "Generated at" PROGRAMID field
   * unchanged; otherwise the first one is replaced in place by the field for
   * `now`, which reads back as such a field, and the text around it is kept.
   */
  lemma StampProgramIdReads(header: string, now: string)
    requires LtFree(now)  // every GeneratedText is, by GeneratedTextLtFree
    ensures FirstProgramId(header, 0).None? ==> StampProgramId(header, now) == header
    ensures FirstProgramId(header, 0).Some? ==>
      StampedOver(header, StampProgramId(header, now), FirstProgramId(header, 0).value.0,
                  FirstProgramId(header, 0).value.1, now)
  {
    var first := FirstProgramId(header, 0);
    if first.Some? {
      StampedAt(header, first.value.0, first.value.1, now, StampProgramId(header, now));
    }
  }

  // ---------------------------------------------------------------------------
  // mergeIncrementalADIFData

  /** The header of the appended file: stamped, then its count summed with the incoming one. */
  function MergedAdifHeader(header: string, incomingHeader: string, now: string): string {
    MergedNumRec(StampProgramId(header, now), incomingHeader)
  }

  /** The file text the QSO merge writes: updated header, incoming records, then the existing records. */
  function MergedAdifText(existing: string, incoming: string, now: string): string {
    MergedAdifHeader(HeaderOf(existing), HeaderOf(incoming), now) + IncomingQsoRecords(incoming) + RecordsOf(existing)
  }

  // ---------------------------------------------------------------------------
  // mergeIncrementalQSLDataOnly

  /** The record list after the QSL pass: the existing records, each replaced by an incoming report filed at it whose status differs. */
  function QslRecordList(records: string, incomingRecords: string): (r: seq<string>)
    ensures |r| == |RecordsToList(records)|
  {
    var list := RecordsToList(records);
    IndexInRange(IndexKey, list);
    MergeQsl(IndexKey, QslStatus, list, IndexOf(IndexKey, list), RecordsToList(incomingRecords))
  }

  /** The file text the QSL merge writes: the stamp-updated, time-stamped header and the rebuilt records. */
  function MergedQslText(existing: string, incoming: string, now: string): string {
    StampProgramId(SetRxQsl(HeaderOf(existing), HeaderOf(incoming)), now)
      + Rebuild(QslRecordList(RecordsOf(existing), IncomingQslRecords(incoming)))
  }

  /**
   * The rebuilt records section lists back exactly the merged records, one
   * per existing record, and a second pass with the same reports over it
   * changes nothing.
   */
  lemma QslRecordsSettle(records: string, incomingRecords: string)
    ensures var merged := QslRecordList(records, incomingRecords);
      RecordsToList(Rebuild(merged)) == merged
      && |merged| == |RecordsToList(records)|
      && QslRecordList(Rebuild(merged), incomingRecords) == merged
  {
    var list := RecordsToList(records);
    var incoming := RecordsToList(incomingRecords);
    ListedRecords(records);
    ListedRecords(incomingRecords);
    MergeQslListed(IndexKey, QslStatus, list, incoming);
    var merged := QslRecordList(records, incomingRecords);
    RebuildRoundTrip(merged);
    MergeQslIdempotent(IndexKey, QslStatus, list, incoming);
  }

  // ---------------------------------------------------------------------------
  // updateRecordCount

  /** `<APP_LoTW_NUMREC:n>count` with `n` the number of digits. */
  function NumRecField(count: nat): string {
    TagField(NumRecTag, NatToString(count))
  }

  /** `header.replace(/<eoh>/i, "\n" + NumRecField(count) + "\n<eoh>")`. */
  function InsertNumRec(header: string, count: nat): string {
    match FindCI(header, Eoh, 0)
    case None => header
    case Some(p) => header[..p] + "\n" + NumRecField(count) + "\n" + Eoh + header[p + |Eoh|..]
  }

  /** The end of a `<APP_LoTW_NUMREC:\d+>\d+\s*<eoh>` match at `i`, and where its digits end. */
  function NumRecEohAt(s: string, i: nat): (r: Option<(nat, nat)>)
    requires i <= |s|
    ensures r.Some? ==> i < r.value.0 < r.value.1 <= |s|
  {
    match TagAt(s, i, NumRecTag, Digits)
    case None => None
    case Some(t) =>
      var w := SkipSpace(s, t.valueEnd);
      if MatchCIAt(s, w, Eoh) then Some((t.valueEnd, w + |Eoh|)) else None
  }

  /** The leftmost such match at or after `from`, as (start, end of digits, end). */
  function FirstNumRecEoh(s: string, from: nat): (r: Option<(nat, nat, nat)>)
    requires from <= |s|
    ensures r.Some? ==> from <= r.value.0 < r.value.1 < r.value.2 <= |s|
    ensures r.Some? ==> NumRecEohAt(s, r.value.0) == Some((r.value.1, r.value.2))
    decreases |s| - from
  {
    var here := NumRecEohAt(s, from);
    if here.Some? then Some((from, here.value.0, here.value.1))
    else if from == |s| then None
    else FirstNumRecEoh(s, from + 1)
  }

  /** `m.replace(/<eoh>/i, "")`. */
  function DropEoh(m: string): string {
    match FindCI(m, Eoh, 0)
    case None => m
    case Some(p) => m[..p] + m[p + |Eoh|..]
  }

  /**
   * The format fix: the first count field followed by whitespace and `<eoh>`
   * becomes that field trimmed, a newline and `<eoh>`.
   */
  function FixNumRecEnd(header: string): string {
    match FirstNumRecEoh(header, 0)
    case None => header
    case Some((i, v, e)) => Splice(header, i, e, Trim(DropEoh(header[i..e])) + "\n" + Eoh)
  }

  /** The recounted header: the count rewritten when present, inserted before `<eoh>` otherwise, then the format fix. */
  function RecountedHeader(header: string, count: nat): string {
    var h := if NumRecOf(header).Some? then SetNumRec(header, count) else InsertNumRec(header, count);
    FixNumRecEnd(h)
  }

  /** The number of `<eor>` in a records part, any case: `(records.match(/<eor>/gi) || []).length`. */
  function EorCount(records: string): nat {
    CountCI(records, Eor)
  }

  /** What `updateRecordCount` writes: the recounted header and the records part as read. */
  function RecountedText(adif: string): string {
    var records := SecondPiece(adif, Eoh);
    RecountedHeader(HeaderOf(adif), EorCount(records)) + records
  }

  /** A file without `<eoh>` has an empty header and no records, so the recount writes an empty file. */
  lemma RecountWithoutEoh(adif: string)
    requires NoCI(adif, Eoh)
    ensures RecountedText(adif) == ""
  {
    HeaderThenRecords(adif);
    assert NumRecOf("").None?;
  }

  // ---------------------------------------------------------------------------
  // What the recount writes reads back

  /** A header as `_readADIFFileParts` cuts it: a text whose first `<eoh>` closes it. */
  predicate IsHeader(h: string) {
    |h| >= |Eoh| && FindCI(h, Eoh, 0) == Some(|h| - |Eoh|)
  }

  /** An `<eoh>`, in any case, opens with `<`, has an `e` next and no other `<`. */
  lemma EohAt(s: string, k: nat)
    ensures MatchCIAt(s, k, Eoh) ==> s[k] == '<' && Lower(s[k + 1]) == 'e'
    ensures MatchCIAt(s, k, Eoh) ==> forall q :: k < q < k + |Eoh| ==> s[q] != '<'
  {
    if MatchCIAt(s, k, Eoh) {
      assert Lower(s[k + 0]) == Lower(Eoh[0]);
      assert Lower(s[k + 1]) == Lower(Eoh[1]);
      assert Lower(s[k + 2]) == Lower(Eoh[2]);
      assert Lower(s[k + 3]) == Lower(Eoh[3]);
      assert Lower(s[k + 4]) == Lower(Eoh[4]);
      forall q | k < q < k + |Eoh| ensures s[q] != '<' {
        if q == k + 1 {
        } else if q == k + 2 {
        } else if q == k + 3 {
        } else {
        }
      }
    }
  }

  /** A match that lies inside `a` is one of `a + b` and the other way round. */
  lemma MatchCIPrefix(a: string, b: string, j: nat, p: string)
    requires j + |p| <= |a|
    ensures MatchCIAt(a + b, j, p) <==> MatchCIAt(a, j, p)
  {
    forall q | j <= q < j + |p| ensures (a + b)[q] == a[q] { }
  }

  /** Where two texts have the same tails, matches in those tails agree. */
  lemma MatchCIShift(r: string, a: nat, s: string, b: nat, d: nat, p: string)
    requires a <= |r| && b <= |s| && r[a..] == s[b..]
    ensures MatchCIAt(r, a + d, p) <==> MatchCIAt(s, b + d, p)
  {
    forall q | a + d <= q < |r| ensures r[q] == s[q - a + b] {
      assert r[a..][q - a] == s[b..][q - a];
    }
  }

  /** A match inside a slice is a match in the whole text, and the other way round. */
  lemma MatchCISlice(s: string, i: nat, e: nat, k: nat, p: string)
    requires i <= e <= |s| && i + k + |p| <= e
    ensures MatchCIAt(s[i..e], k, p) <==> MatchCIAt(s, i + k, p)
  {
    forall q | i + k <= q < i + k + |p| ensures s[i..e][q - i] == s[q] { }
  }

  /** Text appended after the first `<eoh>` does not move it. */
  lemma FindCIInPrefix(a: string, b: string)
    requires FindCI(a, Eoh, 0).Some?
    ensures FindCI(a + b, Eoh, 0) == FindCI(a, Eoh, 0)
  {
    var i := FindCI(a, Eoh, 0).value;
    MatchCIPrefix(a, b, i, Eoh);
    forall j | 0 <= j < i ensures !MatchCIAt(a + b, j, Eoh) {
      MatchCIPrefix(a, b, j, Eoh);
    }
    FindCIIs(a + b, Eoh, i);
  }

  /** The header of a file with an `<eoh>` is a header. */
  lemma HeaderOfIsHeader(adif: string)
    requires !NoCI(adif, Eoh)
    ensures IsHeader(HeaderOf(adif))
  {
    var h := HeaderOf(adif);
    assert adif == h + adif[|h|..];
    forall j | 0 <= j <= |h| - |Eoh| ensures MatchCIAt(h, j, Eoh) <==> MatchCIAt(adif, j, Eoh) {
      MatchCIPrefix(h, adif[|h|..], j, Eoh);
    }
    FindCIIs(h, Eoh, |h| - |Eoh|);
  }

  /** A header is a text without `<eoh>` followed by its `<eoh>`. */
  lemma HeaderSplit(h: string)
    requires IsHeader(h)
    ensures var p := |h| - |Eoh|;
      NoCI(h[..p], Eoh) && MatchCIAt(h[p..], 0, Eoh) && |h[p..]| == |Eoh| && h[p] == '<'
  {
    var p := |h| - |Eoh|;
    var a := h[..p];
    assert h == a + h[p..];
    forall j | 0 <= j <= |a| ensures !MatchCIAt(a, j, Eoh) {
      if j + |Eoh| <= |a| {
        MatchCIPrefix(a, h[p..], j, Eoh);
      }
    }
    assert MatchCIAt(h[p..], 0, Eoh) by {
      assert forall k :: 0 <= k < |Eoh| ==> h[p..][k] == h[p + k];
    }
    EohAt(h, p);
  }

  /** A text without `<eoh>` followed by an `<eoh>` is a header. */
  lemma HeaderOfParts(a: string, e: string)
    requires NoCI(a, Eoh) && |e| == |Eoh| && MatchCIAt(e, 0, Eoh)
    ensures IsHeader(a + e)
  {
    var s := a + e;
    EohAt(e, 0);
    assert MatchCIAt(s, |a|, Eoh) by {
      forall k | 0 <= k < |Eoh| ensures Lower(s[|a| + k]) == Lower(Eoh[k]) {
        assert s[|a| + k] == e[0 + k];
      }
    }
    forall j | 0 <= j < |a| ensures !MatchCIAt(s, j, Eoh) {
      EohAt(s, j);
      if j + |Eoh| <= |a| {
        MatchCIPrefix(a, e, j, Eoh);
      } else {
        assert s[|a|] == '<';
      }
    }
    FindCIIs(s, Eoh, |a|);
  }

  /** A field that opens with `<`, holds no other `<` and has no `e` second: no `<eoh>` starts in it. */
  predicate OpensNoEoh(f: string) {
    |f| >= 2 && f[0] == '<' && Lower(f[1]) != 'e' && forall k :: 1 <= k < |f| ==> f[k] != '<'
  }

  lemma NumRecFieldOpensNoEoh(n: nat)
    ensures OpensNoEoh(NumRecField(n))
  {
    var v := NatToString(n);
    var len := NatToString(|v|);
    var f := NumRecField(n);
    assert f == "<" + NumRecTag + ":" + len + ">" + v;
    forall k | 1 <= k < |f| ensures f[k] != '<' {
      if k <= |NumRecTag| {
        assert f[k] == NumRecTag[k - 1];
      } else if k == |NumRecTag| + 1 {
      } else if k < |NumRecTag| + 2 + |len| {
        assert f[k] == len[k - |NumRecTag| - 2];
      } else if k == |NumRecTag| + 2 + |len| {
      } else {
        assert f[k] == v[k - |NumRecTag| - 3 - |len|];
      }
    }
  }

  /** Splicing such a field into a text without `<eoh>` leaves none. */
  lemma SpliceKeepsNoEoh(s: string, i: nat, j: nat, f: string)
    requires i <= j <= |s| && NoCI(s, Eoh) && OpensNoEoh(f)
    ensures NoCI(Splice(s, i, j, f), Eoh)
  {
    var r := Splice(s, i, j, f);
    assert r == s[..i] + (f + s[j..]);
    assert s == s[..i] + s[i..];
    forall k | 0 <= k <= |r| ensures !MatchCIAt(r, k, Eoh) {
      EohAt(r, k);
      if k + |Eoh| <= i {
        MatchCIPrefix(s[..i], f + s[j..], k, Eoh);
        MatchCIPrefix(s[..i], s[i..], k, Eoh);
      } else if k <= i {
        assert r[i] == f[0] && r[i + 1] == f[1];
      } else if k < i + |f| {
        assert r[k] == f[k - i];
      } else {
        MatchCIShift(r, i + |f|, s, j, k - (i + |f|), Eoh);
      }
    }
  }

  /** The `<` of a count tag is its only one, and an `a` follows it. */
  lemma NumRecTagOneLt(s: string, i: nat)
    requires i <= |s| && TagAt(s, i, NumRecTag, Digits).Some?
    ensures var t := TagAt(s, i, NumRecTag, Digits).value;
      t.valueEnd >= i + |NumRecTag| + 5 && Lower(s[i + 1]) == 'a' && IsDigit(s[t.valueEnd - 1])
      && forall q :: i < q < t.valueEnd ==> s[q] != '<'
  {
    var t := TagAt(s, i, NumRecTag, Digits).value;
    var w := s[i + 1..i + 1 + |NumRecTag|];
    EqCIAt(w, NumRecTag, 0);
    assert w[0] == s[i + 1];
    DigitRunDigits(s, t.valueStart);
    assert s[t.valueStart..t.valueEnd][t.valueEnd - 1 - t.valueStart] == s[t.valueEnd - 1];
    forall q | i < q < t.valueEnd ensures s[q] != '<' {
      if s[q] == '<' {
        NumRecTagPlain();
        TagAtCut(s, s, i, q, NumRecTag);
      }
    }
  }

  /** What a `<APP_LoTW_NUMREC:\d+>\d+\s*<eoh>` match at `i` ending at `e`, digits ending at `v`, is made of. */
  predicate NumRecEohShape(s: string, i: nat, v: nat, e: nat) {
    i + |NumRecTag| + 5 <= v && v + |Eoh| <= e <= |s| && s[i] == '<' && Lower(s[i + 1]) == 'a'
    && (forall q :: i < q < v ==> s[q] != '<') && IsDigit(s[v - 1])
    && (forall q :: v <= q < e - |Eoh| ==> IsSpace(s[q])) && MatchCIAt(s, e - |Eoh|, Eoh)
  }

  lemma NumRecEohParts(s: string, i: nat)
    requires i <= |s| && NumRecEohAt(s, i).Some?
    ensures NumRecEohShape(s, i, NumRecEohAt(s, i).value.0, NumRecEohAt(s, i).value.1)
    ensures TagAt(s, i, NumRecTag, Digits).Some?
    ensures TagAt(s, i, NumRecTag, Digits).value.valueEnd == NumRecEohAt(s, i).value.0
  {
    NumRecTagOneLt(s, i);
  }

  /** In such a match the first `<eoh>` is the one that closes it. */
  lemma FirstEohInMatch(s: string, i: nat, v: nat, e: nat)
    requires NumRecEohShape(s, i, v, e)
    ensures FindCI(s[i..e], Eoh, 0) == Some(e - |Eoh| - i)
  {
    var w := e - |Eoh|;
    forall k | 0 <= k < w - i ensures !MatchCIAt(s[i..e], k, Eoh) {
      MatchCISlice(s, i, e, k, Eoh);
      NoEohInShape(s, i, v, e, i + k);
    }
    MatchCISlice(s, i, e, w - i, Eoh);
    FindCIIs(s[i..e], Eoh, w - i);
  }

  /** No `<eoh>` starts inside such a match before the closing one. */
  lemma NoEohInShape(s: string, i: nat, v: nat, e: nat, j: nat)
    requires NumRecEohShape(s, i, v, e) && i <= j < e - |Eoh|
    ensures !MatchCIAt(s, j, Eoh)
  {
    EohAt(s, j);
    if j == i {
      assert Lower(s[i + 1]) == 'a';
    } else if j < v {
      assert s[j] != '<';
    } else {
      assert IsSpace(s[j]);
    }
  }

  /** Such a match, with `<eoh>` dropped and trimmed, is the count field alone. */
  lemma TrimmedMatch(s: string, i: nat, v: nat, e: nat)
    requires NumRecEohShape(s, i, v, e)
    ensures Trim(DropEoh(s[i..e])) == s[i..v]
  {
    DropClosingEoh(s, i, v, e);
    TrimmedField(s, i, v, e);
  }

  /** Dropping the first `<eoh>` of such a match leaves the text before its closing one. */
  lemma DropClosingEoh(s: string, i: nat, v: nat, e: nat)
    requires NumRecEohShape(s, i, v, e)
    ensures DropEoh(s[i..e]) == s[i..e - |Eoh|]
  {
    var w := e - |Eoh|;
    var m := s[i..e];
    FirstEohInMatch(s, i, v, e);
    assert m[..w - i] == s[i..w];
    assert m[w - i + |Eoh|..] == [];
  }

  /** The count field and the whitespace after it trim to the field. */
  lemma TrimmedField(s: string, i: nat, v: nat, e: nat)
    requires NumRecEohShape(s, i, v, e)
    ensures Trim(s[i..e - |Eoh|]) == s[i..v]
  {
    var w := e - |Eoh|;
    var t := s[i..v];
    assert t[0] == '<' && t[|t| - 1] == s[v - 1];
    assert s[i..w] == [] + t + s[v..w];
    TrimPadded([], t, s[v..w]);
  }

  /** Splicing in the start of the replaced span followed by other text. */
  lemma SpliceJoin(x: string, i: nat, v: nat, e: nat, a: string, b: string)
    requires i <= v <= e <= |x|
    ensures Splice(x, i, e, x[i..v] + a + b) == x[..v] + a + b + x[e..]
  {
    assert x[..v] == x[..i] + x[i..v];
  }

  /** The format fix writes the count field it finds, a newline and `<eoh>` in place of the match. */
  lemma FixShape(x: string)
    ensures FirstNumRecEoh(x, 0).None? ==> FixNumRecEnd(x) == x
    ensures FirstNumRecEoh(x, 0).Some? ==>
      var r := FirstNumRecEoh(x, 0).value;
      NumRecEohShape(x, r.0, r.1, r.2) && FixNumRecEnd(x) == x[..r.1] + "\n" + Eoh + x[r.2..]
  {
    var r := FirstNumRecEoh(x, 0);
    if r.Some? {
      var i, v, e := r.value.0, r.value.1, r.value.2;
      NumRecEohParts(x, i);
      TrimmedMatch(x, i, v, e);
      SpliceJoin(x, i, v, e, "\n", Eoh);
    }
  }

  /** A character a tag value or head cannot run into. */
  lemma SpaceStops(c: char)
    requires IsSpace(c) || c == '<'
    ensures Stops(c)
  {
  }

  /** The digits of such a match end at a stop. */
  lemma ShapeStops(x: string, i: nat, v: nat, e: nat)
    requires NumRecEohShape(x, i, v, e)
    ensures v < |x| && Stops(x[v])
  {
    EohAt(x, e - |Eoh|);
    SpaceStops(x[v]);
  }

  /** A count tag at `i` means a first one at or before `i`. */
  lemma FirstTagBefore(x: string, i: nat)
    requires i <= |x| && TagAt(x, i, NumRecTag, Digits).Some?
    ensures FirstTag(x, NumRecTag, Digits, 0).Some? && FirstTag(x, NumRecTag, Digits, 0).value.start <= i
  {
  }

  /** Where two texts agree up to a stop past the first count tag, the first count tag reads the same in both. */
  lemma FirstTagAgrees(x: string, y: string, v: nat)
    requires v < |x| && v < |y| && x[..v] == y[..v] && Stops(x[v]) && Stops(y[v])
    requires FirstTag(x, NumRecTag, Digits, 0).Some? && FirstTag(x, NumRecTag, Digits, 0).value.start < v
    ensures FirstTag(y, NumRecTag, Digits, 0) == FirstTag(x, NumRecTag, Digits, 0)
    ensures var t := FirstTag(x, NumRecTag, Digits, 0).value;
      t.valueEnd <= v && y[t.start..t.valueEnd] == x[t.start..t.valueEnd]
  {
    var t := FirstTag(x, NumRecTag, Digits, 0).value;
    NumRecTagPlain();
    forall j | 0 <= j < t.start ensures TagAt(y, j, NumRecTag, Digits).None? {
      TagAtCut(x, y, j, v, NumRecTag);
    }
    TagAtCut(x, y, t.start, v, NumRecTag);
    FirstTagIs(y, NumRecTag, Digits, t.start);
    SamePrefixSlice(x, y, v, t.start, t.valueEnd);
  }

  /** The text the fix writes, piece by piece. */
  lemma FixedPieces(x: string, v: nat, e: nat, y: string)
    requires v <= e <= |x| && y == x[..v] + "\n" + Eoh + x[e..]
    ensures |y| > v + |Eoh| && y[..v] == x[..v] && y[v] == '\n' && y[v + 1] == '<'
    ensures MatchCIAt(y, v + 1, Eoh) && y[v + 1 + |Eoh|..] == x[e..]
  {
    forall q | v + 1 <= q < v + 1 + |Eoh| ensures y[q] == Eoh[q - v - 1] { }
  }

  /** The format fix keeps the first count tag where it is, with the same text. */
  lemma FixKeepsFirstTag(x: string)
    ensures FirstTag(FixNumRecEnd(x), NumRecTag, Digits, 0) == FirstTag(x, NumRecTag, Digits, 0)
    ensures FirstTag(x, NumRecTag, Digits, 0).Some? ==>
      var t := FirstTag(x, NumRecTag, Digits, 0).value;
      FixNumRecEnd(x)[t.start..t.valueEnd] == x[t.start..t.valueEnd]
  {
    FixShape(x);
    var r := FirstNumRecEoh(x, 0);
    if r.Some? {
      var i, v, e := r.value.0, r.value.1, r.value.2;
      var y := FixNumRecEnd(x);
      FixedPieces(x, v, e, y);
      ShapeStops(x, i, v, e);
      NumRecEohParts(x, i);
      FirstTagBefore(x, i);
      FirstTagAgrees(x, y, v);
    }
  }

  /** Before the fixed field, the fix changes no `<APP_LoTW_NUMREC:\d+>\d+\s*<eoh>` match. */
  lemma NoNumRecEohBefore(x: string, y: string, i: nat, v: nat, j: nat)
    requires j < i && i + |Eoh| <= v < |x| && v < |y| && x[..v] == y[..v]
    requires x[i] == '<' && Stops(x[v]) && Stops(y[v])
    requires NumRecEohAt(x, j).None?
    ensures NumRecEohAt(y, j).None?
  {
    NumRecTagPlain();
    TagAtCut(x, y, j, v, NumRecTag);
    if TagAt(x, j, NumRecTag, Digits).Some? {
      var t := TagAt(x, j, NumRecTag, Digits).value;
      TagAtCut(x, x, j, i, NumRecTag);
      SkipSpaceAgrees(x, y, t.valueEnd, i, v);
      MatchCIAgrees(x, y, SkipSpace(x, t.valueEnd), v);
    }
  }

  /** Whitespace skipped before a shared non-space character is skipped alike in both texts. */
  lemma SkipSpaceAgrees(x: string, y: string, a: nat, i: nat, v: nat)
    requires a <= i < v < |x| && v < |y| && x[..v] == y[..v] && !IsSpace(x[i])
    ensures SkipSpace(x, a) == SkipSpace(y, a) <= i
  {
    assert forall q :: 0 <= q < v ==> x[q] == x[..v][q] && y[q] == y[..v][q];
  }

  /** A match that ends before two texts part agrees in both. */
  lemma MatchCIAgrees(x: string, y: string, w: nat, v: nat)
    requires w + |Eoh| <= v <= |x| && v <= |y| && x[..v] == y[..v]
    ensures MatchCIAt(x, w, Eoh) <==> MatchCIAt(y, w, Eoh)
  {
    assert x == x[..v] + x[v..] && y == y[..v] + y[v..];
    MatchCIPrefix(x[..v], x[v..], w, Eoh);
    MatchCIPrefix(y[..v], y[v..], w, Eoh);
  }

  /** `FirstNumRecEoh` finds the leftmost match: there is none before the one it returns, and none at all when it returns none. */
  lemma {:induction false} FirstNumRecEohLeftmost(s: string, from: nat)
    requires from <= |s|
    ensures LeftmostFrom(s, from)
    decreases |s| - from
  {
    if NumRecEohAt(s, from).Some? {
      LeftmostHere(s, from);
    } else if from < |s| {
      FirstNumRecEohLeftmost(s, from + 1);
      LeftmostStep(s, from);
    } else {
      LeftmostAtEnd(s);
    }
  }

  /** A match at `from` is the leftmost one from `from` on. */
  lemma LeftmostHere(s: string, from: nat)
    requires from <= |s| && NumRecEohAt(s, from).Some?
    ensures LeftmostFrom(s, from)
  {
    assert FirstNumRecEoh(s, from).value.0 == from;
  }

  /** At the end of the text there is nothing left to find. */
  lemma LeftmostAtEnd(s: string)
    requires NumRecEohAt(s, |s|).None?
    ensures LeftmostFrom(s, |s|)
  {
    assert FirstNumRecEoh(s, |s|).None?;
  }

  /** The search from `from` finds the leftmost match there is from `from` on, or reports that there is none. */
  predicate LeftmostFrom(s: string, from: nat)
    requires from <= |s|
  {
    var r := FirstNumRecEoh(s, from);
    (r.Some? ==> forall j :: from <= j < r.value.0 ==> NumRecEohAt(s, j).None?)
    && (r.None? ==> forall j :: from <= j <= |s| ==> NumRecEohAt(s, j).None?)
  }

  /** No match at `from`: what holds from `from + 1` on holds from `from` on. */
  lemma LeftmostStep(s: string, from: nat)
    requires from < |s| && NumRecEohAt(s, from).None? && LeftmostFrom(s, from + 1)
    ensures LeftmostFrom(s, from)
  {
    var r := FirstNumRecEoh(s, from + 1);
    assert FirstNumRecEoh(s, from) == r;
    if r.Some? {
      forall j | from <= j < r.value.0 ensures NumRecEohAt(s, j).None? {
        if j > from {
          assert from + 1 <= j < r.value.0;
        }
      }
    } else {
      forall j | from <= j <= |s| ensures NumRecEohAt(s, j).None? {
        if j > from {
          assert from + 1 <= j <= |s|;
        }
      }
    }
  }

  /** A match at `p` with none before it is the leftmost one. */
  lemma FirstNumRecEohIs(s: string, p: nat)
    requires p <= |s| && NumRecEohAt(s, p).Some?
    requires forall j :: 0 <= j < p ==> NumRecEohAt(s, j).None?
    ensures FirstNumRecEoh(s, 0) == Some((p, NumRecEohAt(s, p).value.0, NumRecEohAt(s, p).value.1))
  {
    FirstNumRecEohLeftmost(s, 0);
    var first := FirstNumRecEoh(s, 0);
    assert first.Some? && first.value.0 == p;
  }

  /** In the fixed text, the count field is followed by the newline and `<eoh>` the fix wrote. */
  lemma FixedMatchAt(x: string, i: nat, v: nat, e: nat, y: string)
    requires i < v <= e <= |x| && v < |x| && Stops(x[v])
    requires TagAt(x, i, NumRecTag, Digits).Some? && TagAt(x, i, NumRecTag, Digits).value.valueEnd == v
    requires y == x[..v] + "\n" + Eoh + x[e..]
    ensures NumRecEohAt(y, i) == Some((v, v + 1 + |Eoh|))
  {
    FixedPieces(x, v, e, y);
    NumRecTagPlain();
    TagAtCut(x, y, i, v, NumRecTag);
    NewlineEohAfter(y, i, v);
  }

  /** A count tag whose digits end at `v`, then a newline and `<eoh>`: a match. */
  lemma NewlineEohAfter(y: string, i: nat, v: nat)
    requires i <= |y| && TagAt(y, i, NumRecTag, Digits).Some? && TagAt(y, i, NumRecTag, Digits).value.valueEnd == v
    requires v + 1 + |Eoh| <= |y| && y[v] == '\n' && MatchCIAt(y, v + 1, Eoh)
    ensures NumRecEohAt(y, i) == Some((v, v + 1 + |Eoh|))
  {
    EohAt(y, v + 1);
    SkipOneSpace(y, v);
    NumRecEohFrom(y, i, v, v + 1);
  }

  /** A count tag whose digits end at `v`, then whitespace up to an `<eoh>` at `w`: a match. */
  lemma NumRecEohFrom(s: string, i: nat, v: nat, w: nat)
    requires i <= |s| && TagAt(s, i, NumRecTag, Digits).Some? && TagAt(s, i, NumRecTag, Digits).value.valueEnd == v
    requires SkipSpace(s, v) == w && MatchCIAt(s, w, Eoh)
    ensures NumRecEohAt(s, i) == Some((v, w + |Eoh|))
  {
  }

  /** Skipping whitespace from a lone whitespace character. */
  lemma SkipOneSpace(s: string, v: nat)
    requires v + 1 < |s| && s[v] == '\n' && s[v + 1] == '<'
    ensures SkipSpace(s, v) == v + 1
  {
    assert SkipSpace(s, v + 1) == v + 1;
  }

  /** In the fixed text, the match the fix wrote is the first one. */
  lemma FixedMatchFirst(x: string, i: nat, v: nat, e: nat, y: string)
    requires FirstNumRecEoh(x, 0) == Some((i, v, e))
    requires y == x[..v] + "\n" + Eoh + x[e..]
    ensures FirstNumRecEoh(y, 0) == Some((i, v, v + 1 + |Eoh|))
  {
    FirstNumRecEohLeftmost(x, 0);
    NumRecEohParts(x, i);
    FixedPieces(x, v, e, y);
    ShapeStops(x, i, v, e);
    FixedMatchAt(x, i, v, e, y);
    forall j | 0 <= j < i ensures NumRecEohAt(y, j).None? {
      NoNumRecEohBefore(x, y, i, v, j);
    }
    FirstNumRecEohIs(y, i);
  }

  /** Fixing a second time changes nothing. */
  lemma FixIdempotent(x: string)
    ensures FixNumRecEnd(FixNumRecEnd(x)) == FixNumRecEnd(x)
  {
    FixShape(x);
    var r := FirstNumRecEoh(x, 0);
    if r.Some? {
      RefixFixed(x, r.value.0, r.value.1, r.value.2, FixNumRecEnd(x));
    }
  }

  /** The text the fix wrote for the match `(i, v, e)` is fixed already. */
  lemma RefixFixed(x: string, i: nat, v: nat, e: nat, y: string)
    requires FirstNumRecEoh(x, 0) == Some((i, v, e))
    requires y == x[..v] + "\n" + Eoh + x[e..]
    ensures FixNumRecEnd(y) == y
  {
    FixedMatchFirst(x, i, v, e, y);
    FixShape(y);
    RefixSame(x, v, e, y);
  }

  /** Rewriting the end the fix wrote with the same end gives the same text. */
  lemma RefixSame(x: string, v: nat, e: nat, y: string)
    requires v <= e <= |x| && y == x[..v] + "\n" + Eoh + x[e..]
    ensures |y| >= v + 1 + |Eoh| && y[..v] + "\n" + Eoh + y[v + 1 + |Eoh|..] == y
  {
    FixedPieces(x, v, e, y);
  }

  /** No character of `<eoh>` is a newline. */
  lemma EohLacksNewline()
    ensures forall k :: 0 <= k < |Eoh| ==> Lower(Eoh[k]) != Lower('\n')
  {
  }

  /** Text without `<eoh>`, a newline and `<eoh>`: a header. */
  lemma NewlineEohHeader(a: string)
    requires NoCI(a, Eoh)
    ensures IsHeader(a + "\n" + Eoh)
  {
    EohLacksNewline();
    NoCIJoin(a, '\n', [], Eoh);
    assert a + ['\n'] + [] == a + "\n";
    assert MatchCIAt(Eoh, 0, Eoh);
    HeaderOfParts(a + "\n", Eoh);
  }

  /** A header's only `<eoh>` is its last five characters. */
  lemma HeaderEohAt(h: string, w: nat)
    requires IsHeader(h) && MatchCIAt(h, w, Eoh)
    ensures w + |Eoh| == |h|
  {
  }

  /** A header cut before its `<eoh>` and closed by a newline and `<eoh>`: a header. */
  lemma FixedHeader(x: string, v: nat)
    requires IsHeader(x) && v + |Eoh| <= |x|
    ensures IsHeader(x[..v] + "\n" + Eoh)
  {
    var p := |x| - |Eoh|;
    HeaderSplit(x);
    NoCISlice(x[..p], 0, v, Eoh);
    assert x[..p][0..v] == x[..v];
    NewlineEohHeader(x[..v]);
  }

  /** The fix applied to a header, whose match can only end at its `<eoh>`. */
  lemma FixedHeaderAt(x: string, i: nat, v: nat, e: nat, y: string)
    requires IsHeader(x) && NumRecEohShape(x, i, v, e)
    requires y == x[..v] + "\n" + Eoh + x[e..]
    ensures IsHeader(y)
  {
    HeaderEohAt(x, e - |Eoh|);
    assert x[e..] == [];
    assert y == x[..v] + "\n" + Eoh;
    FixedHeader(x, v);
  }

  /** On a header, the format fix keeps it a header. */
  lemma FixKeepsHeader(x: string)
    requires IsHeader(x)
    ensures IsHeader(FixNumRecEnd(x))
  {
    FixShape(x);
    var r := FirstNumRecEoh(x, 0);
    if r.Some? {
      FixedHeaderAt(x, r.value.0, r.value.1, r.value.2, FixNumRecEnd(x));
    }
  }

  /** The header's first count field is exactly the one the recount writes for `n`. */
  predicate CountFieldIs(h: string, n: nat) {
    match FirstTag(h, NumRecTag, Digits, 0)
    case None => false
    case Some(t) =>
      var f := NumRecField(n);
      t.valueEnd == t.start + |f| && t.valueStart == t.valueEnd - |NatToString(n)| && h[t.start..t.valueEnd] == f
  }

  /** Such a field declares `n`, and rewriting it for `n` changes nothing. */
  lemma CountFieldReads(h: string, n: nat)
    requires CountFieldIs(h, n)
    ensures NumRecOf(h) == Some(n) && SetNumRec(h, n) == h
  {
    var t := FirstTag(h, NumRecTag, Digits, 0).value;
    CountDigitsRead(h, t.start, t.valueStart, t.valueEnd, n);
    SpliceItself(h, t.start, t.valueEnd, NumRecField(n));
  }

  /** The digits closing a count field laid at `a` read as its count. */
  lemma CountDigitsRead(h: string, a: nat, vs: nat, ve: nat, n: nat)
    requires a <= ve <= |h| && ve == a + |NumRecField(n)| && vs == ve - |NatToString(n)|
    requires h[a..ve] == NumRecField(n)
    ensures vs <= ve && DigitsIn(h, vs, ve) == n
  {
    var f := NumRecField(n);
    var v := NatToString(n);
    assert f == "<" + NumRecTag + ":" + NatToString(|v|) + ">" + v;
    assert f[|f| - |v|..] == v;
    assert h[vs..ve] == h[a..ve][|f| - |v|..];
    DigitsInValue(h, vs, ve);
  }

  /** Splicing in the text already there changes nothing. */
  lemma SpliceItself(h: string, i: nat, j: nat, f: string)
    requires i <= j <= |h| && h[i..j] == f
    ensures Splice(h, i, j, f) == h
  {
    assert h == h[..i] + h[i..j] + h[j..];
  }

  /** A field that opens no `<eoh>` holds none. */
  lemma OpensNoEohNoCI(f: string)
    requires OpensNoEoh(f)
    ensures NoCI(f, Eoh)
  {
    forall k | 0 <= k <= |f| ensures !MatchCIAt(f, k, Eoh) {
      EohAt(f, k);
    }
  }

  /** Splicing such a field in before a header's `<eoh>` keeps it a header. */
  lemma SpliceHeader(h: string, i: nat, j: nat, f: string)
    requires IsHeader(h) && i <= j <= |h| - |Eoh| && OpensNoEoh(f)
    ensures IsHeader(Splice(h, i, j, f))
  {
    var p := |h| - |Eoh|;
    var a := h[..p];
    HeaderSplit(h);
    SpliceBefore(h, p, i, j, f);
    SpliceKeepsNoEoh(a, i, j, f);
    HeaderOfParts(Splice(a, i, j, f), h[p..]);
  }

  /** The first count tag of a header lies before its `<eoh>`. */
  lemma CountTagInHeader(h: string)
    requires IsHeader(h) && NumRecOf(h).Some?
    ensures FirstTag(h, NumRecTag, Digits, 0).Some?
    ensures FirstTag(h, NumRecTag, Digits, 0).value.valueEnd <= |h| - |Eoh|
  {
    var t := FirstTag(h, NumRecTag, Digits, 0).value;
    NumRecTagOneLt(h, t.start);
    HeaderSplit(h);
    EohAt(h, |h| - |Eoh|);
  }

  /** Rewriting a present count writes the field for `n` as the first count tag. */
  lemma SetCountField(h: string, n: nat)
    requires NumRecOf(h).Some?
    ensures CountFieldIs(SetNumRec(h, n), n)
  {
    var t := FirstTag(h, NumRecTag, Digits, 0).value;
    var f := NumRecField(n);
    ReplacedField(h, t, NumRecTag, Digits, NatToString(n));
    SetNumRecSplices(h, n);
    var r := Splice(h, t.start, t.valueEnd, f);
    assert r[t.start..t.start + |f|] == f;
  }

  /** Rewriting a present count splices the field for `n` over the first count tag. */
  lemma SetNumRecSplices(h: string, n: nat)
    requires NumRecOf(h).Some?
    ensures var t := FirstTag(h, NumRecTag, Digits, 0).value;
      SetNumRec(h, n) == Splice(h, t.start, t.valueEnd, NumRecField(n))
  {
  }

  /** Rewriting a present count keeps a header a header and writes the field for `n`. */
  lemma SetCount(h: string, n: nat)
    requires IsHeader(h) && NumRecOf(h).Some?
    ensures IsHeader(SetNumRec(h, n)) && CountFieldIs(SetNumRec(h, n), n)
  {
    CountTagInHeader(h);
    var t := FirstTag(h, NumRecTag, Digits, 0).value;
    NumRecFieldOpensNoEoh(n);
    SpliceHeader(h, t.start, t.valueEnd, NumRecField(n));
    SetNumRecSplices(h, n);
    SetCountField(h, n);
  }

  /** Inserting the count into a header writes `\n`, the field, `\n` and `<eoh>` in place of its `<eoh>`. */
  lemma InsertedText(h: string, n: nat)
    requires IsHeader(h)
    ensures InsertNumRec(h, n) == h[..|h| - |Eoh|] + "\n" + NumRecField(n) + "\n" + Eoh
  {
    assert h[|h| - |Eoh| + |Eoh|..] == [];
  }

  /** Inserting the count keeps a header a header. */
  lemma InsertCountHeader(h: string, n: nat)
    requires IsHeader(h)
    ensures IsHeader(InsertNumRec(h, n))
  {
    var p := |h| - |Eoh|;
    var f := NumRecField(n);
    InsertedText(h, n);
    HeaderSplit(h);
    NumRecFieldOpensNoEoh(n);
    OpensNoEohNoCI(f);
    EohLacksNewline();
    NoCIJoin(h[..p], '\n', f, Eoh);
    assert h[..p] + ['\n'] + f == h[..p] + "\n" + f;
    NewlineEohHeader(h[..p] + "\n" + f);
  }

  /** Where the inserted text puts the field. */
  lemma InsertedFieldLaid(a: string, f: string, r: string)
    requires r == a + "\n" + f + "\n" + Eoh
    ensures r[..|a|] == a && r[|a|] == '\n' && r[|a| + 1..|a| + 1 + |f|] == f && r[|a| + 1 + |f|] == '\n'
  {
  }

  /** The inserted field reads back whole, right after its newline. */
  lemma InsertedFieldRead(a: string, n: nat, r: string)
    requires r == a + "\n" + NumRecField(n) + "\n" + Eoh
    ensures var t := TagAt(r, |a| + 1, NumRecTag, Digits);
      t.Some? && t.value.valueEnd == |a| + 1 + |NumRecField(n)|
      && t.value.valueStart == t.value.valueEnd - |NatToString(n)|
  {
    var f := NumRecField(n);
    var v := NatToString(n);
    InsertedFieldLaid(a, f, r);
    SliceLaidAt(r, |a| + 1, f);
    TagFieldSpells(NumRecTag, v);
    FieldRead(r, |a| + 1, f, NumRecTag, Digits, NatToString(|v|), v);
  }

  /** A text with no count tag, changed only from a stop on, has none up to that stop. */
  lemma NoCountTagBefore(h: string, r: string, p: nat)
    requires p < |h| && p < |r| && h[..p] == r[..p] && Stops(h[p]) && Stops(r[p]) && r[p] != '<'
    requires FirstTag(h, NumRecTag, Digits, 0).None?
    ensures forall j :: 0 <= j <= p ==> TagAt(r, j, NumRecTag, Digits).None?
  {
    NumRecTagPlain();
    forall j | 0 <= j <= p ensures TagAt(r, j, NumRecTag, Digits).None? {
      if j < p {
        TagAtCut(h, r, j, p, NumRecTag);
      }
    }
  }

  /** Inserting a missing count writes the field for `n` as the first count tag. */
  lemma InsertCountField(h: string, n: nat)
    requires IsHeader(h) && NumRecOf(h).None?
    ensures CountFieldIs(InsertNumRec(h, n), n)
  {
    InsertedFirstTag(h, n);
    InsertedCountField(h[..|h| - |Eoh|], n, InsertNumRec(h, n));
  }

  /** Text inserted before `<eoh>` whose first count tag is the inserted one holds the field for `n`. */
  lemma InsertedCountField(a: string, n: nat, r: string)
    requires r == a + "\n" + NumRecField(n) + "\n" + Eoh
    requires FirstTag(r, NumRecTag, Digits, 0) == TagAt(r, |a| + 1, NumRecTag, Digits)
    ensures CountFieldIs(r, n)
  {
    InsertedFieldLaid(a, NumRecField(n), r);
    InsertedFieldRead(a, n, r);
    CountFieldAt(r, |a| + 1, n);
  }

  /** The first count tag, read at `q`, spells the field for `n`. */
  lemma CountFieldAt(r: string, q: nat, n: nat)
    requires q <= |r| && FirstTag(r, NumRecTag, Digits, 0) == TagAt(r, q, NumRecTag, Digits)
    requires var t := TagAt(r, q, NumRecTag, Digits);
      t.Some? && t.value.valueEnd == q + |NumRecField(n)| && t.value.valueStart == t.value.valueEnd - |NatToString(n)|
    requires q + |NumRecField(n)| <= |r| && r[q..q + |NumRecField(n)|] == NumRecField(n)
    ensures CountFieldIs(r, n)
  {
  }

  /** The inserted field, right after the newline that replaces `<eoh>`, is the first count tag. */
  lemma InsertedFirstTag(h: string, n: nat)
    requires IsHeader(h) && NumRecOf(h).None?
    ensures |Eoh| <= |h|
    ensures var a := h[..|h| - |Eoh|]; var r := InsertNumRec(h, n);
      r == a + "\n" + NumRecField(n) + "\n" + Eoh
      && FirstTag(r, NumRecTag, Digits, 0) == TagAt(r, |a| + 1, NumRecTag, Digits)
  {
    var p := |h| - |Eoh|;
    var r := InsertNumRec(h, n);
    InsertedText(h, n);
    InsertedFieldLaid(h[..p], NumRecField(n), r);
    InsertedFieldRead(h[..p], n, r);
    HeaderSplit(h);
    SpaceStops(h[p]);
    SpaceStops(r[p]);
    NoCountTagBefore(h, r, p);
    FirstTagIs(r, NumRecTag, Digits, p + 1);
  }

  /** Inserting a missing count keeps a header a header and writes the field for `n`. */
  lemma InsertCount(h: string, n: nat)
    requires IsHeader(h) && NumRecOf(h).None?
    ensures IsHeader(InsertNumRec(h, n)) && CountFieldIs(InsertNumRec(h, n), n)
  {
    InsertCountHeader(h, n);
    InsertCountField(h, n);
  }

  /** The recounted header is a header whose first count field is the one written for `count`. */
  lemma RecountedHeaderField(header: string, count: nat)
    requires IsHeader(header)
    ensures IsHeader(RecountedHeader(header, count)) && CountFieldIs(RecountedHeader(header, count), count)
  {
    var h := if NumRecOf(header).Some? then SetNumRec(header, count) else InsertNumRec(header, count);
    if NumRecOf(header).Some? {
      SetCount(header, count);
    } else {
      InsertCount(header, count);
    }
    FixKeepsFirstTag(h);
    FixKeepsHeader(h);
  }

  /**
   * The recount's header declares the count it is given and still ends at
   * its only `<eoh>`.
   */
  lemma RecountedHeaderDeclares(header: string, count: nat)
    requires IsHeader(header)
    ensures IsHeader(RecountedHeader(header, count))
    ensures NumRecOf(RecountedHeader(header, count)) == Some(count)
  {
    RecountedHeaderField(header, count);
    CountFieldReads(RecountedHeader(header, count), count);
  }

  /** Recounting a recounted header with the same count changes nothing. */
  lemma RecountedHeaderSettles(header: string, count: nat)
    requires IsHeader(header)
    ensures RecountedHeader(RecountedHeader(header, count), count) == RecountedHeader(header, count)
  {
    var h := if NumRecOf(header).Some? then SetNumRec(header, count) else InsertNumRec(header, count);
    RecountedHeaderField(header, count);
    CountFieldReads(RecountedHeader(header, count), count);
    FixIdempotent(h);
  }

  /** A header followed by text without `<eoh>` splits back into the two. */
  lemma HeaderThenPiece(h: string, rest: string)
    requires IsHeader(h) && NoCI(rest, Eoh)
    ensures HeaderOf(h + rest) == h && SecondPiece(h + rest, Eoh) == rest
  {
    FindCIInPrefix(h, rest);
    assert (h + rest)[..|h|] == h;
    assert (h + rest)[|h|..] == rest;
    SplitNoOccurrence(rest, Eoh);
  }

  /** The records part of a file holds no `<eoh>`. */
  lemma RecordsHaveNoEoh(adif: string)
    ensures NoCI(SecondPiece(adif, Eoh), Eoh)
  {
    SplitPiecesNoCI(adif, Eoh);
  }

  /**
   * What `updateRecordCount` writes reads back: its header is the recounted
   * header and declares the number of `<eor>` in its records, which are the
   * records of the file as read.
   */
  lemma RecountReadsBack(adif: string)
    requires !NoCI(adif, Eoh)
    ensures var out := RecountedText(adif);
      HeaderOf(out) == RecountedHeader(HeaderOf(adif), EorCount(SecondPiece(adif, Eoh)))
      && SecondPiece(out, Eoh) == SecondPiece(adif, Eoh)
      && NumRecOf(HeaderOf(out)) == Some(EorCount(SecondPiece(out, Eoh)))
  {
    var records := SecondPiece(adif, Eoh);
    HeaderOfIsHeader(adif);
    RecountedHeaderDeclares(HeaderOf(adif), EorCount(records));
    RecordsHaveNoEoh(adif);
    HeaderThenPiece(RecountedHeader(HeaderOf(adif), EorCount(records)), records);
  }

  /** Recounting a second time changes nothing. */
  lemma RecountIdempotent(adif: string)
    ensures RecountedText(RecountedText(adif)) == RecountedText(adif)
  {
    if NoCI(adif, Eoh) {
      RecountWithoutEoh(adif);
      RecountWithoutEoh("");
    } else {
      var records := SecondPiece(adif, Eoh);
      var n := EorCount(records);
      RecountReadsBack(adif);
      HeaderOfIsHeader(adif);
      RecountedHeaderSettles(HeaderOf(adif), n);
    }
  }

  // ---------------------------------------------------------------------------
  // The three file operations

  /**
   * `mergeIncrementalADIFData(incoming, adifFilePath, c)` with the clock
   * reading `now`: "ADIF file not found" when the file is missing;
   * otherwise the merged text is saved to the context's ADIF file (backed
   * up first, as every save is) and that path is returned.
   */
  method MergeIncrementalADIFData(store: FileStore, incoming: string, adifPath: Path, c: Context, now: nat) returns (r: Result<Path>)
    requires store.Valid() && store.clock <= now
    modifies store
    ensures store.Valid()
    ensures r.Fail? <==> adifPath !in old(store.files)
    ensures r.Fail? ==> r.error == AdifNotFound(adifPath) && store.files == old(store.files) && store.clock == old(store.clock)
    ensures r.Ok? ==> r.value == c.adifFile && store.clock == now
    ensures r.Ok? ==> store.files == SaveAdifOf(old(store.files),
      MergedAdifText(TextOf(old(store.files)[adifPath].content), incoming, GeneratedText(now)), None, c, now)
  {
    var parts := ReadADIFFileParts(store, adifPath);
    if parts.Fail? {
      return Fail(parts.error);
    }
    var (existingHeader, existingRecords) := parts.value;
    var incrementalHeader := HeaderOf(incoming);
    var incrementalRecords := IncomingQsoRecords(incoming);
    var updatedHeader := StampProgramId(existingHeader, GeneratedText(now));
    updatedHeader := MergedNumRec(updatedHeader, incrementalHeader);
    var mergedData := updatedHeader + incrementalRecords + existingRecords;
    var savedPath := store.SaveADIFData(mergedData, None, c, now);
    r := Ok(savedPath);
  }

  /**
   * `mergeIncrementalQSLDataOnly(incoming, adifFilePath, c)` with the clock
   * reading `now`: the existing records are listed, indexed by QSO
   * timestamp and overwritten in place by the incoming reports whose status
   * differs; the rebuilt section goes out under the updated header.
   */
  method MergeIncrementalQSLDataOnly(store: FileStore, incoming: string, adifPath: Path, c: Context, now: nat) returns (r: Result<Path>)
    requires store.Valid() && store.clock <= now
    modifies store
    ensures store.Valid()
    ensures r.Fail? <==> adifPath !in old(store.files)
    ensures r.Fail? ==> r.error == AdifNotFound(adifPath) && store.files == old(store.files) && store.clock == old(store.clock)
    ensures r.Ok? ==> r.value == c.adifFile && store.clock == now
    ensures r.Ok? ==> store.files == SaveAdifOf(old(store.files),
      MergedQslText(TextOf(old(store.files)[adifPath].content), incoming, GeneratedText(now)), None, c, now)
  {
    var parts := ReadADIFFileParts(store, adifPath);
    if parts.Fail? {
      return Fail(parts.error);
    }
    var (existingHeader, existingRecords) := parts.value;
    var qslHeader := HeaderOf(incoming);
    var incrementalRecords := IncomingQslRecords(incoming);
    var updatedRecords := MergeQslSection(existingRecords, incrementalRecords);
    var updatedHeader := SetRxQsl(existingHeader, qslHeader);
    updatedHeader := StampProgramId(updatedHeader, GeneratedText(now));
    var savedPath := store.SaveADIFData(updatedHeader + updatedRecords, None, c, now);
    r := Ok(savedPath);
  }

  /**
   * The record pass of the QSL merge: the existing records listed into an
   * array, indexed by QSO timestamp, overwritten in place by the incoming
   * reports, and rebuilt into a records section.
   */
  method MergeQslSection(existingRecords: string, incrementalRecords: string) returns (updatedRecords: string)
    ensures updatedRecords == Rebuild(QslRecordList(existingRecords, incrementalRecords))
  {
    var existingRecordsList := ParseRecordsToList(existingRecords);
    var timestampIndex := BuildTimestampIndex(existingRecordsList);
    var incrementalRecordsList := ParseRecordsToList(incrementalRecords);
    IndexInRange(IndexKey, existingRecordsList);
    var list := ToArray(existingRecordsList);
    MergeQslRecords(list, timestampIndex, incrementalRecordsList);
    updatedRecords := RebuildRecordsSection(list[..]);
  }

  /** A fresh array holding the records, which the QSL pass overwrites in place. */
  method ToArray(records: seq<string>) returns (list: array<string>)
    ensures fresh(list) && list[..] == records
  {
    list := new string[|records|](i requires 0 <= i < |records| => records[i]);
  }

  /**
   * `updateRecordCount(adifFilePath)` with the clock reading `now`: the
   * number of `<eor>` after the first `<eoh>` is returned and the file is
   * rewritten in place, without a backup, with its header recounted.
   */
  method UpdateRecordCount(store: FileStore, path: Path, now: nat) returns (r: Result<nat>)
    requires store.Valid() && store.clock <= now
    modifies store
    ensures store.Valid()
    ensures r.Fail? <==> path !in old(store.files)
    ensures r.Fail? ==> r.error == AdifNotFound(path) && store.files == old(store.files) && store.clock == old(store.clock)
    ensures r.Ok? ==>
      var adif := TextOf(old(store.files)[path].content);
      r.value == EorCount(SecondPiece(adif, Eoh)) && store.clock == now
      && store.files == old(store.files)[path := File(Text(RecountedText(adif)), now)]
  {
    if !store.Exists(path) {
      return Fail(AdifNotFound(path));
    }
    var adifData := TextOf(store.files[path].content);
    var header := HeaderOf(adifData);
    var records := SecondPiece(adifData, Eoh);
    var recordCount := CountCI(records, Eor);
    if NumRecOf(header).Some? {
      header := SetNumRec(header, recordCount);
    } else {
      header := InsertNumRec(header, recordCount);
    }
    header := FixNumRecEnd(header);
    store.Advance(now);
    store.files := store.files[path := File(Text(header + records), now)];
    r := Ok(recordCount);
  }
}
