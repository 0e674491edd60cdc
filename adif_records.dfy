/**
 * The record-list helpers of lib/adif-processor.js: a records section cut
 * into record strings and glued back, the index from QSO timestamp to
 * position, the two per-record extractors, and the QSL replacement pass
 * that works on the list in place.
 */
module AdifRecords {
  import opened Text
  import opened Scan

  const Eor := "<eor>"
  const Eof := "<APP_LoTW_EOF>"
  /** How every listed record ends: a newline and a lower-case `<eor>`. */
  const RecordEnd := "\n<eor>"

  // ---------------------------------------------------------------------------
  // parseRecordsToList

  /** What survives of one `<eor>`-separated block: its trim and `\n<eor>`, unless the trim is empty or holds `<APP_LoTW_EOF>`. */
  function KeptBlock(block: string): (r: seq<string>)
    ensures |r| <= 1
  {
    var t := Trim(block);
    if Keeps(t) then [t + RecordEnd] else []
  }

  /** A trimmed block is kept when it is non-empty and free of `<APP_LoTW_EOF>`. */
  predicate Keeps(trimmed: string) {
    trimmed != "" && !Contains(trimmed, Eof)
  }

  function ListOfBlocks(blocks: seq<string>): seq<string> {
    if blocks == [] then [] else KeptBlock(blocks[0]) + ListOfBlocks(blocks[1..])
  }

  /** Adding a block at the end adds what survives of it at the end. */
  lemma BlocksSnoc(blocks: seq<string>, i: nat)
    requires i < |blocks|
    ensures ListOfBlocks(blocks[..i + 1]) == ListOfBlocks(blocks[..i]) + KeptBlock(blocks[i])
  {
    assert blocks[..i + 1] == blocks[..i] + [blocks[i]];
    ListIsJoined(blocks[..i + 1]);
    ListIsJoined(blocks[..i]);
    JoinedSnoc(KeptBlock, blocks[..i], blocks[i]);
  }

  /** `ListOfBlocks` with what each block contributes left as a parameter. */
  function Joined(kept: string -> seq<string>, blocks: seq<string>): seq<string> {
    if blocks == [] then [] else kept(blocks[0]) + Joined(kept, blocks[1..])
  }

  lemma {:induction false} ListIsJoined(blocks: seq<string>)
    ensures ListOfBlocks(blocks) == Joined(KeptBlock, blocks)
  {
    if blocks != [] {
      ListIsJoined(blocks[1..]);
    }
  }

  lemma {:induction false} JoinedSnoc(kept: string -> seq<string>, blocks: seq<string>, last: string)
    ensures Joined(kept, blocks + [last]) == Joined(kept, blocks) + kept(last)
  {
    if blocks == [] {
      assert [] + [last] == [last];
    } else {
      JoinedSnoc(kept, blocks[1..], last);
      assert (blocks + [last])[1..] == blocks[1..] + [last];
    }
  }

  lemma KeepStep(blocks: seq<string>, i: nat)
    requires i < |blocks| && Keeps(Trim(blocks[i]))
    ensures ListOfBlocks(blocks[..i + 1]) == ListOfBlocks(blocks[..i]) + [Trim(blocks[i]) + RecordEnd]
  {
    BlocksSnoc(blocks, i);
  }

  lemma DropStep(blocks: seq<string>, i: nat)
    requires i < |blocks| && !Keeps(Trim(blocks[i]))
    ensures ListOfBlocks(blocks[..i + 1]) == ListOfBlocks(blocks[..i])
  {
    BlocksSnoc(blocks, i);
  }

  /** The list `parseRecordsToList` returns: empty for a blank section, else the kept blocks in order. */
  function RecordsToList(section: string): seq<string> {
    if section == "" || Trim(section) == "" then [] else ListOfBlocks(SplitCI(section, Eor))
  }

  method ParseRecordsToList(recordsSection: string) returns (records: seq<string>)
    ensures records == RecordsToList(recordsSection)
  {
    if recordsSection == "" || Trim(recordsSection) == "" {
      return [];
    }
    records := [];
    var recordMatches := SplitCI(recordsSection, Eor);
    for i := 0 to |recordMatches|
      invariant records == ListOfBlocks(recordMatches[..i])
    {
      var trimmed := Trim(recordMatches[i]);
      if Keeps(trimmed) {
        KeepStep(recordMatches, i);
        records := records + [trimmed + RecordEnd];
      } else {
        DropStep(recordMatches, i);
      }
    }
    assert recordMatches[..|recordMatches|] == recordMatches;
  }

  /**
   * The shape of a listed record: a trimmed, non-empty text free of `<eor>`
   * (in any case) and of `<APP_LoTW_EOF>`, followed by `\n<eor>`.
   */
  predicate IsListed(r: string) {
    && |r| > |RecordEnd|
    && r[|r| - |RecordEnd|..] == RecordEnd
    && var t := r[..|r| - |RecordEnd|];
      IsTrimmed(t) && !Contains(t, Eof) && NoCI(t, Eor)
  }

  lemma {:induction false} ListedBlocks(blocks: seq<string>)
    requires forall k :: 0 <= k < |blocks| ==> NoCI(blocks[k], Eor)
    ensures forall r :: r in ListOfBlocks(blocks) ==> IsListed(r)
    decreases |blocks|
  {
    if blocks != [] {
      KeptIsListed(blocks[0]);
      ListedBlocks(blocks[1..]);
      ListOfCons(blocks);
    }
  }

  /** What survives of a block free of `<eor>` has the listed shape. */
  lemma KeptIsListed(block: string)
    requires NoCI(block, Eor)
    ensures forall r :: r in KeptBlock(block) ==> IsListed(r)
  {
    var t := Trim(block);
    if t != "" && !Contains(t, Eof) {
      NoCITrim(block, Eor);
      var r := t + RecordEnd;
      assert r[..|r| - |RecordEnd|] == t && r[|r| - |RecordEnd|..] == RecordEnd;
    }
  }

  lemma ListOfCons(blocks: seq<string>)
    requires blocks != []
    ensures ListOfBlocks(blocks) == KeptBlock(blocks[0]) + ListOfBlocks(blocks[1..])
  {
  }

  /** Every record `parseRecordsToList` returns has the listed shape. */
  lemma ListedRecords(section: string)
    ensures forall r :: r in RecordsToList(section) ==> IsListed(r)
  {
    if !(section == "" || Trim(section) == "") {
      SplitPiecesNoCI(section, Eor);
      ListedBlocks(SplitCI(section, Eor));
    }
  }

  // ---------------------------------------------------------------------------
  // rebuildRecordsSection

  /** `'\n' + record + '\n'` for each record, in order. */
  function Body(records: seq<string>): string {
    if records == [] then "" else "\n" + records[0] + "\n" + Body(records[1..])
  }

  /** The rebuilt section: the body, with `\n<APP_LoTW_EOF>` added unless it already holds the marker. */
  function Rebuild(records: seq<string>): string {
    var body := Body(records);
    if Contains(body, Eof) then body else body + "\n" + Eof
  }

  method RebuildRecordsSection(recordsList: seq<string>) returns (result: string)
    ensures result == Rebuild(recordsList)
  {
    result := "";
    for i := 0 to |recordsList|
      invariant result + Body(recordsList[i..]) == Body(recordsList)
    {
      assert recordsList[i..][1..] == recordsList[i + 1..];
      assert result + Body(recordsList[i..])
        == (result + "\n" + recordsList[i] + "\n") + Body(recordsList[i + 1..]);
      result := result + "\n" + recordsList[i] + "\n";
    }
    assert recordsList[|recordsList|..] == [];
    assert result == Body(recordsList);
    if !Contains(result, Eof) {
      result := result + "\n" + Eof;
    }
  }

  lemma NewlineNotInTags()
    ensures forall k :: 0 <= k < |Eor| ==> Lower(Eor[k]) != Lower('\n')
    ensures forall k :: 0 <= k < |Eof| ==> Eof[k] != '\n'
    ensures Unbordered(Eor)
  {
  }

  /** A listed record never holds the end-of-file marker. */
  lemma ListedHasNoEof(r: string)
    requires IsListed(r)
    ensures !Contains(r, Eof)
  {
    var t := r[..|r| - |RecordEnd|];
    assert r == t + ['\n'] + Eor;
    assert !Contains(Eor, Eof);
    NewlineNotInTags();
    NotContainsJoin(t, '\n', Eor, Eof);
  }

  lemma FramedHasNoEof(r: string, rest: string)
    requires !Contains(r, Eof) && !Contains(rest, Eof)
    ensures !Contains("\n" + r + "\n" + rest, Eof)
  {
    NewlineNotInTags();
    NotContainsJoin(r, '\n', rest, Eof);
    assert !Contains("", Eof);
    NotContainsJoin("", '\n', r + ['\n'] + rest, Eof);
    assert "\n" + r + "\n" + rest == "" + ['\n'] + (r + ['\n'] + rest);
  }

  lemma {:induction false} BodyHasNoEof(records: seq<string>)
    requires forall r :: r in records ==> IsListed(r)
    ensures !Contains(Body(records), Eof)
    decreases |records|
  {
    if records != [] {
      BodyHasNoEof(records[1..]);
      assert records[0] in records;
      ListedHasNoEof(records[0]);
      FramedHasNoEof(records[0], Body(records[1..]));
    }
  }

  /** The marker and anything before it made of newlines hold no `<eor>`. */
  lemma EofTailHasNoEor(lead: string)
    requires lead == "" || lead == "\n"
    ensures NoCI(lead + "\n" + Eof, Eor)
  {
    forall i | 0 <= i <= |Eof| ensures !MatchCIAt(Eof, i, Eor) {
      if i + |Eor| <= |Eof| {
        if i == 0 {
          assert Lower(Eof[1]) != Lower(Eor[1]);
        } else {
          assert Lower(Eof[i]) != Lower(Eor[0]);
        }
      }
    }
    NewlineNotInTags();
    assert NoCI("", Eor);
    NoCIJoin("", '\n', Eof, Eor);
    assert "" + ['\n'] + Eof == "\n" + Eof;
    if lead == "\n" {
      NoCIJoin("", '\n', "\n" + Eof, Eor);
      assert "" + ['\n'] + ("" + ['\n'] + Eof) == lead + "\n" + Eof;
    } else {
      assert "" + ['\n'] + Eof == lead + "\n" + Eof;
    }
  }

  /** The last block of a rebuilt section, the newline(s) and the marker, is dropped. */
  lemma MarkerBlock(lead: string)
    requires lead == "" || lead == "\n"
    ensures ListOfBlocks(SplitCI(lead + "\n" + Eof, Eor)) == []
  {
    var s := lead + "\n" + Eof;
    EofTailHasNoEor(lead);
    SplitNoOccurrence(s, Eor);
    TrimPadded(lead + "\n", Eof, "");
    assert lead + "\n" + Eof + "" == s;
    assert MatchAt(Eof, 0, Eof);
    assert ListOfBlocks([s]) == KeptBlock(s) + ListOfBlocks([]);
  }

  /** The block before a record's `<eor>` in a rebuilt section gives back that record. */
  lemma RecordBlock(lead: string, r: string)
    requires lead == "" || lead == "\n"
    requires IsListed(r)
    ensures var a := lead + "\n" + r[..|r| - |RecordEnd|] + "\n";
      NoCI(a, Eor) && KeptBlock(a) == [r]
  {
    var t := r[..|r| - |RecordEnd|];
    assert r == t + RecordEnd;
    var a := lead + "\n" + t + "\n";
    NewlineNotInTags();
    assert NoCI(lead, Eor);
    NoCIJoin(lead, '\n', t, Eor);
    NoCIJoin(lead + "\n" + t, '\n', "", Eor);
    assert lead + "\n" + t + ['\n'] + "" == a;
    TrimPadded(lead + "\n", t, "\n");
    assert lead + "\n" + t + "\n" == a;
  }

  lemma Regroup(lead: string, t: string, rest: string)
    ensures lead + ("\n" + (t + RecordEnd) + "\n" + rest) + "\n" + Eof
      == (lead + "\n" + t + "\n") + Eor + ("\n" + rest + "\n" + Eof)
  {
    assert RecordEnd == "\n" + Eor;
  }

  /** A rebuilt section splits at the `<eor>` of its first record. */
  lemma SplitFirstRecord(lead: string, r: string, rest: string)
    requires lead == "" || lead == "\n"
    requires IsListed(r)
    ensures ListOfBlocks(SplitCI(lead + ("\n" + r + "\n" + rest) + "\n" + Eof, Eor))
      == [r] + ListOfBlocks(SplitCI("\n" + rest + "\n" + Eof, Eor))
  {
    var t := r[..|r| - |RecordEnd|];
    assert r == t + RecordEnd;
    var a := lead + "\n" + t + "\n";
    var b := "\n" + rest + "\n" + Eof;
    Regroup(lead, t, rest);
    RecordBlock(lead, r);
    NewlineNotInTags();
    SplitAtPattern(a, Eor, b);
    assert ([a] + SplitCI(b, Eor))[1..] == SplitCI(b, Eor);
  }

  lemma {:induction false} RoundTripFrom(lead: string, records: seq<string>)
    requires lead == "" || lead == "\n"
    requires forall r :: r in records ==> IsListed(r)
    ensures ListOfBlocks(SplitCI(lead + Body(records) + "\n" + Eof, Eor)) == records
    decreases |records|
  {
    if records == [] {
      assert lead + Body(records) + "\n" + Eof == lead + "\n" + Eof;
      MarkerBlock(lead);
    } else {
      var r, rest := records[0], records[1..];
      assert Body(records) == "\n" + r + "\n" + Body(rest);
      assert ListOfBlocks(SplitCI(lead + ("\n" + r + "\n" + Body(rest)) + "\n" + Eof, Eor))
        == [r] + ListOfBlocks(SplitCI("\n" + Body(rest) + "\n" + Eof, Eor)) by {
        assert r in records;
        SplitFirstRecord(lead, r, Body(rest));
      }
      assert ListOfBlocks(SplitCI("\n" + Body(rest) + "\n" + Eof, Eor)) == rest by {
        RoundTripFrom("\n", rest);
      }
      assert records == [r] + rest;
    }
  }

  /** Cutting a rebuilt section into records gives back the records it was built from. */
  lemma RebuildRoundTrip(records: seq<string>)
    requires forall r :: r in records ==> IsListed(r)
    ensures RecordsToList(Rebuild(records)) == records
  {
    BodyHasNoEof(records);
    var s := Rebuild(records);
    assert s == "" + Body(records) + "\n" + Eof;
    assert !AllSpace(s) by {
      assert s[|s| - 1] == '>';
    }
    NonBlankList(s);
    RoundTripFrom("", records);
  }

  /** A section that is not all whitespace is cut at every `<eor>`. */
  lemma NonBlankList(section: string)
    requires !AllSpace(section)
    ensures RecordsToList(section) == ListOfBlocks(SplitCI(section, Eor))
  {
    TrimEnds(section);
  }

  /** The rebuilt section ends with the end-of-file marker, and holds it nowhere else. */
  lemma RebuildHasOneEof(records: seq<string>)
    requires forall r :: r in records ==> IsListed(r)
    ensures var s := Rebuild(records);
      forall i :: 0 <= i <= |s| ==> (MatchAt(s, i, Eof) <==> i == |s| - |Eof|)
  {
    BodyHasNoEof(records);
    var body := Body(records);
    var s := Rebuild(records);
    assert s == body + "\n" + Eof;
    forall i | 0 <= i <= |s| ensures MatchAt(s, i, Eof) <==> i == |s| - |Eof| {
      if i + |Eof| <= |s| && i != |s| - |Eof| {
        if i + |Eof| <= |body| {
          assert s[i..i + |Eof|] == body[i..i + |Eof|];
          assert !MatchAt(body, i, Eof);
        } else {
          assert s[i..i + |Eof|][|body| - i] == '\n';
          NewlineNotInTags();
        }
      } else if i == |s| - |Eof| {
        assert s[i..] == Eof;
      }
    }
  }

  // ---------------------------------------------------------------------------
  // extractTimestampFromRecord and extractQslStatusFromRecord

  const QsoTimestampTag := "APP_LoTW_QSO_TIMESTAMP"
  const QslRcvdTag := "QSL_RCVD"
  const LotwQslRcvdTag := "APP_LoTW_QSL_RCVD"

  /** The trimmed value of the first `<APP_LoTW_QSO_TIMESTAMP:n>` with a non-empty value, or nothing. */
  function TimestampOfRecord(record: string): (r: Option<string>)
    ensures r.Some? ==> IsTrimmed(r.value)
    ensures r.None? <==> forall j :: 0 <= j <= |record| ==> TagAt(record, j, QsoTimestampTag, NonEmptyUpToLt).None?
  {
    match FirstTag(record, QsoTimestampTag, NonEmptyUpToLt, 0)
    case None => None
    case Some(t) => Some(Trim(ValueOf(record, t)))
  }

  /** The key a record is filed under: its timestamp, when there is one and it is not empty. */
  function IndexKey(record: string): Option<string> {
    var ts := TimestampOfRecord(record);
    if ts.Some? && ts.value != "" then ts else None
  }

  /** The first `<tag:n>` with a non-empty value has a value that trims to `Y`. */
  predicate SaysYes(record: string, tag: string) {
    match FirstTag(record, tag, NonEmptyUpToLt, 0)
    case None => false
    case Some(t) => Trim(ValueOf(record, t)) == "Y"
  }

  /** `'Y'` when the first QSL_RCVD or the first APP_LoTW_QSL_RCVD says yes, `'N'` otherwise. */
  function QslStatus(record: string): (r: char)
    ensures r == 'Y' || r == 'N'
    ensures r == 'Y' <==> SaysYes(record, QslRcvdTag) || SaysYes(record, LotwQslRcvdTag)
  {
    if SaysYes(record, QslRcvdTag) then 'Y'
    else if SaysYes(record, LotwQslRcvdTag) then 'Y'
    else 'N'
  }

  // ---------------------------------------------------------------------------
  // buildTimestampIndex
  //
  // The index and the replacement pass are stated for any way `key` of
  // reading the key a record is filed under and any way `status` of reading
  // its QSL status; the methods use IndexKey and QslStatus.

  /** The index: each key maps to a position whose record has that key; a later position overwrites an earlier one. */
  function IndexOf(key: string -> Option<string>, records: seq<string>): map<string, nat>
    decreases |records|
  {
    if records == [] then map[]
    else
      var i := |records| - 1;
      var index := IndexOf(key, records[..i]);
      match key(records[i])
      case None => index
      case Some(k) => index[k := i]
  }

  method BuildTimestampIndex(recordsList: seq<string>) returns (index: map<string, nat>)
    ensures index == IndexOf(IndexKey, recordsList)
  {
    index := map[];
    for i := 0 to |recordsList|
      invariant index == IndexOf(IndexKey, recordsList[..i])
    {
      assert recordsList[..i + 1][..i] == recordsList[..i];
      var timestamp := TimestampOfRecord(recordsList[i]);
      if timestamp.Some? && timestamp.value != "" {
        index := index[timestamp.value := i];
      }
    }
    assert recordsList[..|recordsList|] == recordsList;
  }

  /**
   * A key is in the index exactly when some record carries it, and then it
   * maps to the last record that does.
   */
  lemma {:induction false} IndexIsLastPosition(key: string -> Option<string>, records: seq<string>, k: string)
    ensures k in IndexOf(key, records) <==> exists i :: 0 <= i < |records| && key(records[i]) == Some(k)
    ensures k in IndexOf(key, records) ==>
      var i := IndexOf(key, records)[k];
      i < |records| && key(records[i]) == Some(k)
      && forall j :: i < j < |records| ==> key(records[j]) != Some(k)
    decreases |records|
  {
    if records != [] {
      var n := |records| - 1;
      var front := records[..n];
      IndexIsLastPosition(key, front, k);
      if key(records[n]) != Some(k) {
        if exists i :: 0 <= i < |records| && key(records[i]) == Some(k) {
          var i :| 0 <= i < |records| && key(records[i]) == Some(k);
          assert i < n && front[i] == records[i];
        }
        if k in IndexOf(key, front) {
          var i := IndexOf(key, front)[k];
          assert front[i] == records[i];
          forall j | i < j < |records| ensures key(records[j]) != Some(k) {
            if j < n {
              assert front[j] == records[j];
            }
          }
        }
      }
    }
  }

  lemma IndexInRange(key: string -> Option<string>, records: seq<string>)
    ensures Within(IndexOf(key, records), |records|)
  {
    forall k | k in IndexOf(key, records) ensures IndexOf(key, records)[k] < |records| {
      IndexIsLastPosition(key, records, k);
    }
  }

  /** The index depends only on the key of each position. */
  lemma {:induction false} IndexDependsOnKeys(key: string -> Option<string>, a: seq<string>, b: seq<string>)
    requires |a| == |b|
    requires forall i :: 0 <= i < |a| ==> key(a[i]) == key(b[i])
    ensures IndexOf(key, a) == IndexOf(key, b)
    decreases |a|
  {
    if a != [] {
      var n := |a| - 1;
      assert forall i :: 0 <= i < n ==> a[..n][i] == a[i] && b[..n][i] == b[i];
      IndexDependsOnKeys(key, a[..n], b[..n]);
    }
  }

  // ---------------------------------------------------------------------------
  // The replacement pass of mergeIncrementalQSLDataOnly

  predicate Within(index: map<string, nat>, n: nat) {
    forall k :: k in index ==> index[k] < n
  }

  /** One incoming QSL record: it replaces the record its key is filed at, if their statuses differ. */
  function ApplyQsl(key: string -> Option<string>, status: string -> char,
                    list: seq<string>, index: map<string, nat>, qsl: string): (r: seq<string>)
    requires Within(index, |list|)
    ensures |r| == |list|
  {
    match key(qsl)
    case None => list
    case Some(k) =>
      if k in index && status(list[index[k]]) != status(qsl) then list[index[k] := qsl] else list
  }

  /** All incoming QSL records, in order. */
  function MergeQsl(key: string -> Option<string>, status: string -> char,
                    list: seq<string>, index: map<string, nat>, incoming: seq<string>): (r: seq<string>)
    requires Within(index, |list|)
    ensures |r| == |list|
    decreases |incoming|
  {
    if incoming == [] then list
    else MergeQsl(key, status, ApplyQsl(key, status, list, index, incoming[0]), index, incoming[1..])
  }

  /** The matching loop, on the existing records in place. */
  method MergeQslRecords(existing: array<string>, index: map<string, nat>, incoming: seq<string>)
    requires Within(index, existing.Length)
    modifies existing
    ensures existing[..] == MergeQsl(IndexKey, QslStatus, old(existing[..]), index, incoming)
  {
    for i := 0 to |incoming|
      invariant MergeQsl(IndexKey, QslStatus, existing[..], index, incoming[i..])
        == MergeQsl(IndexKey, QslStatus, old(existing[..]), index, incoming)
    {
      MergeQslStep(existing[..], index, incoming, i);
      ghost var before := existing[..];
      var qslRecord := incoming[i];
      var qsoTimestamp := TimestampOfRecord(qslRecord);
      if qsoTimestamp.Some? && qsoTimestamp.value != "" && qsoTimestamp.value in index {
        var existingIndex := index[qsoTimestamp.value];
        if QslStatus(existing[existingIndex]) != QslStatus(qslRecord) {
          existing[existingIndex] := qslRecord;
        }
      }
      assert existing[..] == ApplyQsl(IndexKey, QslStatus, before, index, qslRecord);
    }
    assert incoming[|incoming|..] == [];
  }

  /** Merging from report `i` on is applying report `i`, then merging from `i + 1` on. */
  lemma MergeQslStep(list: seq<string>, index: map<string, nat>, incoming: seq<string>, i: nat)
    requires Within(index, |list|) && i < |incoming|
    ensures MergeQsl(IndexKey, QslStatus, list, index, incoming[i..])
      == MergeQsl(IndexKey, QslStatus, ApplyQsl(IndexKey, QslStatus, list, index, incoming[i]), index, incoming[i + 1..])
  {
    assert incoming[i..][1..] == incoming[i + 1..];
  }

  predicate Targets(key: string -> Option<string>, qsl: string, index: map<string, nat>, i: nat) {
    key(qsl).Some? && key(qsl).value in index && index[key(qsl).value] == i
  }

  /** The incoming records filed at position `i`, in order. */
  function Targeting(key: string -> Option<string>, incoming: seq<string>, index: map<string, nat>, i: nat): (r: seq<string>)
    ensures forall q :: q in r ==> q in incoming && Targets(key, q, index, i)
  {
    if incoming == [] then []
    else (if Targets(key, incoming[0], index, i) then [incoming[0]] else []) + Targeting(key, incoming[1..], index, i)
  }

  /** What a sequence of reports does to one record: each report whose status differs replaces it. */
  function FoldAt(status: string -> char, record: string, reports: seq<string>): string
    decreases |reports|
  {
    if reports == [] then record
    else FoldAt(status, if status(record) != status(reports[0]) then reports[0] else record, reports[1..])
  }

  /** Each position of the merged list is its record folded with exactly the reports filed at it. */
  lemma {:induction false} MergeQslAt(key: string -> Option<string>, status: string -> char,
                                      list: seq<string>, index: map<string, nat>, incoming: seq<string>, i: nat)
    requires Within(index, |list|) && i < |list|
    ensures MergeQsl(key, status, list, index, incoming)[i] == FoldAt(status, list[i], Targeting(key, incoming, index, i))
    decreases |incoming|
  {
    if incoming != [] {
      var q := incoming[0];
      var after := ApplyQsl(key, status, list, index, q);
      MergeQslAt(key, status, after, index, incoming[1..], i);
      var rest := Targeting(key, incoming[1..], index, i);
      assert after[i] == if Targets(key, q, index, i) && status(list[i]) != status(q) then q else list[i];
      if Targets(key, q, index, i) {
        assert Targeting(key, incoming, index, i) == [q] + rest;
        assert ([q] + rest)[1..] == rest;
      } else {
        assert Targeting(key, incoming, index, i) == [] + rest == rest;
      }
    }
  }

  predicate Uniform(status: string -> char, reports: seq<string>) {
    forall j :: 0 <= j < |reports| ==> status(reports[j]) == status(reports[0])
  }

  /** Reports that all agree: the record is replaced by the first of them only if its status differs. */
  lemma {:induction false} FoldUniform(status: string -> char, record: string, reports: seq<string>)
    requires reports != [] && Uniform(status, reports)
    ensures FoldAt(status, record, reports) == if status(record) != status(reports[0]) then reports[0] else record
    decreases |reports|
  {
    var rest := reports[1..];
    if rest != [] {
      assert Uniform(status, rest) by {
        forall j | 0 <= j < |rest| ensures status(rest[j]) == status(rest[0]) {
          assert rest[j] == reports[j + 1] && rest[0] == reports[1];
        }
      }
      var next := if status(record) != status(reports[0]) then reports[0] else record;
      FoldUniform(status, next, rest);
      assert status(rest[0]) == status(reports[1]);
    }
  }

  /** Reports that disagree somewhere make the outcome independent of the record they start from. */
  lemma {:induction false} FoldForgets(status: string -> char, a: string, b: string, reports: seq<string>)
    requires reports != [] && !Uniform(status, reports)
    ensures FoldAt(status, a, reports) == FoldAt(status, b, reports)
    decreases |reports|
  {
    var q := reports[0];
    var rest := reports[1..];
    var j :| 0 <= j < |reports| && status(reports[j]) != status(q);
    assert j >= 1 && rest[j - 1] == reports[j];
    var a' := if status(a) != status(q) then q else a;
    var b' := if status(b) != status(q) then q else b;
    if Uniform(status, rest) {
      FoldUniform(status, a', rest);
      FoldUniform(status, b', rest);
    } else {
      FoldForgets(status, a', b', rest);
    }
  }

  /** Folding the same reports in a second time changes nothing. */
  lemma FoldIdempotent(status: string -> char, record: string, reports: seq<string>)
    ensures FoldAt(status, FoldAt(status, record, reports), reports) == FoldAt(status, record, reports)
  {
    if reports != [] {
      if Uniform(status, reports) {
        FoldUniform(status, record, reports);
        FoldUniform(status, FoldAt(status, record, reports), reports);
      } else {
        FoldForgets(status, FoldAt(status, record, reports), record, reports);
      }
    }
  }

  /** The folded record is the original or one of the reports, and it has the status of the last report. */
  lemma {:induction false} FoldOutcome(status: string -> char, record: string, reports: seq<string>)
    ensures FoldAt(status, record, reports) == record || FoldAt(status, record, reports) in reports
    ensures reports != [] ==> status(FoldAt(status, record, reports)) == status(reports[|reports| - 1])
    decreases |reports|
  {
    if reports != [] {
      var next := if status(record) != status(reports[0]) then reports[0] else record;
      FoldOutcome(status, next, reports[1..]);
      if reports[1..] != [] {
        assert reports[1..][|reports[1..]| - 1] == reports[|reports| - 1];
      }
    }
  }

  /**
   * The replacement pass against the index of the list itself: every record
   * keeps its place; one that no report is filed at is untouched; one that
   * reports are filed at is either kept or replaced by one of them, and ends
   * with the status of the last of them; the key of every position is kept.
   */
  lemma MergeQslOutcome(key: string -> Option<string>, status: string -> char,
                        list: seq<string>, incoming: seq<string>, i: nat)
    requires i < |list|
    ensures Within(IndexOf(key, list), |list|)
    ensures var merged := MergeQsl(key, status, list, IndexOf(key, list), incoming);
      var reports := Targeting(key, incoming, IndexOf(key, list), i);
      && |merged| == |list|
      && (reports == [] ==> merged[i] == list[i])
      && (reports != [] ==> status(merged[i]) == status(reports[|reports| - 1]))
      && (merged[i] == list[i] || (merged[i] in incoming && Targets(key, merged[i], IndexOf(key, list), i)))
      && key(merged[i]) == key(list[i])
  {
    IndexInRange(key, list);
    var index := IndexOf(key, list);
    var reports := Targeting(key, incoming, index, i);
    MergeQslAt(key, status, list, index, incoming, i);
    FoldOutcome(status, list[i], reports);
    var m := MergeQsl(key, status, list, index, incoming)[i];
    if m != list[i] {
      assert m in reports;
      IndexIsLastPosition(key, list, key(m).value);
    }
  }

  /** Running the pass a second time with the same reports, against the index of its own result, changes nothing. */
  lemma MergeQslIdempotent(key: string -> Option<string>, status: string -> char, list: seq<string>, incoming: seq<string>)
    ensures Within(IndexOf(key, list), |list|)
    ensures var merged := MergeQsl(key, status, list, IndexOf(key, list), incoming);
      Within(IndexOf(key, merged), |merged|)
      && MergeQsl(key, status, merged, IndexOf(key, merged), incoming) == merged
  {
    IndexInRange(key, list);
    var index := IndexOf(key, list);
    var merged := MergeQsl(key, status, list, index, incoming);
    forall i | 0 <= i < |list| ensures key(merged[i]) == key(list[i]) {
      MergeQslOutcome(key, status, list, incoming, i);
    }
    IndexDependsOnKeys(key, merged, list);
    IndexInRange(key, merged);
    forall i | 0 <= i < |merged| ensures MergeQsl(key, status, merged, index, incoming)[i] == merged[i] {
      MergeQslAt(key, status, merged, index, incoming, i);
      MergeQslAt(key, status, list, index, incoming, i);
      FoldIdempotent(status, list[i], Targeting(key, incoming, index, i));
    }
  }

  /** The merged list is made of listed records when the two lists it comes from are. */
  lemma MergeQslListed(key: string -> Option<string>, status: string -> char, list: seq<string>, incoming: seq<string>)
    requires forall r :: r in list ==> IsListed(r)
    requires forall r :: r in incoming ==> IsListed(r)
    ensures Within(IndexOf(key, list), |list|)
    ensures forall r :: r in MergeQsl(key, status, list, IndexOf(key, list), incoming) ==> IsListed(r)
  {
    IndexInRange(key, list);
    var merged := MergeQsl(key, status, list, IndexOf(key, list), incoming);
    forall r | r in merged ensures IsListed(r) {
      var i :| 0 <= i < |merged| && merged[i] == r;
      MergeQslOutcome(key, status, list, incoming, i);
    }
  }
}
