/**
 * The ADI tokenizer and the statistics derived from it (lib/adif-parser.js):
 * header/record splitting, the two field readers (`parseRecords`, which reads
 * a value up to the next `<`, and the streaming helper `parseRecord`, which
 * cuts it to the declared length), the per-DXCC counters, and the choice of
 * the latest QSL-received stamp.
 */
module AdifParser {
  import opened Text
  import opened Scan
  import opened Snapshots
  import opened Common
  import opened TimestampUtils
  import opened ConfigContext
  import opened FileManager

  /** A parsed record: lower-cased field name to trimmed value. */
  type Record = map<string, string>

  const Eoh := "<eoh>"
  const Eor := "<eor>"

  // ---------------------------------------------------------------------------
  // Field readers

  /** The value a field match contributes: trimmed, and cut to its declared length first when `honourLength`. */
  function FieldValue(f: Field, honourLength: bool): (v: string)
    ensures IsTrimmed(v)
  {
    var raw := if honourLength then Cut(f.raw, f.Declared()) else f.raw;
    TrimIsTrimmed(raw);
    Trim(raw)
  }

  lemma TrimIsTrimmed(s: string)
    ensures IsTrimmed(Trim(s))
  {
  }

  /** The record the matches `fs` build when each one assigns `record[name.toLowerCase()] = value` in turn. */
  function RecordOf(fs: seq<Field>, honourLength: bool): Record
  {
    if fs == [] then map[]
    else
      var f := fs[|fs| - 1];
      RecordOf(fs[..|fs| - 1], honourLength)[LowerStr(f.name) := FieldValue(f, honourLength)]
  }

  /** Every key of a record is lower-case and every value trimmed. */
  lemma {:induction false} RecordOfShape(fs: seq<Field>, honourLength: bool)
    ensures forall k :: k in RecordOf(fs, honourLength) ==>
              IsTrimmed(RecordOf(fs, honourLength)[k]) && LowerStr(k) == k
  {
    if fs != [] {
      RecordOfShape(fs[..|fs| - 1], honourLength);
      LowerIdempotent(fs[|fs| - 1].name);
    }
  }

  lemma LowerIdempotent(s: string)
    ensures LowerStr(LowerStr(s)) == LowerStr(s)
  {
    var t := LowerStr(s);
    assert forall i :: 0 <= i < |t| ==> Lower(t[i]) == t[i];
  }

  /** Index of the last match whose lower-cased name is `k`. */
  predicate IsLastNamed(fs: seq<Field>, k: string, j: int) {
    0 <= j < |fs| && LowerStr(fs[j].name) == k
    && forall j' :: j < j' < |fs| ==> LowerStr(fs[j'].name) != k
  }

  /** A key is present exactly when some match of the block carries that name. */
  lemma {:induction false} KeyPresent(fs: seq<Field>, honourLength: bool, k: string)
    ensures k in RecordOf(fs, honourLength) <==> exists j :: 0 <= j < |fs| && LowerStr(fs[j].name) == k
  {
    if fs != [] {
      var init := fs[..|fs| - 1];
      var f := fs[|fs| - 1];
      KeyPresent(init, honourLength, k);
      if LowerStr(f.name) == k {
        assert LowerStr(fs[|fs| - 1].name) == k;
      } else {
        forall j | 0 <= j < |init| ensures init[j] == fs[j] {}
        forall j | 0 <= j < |fs| && LowerStr(fs[j].name) == k ensures j < |init| && LowerStr(init[j].name) == k {}
      }
    }
  }

  /** A name repeated within a block keeps the value of its last occurrence. */
  lemma {:induction false} LastValueWins(fs: seq<Field>, honourLength: bool, k: string, j: nat)
    requires IsLastNamed(fs, k, j)
    ensures k in RecordOf(fs, honourLength) && RecordOf(fs, honourLength)[k] == FieldValue(fs[j], honourLength)
  {
    var init := fs[..|fs| - 1];
    var f := fs[|fs| - 1];
    assert RecordOf(fs, honourLength) == RecordOf(init, honourLength)[LowerStr(f.name) := FieldValue(f, honourLength)];
    if j < |fs| - 1 {
      assert LowerStr(fs[|fs| - 1].name) != k;
      LastNamedInInit(fs, k, j);
      LastValueWins(init, honourLength, k, j);
    }
  }

  lemma LastNamedInInit(fs: seq<Field>, k: string, j: nat)
    requires IsLastNamed(fs, k, j) && j < |fs| - 1
    ensures IsLastNamed(fs[..|fs| - 1], k, j)
  {
    var init := fs[..|fs| - 1];
    forall j' | j < j' < |init| ensures LowerStr(init[j'].name) != k {
      assert init[j'] == fs[j'];
    }
  }

  /** The loop both readers run: assign each match's value to its lower-cased name, in order. */
  method AssignFields(matches: seq<Field>, honourLength: bool) returns (record: Record)
    ensures record == RecordOf(matches, honourLength)
  {
    record := map[];
    var i := 0;
    while i < |matches|
      invariant i <= |matches|
      invariant record == RecordOf(matches[..i], honourLength)
    {
      var m := matches[i];
      var fieldName := LowerStr(m.name);
      var fieldValue := if honourLength then Trim(Cut(m.raw, m.Declared())) else Trim(m.raw);
      assert matches[..i + 1][..i] == matches[..i];
      record := record[fieldName := fieldValue];
      i := i + 1;
    }
    assert matches[..i] == matches;
  }

  /** `parseRecord` (streaming helper): every field of the block, values cut to their declared length. */
  method ParseRecord(recordText: string) returns (record: Record)
    ensures record == RecordOf(AllFields(recordText, 0), true)
  {
    record := AssignFields(AllFields(recordText, 0), true);
  }

  /** A value followed by nothing but whitespace up to the next tag reads the same either way. */
  predicate HonestLength(f: Field) {
    AllSpace(f.raw[|Cut(f.raw, f.Declared())|..])
  }

  /**
   * The two field readers agree on every block whose values stop, up to
   * whitespace, at their declared length.
   */
  lemma {:induction false} ReadersAgreeOnHonestLengths(fs: seq<Field>)
    requires forall j :: 0 <= j < |fs| ==> HonestLength(fs[j])
    ensures RecordOf(fs, false) == RecordOf(fs, true)
  {
    if fs != [] {
      ReadersAgreeOnHonestLengths(fs[..|fs| - 1]);
      HonestValue(fs[|fs| - 1]);
    }
  }

  /** An honest field's value is the same under both readers. */
  lemma HonestValue(f: Field)
    requires HonestLength(f)
    ensures FieldValue(f, false) == FieldValue(f, true)
  {
    var c := Cut(f.raw, f.Declared());
    assert f.raw == c + f.raw[|c|..];
    TrimPadsRight(c, f.raw[|c|..]);
  }

  /** The length-blind reader keeps text past the declared length; the streaming reader drops it. */
  lemma ReadersDisagree()
    ensures RecordOf(AllFields("<CALL:2>ABCD", 0), false) == map["call" := "ABCD"]
    ensures RecordOf(AllFields("<CALL:2>ABCD", 0), true) == map["call" := "AB"]
  {
    var f := Field("CALL", "2", "ABCD", 0, 12);
    ExampleFields();
    ExampleValues(f);
    ExampleKey();
    RecordOfOne(f, false);
    RecordOfOne(f, true);
  }

  lemma ExampleKey()
    ensures LowerStr("CALL") == "call"
  {
    var l := LowerStr("CALL");
    assert l[0] == 'c' && l[1] == 'a' && l[2] == 'l' && l[3] == 'l';
  }

  /** One field makes a one-entry record. */
  lemma RecordOfOne(f: Field, honourLength: bool)
    ensures RecordOf([f], honourLength) == map[LowerStr(f.name) := FieldValue(f, honourLength)]
  {
    assert [f][..0] == [];
  }

  lemma ExampleValues(f: Field)
    requires f == Field("CALL", "2", "ABCD", 0, 12)
    ensures FieldValue(f, false) == "ABCD" && FieldValue(f, true) == "AB"
  {
    assert f.Declared() == 2 by { assert "2"[..0] == []; }
    assert Cut("ABCD", 2) == "AB";
    TrimOfTrimmed("ABCD");
    TrimOfTrimmed("AB");
  }

  lemma ExampleFields()
    ensures AllFields("<CALL:2>ABCD", 0) == [Field("CALL", "2", "ABCD", 0, 12)]
  {
    var s := "<CALL:2>ABCD";
    assert NextColonOrGt(s, 1) == 5;
    assert DigitRunEnd(s, 6) == 7;
    assert NextLt(s, 8) == 12;
    assert s[1..5] == "CALL" && s[6..7] == "2" && s[8..12] == "ABCD";
    assert FieldAt(s, 0) == Some(Field("CALL", "2", "ABCD", 0, 12));
  }

  // ---------------------------------------------------------------------------
  // parseRecords

  /** The records section: `adifData.split(/<eoh>/i)[1] || ""`. */
  function RecordsSection(adif: string): string {
    SecondPiece(adif, Eoh)
  }

  /** What one `<eor>`-separated block yields: nothing when blank or without any field. */
  function BlockRecord(block: string): (r: Option<Record>)
    ensures r.Some? ==> r.value != map[]
  {
    if Trim(block) == [] then None
    else
      var fs := AllFields(block, 0);
      if fs == [] then None
      else
        KeyPresent(fs, false, LowerStr(fs[0].name));
        Some(RecordOf(fs, false))
  }

  /** The records of the blocks, in order. */
  function RecordsOfBlocks(blocks: seq<string>): (rs: seq<Record>)
    ensures |rs| <= |blocks|
    ensures forall i :: 0 <= i < |rs| ==> rs[i] != map[]
  {
    if blocks == [] then []
    else
      var last := BlockRecord(blocks[|blocks| - 1]);
      RecordsOfBlocks(blocks[..|blocks| - 1]) + (if last.Some? then [last.value] else [])
  }

  /** The records `parseRecords` returns for a whole ADI text. */
  function ParsedRecords(adif: string): seq<Record> {
    RecordsOfBlocks(SplitCI(RecordsSection(adif), Eor))
  }

  /** `parseRecords`. */
  method ParseRecords(adifData: string) returns (records: seq<Record>)
    ensures records == ParsedRecords(adifData)
  {
    records := [];
    var recordsSection := RecordsSection(adifData);
    var recordMatches := SplitCI(recordsSection, Eor);
    var b := 0;
    while b < |recordMatches|
      invariant b <= |recordMatches|
      invariant records == RecordsOfBlocks(recordMatches[..b])
    {
      RecordsOfBlocksStep(recordMatches, b);
      var record := ParseBlock(recordMatches[b]);
      if record.Some? {
        records := records + [record.value];
      }
      b := b + 1;
    }
    assert recordMatches[..b] == recordMatches;
  }

  lemma RecordsOfBlocksStep(blocks: seq<string>, b: nat)
    requires b < |blocks|
    ensures var last := BlockRecord(blocks[b]);
      RecordsOfBlocks(blocks[..b + 1]) == RecordsOfBlocks(blocks[..b]) + (if last.Some? then [last.value] else [])
  {
    assert blocks[..b + 1][..b] == blocks[..b];
  }

  /** One turn of the `parseRecords` loop: a blank block or one without fields adds nothing. */
  method ParseBlock(recordText: string) returns (record: Option<Record>)
    ensures record == BlockRecord(recordText)
  {
    record := None;
    if Trim(recordText) != [] {
      var fieldMatches := AllFields(recordText, 0);
      if fieldMatches != [] {
        var r := AssignFields(fieldMatches, false);
        record := Some(r);
      }
    }
  }

  /**
   * Shape of the parsed records: never more records than `<eor>`-separated
   * blocks, none of them empty, every name lower-case and every value trimmed.
   */
  lemma ParsedRecordsShape(adif: string)
    ensures |ParsedRecords(adif)| <= |SplitCI(RecordsSection(adif), Eor)|
    ensures forall i :: 0 <= i < |ParsedRecords(adif)| ==> ParsedRecords(adif)[i] != map[]
    ensures forall i, k :: 0 <= i < |ParsedRecords(adif)| && k in ParsedRecords(adif)[i] ==>
              LowerStr(k) == k && IsTrimmed(ParsedRecords(adif)[i][k])
  {
    var blocks := SplitCI(RecordsSection(adif), Eor);
    RecordsComeFromBlocks(blocks);
  }

  lemma {:induction false} RecordsComeFromBlocks(blocks: seq<string>)
    ensures forall i, k :: 0 <= i < |RecordsOfBlocks(blocks)| && k in RecordsOfBlocks(blocks)[i] ==>
              LowerStr(k) == k && IsTrimmed(RecordsOfBlocks(blocks)[i][k])
  {
    if blocks != [] {
      RecordsComeFromBlocks(blocks[..|blocks| - 1]);
      var b := blocks[|blocks| - 1];
      if BlockRecord(b).Some? {
        RecordOfShape(AllFields(b, 0), false);
      }
    }
  }

  // ---------------------------------------------------------------------------
  // calculateDXCCStats

  /** A QSO counts as confirmed when either QSL-received field is exactly "Y". */
  predicate Confirmed(r: Record) {
    ("qsl_rcvd" in r && r["qsl_rcvd"] == "Y") || ("app_lotw_qsl_rcvd" in r && r["app_lotw_qsl_rcvd"] == "Y")
  }

  /** `record.dxcc` is truthy: present and non-empty. */
  predicate HasDxcc(r: Record) {
    "dxcc" in r && r["dxcc"] != ""
  }

  function DxccCode(r: Record): string
    requires HasDxcc(r)
  {
    Trim(r["dxcc"])
  }

  /** The record is tallied under an entity: its code is neither "0" nor empty. */
  predicate Counted(r: Record) {
    HasDxcc(r) && DxccCode(r) != "0" && DxccCode(r) != ""
  }

  /** Number of records tallied under `code`. */
  function QsoOf(rs: seq<Record>, code: string): nat {
    if rs == [] then 0
    else
      var r := rs[|rs| - 1];
      QsoOf(rs[..|rs| - 1], code) + (if Counted(r) && DxccCode(r) == code then 1 else 0)
  }

  /** The entity codes the records are tallied under. */
  function Codes(rs: seq<Record>): set<string> {
    if rs == [] then {}
    else
      var r := rs[|rs| - 1];
      Codes(rs[..|rs| - 1]) + (if Counted(r) then {DxccCode(r)} else {})
  }

  /** The entity codes carried by at least one confirmed record. */
  function ConfirmedCodes(rs: seq<Record>): set<string> {
    if rs == [] then {}
    else
      var r := rs[|rs| - 1];
      ConfirmedCodes(rs[..|rs| - 1]) + (if Counted(r) && Confirmed(r) then {DxccCode(r)} else {})
  }

  /** Number of confirmed records with a non-empty `dxcc` field, entity 0 included. */
  function QslRecords(rs: seq<Record>): nat {
    if rs == [] then 0
    else
      var r := rs[|rs| - 1];
      QslRecords(rs[..|rs| - 1]) + (if HasDxcc(r) && Confirmed(r) then 1 else 0)
  }

  /** The `dxcc_stats` object: one entry per tallied code. */
  function DxccMap(rs: seq<Record>): map<string, Entry> {
    map c | c in Codes(rs) :: Entry(QsoOf(rs, c), if c in ConfirmedCodes(rs) then 1 else 0)
  }

  datatype Stats = Stats(totalQso: nat, totalQsl: nat, dxccConfirmed: nat, dxcc: map<string, Entry>)

  /** The entries with `qsl > 0`. */
  function ConfirmedEntries(m: map<string, Entry>): set<string> {
    set c | c in m && m[c].qsl > 0
  }

  /** What `calculateDXCCStats` returns for `rs`. */
  function StatsOf(rs: seq<Record>): Stats {
    var m := DxccMap(rs);
    Stats(|rs|, QslRecords(rs), |ConfirmedEntries(m)|, m)
  }

  /** One record's effect on the counters, the way the loop body applies it. */
  function Tally(m: map<string, Entry>, r: Record): map<string, Entry> {
    if Counted(r) then
      var c := DxccCode(r);
      var e := if c in m then m[c] else Entry(0, 0);
      m[c := Entry(e.qso + 1, if Confirmed(r) then 1 else e.qsl)]
    else m
  }

  lemma DxccMapStep(rs: seq<Record>, r: Record)
    ensures DxccMap(rs + [r]) == Tally(DxccMap(rs), r)
  {
    var rs' := rs + [r];
    assert rs'[..|rs'| - 1] == rs;
    if Counted(r) {
      var c := DxccCode(r);
      if c !in Codes(rs) {
        UntalliedHasNoQsos(rs, c);
        ConfirmedAreTallied(rs);
      }
      var lhs := DxccMap(rs');
      var rhs := Tally(DxccMap(rs), r);
      assert lhs.Keys == rhs.Keys;
      forall k | k in lhs ensures lhs[k] == rhs[k] {}
    }
  }

  lemma {:induction false} UntalliedHasNoQsos(rs: seq<Record>, c: string)
    requires c !in Codes(rs)
    ensures QsoOf(rs, c) == 0
  {
    if rs != [] {
      UntalliedHasNoQsos(rs[..|rs| - 1], c);
    }
  }

  lemma QslRecordsStep(rs: seq<Record>, r: Record)
    ensures QslRecords(rs + [r]) == QslRecords(rs) + (if HasDxcc(r) && Confirmed(r) then 1 else 0)
  {
    var rs' := rs + [r];
    assert rs'[..|rs'| - 1] == rs;
  }

  /** `calculateDXCCStats`. */
  method CalculateDXCCStats(records: seq<Record>) returns (stats: Stats)
    ensures stats == StatsOf(records)
  {
    var dxccStats: map<string, Entry> := map[];
    var totalQso := 0;
    var totalQsl := 0;
    var i := 0;
    while i < |records|
      invariant i <= |records|
      invariant totalQso == i
      invariant totalQsl == QslRecords(records[..i])
      invariant dxccStats == DxccMap(records[..i])
    {
      var record := records[i];
      assert records[..i + 1] == records[..i] + [record];
      DxccMapStep(records[..i], record);
      QslRecordsStep(records[..i], record);
      totalQso := totalQso + 1;
      var confirmed: nat;
      dxccStats, confirmed := CountRecord(dxccStats, record);
      totalQsl := totalQsl + confirmed;
      i := i + 1;
    }
    assert records[..i] == records;
    var dxccConfirmed := |set c | c in dxccStats && dxccStats[c].qsl > 0|;
    stats := Stats(totalQso, totalQsl, dxccConfirmed, dxccStats);
  }

  /**
   * The loop body of `calculateDXCCStats` for one record: its entity's
   * counters move as `Tally` says, and a confirmed record with a `dxcc`
   * field counts one QSL.
   */
  method CountRecord(dxccStats: map<string, Entry>, record: Record) returns (after: map<string, Entry>, qsl: nat)
    requires forall c :: c in dxccStats ==> dxccStats[c].qsl <= 1
    ensures after == Tally(dxccStats, record)
    ensures qsl == if HasDxcc(record) && Confirmed(record) then 1 else 0
  {
    after, qsl := dxccStats, 0;
    var isQslConfirmed := Confirmed(record);
    if HasDxcc(record) {
      var dxccCode := Trim(record["dxcc"]);
      if dxccCode != "0" && dxccCode != "" {
        if dxccCode !in after {
          after := after[dxccCode := Entry(0, 0)];
        }
        after := after[dxccCode := after[dxccCode].(qso := after[dxccCode].qso + 1)];
        if isQslConfirmed {
          qsl := 1;
          if after[dxccCode].qsl == 0 {
            after := after[dxccCode := after[dxccCode].(qsl := 1)];
          }
        }
      } else if isQslConfirmed {
        qsl := 1;
      }
    }
  }

  lemma QslAtMostOne(rs: seq<Record>, c: string)
    requires c in DxccMap(rs)
    ensures DxccMap(rs)[c].qsl <= 1
  {
  }

  // Properties of the counters

  /** A code is tallied exactly when some record carries it (and it is neither "0" nor empty). */
  lemma CodesAreCarried(rs: seq<Record>, c: string)
    ensures c in Codes(rs) <==> exists i :: 0 <= i < |rs| && Counted(rs[i]) && DxccCode(rs[i]) == c
    ensures c in ConfirmedCodes(rs) <==> exists i :: 0 <= i < |rs| && Counted(rs[i]) && Confirmed(rs[i]) && DxccCode(rs[i]) == c
  {
    CodeCarried(rs, c);
    ConfirmedCodeCarried(rs, c);
  }

  lemma {:induction false} CodeCarried(rs: seq<Record>, c: string)
    ensures c in Codes(rs) <==> exists i :: 0 <= i < |rs| && Counted(rs[i]) && DxccCode(rs[i]) == c
  {
    if rs != [] {
      var n := |rs| - 1;
      var init := rs[..n];
      CodeCarried(init, c);
      if c in Codes(rs) {
        if c in Codes(init) {
          var i :| 0 <= i < |init| && Counted(init[i]) && DxccCode(init[i]) == c;
          assert rs[i] == init[i];
        } else {
          assert Counted(rs[n]) && DxccCode(rs[n]) == c;
        }
      }
      if exists i :: 0 <= i < |rs| && Counted(rs[i]) && DxccCode(rs[i]) == c {
        var i :| 0 <= i < |rs| && Counted(rs[i]) && DxccCode(rs[i]) == c;
        if i < n {
          assert init[i] == rs[i];
        }
      }
    }
  }

  lemma {:induction false} ConfirmedCodeCarried(rs: seq<Record>, c: string)
    ensures c in ConfirmedCodes(rs) <==> exists i :: 0 <= i < |rs| && Counted(rs[i]) && Confirmed(rs[i]) && DxccCode(rs[i]) == c
  {
    if rs != [] {
      var n := |rs| - 1;
      var init := rs[..n];
      ConfirmedCodeCarried(init, c);
      if c in ConfirmedCodes(rs) {
        if c in ConfirmedCodes(init) {
          var i :| 0 <= i < |init| && Counted(init[i]) && Confirmed(init[i]) && DxccCode(init[i]) == c;
          assert rs[i] == init[i];
        } else {
          assert Counted(rs[n]) && Confirmed(rs[n]) && DxccCode(rs[n]) == c;
        }
      }
      if exists i :: 0 <= i < |rs| && Counted(rs[i]) && Confirmed(rs[i]) && DxccCode(rs[i]) == c {
        var i :| 0 <= i < |rs| && Counted(rs[i]) && Confirmed(rs[i]) && DxccCode(rs[i]) == c;
        if i < n {
          assert init[i] == rs[i];
        }
      }
    }
  }

  /** Every tallied code has at least one QSO behind it. */
  lemma {:induction false} CodesHaveQsos(rs: seq<Record>, c: string)
    requires c in Codes(rs)
    ensures QsoOf(rs, c) >= 1
  {
    var init := rs[..|rs| - 1];
    if c !in Codes(init) {
      assert Counted(rs[|rs| - 1]) && DxccCode(rs[|rs| - 1]) == c;
    } else {
      CodesHaveQsos(init, c);
    }
  }

  /** Each confirmed code is also tallied. */
  lemma {:induction false} ConfirmedAreTallied(rs: seq<Record>)
    ensures ConfirmedCodes(rs) <= Codes(rs)
  {
    if rs != [] {
      ConfirmedAreTallied(rs[..|rs| - 1]);
    }
  }

  /**
   * The shape of `dxcc_stats`: no key "0" or "", `qsl` is 0 or 1 and at most
   * `qso`, and `qsl` is 1 exactly when a confirmed record carries the code.
   */
  lemma DxccEntries(rs: seq<Record>, c: string)
    requires c in StatsOf(rs).dxcc
    ensures c != "0" && c != ""
    ensures var e := StatsOf(rs).dxcc[c]; e.qsl <= 1 && e.qsl <= e.qso && e.qso == QsoOf(rs, c)
    ensures StatsOf(rs).dxcc[c].qsl == 1 <==>
              exists i :: 0 <= i < |rs| && Counted(rs[i]) && Confirmed(rs[i]) && DxccCode(rs[i]) == c
  {
    CodesAreCarried(rs, c);
    CodesHaveQsos(rs, c);
  }

  /** Each code carried by a counted record is a key of `dxcc_stats`. */
  lemma DxccKeys(rs: seq<Record>, i: nat)
    requires i < |rs| && Counted(rs[i])
    ensures DxccCode(rs[i]) in StatsOf(rs).dxcc
  {
    CodesAreCarried(rs, DxccCode(rs[i]));
  }

  /** `dxcc_confirmed` counts the confirmed codes; it is bounded by the entry count and by `total_qsl`. */
  lemma DxccConfirmedBounds(rs: seq<Record>)
    ensures StatsOf(rs).dxccConfirmed == |ConfirmedCodes(rs)|
    ensures StatsOf(rs).dxccConfirmed <= |StatsOf(rs).dxcc|
    ensures StatsOf(rs).dxccConfirmed <= StatsOf(rs).totalQsl
  {
    var m := DxccMap(rs);
    ConfirmedAreTallied(rs);
    assert ConfirmedEntries(m) == ConfirmedCodes(rs);
    assert m.Keys == Codes(rs);
    SubsetCard(ConfirmedCodes(rs), Codes(rs));
    ConfirmedCodesAtMostQsls(rs);
  }

  lemma SubsetCard(a: set<string>, b: set<string>)
    requires a <= b
    ensures |a| <= |b|
  {
    assert b == a + (b - a);
  }

  lemma {:induction false} ConfirmedCodesAtMostQsls(rs: seq<Record>)
    ensures |ConfirmedCodes(rs)| <= QslRecords(rs)
  {
    if rs != [] {
      ConfirmedCodesAtMostQsls(rs[..|rs| - 1]);
    }
  }

  /** `total_qsl` never exceeds `total_qso`. */
  lemma {:induction false} QslsAtMostQsos(rs: seq<Record>)
    ensures StatsOf(rs).totalQsl <= StatsOf(rs).totalQso
  {
    if rs != [] {
      QslsAtMostQsos(rs[..|rs| - 1]);
    }
  }

  // ---------------------------------------------------------------------------
  // extractTimestamps

  const LastQsoRxTag := "APP_LoTW_LASTQSORX"
  const RxQslTag := "APP_LoTW_RXQSL"

  /** The header: the text before the first `<eoh>`, or "" when there is none. */
  function HeaderOf(adif: string): (h: string)
    ensures h <= adif
    ensures NoCI(h, Eoh) || h == ""
    ensures FindCI(adif, Eoh, 0).None? ==> h == ""
    ensures FindCI(adif, Eoh, 0).Some? ==> |h| == FindCI(adif, Eoh, 0).value
  {
    match FindCI(adif, Eoh, 0)
    case None => ""
    case Some(i) =>
      assert forall j :: 0 <= j <= i ==> (MatchCIAt(adif[..i], j, Eoh) ==> MatchCIAt(adif, j, Eoh));
      adif[..i]
  }

  /** A tag's value cut to its declared length and trimmed. */
  function TagText(s: string, t: Tag): (v: string)
    requires t.valueStart <= t.valueEnd <= |s|
    ensures IsTrimmed(v) && |v| <= t.declared
  {
    TrimIsTrimmed(Cut(ValueOf(s, t), t.declared));
    TrimShortens(Cut(ValueOf(s, t), t.declared));
    Trim(Cut(ValueOf(s, t), t.declared))
  }

  lemma TrimShortens(s: string)
    ensures |Trim(s)| <= |s|
  {
  }

  /** The first occurrence of `<tag:n>` in `s`, as its trimmed value. */
  function FirstTagText(s: string, tag: string): Option<string> {
    match FirstTag(s, tag, UpToLt, 0)
    case None => None
    case Some(t) => Some(TagText(s, t))
  }

  /** The values of the tag matches `ts` of `s`, in order. */
  function TagTexts(s: string, ts: seq<Tag>): (vs: seq<string>)
    requires forall k :: 0 <= k < |ts| ==> ts[k].valueStart <= ts[k].valueEnd <= |s|
    ensures |vs| == |ts|
  {
    if ts == [] then [] else TagTexts(s, ts[..|ts| - 1]) + [TagText(s, ts[|ts| - 1])]
  }

  /** Every `APP_LoTW_RXQSL` value of the records section, left to right (none for an empty text). */
  function BodyQslTexts(adif: string): seq<string> {
    if adif == "" then []
    else
      var section := RecordsSection(adif);
      TagTexts(section, AllTags(section, RxQslTag, UpToLt, 0))
  }

  /** The candidates for the latest QSL stamp: the header's value first, then the body's. */
  function QslCandidates(header: string, adif: string): seq<string> {
    OptionToSeq(FirstTagText(header, RxQslTag)) + BodyQslTexts(adif)
  }

  /**
   * `new Date(text).getTime()` for the LoTW stamp format, as a key that orders
   * instants: the fourteen digits of a well-formed `YYYY-MM-DD HH:MM:SS`
   * read as one number, and None (NaN) for anything else.
   */
  function LotwKey(s: string): (k: Option<nat>)
    ensures k.Some? ==> k.value > 0
  {
    if |s| == 19 && s[4] == '-' && s[7] == '-' && s[10] == ' ' && s[13] == ':' && s[16] == ':'
       && AllDigits(s[..4]) && AllDigits(s[5..7]) && AllDigits(s[8..10])
       && AllDigits(s[11..13]) && AllDigits(s[14..16]) && AllDigits(s[17..])
    then
      var year := DigitsValue(s[..4]);
      var month := DigitsValue(s[5..7]);
      var day := DigitsValue(s[8..10]);
      var hour := DigitsValue(s[11..13]);
      var minute := DigitsValue(s[14..16]);
      var second := DigitsValue(s[17..]);
      if 1 <= month <= 12 && 1 <= day <= 31 && hour <= 23 && minute <= 59 && second <= 59 then
        Some(year * 10000000000 + month * 100000000 + day * 1000000 + hour * 10000 + minute * 100 + second)
      else None
    else None
  }

  /** Whether a candidate with key `k` displaces the current choice with key `latest` (`!latest || k > latest`). */
  predicate Displaces(k: Option<nat>, latest: Option<nat>) {
    latest.None? || (k.Some? && k.value > latest.value)
  }

  /** Index of the candidate the scan keeps. */
  function LatestIndex(cands: seq<string>): (r: Option<nat>)
    ensures r.Some? <==> cands != []
    ensures r.Some? ==> r.value < |cands|
  {
    if cands == [] then None
    else
      var init := cands[..|cands| - 1];
      var prev := LatestIndex(init);
      if prev.None? || Displaces(LotwKey(cands[|cands| - 1]), LotwKey(init[prev.value])) then Some(|cands| - 1)
      else prev
  }

  /**
   * The kept candidate has the greatest key among the well-formed candidates,
   * and it is the first of those with that key.
   */
  lemma {:induction false} LatestIsGreatest(cands: seq<string>, i: nat)
    requires i < |cands| && LotwKey(cands[i]).Some?
    ensures var j := LatestIndex(cands).value;
      LotwKey(cands[j]).Some? && LotwKey(cands[i]).value <= LotwKey(cands[j]).value
      && (i < j ==> LotwKey(cands[i]).value < LotwKey(cands[j]).value)
  {
    var n := |cands| - 1;
    var init := cands[..n];
    if n > 0 {
      var p := LatestIndex(init).value;
      assert init[p] == cands[p];
      if i < n {
        LatestIsGreatest(init, i);
        assert init[i] == cands[i];
      }
      if Displaces(LotwKey(cands[n]), LotwKey(init[p])) {
        assert LatestIndex(cands) == Some(n);
      } else {
        assert LatestIndex(cands) == Some(p);
      }
    }
  }

  /** With no well-formed candidate the scan keeps the last one. */
  lemma {:induction false} LatestWithoutValidStamps(cands: seq<string>)
    requires cands != []
    requires forall i :: 0 <= i < |cands| ==> LotwKey(cands[i]).None?
    ensures LatestIndex(cands) == Some(|cands| - 1)
  {
    var n := |cands| - 1;
    if n > 0 {
      var init := cands[..n];
      var p := LatestIndex(init).value;
      assert init[p] == cands[p];
    }
  }

  /** The candidate the scan keeps, if any. */
  function Latest(cands: seq<string>): Option<string> {
    match LatestIndex(cands)
    case None => None
    case Some(j) => Some(cands[j])
  }

  lemma LatestStep(cands: seq<string>, c: string)
    ensures var prev := Latest(cands);
      Latest(cands + [c]) ==
        if prev.None? || Displaces(LotwKey(c), LotwKey(prev.value)) then Some(c) else prev
  {
    var cs := cands + [c];
    assert cs[..|cs| - 1] == cands;
    if LatestIndex(cands).Some? {
      assert cs[LatestIndex(cands).value] == cands[LatestIndex(cands).value];
    }
  }

  /** The two timestamp members of the snapshot (None: the key is absent). */
  datatype Timestamps = Timestamps(lastQsoRx: Option<string>, lastQsl: Option<string>)

  /** What `extractTimestamps` returns. */
  function TimestampsOf(header: string, adif: string): Timestamps {
    var latest := Latest(QslCandidates(header, adif));
    Timestamps(FirstTagText(header, LastQsoRxTag),
               if latest.Some? && latest.value != "" then latest else None)
  }

  /**
   * The comparison loop of `extractTimestamps`: starting from the header's
   * value, each body value replaces the kept one when the kept stamp is
   * missing or invalid, or when its own stamp is strictly later.
   */
  method KeepLatestQsl(headerValue: Option<string>, qslValues: seq<string>) returns (latestQslValue: Option<string>)
    ensures latestQslValue == Latest(OptionToSeq(headerValue) + qslValues)
  {
    var latestQslTimestamp: Option<nat> := None;
    latestQslValue := headerValue;
    if latestQslValue.Some? {
      latestQslTimestamp := LotwKey(latestQslValue.value);
    }
    ghost var head := OptionToSeq(headerValue);
    if headerValue.Some? {
      LatestStep([], headerValue.value);
      assert [] + head == head;
    }
    ghost var seen := head;
    var i := 0;
    while i < |qslValues|
      invariant i <= |qslValues|
      invariant seen == head + qslValues[..i]
      invariant latestQslValue == Latest(seen)
      invariant latestQslTimestamp == if latestQslValue.Some? then LotwKey(latestQslValue.value) else None
    {
      var qslValue := qslValues[i];
      var qslTimestamp := LotwKey(qslValue);
      LatestStep(seen, qslValue);
      if Displaces(qslTimestamp, latestQslTimestamp) {
        latestQslTimestamp := qslTimestamp;
        latestQslValue := Some(qslValue);
      }
      seen := seen + [qslValue];
      assert qslValues[..i + 1] == qslValues[..i] + [qslValue];
      i := i + 1;
    }
    assert qslValues[..i] == qslValues;
  }

  function OptionToSeq<T>(o: Option<T>): (s: seq<T>)
    ensures |s| <= 1
  {
    match o
    case None => []
    case Some(v) => [v]
  }

  /** `extractTimestamps`. */
  method ExtractTimestamps(header: string, adifData: string) returns (timestamps: Timestamps)
    ensures timestamps == TimestampsOf(header, adifData)
  {
    var qsoRxValue := FirstTagText(header, LastQsoRxTag);
    var headerQsl := FirstTagText(header, RxQslTag);
    var qslValues := BodyQslTexts(adifData);
    var latestQslValue := KeepLatestQsl(headerQsl, qslValues);
    var lastQsl := if latestQslValue.Some? && latestQslValue.value != "" then latestQslValue else None;
    timestamps := Timestamps(qsoRxValue, lastQsl);
  }


  // ---------------------------------------------------------------------------
  // parseADIFToJSON

  /**
   * The two clock readings of a parse: `new Date()` for `last_updated`,
   * then `Date.now()` for `last_updated_timestamp`.
   */
  datatype ParseClock = ParseClock(iso: nat, ms: nat)

  /**
   * The snapshot `parseADIFToJSON` builds from an ADI text with the clock
   * readings `t`: the header timestamps, the time of the parse (as text and
   * as epoch milliseconds), the three totals and the per-entity counters.
   */
  function SnapshotOf(adif: string, t: ParseClock): Snapshot {
    var timestamps := TimestampsOf(HeaderOf(adif), adif);
    var stats := StatsOf(ParsedRecords(adif));
    Snapshot(
      timestamps.lastQsoRx,
      timestamps.lastQsl,
      Some(Stamp(IsoText(t.iso), Some(t.iso))),
      Some(t.ms),
      Some(stats.totalQso),
      Some(stats.totalQsl),
      Some(stats.dxccConfirmed),
      Entries(stats.dxcc),
      None)
  }

  /**
   * The totals of a fresh snapshot agree with its records: `total_qso` counts
   * the parsed records, `total_qsl <= total_qso`, `dxcc_confirmed` is at most
   * `total_qsl` and at most the number of entities, and the parse time is
   * recorded twice: the ISO text of the first reading, then the second
   * reading, which is never earlier.
   */
  lemma SnapshotTotals(adif: string, t: ParseClock)
    ensures var s := SnapshotOf(adif, t);
      && s.totalQso == Some(|ParsedRecords(adif)|)
      && s.totalQsl.Some? && s.totalQsl.value <= s.totalQso.value
      && s.dxccConfirmed.Some? && s.dxccConfirmed.value <= s.totalQsl.value
      && s.dxccStats.Entries? && s.dxccConfirmed.value <= |s.dxccStats.entries|
      && s.lastUpdated == Some(Stamp(IsoText(t.iso), Some(t.iso))) && s.lastUpdatedTimestamp == Some(t.ms)
      && (t.iso <= t.ms ==> s.lastUpdated.value.instant.value <= s.lastUpdatedTimestamp.value)
  {
    var rs := ParsedRecords(adif);
    QslsAtMostQsos(rs);
    DxccConfirmedBounds(rs);
  }

  /**
   * Right after a parse, a check at `later` skips the update exactly when a
   * positive interval is configured and fewer than that many hours have
   * passed since the instant written as `last_updated`.
   */
  lemma FreshSnapshotSkips(adif: string, t: ParseClock, config: Config, later: int)
    ensures ShouldSkipUpdate(config, SnapshotOf(adif, t).lastUpdated, later) <==>
      && "timestampCheckInterval" in config && config["timestampCheckInterval"].Num?
      && config["timestampCheckInterval"].n > 0.0
      && ((later - t.iso) as real) < config["timestampCheckInterval"].n * 3600000.0
  {
    ShouldSkipUpdateIff(config, SnapshotOf(adif, t).lastUpdated, later);
  }

  /**
   * `parseADIFToJSON(adifFilePath, c)` with the clock readings `t`: an
   * error when the file is missing; otherwise the snapshot of its text,
   * written to the context's JSON file without a backup. The write is
   * stamped with the second reading.
   */
  method ParseADIFToJSON(store: FileStore, adifFilePath: Path, c: Context, t: ParseClock) returns (r: Result<Snapshot>)
    requires store.Valid() && store.clock <= t.iso <= t.ms
    modifies store
    ensures store.Valid()
    ensures adifFilePath !in old(store.files) ==>
      r == Fail(AdifNotFound(adifFilePath)) && store.files == old(store.files) && store.clock == old(store.clock)
    ensures adifFilePath in old(store.files) ==>
      && r == Ok(SnapshotOf(TextOf(old(store.files)[adifFilePath].content), t))
      && store.files == old(store.files)[c.jsonFile := File(Json(r.value), t.ms)]
      && store.clock == t.ms
  {
    if !store.Exists(adifFilePath) {
      return Fail(AdifNotFound(adifFilePath));
    }
    var adifData := TextOf(store.files[adifFilePath].content);
    var header := HeaderOf(adifData);
    var timestamps := ExtractTimestamps(header, adifData);
    var records := ParseRecords(adifData);
    var stats := CalculateDXCCStats(records);
    var result := Snapshot(
      timestamps.lastQsoRx, timestamps.lastQsl,
      Some(Stamp(IsoText(t.iso), Some(t.iso))), Some(t.ms),
      Some(stats.totalQso), Some(stats.totalQsl), Some(stats.dxccConfirmed),
      Entries(stats.dxcc), None);
    var jsonFilePath := c.jsonFile;
    SaveJsonWithoutContext(store.files, result, jsonFilePath, t.ms);
    var _ := store.SaveJSONData(result, Some(jsonFilePath), None, t.ms);
    r := Ok(result);
  }
}
