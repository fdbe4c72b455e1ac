/** What `writeValues` makes of each logged frame (the reading written to the
    sheet and the running `temp` total), and the line filter of
    `recordFragmenter` that picks the logged frames out of a record file. */
module Report {
  import opened Text
  import opened Numerals
  import opened Checksum
  import opened FrameParser

  /** A logged frame `writeValues` handles without raising: `hexParser` accepts
      it and `checksumChecker` can read its last two characters as hex. */
  predicate Decodable(raw: string) {
    var s := RemoveNewlines(raw);
    Parsable(s) && IsNumeral(s[|s| - 2..], 16)
  }

  /** `checksumChecker(hexParser(data)["hex_list"], hexParser(data)["checksum"])`:
      the payload tokens and the received checksum add up to 0xFF in the low byte. */
  predicate FrameValid(raw: string)
    requires Decodable(raw)
  {
    var s := RemoveNewlines(raw);
    IntegrityHolds(Tokens(s), s[|s| - 2..])
  }

  /** `int(hexParser(data)["dbm_response"])`: the response byte at `[36:38]`. */
  function Dbm(raw: string): (b: nat)
    requires Decodable(raw)
    ensures b <= 0xFF
  {
    ResponseByte(RemoveNewlines(raw))
  }

  /** The value written to the sheet for one frame: 0 when the checksum check
      fails, otherwise the response byte negated. */
  function Reading(raw: string): (cell: int)
    requires Decodable(raw)
    ensures -0xFF <= cell <= 0
    ensures FrameValid(raw) ==> cell == -(Dbm(raw) as int)
    ensures !FrameValid(raw) ==> cell == 0
  {
    if FrameValid(raw) then -(Dbm(raw) as int) else 0
  }

  /** What one frame adds to `temp`: 0 when the check fails, otherwise the
      (positive) response byte. */
  function Contribution(raw: string): (t: nat)
    requires Decodable(raw)
    ensures t <= 0xFF
    ensures t == -Reading(raw)
  {
    if FrameValid(raw) then Dbm(raw) else 0
  }

  predicate AllDecodable(series: seq<string>) {
    forall i :: 0 <= i < |series| ==> Decodable(series[i])
  }

  /** The column of readings for one series, row 2 first. */
  function Readings(series: seq<string>): (cells: seq<int>)
    requires AllDecodable(series)
    ensures |cells| == |series|
  {
    if |series| == 0 then []
    else Readings(series[..|series| - 1]) + [Reading(series[|series| - 1])]
  }

  /** Row `k + 2` holds the reading of frame `k`, whatever the frames around it. */
  lemma {:induction false} ReadingsAt(series: seq<string>, k: nat)
    requires AllDecodable(series) && k < |series|
    ensures Readings(series)[k] == Reading(series[k])
  {
    if k < |series| - 1 {
      ReadingsAt(series[..|series| - 1], k);
    }
  }

  /** `temp` after a series: the response bytes of the frames that pass the check. */
  function DbmTotal(series: seq<string>): nat
    requires AllDecodable(series)
  {
    if |series| == 0 then 0
    else DbmTotal(series[..|series| - 1]) + Contribution(series[|series| - 1])
  }

  function SumCells(cells: seq<int>): int {
    if |cells| == 0 then 0 else SumCells(cells[..|cells| - 1]) + cells[|cells| - 1]
  }

  /** `temp` is the sum of the column negated: the mean row is `-temp / len`. */
  lemma {:induction false} TotalIsNegatedColumnSum(series: seq<string>)
    requires AllDecodable(series)
    ensures DbmTotal(series) == -SumCells(Readings(series))
  {
    if |series| > 0 {
      var p := series[..|series| - 1];
      TotalIsNegatedColumnSum(p);
      assert Readings(series)[..|series| - 1] == Readings(p);
    }
  }

  /** Each frame adds at most 0xFF to `temp`. */
  lemma {:induction false} TotalBound(series: seq<string>)
    requires AllDecodable(series)
    ensures DbmTotal(series) <= 0xFF * |series|
  {
    if |series| > 0 {
      TotalBound(series[..|series| - 1]);
    }
  }

  /** `temp` adds up over consecutive parts of a series. */
  lemma {:induction false} TotalAppend(a: seq<string>, b: seq<string>)
    requires AllDecodable(a) && AllDecodable(b)
    ensures AllDecodable(a + b)
    ensures DbmTotal(a + b) == DbmTotal(a) + DbmTotal(b)
    decreases |b|
  {
    if |b| > 0 {
      var b' := b[..|b| - 1];
      TotalAppend(a, b');
      assert (a + b)[..|a + b| - 1] == a + b';
    } else {
      assert a + b == a;
    }
  }

  /** Frames that fail the check add nothing, so dropping them keeps `temp`. */
  lemma {:induction false} InvalidFramesAddNothing(series: seq<string>)
    requires AllDecodable(series)
    requires forall i :: 0 <= i < |series| ==> !FrameValid(series[i])
    ensures DbmTotal(series) == 0
  {
    if |series| > 0 {
      InvalidFramesAddNothing(series[..|series| - 1]);
    }
  }

  /** `hexParser(data)["hex_list"], hexParser(data)["checksum"]`: the two
      arguments `writeValues` hands to `checksumChecker`, each from a parse of
      its own. */
  method CheckArguments(data: string) returns (hexs: seq<string>, checksum: string)
    requires Decodable(data)
    ensures var s := RemoveNewlines(data); hexs == Tokens(s) && checksum == s[|s| - 2..]
  {
    var parsed := HexParser(data);
    var again := HexParser(data);
    ParseFrameHexList(data);
    ParseFrameChecksum(data);
    hexs, checksum := parsed.hexList, again.checksum;
  }

  /** The test of `writeValues` on one frame: the token list (a fresh list,
      so the append inside `checksumChecker` is lost with it) is checked
      against the received checksum. */
  method CheckFrame(data: string) returns (ok: bool)
    requires Decodable(data)
    ensures ok == FrameValid(data)
  {
    var hexs, checksum := CheckArguments(data);
    var tokens := new HexList(hexs);
    ok := ChecksumChecker(tokens, checksum);
  }

  /** `int(hexParser(data)["dbm_response"])`. */
  method ReadDbm(data: string) returns (d: int)
    requires Decodable(data)
    ensures d == Dbm(data)
  {
    var parsed := HexParser(data);
    ParseFrameDbm(data);
    d := Value(parsed.dbmResponse, 10);
  }

  /** The body of the loop of `writeValues` for one frame: the reading for
      its row is 0 when the check fails, otherwise the negated response byte. */
  method WriteCell(data: string) returns (cell: int)
    requires Decodable(data)
    ensures cell == Reading(data)
  {
    var ok := CheckFrame(data);
    if !ok {
      cell := 0;
    } else {
      var d := ReadDbm(data);
      cell := -d;
    }
  }

  /** The loop of `writeValues` over one series: the reading of each frame is
      written to the next row while `temp` accumulates. `cells[k]` is the
      value of sheet row `k + 2`. */
  method WriteColumn(result: seq<string>) returns (cells: seq<int>, temp: int)
    requires AllDecodable(result)
    ensures cells == Readings(result)
    ensures temp == DbmTotal(result)
  {
    cells := [];
    temp := 0;
    for i := 0 to |result|
      invariant cells == Readings(result[..i])
      invariant temp == -SumCells(cells)
    {
      var cell := WriteCell(result[i]);
      assert result[..i + 1][..i] == result[..i];
      assert (cells + [cell])[..|cells|] == cells;
      cells := cells + [cell];
      temp := temp - cell;
    }
    assert result[..|result|] == result;
    TotalIsNegatedColumnSum(result);
  }

  /** The column and the `temp` that `writeValues` produces for one series. */
  predicate WrittenAs(series: seq<string>, cells: seq<int>, temp: int)
    requires AllDecodable(series)
  {
    cells == Readings(series) && temp == DbmTotal(series)
  }

  /** `writeValues` over every series: one column and one `temp` per series. */
  method WriteValues(results: seq<seq<string>>) returns (columns: seq<seq<int>>, temps: seq<int>)
    requires forall j :: 0 <= j < |results| ==> AllDecodable(results[j])
    ensures |columns| == |temps| == |results|
    ensures forall j :: 0 <= j < |results| ==> WrittenAs(results[j], columns[j], temps[j])
  {
    columns, temps := [], [];
    for j := 0 to |results|
      invariant |columns| == |temps| == j
      invariant forall m :: 0 <= m < j ==> WrittenAs(results[m], columns[m], temps[m])
    {
      var cells, temp := WriteColumn(results[j]);
      assert WrittenAs(results[j], cells, temp);
      columns, temps := columns + [cells], temps + [temp];
    }
  }

  /** A line `recordFragmenter` reads without an `IndexError`: it has a third
      comma-separated field, and a fourth when the third is "RECV". */
  predicate HasFields(record: string) {
    var fields := Split(record, ',');
    |fields| >= 3 && (fields[2] == "RECV" ==> |fields| >= 4)
  }

  predicate IsRecv(record: string) {
    var fields := Split(record, ',');
    |fields| >= 4 && fields[2] == "RECV"
  }

  /** The fourth fields of the "RECV" lines, in file order. */
  function RecvData(records: seq<string>): seq<string> {
    if |records| == 0 then []
    else
      var last := records[|records| - 1];
      RecvData(records[..|records| - 1]) + (if IsRecv(last) then [Split(last, ',')[3]] else [])
  }

  /** `records[2:]`: the two header lines are skipped; fewer lines give nothing. */
  function Body(records: seq<string>): (body: seq<string>)
    ensures |records| >= 2 ==> records == records[..2] + body
    ensures |records| < 2 ==> body == []
  {
    if |records| < 2 then [] else records[2..]
  }

  /** The inner loop of `recordFragmenter`: the fourth field of every "RECV"
      line of one file's body, in order. */
  method FilterRecv(body: seq<string>) returns (results: seq<string>)
    requires forall i :: 0 <= i < |body| ==> HasFields(body[i])
    ensures results == RecvData(body)
  {
    results := [];
    for i := 0 to |body|
      invariant results == RecvData(body[..i])
    {
      var fragmented := Split(body[i], ',');
      assert HasFields(body[i]);
      if fragmented[2] == "RECV" {
        results := results + [fragmented[3]];
      }
      assert body[..i + 1][..i] == body[..i];
    }
    assert body[..|body|] == body;
  }

  /** `recordFragmenter`, given the lines of each file (with `readlines`' line
      endings): one list per file of the fourth fields of its "RECV" lines. */
  method RecordFragmenter(files: seq<seq<string>>) returns (resultList: seq<seq<string>>)
    requires forall j, i :: 0 <= j < |files| && 2 <= i < |files[j]| ==> HasFields(files[j][i])
    ensures |resultList| == |files|
    ensures forall j :: 0 <= j < |files| ==> resultList[j] == RecvData(Body(files[j]))
  {
    resultList := [];
    for j := 0 to |files|
      invariant |resultList| == j
      invariant forall m :: 0 <= m < j ==> resultList[m] == RecvData(Body(files[m]))
    {
      var body := Body(files[j]);
      forall i | 0 <= i < |body|
        ensures HasFields(body[i])
      {
        assert body[i] == files[j][i + 2];
      }
      var results := FilterRecv(body);
      resultList := resultList + [results];
    }
  }

  /** Filtering consecutive parts of a file and putting the results together
      is filtering the whole: the order of the lines is kept. */
  lemma {:induction false} RecvDataAppend(a: seq<string>, b: seq<string>)
    ensures RecvData(a + b) == RecvData(a) + RecvData(b)
    decreases |b|
  {
    if |b| > 0 {
      var b' := b[..|b| - 1];
      RecvDataAppend(a, b');
      assert (a + b)[..|a + b| - 1] == a + b';
    } else {
      assert a + b == a;
    }
  }

  /** Exactly the fourth fields of the "RECV" lines are kept. */
  lemma {:induction false} RecvDataMembers(records: seq<string>, x: string)
    ensures x in RecvData(records) <==>
      exists i :: 0 <= i < |records| && IsRecv(records[i]) && Split(records[i], ',')[3] == x
  {
    if |records| > 0 {
      var p := records[..|records| - 1];
      RecvDataMembers(p, x);
      assert forall i :: 0 <= i < |p| ==> p[i] == records[i];
    }
  }

  /** No line yields more than one value. */
  lemma {:induction false} RecvDataLength(records: seq<string>)
    ensures |RecvData(records)| <= |records|
  {
    if |records| > 0 {
      RecvDataLength(records[..|records| - 1]);
    }
  }

  /** A line written as comma-separated fields without commas inside them,
      whose third field is "RECV", gives back its fourth field. */
  lemma RecvLineRoundTrip(fields: seq<string>)
    requires |fields| >= 4 && fields[2] == "RECV"
    requires forall i :: 0 <= i < |fields| ==> ',' !in fields[i]
    ensures RecvData([Join(fields, ',')]) == [fields[3]]
  {
    SplitJoin(fields, ',');
    assert [Join(fields, ',')][..0] == [];
  }
}
