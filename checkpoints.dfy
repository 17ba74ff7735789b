/** The checkpoint table (Checkpoints.cpp): block heights whose hash is
    pinned, loaded from a file or from DNS records, and the queries the
    blockchain asks of it.

    The table is an ordered map from height to hash. Its ordered walk and
    its greatest key are modelled by `Min` and `Max` over the key set. */
module Checkpoints {
  import opened Wrappers
  import opened Crypto
  import opened CheckpointText

  /** The domain whose TXT records hold the checkpoints. */
  const CheckpointsDomain: string := "checkpoints.nur1labs.org"

  predicate IsMax(s: set<nat>, m: nat) {
    m in s && forall x :: x in s ==> x <= m
  }

  predicate IsMin(s: set<nat>, m: nat) {
    m in s && forall x :: x in s ==> m <= x
  }

  lemma {:induction false} MaxExists(s: set<nat>)
    requires s != {}
    ensures exists m :: IsMax(s, m)
  {
    var y :| y in s;
    if s == {y} {
      assert IsMax(s, y);
    } else {
      var rest := s - {y};
      MaxExists(rest);
      var hi :| IsMax(rest, hi);
      var m := if y <= hi then hi else y;
      forall x | x in s
        ensures x <= m
      {
        if x != y {
          assert x in rest;
        }
      }
      assert IsMax(s, m);
    }
  }

  lemma {:induction false} MinExists(s: set<nat>)
    requires s != {}
    ensures exists m :: IsMin(s, m)
  {
    var y :| y in s;
    if s == {y} {
      assert IsMin(s, y);
    } else {
      var rest := s - {y};
      MinExists(rest);
      var lo :| IsMin(rest, lo);
      var m := if lo <= y then lo else y;
      forall x | x in s
        ensures m <= x
      {
        if x != y {
          assert x in rest;
        }
      }
      assert IsMin(s, m);
    }
  }

  /** The greatest height of a non-empty set. */
  function Max(s: set<nat>): (m: nat)
    requires s != {}
    ensures m in s && forall x :: x in s ==> x <= m
  {
    MaxExists(s);
    var m :| IsMax(s, m);
    m
  }

  /** The least height of a non-empty set. */
  function Min(s: set<nat>): (m: nat)
    requires s != {}
    ensures m in s && forall x :: x in s ==> m <= x
  {
    MinExists(s);
    var m :| IsMin(s, m);
    m
  }

  /** What `check_block` reports: whether the block passed and whether its height is pinned. */
  datatype CheckResult = CheckResult(passed: bool, isCheckpoint: bool)

  /** The outcome that loading the lines of a checkpoint file leaves, with the
      table it leaves behind: `Success(true)` when every row was added,
      `Success(false)` at the first rejected row, and the exception of `stoi`
      when a height cannot be read. */
  function LoadLines(table: map<nat, Hash>, lines: seq<string>): (Result<bool, StoiError>, map<nat, Hash>)
    decreases |lines|
  {
    if |lines| == 0 then (Success(true), table)
    else
      var row := SplitFields(lines[0]);
      if |row| != 2 then (Success(false), table)
      else
        match StoiAsUint32(row[0])
        case Failure(e) => (Failure(e), table)
        case Success(h) =>
          if HashFromHex(row[1]).None? || h in table then (Success(false), table)
          else LoadLines(table[h := HashFromHex(row[1]).value], lines[1..])
  }

  /** Loading never changes or drops a checkpoint already in the table. */
  lemma {:induction false} LoadLinesKeepsEntries(table: map<nat, Hash>, lines: seq<string>)
    ensures forall h :: h in table ==> h in LoadLines(table, lines).1 && LoadLines(table, lines).1[h] == table[h]
    decreases |lines|
  {
    if |lines| > 0 {
      var row := SplitFields(lines[0]);
      if |row| == 2 && StoiAsUint32(row[0]).Success? {
        var h := StoiAsUint32(row[0]).value;
        if HashFromHex(row[1]).Some? && h !in table {
          LoadLinesKeepsEntries(table[h := HashFromHex(row[1]).value], lines[1..]);
        }
      }
    }
  }

  /** A load that succeeds adds one new checkpoint per line. */
  lemma {:induction false} LoadLinesCount(table: map<nat, Hash>, lines: seq<string>)
    requires LoadLines(table, lines).0 == Success(true)
    ensures |LoadLines(table, lines).1| == |table| + |lines|
    decreases |lines|
  {
    if |lines| > 0 {
      var row := SplitFields(lines[0]);
      var h := StoiAsUint32(row[0]).value;
      var next := table[h := HashFromHex(row[1]).value];
      assert h !in table;
      assert |next| == |table| + 1;
      assert LoadLines(table, lines) == LoadLines(next, lines[1..]);
      LoadLinesCount(next, lines[1..]);
    }
  }

  /** Loading a file in two parts: the second part is read only when every
      line of the first was added, so a rejected row ends the load with the
      rows before it kept. */
  lemma {:induction false} LoadLinesAppend(table: map<nat, Hash>, first: seq<string>, second: seq<string>)
    ensures LoadLines(table, first + second) ==
      if LoadLines(table, first).0 == Success(true) then LoadLines(LoadLines(table, first).1, second)
      else LoadLines(table, first)
    decreases |first|
  {
    if |first| == 0 {
      assert first + second == second;
    } else {
      assert (first + second)[0] == first[0];
      assert (first + second)[1..] == first[1..] + second;
      var row := SplitFields(first[0]);
      if |row| == 2 && StoiAsUint32(row[0]).Success? {
        var h := StoiAsUint32(row[0]).value;
        if HashFromHex(row[1]).Some? && h !in table {
          LoadLinesAppend(table[h := HashFromHex(row[1]).value], first[1..], second);
        }
      }
    }
  }

  /** The line a table writer would emit for one checkpoint. */
  function RowText(height: nat, h: Hash): string {
    DecimalText(height) + ("," + HashToHex(h))
  }

  function WriteRows(entries: seq<(nat, Hash)>): (rows: seq<string>)
    ensures |rows| == |entries|
    ensures forall j :: 0 <= j < |rows| ==> rows[j] == RowText(entries[j].0, entries[j].1)
  {
    if |entries| == 0 then [] else [RowText(entries[0].0, entries[0].1)] + WriteRows(entries[1..])
  }

  /** The table with the entries added in order. */
  function AddAll(table: map<nat, Hash>, entries: seq<(nat, Hash)>): map<nat, Hash>
    decreases |entries|
  {
    if |entries| == 0 then table else AddAll(table[entries[0].0 := entries[0].1], entries[1..])
  }

  lemma {:induction false} QuoteFree(s: string)
    requires forall i :: 0 <= i < |s| ==> s[i] != '"'
    ensures QuoteCount(s) == 0
  {
    if |s| > 0 {
      QuoteFree(s[1..]);
    }
  }

  /** A written row splits into its height and hash fields. */
  lemma RowFields(height: nat, h: Hash)
    ensures SplitFields(RowText(height, h)) == [DecimalText(height), HashToHex(h)]
  {
    var d := DecimalText(height);
    var x := HashToHex(h);
    assert forall i :: 0 <= i < |d| ==> d[i] != '"' && d[i] != ',';
    assert forall i :: 0 <= i < |x| ==> x[i] != '"' && x[i] != ',' by {
      assert forall i :: 0 <= i < |x| ==> IsHexDigit(x[i]);
    }
    QuoteFree(d);
    QuoteFree(x);
    var fields := [d, x];
    assert JoinFields(fields) == RowText(height, h);
    SplitFieldsJoin(fields);
  }

  /** A written row is one non-empty line. */
  lemma RowLine(height: nat, h: Hash)
    ensures NoBreaks(RowText(height, h)) && RowText(height, h) != ""
  {
    var d := DecimalText(height);
    var x := HashToHex(h);
    assert forall i :: 0 <= i < |d| ==> IsDigit(d[i]);
    assert forall i :: 0 <= i < |x| ==> IsHexDigit(x[i]);
  }

  /** Loading a row of a valid new height and hash adds its checkpoint and goes on with the next line. */
  lemma LoadLinesStep(table: map<nat, Hash>, lines: seq<string>, height: nat, h: Hash)
    requires |lines| > 0 && |SplitFields(lines[0])| == 2
    requires StoiAsUint32(SplitFields(lines[0])[0]) == Success(height)
    requires HashFromHex(SplitFields(lines[0])[1]) == Some(h)
    requires height !in table
    ensures LoadLines(table, lines) == LoadLines(table[height := h], lines[1..])
  {
  }

  /** Loading a written row adds its checkpoint. */
  lemma LoadWrittenRow(table: map<nat, Hash>, rows: seq<string>, height: nat, h: Hash)
    requires |rows| > 0 && rows[0] == RowText(height, h)
    requires height <= IntMax && height !in table
    ensures LoadLines(table, rows) == LoadLines(table[height := h], rows[1..])
  {
    RowFields(height, h);
    StoiDecimal(height, "");
    assert DecimalText(height) + "" == DecimalText(height);
    HexRoundTrip(h);
    LoadLinesStep(table, rows, height, h);
  }

  /** A row that writes a height above `IntMax` as decimal digits makes
      `stoi` throw `out_of_range`, so the load stops there and the table is
      unchanged, although `AddCheckpoint` pins any `uint32_t` height. */
  lemma HighHeightRowThrows(table: map<nat, Hash>, rows: seq<string>, height: nat, h: Hash)
    requires |rows| > 0 && rows[0] == RowText(height, h)
    requires IntMax < height
    ensures LoadLines(table, rows) == (Failure(OutOfRange), table)
  {
    RowFields(height, h);
    StoiDecimal(height, "");
    assert DecimalText(height) + "" == DecimalText(height);
  }

  /** The same height written as itself minus 2^32 is an `int` that `stoi`
      reads and the narrowing to `uint32_t` turns back into the height, so
      that row loads: `-1` pins 2^32 - 1. */
  lemma NegativeHeightRowLoads(table: map<nat, Hash>, rows: seq<string>, height: nat, h: Hash)
    requires IntMax < height <= Uint32Max && height !in table
    requires |rows| > 0 && rows[0] == "-" + RowText(Uint32Max + 1 - height, h)
    ensures LoadLines(table, rows) == LoadLines(table[height := h], rows[1..])
  {
    var m := Uint32Max + 1 - height;
    NegativeRowFields(m, h);
    StoiNegativeDecimal(m, "");
    assert "-" + DecimalText(m) + "" == "-" + DecimalText(m);
    HexRoundTrip(h);
    LoadLinesStep(table, rows, height, h);
  }

  /** A row written with a minus sign splits into the signed height and the hash. */
  lemma NegativeRowFields(m: nat, h: Hash)
    ensures SplitFields("-" + RowText(m, h)) == ["-" + DecimalText(m), HashToHex(h)]
  {
    var d := "-" + DecimalText(m);
    var x := HashToHex(h);
    assert forall i :: 0 <= i < |d| ==> d[i] != '"' && d[i] != ',' by {
      assert forall i :: 1 <= i < |d| ==> IsDigit(d[i]);
    }
    assert forall i :: 0 <= i < |x| ==> x[i] != '"' && x[i] != ',' by {
      assert forall i :: 0 <= i < |x| ==> IsHexDigit(x[i]);
    }
    QuoteFree(d);
    QuoteFree(x);
    assert JoinFields([d, x]) == "-" + RowText(m, h);
    SplitFieldsJoin([d, x]);
  }

  /** Loading the rows written for entries of distinct new heights adds exactly those entries. */
  lemma {:induction false} LoadWrittenRows(table: map<nat, Hash>, entries: seq<(nat, Hash)>)
    requires forall j :: 0 <= j < |entries| ==> entries[j].0 <= IntMax && entries[j].0 !in table
    requires forall i, j :: 0 <= i < j < |entries| ==> entries[i].0 != entries[j].0
    ensures LoadLines(table, WriteRows(entries)) == (Success(true), AddAll(table, entries))
    decreases |entries|
  {
    if |entries| > 0 {
      var (height, h) := entries[0];
      var rows := WriteRows(entries);
      var next := table[height := h];
      LoadWrittenRow(table, rows, height, h);
      assert rows[1..] == WriteRows(entries[1..]);
      assert AddAll(table, entries) == AddAll(next, entries[1..]);
      forall j | 0 <= j < |entries[1..]|
        ensures entries[1..][j].0 <= IntMax && entries[1..][j].0 !in next
      {
        assert entries[1..][j] == entries[j + 1];
      }
      LoadWrittenRows(next, entries[1..]);
    }
  }

  /** A checkpoint file written line by line from a table is loaded back as that table. */
  lemma LoadWrittenFile(table: map<nat, Hash>, entries: seq<(nat, Hash)>, sep: string)
    requires IsLineBreak(sep)
    requires forall j :: 0 <= j < |entries| ==> entries[j].0 <= IntMax && entries[j].0 !in table
    requires forall i, j :: 0 <= i < j < |entries| ==> entries[i].0 != entries[j].0
    ensures LoadLines(table, SplitLines(JoinLines(WriteRows(entries), sep))) == (Success(true), AddAll(table, entries))
  {
    var rows := WriteRows(entries);
    forall j | 0 <= j < |rows|
      ensures NoBreaks(rows[j]) && rows[j] != ""
    {
      RowLine(entries[j].0, entries[j].1);
    }
    SplitLinesJoin(rows, sep);
    LoadWrittenRows(table, entries);
  }

  /** The table after reading DNS records in order: a record that parses adds
      its checkpoint unless the height is already pinned; others are skipped. */
  function MergeDnsRecords(table: map<nat, Hash>, records: seq<string>, reading: RecordReading): map<nat, Hash>
    decreases |records|
  {
    if |records| == 0 then table
    else match ReadDnsRecord(reading, records[0])
      case None => MergeDnsRecords(table, records[1..], reading)
      case Some(p) =>
        if p.0 in table then MergeDnsRecords(table, records[1..], reading)
        else MergeDnsRecords(table[p.0 := HashFromHex(p.1).value], records[1..], reading)
  }

  /** The heights of the records that parse. */
  function DnsHeights(records: seq<string>, reading: RecordReading): set<nat> {
    set j | 0 <= j < |records| && ReadDnsRecord(reading, records[j]).Some? :: ReadDnsRecord(reading, records[j]).value.0
  }

  lemma DnsHeightsCons(records: seq<string>, reading: RecordReading)
    requires |records| > 0
    ensures DnsHeights(records, reading) == DnsHeights([records[0]], reading) + DnsHeights(records[1..], reading)
  {
    var rest := records[1..];
    forall x | x in DnsHeights(records, reading)
      ensures x in DnsHeights([records[0]], reading) + DnsHeights(rest, reading)
    {
      var j :| 0 <= j < |records| && ReadDnsRecord(reading, records[j]).Some? && ReadDnsRecord(reading, records[j]).value.0 == x;
      if j > 0 {
        assert rest[j - 1] == records[j];
      } else {
        assert [records[0]][0] == records[j];
      }
    }
    forall x | x in DnsHeights([records[0]], reading) + DnsHeights(rest, reading)
      ensures x in DnsHeights(records, reading)
    {
      if x in DnsHeights(rest, reading) {
        var j :| 0 <= j < |rest| && ReadDnsRecord(reading, rest[j]).Some? && ReadDnsRecord(reading, rest[j]).value.0 == x;
        assert records[j + 1] == rest[j];
      } else {
        assert [records[0]][0] == records[0];
      }
    }
  }

  /** DNS records never override a checkpoint already in the table, and they
      add exactly the heights of the records that parse. */
  lemma {:induction false} MergeDnsKeepsEntries(table: map<nat, Hash>, records: seq<string>, reading: RecordReading)
    ensures forall h :: h in table ==> h in MergeDnsRecords(table, records, reading) && MergeDnsRecords(table, records, reading)[h] == table[h]
    ensures MergeDnsRecords(table, records, reading).Keys == table.Keys + DnsHeights(records, reading)
    decreases |records|
  {
    if |records| > 0 {
      var next := MergeDnsHead(table, records[0], reading);
      DnsHeightsCons(records, reading);
      MergeDnsUnfold(table, records, reading);
      MergeDnsHeadKeeps(table, records[0], reading);
      MergeDnsKeepsEntries(next, records[1..], reading);
    }
  }

  /** One record keeps the table's entries and adds its height when it parses. */
  lemma MergeDnsHeadKeeps(table: map<nat, Hash>, record: string, reading: RecordReading)
    ensures forall h :: h in table ==> h in MergeDnsHead(table, record, reading) && MergeDnsHead(table, record, reading)[h] == table[h]
    ensures MergeDnsHead(table, record, reading).Keys == table.Keys + DnsHeights([record], reading)
  {
    assert [record][0] == record;
  }

  /** Of several records for a new height, the first that parses decides its hash. */
  lemma {:induction false} MergeDnsFirstWins(table: map<nat, Hash>, records: seq<string>, reading: RecordReading, i: nat)
    requires i < |records| && ReadDnsRecord(reading, records[i]).Some?
    requires ReadDnsRecord(reading, records[i]).value.0 !in table
    requires forall j :: 0 <= j < i && ReadDnsRecord(reading, records[j]).Some? ==>
      ReadDnsRecord(reading, records[j]).value.0 != ReadDnsRecord(reading, records[i]).value.0
    ensures var p := ReadDnsRecord(reading, records[i]).value;
      p.0 in MergeDnsRecords(table, records, reading) && MergeDnsRecords(table, records, reading)[p.0] == HashFromHex(p.1).value
    decreases |records|
  {
    var rest := records[1..];
    var next := MergeDnsHead(table, records[0], reading);
    MergeDnsUnfold(table, records, reading);
    if i == 0 {
      MergeDnsKeepsEntries(next, rest, reading);
    } else {
      FirstWinsShift(table, records, reading, i);
      MergeDnsFirstWins(next, rest, reading, i - 1);
    }
  }

  /** The table after reading one record. */
  function MergeDnsHead(table: map<nat, Hash>, record: string, reading: RecordReading): map<nat, Hash> {
    match ReadDnsRecord(reading, record)
    case None => table
    case Some(p) => if p.0 in table then table else table[p.0 := HashFromHex(p.1).value]
  }

  lemma MergeDnsUnfold(table: map<nat, Hash>, records: seq<string>, reading: RecordReading)
    requires |records| > 0
    ensures MergeDnsRecords(table, records, reading) == MergeDnsRecords(MergeDnsHead(table, records[0], reading), records[1..], reading)
  {
  }

  /** The premises of `MergeDnsFirstWins` for record i hold for record i - 1 of the tail. */
  lemma FirstWinsShift(table: map<nat, Hash>, records: seq<string>, reading: RecordReading, i: nat)
    requires 0 < i < |records| && ReadDnsRecord(reading, records[i]).Some?
    requires ReadDnsRecord(reading, records[i]).value.0 !in table
    requires forall j :: 0 <= j < i && ReadDnsRecord(reading, records[j]).Some? ==>
      ReadDnsRecord(reading, records[j]).value.0 != ReadDnsRecord(reading, records[i]).value.0
    ensures var rest := records[1..]; var next := MergeDnsHead(table, records[0], reading);
      && ReadDnsRecord(reading, rest[i - 1]) == ReadDnsRecord(reading, records[i])
      && ReadDnsRecord(reading, records[i]).value.0 !in next
      && forall j :: 0 <= j < i - 1 && ReadDnsRecord(reading, rest[j]).Some? ==>
        ReadDnsRecord(reading, rest[j]).value.0 != ReadDnsRecord(reading, rest[i - 1]).value.0
  {
    var rest := records[1..];
    assert rest[i - 1] == records[i];
    forall j | 0 <= j < i - 1
      ensures rest[j] == records[j + 1]
    {
    }
  }

  /** The checkpoint table of a node. */
  class Checkpoints {
    /** Pinned hash by block height. */
    var points: map<nat, Hash>

    /** Heights are `uint32_t`. */
    ghost predicate Valid()
      reads this
    {
      forall h :: h in points ==> h <= Uint32Max
    }

    constructor()
      ensures Valid() && points == map[]
    {
      points := map[];
    }

    /** Pins a hash given in hex at a height: refused when the text is not a
        hash or the height is already pinned, and then nothing changes. */
    method AddCheckpoint(height: nat, hashText: string) returns (added: bool)
      requires Valid() && height <= Uint32Max
      modifies this
      ensures Valid()
      ensures added <==> HashFromHex(hashText).Some? && height !in old(points)
      ensures points == if added then old(points)[height := HashFromHex(hashText).value] else old(points)
    {
      var h := HashFromHex(hashText);
      if h.None? {
        return false;
      }
      if height in points {
        return false;
      }
      points := points[height := h.value];
      return true;
    }

    /** A height is in the checkpoint zone when some checkpoint is at or above it. */
    function IsInCheckpointZone(height: nat): (r: bool)
      reads this
      ensures r <==> exists c :: c in points && height <= c
    {
      points.Keys != {} && height <= Max(points.Keys)
    }

    /** A block passes unless its height is pinned to another hash. */
    function CheckBlock(height: nat, h: Hash): (r: CheckResult)
      reads this
      ensures r.isCheckpoint <==> height in points
      ensures r.passed <==> height !in points || points[height] == h
    {
      if height !in points then CheckResult(true, false)
      else CheckResult(points[height] == h, true)
    }

    /** `check_block` without the checkpoint flag. */
    function CheckBlockHash(height: nat, h: Hash): (r: bool)
      reads this
      ensures r <==> height !in points || points[height] == h
    {
      CheckBlock(height, h).passed
    }

    /** An alternative block may be accepted when it is not the genesis block
        and lies above every checkpoint the main chain has reached. */
    function IsAlternativeBlockAllowed(blockchainHeight: nat, blockHeight: nat): (r: bool)
      reads this
      ensures r <==> blockHeight != 0 && forall c :: c in points && c <= blockchainHeight ==> c < blockHeight
    {
      if blockHeight == 0 then false
      else
        var reached := set c | c in points && c <= blockchainHeight;
        assert forall c :: c in points && c <= blockchainHeight ==> c in reached;
        if reached == {} then true else Max(reached) < blockHeight
    }

    /** The pinned heights in increasing order. */
    method GetCheckpointHeights() returns (heights: seq<nat>)
      ensures |heights| == |points|
      ensures forall i, j :: 0 <= i < j < |heights| ==> heights[i] < heights[j]
      ensures forall h :: h in heights <==> h in points
    {
      heights := [];
      var rest := points.Keys;
      while rest != {}
        invariant rest <= points.Keys
        invariant forall h :: h in heights <==> h in points && h !in rest
        invariant forall i, j :: 0 <= i < j < |heights| ==> heights[i] < heights[j]
        invariant forall i, x :: 0 <= i < |heights| && x in rest ==> heights[i] < x
        invariant |heights| + |rest| == |points|
        decreases rest
      {
        var m := Min(rest);
        assert rest == (rest - {m}) + {m};
        heights := heights + [m];
        rest := rest - {m};
      }
    }

    /** Loads the rows of a checkpoint file, `None` when the file cannot be
        read. The text ends at its first NUL. Rows before a rejected row stay
        in the table. */
    method LoadCheckpointsFromFile(contents: Option<string>) returns (r: Result<bool, StoiError>)
      requires Valid()
      modifies this
      ensures Valid()
      ensures contents.None? ==> r == Success(false) && points == old(points)
      ensures contents.Some? ==> (r, points) == LoadLines(old(points), SplitLines(UpToNul(contents.value)))
    {
      if contents.None? {
        return Success(false);
      }
      var lines := SplitLines(UpToNul(contents.value));
      var i := 0;
      while i < |lines|
        invariant 0 <= i <= |lines|
        invariant Valid()
        invariant LoadLines(old(points), lines) == LoadLines(points, lines[i..])
      {
        var line := lines[i];
        assert lines[i..][0] == line && lines[i..][1..] == lines[i + 1..];
        i := i + 1;
        var row := SplitFields(line);
        if |row| != 2 {
          return Success(false);
        }
        var height := StoiAsUint32(row[0]);
        if height.Failure? {
          return Failure(height.error);
        }
        var added := AddCheckpoint(height.value, row[1]);
        if !added {
          return Success(false);
        }
      }
      return Success(true);
    }

    /** Adds the checkpoints of the TXT records found under `CheckpointsDomain`
        (none when the lookup fails); records that do not parse and heights
        already pinned are skipped. `AsWritten` reads each record as
        Checkpoints.cpp does, `Corrected` refuses records without ':'. */
    method LoadCheckpointsFromDns(records: seq<string>, reading: RecordReading) returns (ok: bool)
      requires Valid()
      modifies this
      ensures Valid()
      ensures ok
      ensures points == MergeDnsRecords(old(points), records, reading)
    {
      var i := 0;
      while i < |records|
        invariant 0 <= i <= |records|
        invariant Valid()
        invariant MergeDnsRecords(old(points), records, reading) == MergeDnsRecords(points, records[i..], reading)
      {
        assert records[i..][0] == records[i] && records[i..][1..] == records[i + 1..];
        MergeDnsUnfold(points, records[i..], reading);
        ghost var before := points;
        var parsed := ReadDnsRecord(reading, records[i]);
        if parsed.Some? {
          var height := parsed.value.0;
          if height !in points {
            var _ := AddCheckpoint(height, parsed.value.1);
          }
        }
        assert points == MergeDnsHead(before, records[i], reading);
        i := i + 1;
      }
      return true;
    }
  }

  /** A height once pinned keeps its hash: a second hash for it is refused,
      and blocks at that height are checked against the first. */
  method PinnedHeightScenario(h: Hash, other: Hash)
    returns (first: bool, second: bool, passes: bool, fails: bool, zone: bool, beyond: bool)
    requires h != other
    ensures first && !second
    ensures passes && !fails
    ensures zone && !beyond
  {
    var c := new Checkpoints();
    HexRoundTrip(h);
    HexRoundTrip(other);
    first := c.AddCheckpoint(100, HashToHex(h));
    second := c.AddCheckpoint(100, HashToHex(other));
    passes := c.CheckBlockHash(100, h);
    fails := c.CheckBlockHash(100, other);
    zone := c.IsInCheckpointZone(100);
    beyond := c.IsInCheckpointZone(101);
  }

  /** With a checkpoint at 100 and the chain past it, an alternative block must
      lie above 100; before the chain reaches 100 any non-genesis block may. */
  method AlternativeBlockScenario(h: Hash) returns (atCheckpoint: bool, aboveCheckpoint: bool, beforeCheckpoint: bool, genesis: bool)
    ensures !atCheckpoint && aboveCheckpoint && beforeCheckpoint && !genesis
  {
    var c := new Checkpoints();
    HexRoundTrip(h);
    var _ := c.AddCheckpoint(100, HashToHex(h));
    atCheckpoint := c.IsAlternativeBlockAllowed(150, 100);
    aboveCheckpoint := c.IsAlternativeBlockAllowed(150, 101);
    beforeCheckpoint := c.IsAlternativeBlockAllowed(50, 10);
    genesis := c.IsAlternativeBlockAllowed(50, 0);
  }

  /** A TXT record of 63 `0` digits and a `5`, with no ':', loaded into an
      empty table: as written it pins height 5 to the hash spelt by those
      digits; the corrected reading skips it. */
  method ColonlessRecordScenario() returns (asWritten: map<nat, Hash>, corrected: map<nat, Hash>)
    ensures var record := Zeros(2 * HashSize - 1) + "5";
      && HashFromHex(record).Some?
      && asWritten == map[5 := HashFromHex(record).value]
      && corrected == map[]
  {
    var record := Zeros(2 * HashSize - 1) + "5";
    ColonlessRecordAccepted();
    var c := new Checkpoints();
    var ok := c.LoadCheckpointsFromDns([record], AsWritten);
    assert [record][1..] == [];
    asWritten := c.points;
    var d := new Checkpoints();
    ok := d.LoadCheckpointsFromDns([record], Corrected);
    corrected := d.points;
  }
}
