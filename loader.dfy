/**
 * The loader: the lines of the input file become one transaction each, in file order.
 * The first line is a header and is skipped; every later line is split on commas into
 * payer, points and timestamp. Reading the file itself is left to the caller (the
 * lines arrive as a sequence), and the date-time parser is a parameter.
 */
module Loader {
  import opened Wrappers
  import opened Text
  import opened Transactions

  /** Why one line could not become a transaction: the field at `index` is missing
      (an index out of bounds), or a field's text does not parse. */
  datatype Fault = MissingField(index: nat) | BadPoints(text: string) | BadTimestamp(text: string)

  /** A fault together with the 1-based number of the file line that caused it. */
  datatype LoadError = LoadError(lineNumber: nat, fault: Fault)

  /** The record one data line describes, following the order in which the line's
      fields are used: payer, then points, then timestamp. Fields after the third are
      ignored. */
  function ParseLine(line: string, parseTime: string -> Option<Timestamp>): Result<Record, Fault>
  {
    var content := Split(line);
    if |content| < 1 then Err(MissingField(0))
    else if |content| < 2 then Err(MissingField(1))
    else match ParseInt(content[1])
      case None => Err(BadPoints(content[1]))
      case Some(points) =>
        if |content| < 3 then Err(MissingField(2))
        else match parseTime(content[2])
          case None => Err(BadTimestamp(content[2]))
          case Some(timestamp) => Ok(Record(content[0], points, timestamp))
  }

  /** A line that parses has at least three fields: the payer is the first, the points
      are the integer value of the second and the timestamp the parse of the third. */
  lemma ParseLineFields(line: string, parseTime: string -> Option<Timestamp>)
    requires ParseLine(line, parseTime).Ok?
    ensures var r, content := ParseLine(line, parseTime).value, Split(line);
      && |content| >= 3
      && r.payer == content[0]
      && ParseInt(content[1]) == Some(r.points)
      && parseTime(content[2]) == Some(r.timestamp)
  {
  }

  /** Which fault a line that does not parse reports: the first field used that is
      missing or does not parse. */
  lemma ParseLineFault(line: string, parseTime: string -> Option<Timestamp>)
    requires ParseLine(line, parseTime).Err?
    ensures var content := Split(line);
      match ParseLine(line, parseTime).error
      case MissingField(index) => index == |content| && |content| < 3 && (index == 2 ==> ParseInt(content[1]).Some?)
      case BadPoints(text) => |content| >= 2 && text == content[1] && ParseInt(text).None?
      case BadTimestamp(text) =>
        |content| >= 3 && ParseInt(content[1]).Some? && text == content[2] && parseTime(text).None?
  {
  }

  /** The records of the data lines `body`, the first of which is line 2 of the file,
      each read by `parse`; the first line that does not parse ends the load with its
      error. */
  function ParseBody(body: seq<string>, parse: string -> Result<Record, Fault>): Result<seq<Record>, LoadError>
  {
    if |body| == 0 then Ok([])
    else match ParseBody(body[..|body| - 1], parse)
      case Err(e) => Err(e)
      case Ok(rs) =>
        match parse(body[|body| - 1])
        case Err(f) => Err(LoadError(|body| + 1, f))
        case Ok(r) => Ok(rs + [r])
  }

  function LineParser(parseTime: string -> Option<Timestamp>): string -> Result<Record, Fault>
  {
    line => ParseLine(line, parseTime)
  }

  /** The parser handed to the whole-file fold reads each line as ParseLine does. */
  lemma LineParserApply(parseTime: string -> Option<Timestamp>)
    ensures forall line :: LineParser(parseTime)(line) == ParseLine(line, parseTime)
  {
  }

  /** The whole file: without its first line; an empty file gives no records. */
  function Load(lines: seq<string>, parseTime: string -> Option<Timestamp>): Result<seq<Record>, LoadError>
  {
    if |lines| == 0 then Ok([]) else ParseBody(lines[1..], LineParser(parseTime))
  }

  /** A successful load gives exactly one record per data line, each the parse of its
      own line, and a load in which every data line parses succeeds. */
  lemma {:induction false} ParseBodyOk(body: seq<string>, parse: string -> Result<Record, Fault>)
    ensures ParseBody(body, parse).Ok? <==> forall k :: 0 <= k < |body| ==> parse(body[k]).Ok?
    ensures ParseBody(body, parse).Ok? ==>
      var rs := ParseBody(body, parse).value;
      |rs| == |body| && forall k :: 0 <= k < |body| ==> parse(body[k]) == Ok(rs[k])
  {
    if |body| > 0 {
      var init := body[..|body| - 1];
      ParseBodyOk(init, parse);
      var last := parse(body[|body| - 1]);
      if ParseBody(init, parse).Ok? {
        if last.Ok? {
          var rs := ParseBody(init, parse).value;
          assert ParseBody(body, parse).value == rs + [last.value];
          forall k | 0 <= k < |body| ensures parse(body[k]) == Ok((rs + [last.value])[k]) {
            if k < |init| {
              assert init[k] == body[k];
            }
          }
        }
      } else {
        var k :| 0 <= k < |init| && !parse(init[k]).Ok?;
        assert init[k] == body[k];
      }
    }
  }

  /** A failed load names the first data line that does not parse, with its fault. */
  lemma {:induction false} ParseBodyErr(body: seq<string>, parse: string -> Result<Record, Fault>)
    ensures ParseBody(body, parse).Err? ==>
      var e := ParseBody(body, parse).error;
      && 2 <= e.lineNumber <= |body| + 1
      && parse(body[e.lineNumber - 2]) == Err(e.fault)
      && forall k :: 0 <= k < e.lineNumber - 2 ==> parse(body[k]).Ok?
  {
    if |body| > 0 {
      var init := body[..|body| - 1];
      ParseBodyErr(init, parse);
      ParseBodyOk(init, parse);
      assert forall k :: 0 <= k < |init| ==> init[k] == body[k];
    }
  }

  /** The header is skipped, and each later line yields exactly one record, in file order. */
  lemma LoadOk(lines: seq<string>, parseTime: string -> Option<Timestamp>)
    ensures Load(lines, parseTime).Ok? <==>
      forall k :: 1 <= k < |lines| ==> ParseLine(lines[k], parseTime).Ok?
    ensures Load(lines, parseTime).Ok? ==>
      var rs := Load(lines, parseTime).value;
      && |rs| == (if |lines| == 0 then 0 else |lines| - 1)
      && forall k :: 0 <= k < |rs| ==> ParseLine(lines[k + 1], parseTime) == Ok(rs[k])
  {
    if |lines| > 0 {
      var body := lines[1..];
      ParseBodyOk(body, LineParser(parseTime));
      LineParserApply(parseTime);
      assert forall k :: 0 <= k < |body| ==> body[k] == lines[k + 1];
    }
  }

  /** A failed load reports the first data line that does not parse. */
  lemma LoadErr(lines: seq<string>, parseTime: string -> Option<Timestamp>)
    ensures Load(lines, parseTime).Err? ==>
      var e := Load(lines, parseTime).error;
      && 2 <= e.lineNumber <= |lines|
      && ParseLine(lines[e.lineNumber - 1], parseTime) == Err(e.fault)
      && forall k :: 1 <= k < e.lineNumber - 1 ==> ParseLine(lines[k], parseTime).Ok?
  {
    if |lines| > 0 {
      var body := lines[1..];
      ParseBodyErr(body, LineParser(parseTime));
      LineParserApply(parseTime);
      assert forall k :: 0 <= k < |body| ==> body[k] == lines[k + 1];
    }
  }

  /** A record written as a line: payer, points and timestamp text, comma-separated. */
  function FormatLine(r: Record, showTime: Timestamp -> string): string
  {
    Join([r.payer, Show(r.points), showTime(r.timestamp)])
  }

  /** A record whose payer has no comma, whose points fit an `int` and whose timestamp
      text is non-empty, comma-free and parses back, is read back from its line. */
  lemma LineRoundTrip(r: Record, parseTime: string -> Option<Timestamp>, showTime: Timestamp -> string)
    requires NoComma(r.payer) && IntMin <= r.points <= IntMax
    requires var text := showTime(r.timestamp);
      text != "" && NoComma(text) && parseTime(text) == Some(r.timestamp)
    ensures ParseLine(FormatLine(r, showTime), parseTime) == Ok(r)
  {
    var parts := [r.payer, Show(r.points), showTime(r.timestamp)];
    ParseShow(r.points);
    SplitJoin(parts);
  }

  /** The lines of a file holding `rs` under an arbitrary header. */
  function FormatFile(header: string, rs: seq<Record>, showTime: Timestamp -> string): seq<string>
  {
    [header] + seq(|rs|, k requires 0 <= k < |rs| => FormatLine(rs[k], showTime))
  }

  /** The header first, then one formatted line per record, in order. */
  lemma FormatFileLines(header: string, rs: seq<Record>, showTime: Timestamp -> string)
    ensures var lines := FormatFile(header, rs, showTime);
      && |lines| == |rs| + 1 && lines[0] == header
      && forall k :: 0 <= k < |rs| ==> lines[k + 1] == FormatLine(rs[k], showTime)
  {
  }

  /** Writing records out and loading them back gives the same records, whatever the header. */
  lemma {:induction false} LoadRoundTrip(header: string, rs: seq<Record>,
                                         parseTime: string -> Option<Timestamp>, showTime: Timestamp -> string)
    requires forall k :: 0 <= k < |rs| ==> NoComma(rs[k].payer) && IntMin <= rs[k].points <= IntMax
    requires forall k :: 0 <= k < |rs| ==> var text := showTime(rs[k].timestamp);
      text != "" && NoComma(text) && parseTime(text) == Some(rs[k].timestamp)
    ensures Load(FormatFile(header, rs, showTime), parseTime) == Ok(rs)
  {
    var lines := FormatFile(header, rs, showTime);
    FormatFileLines(header, rs, showTime);
    forall k | 0 <= k < |rs| ensures ParseLine(lines[k + 1], parseTime) == Ok(rs[k]) {
      LineRoundTrip(rs[k], parseTime, showTime);
    }
    forall k | 1 <= k < |lines| ensures ParseLine(lines[k], parseTime).Ok? {
      assert ParseLine(lines[(k - 1) + 1], parseTime) == Ok(rs[k - 1]);
    }
    LoadOk(lines, parseTime);
    var got := Load(lines, parseTime).value;
    assert |got| == |rs|;
    forall k | 0 <= k < |rs| ensures got[k] == rs[k] {
      assert ParseLine(lines[k + 1], parseTime) == Ok(got[k]);
    }
    assert got == rs;
  }

  /** One more data line that parses adds its record at the end. */
  lemma ParseBodySnoc(body: seq<string>, line: string, parse: string -> Result<Record, Fault>)
    requires ParseBody(body, parse).Ok? && parse(line).Ok?
    ensures ParseBody(body + [line], parse) == Ok(ParseBody(body, parse).value + [parse(line).value])
  {
    assert (body + [line])[..|body|] == body;
  }

  /** Once a prefix of the data lines fails, later lines do not change the error. */
  lemma {:induction false} ParseBodyErrSticks(body: seq<string>, n: nat, parse: string -> Result<Record, Fault>)
    requires n <= |body| && ParseBody(body[..n], parse).Err?
    ensures ParseBody(body, parse) == ParseBody(body[..n], parse)
    decreases |body| - n
  {
    if n < |body| {
      assert body[..n + 1][..n] == body[..n];
      ParseBodyErrSticks(body, n + 1, parse);
    } else {
      assert body[..n] == body;
    }
  }

  /** The load fails at data line i when all lines before it parsed and it does not. */
  lemma ParseLoadFails(lines: seq<string>, i: nat, parseTime: string -> Option<Timestamp>)
    requires 1 <= i < |lines| && ParseBody(lines[1..i], LineParser(parseTime)).Ok?
    requires ParseLine(lines[i], parseTime).Err?
    ensures Load(lines, parseTime) == Err(LoadError(i + 1, ParseLine(lines[i], parseTime).error))
  {
    var body := lines[1..];
    assert body[..i] == lines[1..i + 1];
    assert lines[1..i + 1][..i - 1] == lines[1..i];
    ParseBodyErrSticks(body, i, LineParser(parseTime));
    LineParserApply(parseTime);
  }

  /** One turn of the loading loop: the new transaction for line i extends the list. */
  lemma CollectStep(lines: seq<string>, i: nat, parse: string -> Result<Record, Fault>,
                    transactions: seq<Transaction>, transaction: Transaction)
    requires 1 <= i < |lines| && ParseBody(lines[1..i], parse) == Ok(Records(transactions))
    requires parse(lines[i]) == Ok(transaction.View())
    ensures ParseBody(lines[1..i + 1], parse) == Ok(Records(transactions + [transaction]))
  {
    assert lines[1..i + 1] == lines[1..i] + [lines[i]];
    ParseBodySnoc(lines[1..i], lines[i], parse);
    RecordsSnoc(transactions, transaction);
  }

  /** The loop of readTransactionsFromFile: one new transaction per data line,
      appended in file order; the first line that does not parse aborts the load. */
  method CollectTransactions(lines: seq<string>, parseTime: string -> Option<Timestamp>)
    returns (result: Result<seq<Transaction>, LoadError>)
    ensures Load(lines, parseTime).Err? ==> result == Err(Load(lines, parseTime).error)
    ensures Load(lines, parseTime).Ok? ==>
      && result.Ok? && Records(result.value) == Load(lines, parseTime).value
      && Distinct(result.value)
      && forall t :: t in result.value ==> fresh(t)
  {
    var transactions: seq<Transaction> := [];
    RecordsIndex(transactions);
    if |lines| == 0 {
      return Ok(transactions);
    }
    var i := 1;
    while i < |lines|
      invariant 1 <= i <= |lines|
      invariant ParseBody(lines[1..i], LineParser(parseTime)) == Ok(Records(transactions))
      invariant Distinct(transactions)
      invariant forall t :: t in transactions ==> fresh(t)
    {
      var parsed := ParseLine(lines[i], parseTime);
      if parsed.Err? {
        ParseLoadFails(lines, i, parseTime);
        return Err(LoadError(i + 1, parsed.error));
      }
      var transaction := new Transaction(parsed.value.payer, parsed.value.points, parsed.value.timestamp);
      LineParserApply(parseTime);
      CollectStep(lines, i, LineParser(parseTime), transactions, transaction);
      DistinctSnoc(transactions, transaction);
      transactions := transactions + [transaction];
      i := i + 1;
    }
    assert lines[1..i] == lines[1..];
    return Ok(transactions);
  }

  /** readTransactionsFromFile: the collected transactions as a new list. */
  method ReadTransactions(lines: seq<string>, parseTime: string -> Option<Timestamp>)
    returns (result: Result<array<Transaction>, LoadError>)
    ensures Load(lines, parseTime).Err? ==> result == Err(Load(lines, parseTime).error)
    ensures Load(lines, parseTime).Ok? ==>
      && result.Ok? && fresh(result.value)
      && Records(result.value[..]) == Load(lines, parseTime).value
      && Distinct(result.value[..])
      && forall t :: t in result.value[..] ==> fresh(t)
  {
    var collected := CollectTransactions(lines, parseTime);
    if collected.Err? {
      return Err(collected.error);
    }
    var transactions := collected.value;
    var a := new Transaction[|transactions|](k requires 0 <= k < |transactions| => transactions[k]);
    assert a[..] == transactions;
    return Ok(a);
  }
}
