/** The training-record builder of scripts/openai_training_data_csv_to_jsonl.py:
    labelled shipment-status rows (`status`, `status_type`, `substatus_type`) become
    one chat record per row, written as one line of JSON each (JSON Lines).

    The rows arrive already parsed by `csv.DictReader`; the output is the text the
    script writes to its output file. */
module TrainingRecords {
  import opened Wrappers
  import Text
  import PyText
  import Json
  import Seqs

  // ---------------------------------------------------------------------------
  // The status taxonomy and the system prompt built from it

  /** A status type with its permitted substatus types; `None` in the list is the
      explicit "no substatus" entry. */
  type Category = (string, seq<Option<string>>)

  /** `STATUS_CATEGORIES_DICT`, its entries in insertion order. */
  const StatusCategories: seq<Category> := [
    ("Exception", [
      Some("Cancelled"), Some("Carrier Delays"), Some("Claims Issued"), Some("Customs/Tax Delays"),
      Some("Delayed"), Some("Incorrect Info"), Some("Loss/Returns"), Some("Natural Causes"),
      Some("Other Delays"), Some("Returned"), Some("Traffic Delays")]),
    ("Info", [None]),
    ("Transit", [
      None, Some("Customs/Tax Delays"), Some("Delayed"), Some("Delivered"), Some("Documents Handover"),
      Some("Incorrect Info"), Some("Onboard at Departure Terminal"), Some("Other Delays"),
      Some("Pick Up Confirmed")])
  ]

  /** The comprehension `[(k, v) for k, values in d.items() for v in values]`. */
  function StatusPairs(categories: seq<Category>): seq<(string, Option<string>)>
  {
    if categories == [] then []
    else
      var (k, values) := categories[0];
      seq(|values|, i requires 0 <= i < |values| => (k, values[i])) + StatusPairs(categories[1..])
  }

  /** How many substatus entries the categories hold altogether. */
  function EntryCount(categories: seq<Category>): nat
  {
    if categories == [] then 0 else |categories[0].1| + EntryCount(categories[1..])
  }

  /** There is one pair per substatus entry. */
  lemma {:induction false} StatusPairsLength(categories: seq<Category>)
    ensures |StatusPairs(categories)| == EntryCount(categories)
    decreases |categories|
  {
    if categories != [] {
      StatusPairsLength(categories[1..]);
    }
  }

  /** Flattening respects the order of the keys: the pairs of earlier keys come first. */
  lemma {:induction false} StatusPairsAppend(a: seq<Category>, b: seq<Category>)
    ensures StatusPairs(a + b) == StatusPairs(a) + StatusPairs(b)
    decreases |a|
  {
    if a == [] {
      assert a + b == b;
    } else {
      assert (a + b)[0] == a[0] && (a + b)[1..] == a[1..] + b;
      StatusPairsAppend(a[1..], b);
    }
  }

  /** The `j`-th substatus entry of the `i`-th key sits right after all the entries of
      the keys before it and the first `j` entries of its own list. */
  lemma StatusPairsAt(categories: seq<Category>, i: nat, j: nat)
    requires i < |categories| && j < |categories[i].1|
    ensures EntryCount(categories[..i]) + j < |StatusPairs(categories)|
    ensures StatusPairs(categories)[EntryCount(categories[..i]) + j] == (categories[i].0, categories[i].1[j])
  {
    assert categories == categories[..i] + categories[i..];
    StatusPairsAppend(categories[..i], categories[i..]);
    StatusPairsLength(categories[..i]);
    assert categories[i..][0] == categories[i];
  }

  /** A pair is listed exactly when its status type is a key whose list holds its substatus. */
  lemma {:induction false} StatusPairsMember(categories: seq<Category>, p: (string, Option<string>))
    ensures p in StatusPairs(categories) <==>
      exists i :: 0 <= i < |categories| && categories[i].0 == p.0 && p.1 in categories[i].1
    decreases |categories|
  {
    if categories != [] {
      StatusPairsMember(categories[1..], p);
      var (k, values) := categories[0];
      var head := seq(|values|, i requires 0 <= i < |values| => (k, values[i]));
      assert p in head <==> k == p.0 && p.1 in values by {
        if k == p.0 && p.1 in values {
          var j :| 0 <= j < |values| && values[j] == p.1;
          assert head[j] == p;
        }
      }
      if exists i :: 0 <= i < |categories[1..]| && categories[1..][i].0 == p.0 && p.1 in categories[1..][i].1 {
        var i :| 0 <= i < |categories[1..]| && categories[1..][i].0 == p.0 && p.1 in categories[1..][i].1;
        assert categories[i + 1] == categories[1..][i];
      }
      if exists i :: 0 <= i < |categories| && categories[i].0 == p.0 && p.1 in categories[i].1 {
        var i :| 0 <= i < |categories| && categories[i].0 == p.0 && p.1 in categories[i].1;
        if i > 0 {
          assert categories[1..][i - 1] == categories[i];
        }
      }
    }
  }

  /** The taxonomy flattens to 11 + 1 + 9 = 21 pairs: the Exception pairs first, then
      ("Info", None), then ("Transit", None) and the other Transit pairs. */
  lemma TaxonomyPairs()
    ensures |StatusPairs(StatusCategories)| == 21
    ensures StatusPairs(StatusCategories)[0] == ("Exception", Some("Cancelled"))
    ensures StatusPairs(StatusCategories)[10] == ("Exception", Some("Traffic Delays"))
    ensures StatusPairs(StatusCategories)[11] == ("Info", None)
    ensures StatusPairs(StatusCategories)[12] == ("Transit", None)
    ensures StatusPairs(StatusCategories)[20] == ("Transit", Some("Pick Up Confirmed"))
  {
  }

  /** `repr` of a (status_type, substatus_type) tuple. */
  function ReprPair(p: (string, Option<string>)): string
  {
    "(" + PyText.ReprStr(p.0) + ", " + PyText.ReprOptional(p.1) + ")"
  }

  /** `repr` of the list of pairs, as the f-string embeds it. */
  function ReprPairs(pairs: seq<(string, Option<string>)>): string
  {
    PyText.ReprList(seq(|pairs|, i requires 0 <= i < |pairs| => ReprPair(pairs[i])))
  }

  const PromptLead := "Classify the given status into a status type and substatus type using only these valid pairs: "

  /** `system_prompt` for a taxonomy: the fixed instruction followed by the `repr` of its pairs. */
  function SystemPrompt(categories: seq<Category>): string
  {
    PromptLead + ReprPairs(StatusPairs(categories))
  }

  /** `system_prompt` as the script builds it, once, from `STATUS_CATEGORIES_DICT`. */
  const Prompt := SystemPrompt(StatusCategories)

  /** The prompt starts with the fixed instruction and lists every valid pair of the taxonomy. */
  lemma SystemPromptListsPairs(categories: seq<Category>, i: nat)
    requires i < |StatusPairs(categories)|
    ensures Text.StartsWith(SystemPrompt(categories), PromptLead)
    ensures Text.Contains(SystemPrompt(categories), ReprPair(StatusPairs(categories)[i]))
  {
    var pairs := StatusPairs(categories);
    var reprs := seq(|pairs|, j requires 0 <= j < |pairs| => ReprPair(pairs[j]));
    PyText.ReprListLists(PromptLead, reprs, i);
  }

  // ---------------------------------------------------------------------------
  // Rows and the record built for each

  /** One row of `csv.DictReader`: each header name maps to the row's cell under it;
      a row shorter than the header has `None` for the cells it lacks. */
  type Row = map<string, Option<string>>

  /** `row.get(key)`: `None` when there is no such column or the row lacks the cell. */
  function Cell(row: Row, key: string): Option<string>
  {
    if key in row then row[key] else None
  }

  /** `required_fields`. */
  const RequiredFields: set<string> := {"status", "status_type", "substatus_type"}

  datatype ConvertError =
    | EmptyInput                          // evaluating `reader[0]` for the message raises IndexError
    | MissingColumns(found: set<string>)  // the ValueError, naming the first row's keys

  /** The check made once, against the first row only, before any record is written. */
  function CheckColumns(rows: seq<Row>): (r: Outcome<ConvertError>)
    ensures r.Pass? <==> rows != [] && "status" in rows[0] && "status_type" in rows[0] && "substatus_type" in rows[0]
    ensures r == Fail(EmptyInput) <==> rows == []
    ensures r.Fail? && rows != [] ==> r.error == MissingColumns(rows[0].Keys)
  {
    if rows == [] || !(RequiredFields <= rows[0].Keys) then
      Fail(if rows == [] then EmptyInput else MissingColumns(rows[0].Keys))
    else
      Pass
  }

  /** `None if substatus_type in ("null", "None", "") else substatus_type`: exactly the
      three spellings `null`, `None` and the empty string become null; everything else,
      a missing cell included, passes through with its case and spacing. */
  function NormalizeSubstatus(v: Option<string>): (r: Option<string>)
    ensures r.None? <==> v.None? || v.value == "null" || v.value == "None" || v.value == ""
    ensures r.Some? ==> r == v
  {
    if v.Some? && v.value in ["null", "None", ""] then None else v
  }

  /** The keys the script writes. */
  const ScriptKeys: seq<string> := ["messages", "role", "content", "status", "status_type", "substatus_type"]

  /** Every key the script writes is plain, so `json.dumps` writes it unescaped, between
      double quotes, exactly as `Json.Key` does. */
  lemma ScriptKeysPlain(i: nat)
    requires i < |ScriptKeys|
    ensures Json.Key(ScriptKeys[i]) == Json.Quote(ScriptKeys[i])
  {
    if i == 0 {
      Json.KeyIsQuote("messages");
    } else if i == 1 {
      Json.KeyIsQuote("role");
    } else if i == 2 {
      Json.KeyIsQuote("content");
    } else if i == 3 {
      Json.KeyIsQuote("status");
    } else if i == 4 {
      Json.KeyIsQuote("status_type");
    } else {
      Json.KeyIsQuote("substatus_type");
    }
  }

  /** The object the assistant turn carries, before `json.dumps`. */
  datatype Payload = Payload(status: Option<string>, statusType: Option<string>, substatusType: Option<string>)

  /** The payload of one row: `status` and `status_type` as read, `substatus_type` normalised. */
  function RowPayload(row: Row): Payload
  {
    Payload(Cell(row, "status"), Cell(row, "status_type"), NormalizeSubstatus(Cell(row, "substatus_type")))
  }

  /** `json.dumps` of the payload dictionary. */
  function EncodePayload(p: Payload): string
  {
    Json.Object([
      Json.Member("status", Json.Nullable(p.status)),
      Json.Member("status_type", Json.Nullable(p.statusType)),
      Json.Member("substatus_type", Json.Nullable(p.substatusType))])
  }

  /** Reads a payload back from its JSON text. */
  function DecodePayload(s: string): Option<Payload>
  {
    var s1 :- Text.StripPrefix("{" + Json.Key("status") + ": ", s);
    var a :- Json.ParseNullable(s1);
    var s2 :- Text.StripPrefix(", " + Json.Key("status_type") + ": ", a.1);
    var b :- Json.ParseNullable(s2);
    var s3 :- Text.StripPrefix(", " + Json.Key("substatus_type") + ": ", b.1);
    var c :- Json.ParseNullable(s3);
    if c.1 == "}" then Some(Payload(a.0, b.0, c.0)) else None
  }

  /** One turn of the conversation. */
  datatype Message = Message(role: string, content: string)

  /** The `json_line` dictionary: `{"messages": [...]}`. */
  datatype Record = Record(messages: seq<Message>)

  /** `f"Classify the status: `{status}`"`. */
  function UserContent(status: Option<string>): string
  {
    "Classify the status: `" + PyText.Format(status) + "`"
  }

  /** The record the loop builds for one row, given the system prompt: the prompt, the
      user turn quoting the status verbatim (`None` when the row lacks the cell), and the
      assistant turn whose JSON text reads back as the row's status, status type and
      normalised substatus type. */
  function BuildRecord(prompt: string, row: Row): (r: Record)
    ensures |r.messages| == 3
    ensures r.messages[0] == Message("system", prompt)
    ensures r.messages[1] == Message("user", "Classify the status: `" + PyText.Format(Cell(row, "status")) + "`")
    ensures r.messages[2].role == "assistant"
    ensures DecodePayload(r.messages[2].content) ==
      Some(Payload(Cell(row, "status"), Cell(row, "status_type"), NormalizeSubstatus(Cell(row, "substatus_type"))))
  {
    var p := RowPayload(row);
    PayloadRoundTrip(p);
    Record([
      Message("system", prompt),
      Message("user", UserContent(Cell(row, "status"))),
      Message("assistant", EncodePayload(p))])
  }

  /** `json.dumps` of one `{"role": ..., "content": ...}` dictionary. */
  function EncodeMessage(m: Message): string
  {
    Json.Object([Json.Member("role", Json.Quote(m.role)), Json.Member("content", Json.Quote(m.content))])
  }

  function EncodeMessages(ms: seq<Message>): seq<string>
  {
    seq(|ms|, i requires 0 <= i < |ms| => EncodeMessage(ms[i]))
  }

  /** `json.dumps(json_line)`. */
  function EncodeRecord(r: Record): string
  {
    Json.Object([Json.Member("messages", Json.Array(EncodeMessages(r.messages)))])
  }

  /** Reads one message at the head of `s`. */
  function DecodeMessage(s: string): (r: Option<(Message, string)>)
    ensures r.Some? ==> |r.value.1| < |s|
  {
    var s1 :- Text.StripPrefix("{" + Json.Key("role") + ": ", s);
    var a :- Json.ParseString(s1);
    var s2 :- Text.StripPrefix(", " + Json.Key("content") + ": ", a.1);
    var b :- Json.ParseString(s2);
    var s3 :- Text.StripPrefix("}", b.1);
    Some((Message(a.0, b.0), s3))
  }

  /** Reads the messages of a non-empty list, through its closing bracket. */
  function DecodeMessageItems(s: string): Option<(seq<Message>, string)>
    decreases |s|
  {
    var m :- DecodeMessage(s);
    if Text.StartsWith(m.1, ", ") then
      var more :- DecodeMessageItems(m.1[2..]);
      Some(([m.0] + more.0, more.1))
    else
      var rest :- Text.StripPrefix("]", m.1);
      Some(([m.0], rest))
  }

  /** Reads a record back from one line of output. */
  function DecodeRecord(s: string): Option<Record>
  {
    var s1 :- Text.StripPrefix("{" + Json.Key("messages") + ": [", s);
    var items :- if Text.StartsWith(s1, "]") then Some(([], s1[1..])) else DecodeMessageItems(s1);
    if items.1 == "}" then Some(Record(items.0)) else None
  }

  // ---------------------------------------------------------------------------
  // The conversion loop

  /** The records of the rows, one per row and in row order. */
  function Records(prompt: string, rows: seq<Row>): (r: seq<Record>)
    ensures |r| == |rows|
    ensures forall i :: 0 <= i < |rows| ==> r[i] == BuildRecord(prompt, rows[i])
  {
    Seqs.Mapped(row => BuildRecord(prompt, row), rows)
  }

  /** The output lines of some records, one per record and in order, without newlines. */
  function Lines(records: seq<Record>): (r: seq<string>)
    ensures |r| == |records|
    ensures forall i :: 0 <= i < |records| ==> r[i] == EncodeRecord(records[i])
  {
    Seqs.Mapped(EncodeRecord, records)
  }

  /** What the output file holds after a successful run: each row's line, then `'\n'`. */
  function JsonlText(prompt: string, rows: seq<Row>): string
  {
    Text.Terminated(Lines(Records(prompt, rows)), '\n')
  }

  /** The script's main body: the output file is opened for writing, and so emptied, before
      the column check; the check failing leaves it empty; otherwise one line is appended
      per row, in order, every record carrying the `system_prompt` built once from the
      taxonomy. */
  method Convert(rows: seq<Row>) returns (written: string, outcome: Outcome<ConvertError>)
    ensures outcome == CheckColumns(rows)
    ensures outcome.Fail? ==> written == ""
    ensures outcome.Pass? ==> written == JsonlText(Prompt, rows)
  {
    written := "";
    if rows == [] || !(RequiredFields <= rows[0].Keys) {
      outcome := Fail(if rows == [] then EmptyInput else MissingColumns(rows[0].Keys));
      return;
    }
    outcome := Pass;
    var prompt := Prompt;
    for i := 0 to |rows|
      invariant written == JsonlText(prompt, rows[..i])
    {
      var row := rows[i];
      var status := Cell(row, "status");
      var statusType := Cell(row, "status_type");
      var substatusType := Cell(row, "substatus_type");
      substatusType := NormalizeSubstatus(substatusType);
      var record := Record([
        Message("system", prompt),
        Message("user", UserContent(status)),
        Message("assistant", EncodePayload(Payload(status, statusType, substatusType)))]);
      assert record == BuildRecord(prompt, row);
      JsonlTextStep(prompt, rows, i);
      written := written + EncodeRecord(record) + "\n";
    }
    assert rows[..|rows|] == rows;
  }

  lemma JsonlTextStep(prompt: string, rows: seq<Row>, i: nat)
    requires i < |rows|
    ensures JsonlText(prompt, rows[..i + 1]) == JsonlText(prompt, rows[..i]) + EncodeRecord(BuildRecord(prompt, rows[i])) + "\n"
  {
    assert rows[..i + 1] == rows[..i] + [rows[i]];
    JsonlTextAppend(prompt, rows[..i], rows[i]);
  }

  lemma JsonlTextAppend(prompt: string, rows: seq<Row>, row: Row)
    ensures JsonlText(prompt, rows + [row]) == JsonlText(prompt, rows) + EncodeRecord(BuildRecord(prompt, row)) + "\n"
  {
    var recs := Records(prompt, rows);
    var rec := BuildRecord(prompt, row);
    RecordsAppend(prompt, rows, row);
    LinesAppend(recs, rec);
    Text.TerminatedAppend(Lines(recs), EncodeRecord(rec), '\n');
  }

  lemma RecordsAppend(prompt: string, rows: seq<Row>, row: Row)
    ensures Records(prompt, rows + [row]) == Records(prompt, rows) + [BuildRecord(prompt, row)]
  {
    Seqs.MappedAppend(row => BuildRecord(prompt, row), rows, row);
  }

  lemma LinesAppend(records: seq<Record>, r: Record)
    ensures Lines(records + [r]) == Lines(records) + [EncodeRecord(r)]
  {
    Seqs.MappedAppend(EncodeRecord, records, r);
  }

  /** Reads records back from lines, one per line. */
  function DecodeLines(lines: seq<string>): Option<seq<Record>>
  {
    if lines == [] then Some([])
    else
      var init :- DecodeLines(lines[..|lines| - 1]);
      var last :- DecodeRecord(lines[|lines| - 1]);
      Some(init + [last])
  }

  /** Reads the records back from the text of a JSON Lines file: every line must hold a
      record, and the text must end with a newline. */
  function DecodeJsonl(text: string): Option<seq<Record>>
  {
    var pieces := Text.Split(text, '\n');
    if pieces[|pieces| - 1] != "" then None else DecodeLines(pieces[..|pieces| - 1])
  }

  // ---------------------------------------------------------------------------
  // What the output guarantees

  lemma PayloadLayout(p: Payload)
    ensures EncodePayload(p) ==
      ("{" + Json.Key("status") + ": ") + (Json.Nullable(p.status) +
      ((", " + Json.Key("status_type") + ": ") + (Json.Nullable(p.statusType) +
      ((", " + Json.Key("substatus_type") + ": ") + (Json.Nullable(p.substatusType) + "}")))))
  {
    Json.ObjectLayout3("status", Json.Nullable(p.status), "status_type", Json.Nullable(p.statusType),
      "substatus_type", Json.Nullable(p.substatusType));
  }

  /** The assistant's JSON text reads back as exactly the payload it encodes. */
  lemma PayloadRoundTrip(p: Payload)
    ensures DecodePayload(EncodePayload(p)) == Some(p)
  {
    var n1, n2, n3 := Json.Nullable(p.status), Json.Nullable(p.statusType), Json.Nullable(p.substatusType);
    var k1, k2, k3 := Json.Key("status"), Json.Key("status_type"), Json.Key("substatus_type");
    PayloadLayout(p);
    var t3 := n3 + "}";
    var t2 := n2 + ((", " + k3 + ": ") + t3);
    var t1 := n1 + ((", " + k2 + ": ") + t2);
    Text.StripPrefixAppend("{" + k1 + ": ", t1);
    Json.ParseNullableRoundTrip(p.status, (", " + k2 + ": ") + t2);
    Text.StripPrefixAppend(", " + k2 + ": ", t2);
    Json.ParseNullableRoundTrip(p.statusType, (", " + k3 + ": ") + t3);
    Text.StripPrefixAppend(", " + k3 + ": ", t3);
    Json.ParseNullableRoundTrip(p.substatusType, "}");
  }

  /** The payload's JSON text is printable ASCII. */
  lemma PayloadPrintable(p: Payload)
    ensures Text.Printable(EncodePayload(p))
  {
    Json.NullablePrintable(p.status);
    Json.NullablePrintable(p.statusType);
    Json.NullablePrintable(p.substatusType);
    Json.ObjectPrintable3("status", Json.Nullable(p.status), "status_type", Json.Nullable(p.statusType),
      "substatus_type", Json.Nullable(p.substatusType));
  }

  /** One message's JSON text, spelled out. */
  lemma MessageLayout(m: Message)
    ensures EncodeMessage(m) ==
      ("{" + Json.Key("role") + ": ") + (Json.Quote(m.role) + ((", " + Json.Key("content") + ": ") + (Json.Quote(m.content) + "}")))
  {
    Json.ObjectLayout2("role", Json.Quote(m.role), "content", Json.Quote(m.content));
  }

  /** A message reads back from its JSON text, whatever follows it. */
  lemma MessageRoundTrip(m: Message, rest: string)
    ensures DecodeMessage(EncodeMessage(m) + rest) == Some((m, rest))
  {
    var k1, k2 := Json.Key("role"), Json.Key("content");
    var q1, q2 := Json.Quote(m.role), Json.Quote(m.content);
    MessageLayout(m);
    var t2 := q2 + ("}" + rest);
    var t1 := q1 + ((", " + k2 + ": ") + t2);
    assert EncodeMessage(m) + rest == ("{" + k1 + ": ") + t1;
    Text.StripPrefixAppend("{" + k1 + ": ", t1);
    Json.ParseStringQuote(m.role, (", " + k2 + ": ") + t2);
    Text.StripPrefixAppend(", " + k2 + ": ", t2);
    Json.ParseStringQuote(m.content, "}" + rest);
    Text.StripPrefixAppend("}", rest);
  }

  /** A non-empty list of messages reads back through its closing bracket. */
  lemma {:induction false} ItemsRoundTrip(ms: seq<Message>, rest: string)
    requires |ms| >= 1
    ensures DecodeMessageItems(Text.JoinWith(", ", EncodeMessages(ms)) + "]" + rest) == Some((ms, rest))
    decreases |ms|
  {
    var items := EncodeMessages(ms);
    if |ms| == 1 {
      assert Text.JoinWith(", ", items) == EncodeMessage(ms[0]);
      LastItemRoundTrip(ms[0], rest);
      assert [ms[0]] == ms;
    } else {
      var more := ms[1..];
      var joined := Text.JoinWith(", ", EncodeMessages(more));
      assert items[1..] == EncodeMessages(more);
      assert Text.JoinWith(", ", items) == EncodeMessage(ms[0]) + ", " + joined;
      ItemsRoundTrip(more, rest);
      NextItemRoundTrip(ms[0], joined + "]" + rest, more, rest);
      SplitItems(EncodeMessage(ms[0]), joined, rest);
      assert [ms[0]] + more == ms;
    }
  }

  /** Regrouping kept apart from the induction step: stated inline there, it puts the
      step over the resource limit. */
  lemma SplitItems(head: string, joined: string, rest: string)
    ensures (head + ", " + joined) + "]" + rest == head + ", " + (joined + "]" + rest)
  {
  }

  lemma LastItemRoundTrip(m: Message, rest: string)
    ensures DecodeMessageItems(EncodeMessage(m) + "]" + rest) == Some(([m], rest))
  {
    var after := "]" + rest;
    assert EncodeMessage(m) + "]" + rest == EncodeMessage(m) + after;
    MessageRoundTrip(m, after);
    Text.FirstCharDiffers(after, ", ");
    Text.StripPrefixAppend("]", rest);
  }

  lemma NextItemRoundTrip(m: Message, tail: string, more: seq<Message>, rest: string)
    requires DecodeMessageItems(tail) == Some((more, rest))
    ensures DecodeMessageItems(EncodeMessage(m) + ", " + tail) == Some(([m] + more, rest))
  {
    var after := ", " + tail;
    assert EncodeMessage(m) + ", " + tail == EncodeMessage(m) + after;
    MessageRoundTrip(m, after);
    assert Text.StartsWith(after, ", ");
    assert after[2..] == tail;
  }

  /** How the line of a record starts and ends. */
  lemma RecordLayout(r: Record)
    ensures EncodeRecord(r) ==
      ("{" + Json.Key("messages") + ": [") + (Text.JoinWith(", ", EncodeMessages(r.messages)) + "]" + "}")
  {
    var j := Text.JoinWith(", ", EncodeMessages(r.messages));
    Json.ObjectLayout1("messages", Json.Array(EncodeMessages(r.messages)));
    var q := Json.Key("messages");
    assert ("{" + q + ": ") + (("[" + j + "]") + "}") == ("{" + q + ": [") + (j + "]" + "}");
  }

  /** A record reads back from its line: the JSON text loses nothing. */
  lemma RecordRoundTrip(r: Record)
    ensures DecodeRecord(EncodeRecord(r)) == Some(r)
  {
    var items := EncodeMessages(r.messages);
    var lead := "{" + Json.Key("messages") + ": [";
    var body := Text.JoinWith(", ", items) + "]" + "}";
    RecordLayout(r);
    Text.StripPrefixAppend(lead, body);
    if r.messages == [] {
      assert body == "]}";
      assert DecodeRecord(EncodeRecord(r)) == Some(Record([]));
    } else {
      assert body[0] == items[0][0] == '{';
      assert !Text.StartsWith(body, "]");
      ItemsRoundTrip(r.messages, "}");
    }
  }

  /** A record's line is printable ASCII, so it holds no line break. */
  lemma RecordPrintable(r: Record)
    ensures Text.Printable(EncodeRecord(r))
  {
    var items := EncodeMessages(r.messages);
    forall i | 0 <= i < |items|
      ensures Text.Printable(items[i])
    {
      MessagePrintable(r.messages[i]);
    }
    Json.ArrayPrintable(items);
    Json.ObjectPrintable1("messages", Json.Array(items));
  }

  /** A message's JSON text is printable ASCII. */
  lemma MessagePrintable(m: Message)
    ensures Text.Printable(EncodeMessage(m))
  {
    Json.QuotePrintable(m.role);
    Json.QuotePrintable(m.content);
    Json.ObjectPrintable2("role", Json.Quote(m.role), "content", Json.Quote(m.content));
  }

  /** Lines each holding a record read back as those records. */
  lemma {:induction false} LinesRoundTrip(records: seq<Record>)
    ensures DecodeLines(Lines(records)) == Some(records)
    decreases |records|
  {
    if records != [] {
      var n := |records|;
      var init, last := records[..n - 1], records[n - 1];
      var lines := Lines(records);
      assert lines[..n - 1] == Lines(init);
      assert lines[n - 1] == EncodeRecord(last);
      LinesRoundTrip(init);
      RecordRoundTrip(last);
      assert DecodeLines(lines) == Some(init + [last]);
      assert init + [last] == records;
    }
  }

  /** The output file reads back, line by line, as exactly one record per input row, in
      row order: the record `BuildRecord` describes. */
  lemma JsonlRoundTrip(prompt: string, rows: seq<Row>)
    ensures DecodeJsonl(JsonlText(prompt, rows)) == Some(Records(prompt, rows))
  {
    var records := Records(prompt, rows);
    var lines := Lines(records);
    forall i | 0 <= i < |lines|
      ensures '\n' !in lines[i]
    {
      RecordPrintable(records[i]);
    }
    Text.TerminatedSplit(lines, '\n');
    var pieces := Text.Split(JsonlText(prompt, rows), '\n');
    assert pieces[..|pieces| - 1] == lines;
    LinesRoundTrip(records);
  }
}
