/** The classification-result flattener of scripts/status_classifier_response_json_to_csv.py:
    the `classified_statuses` lists of the `.json` documents of a folder become one CSV
    table with the columns `status_name`, `status_type` and `substatus_type`.

    The folder listing arrives as a sequence of names and each document already parsed;
    the output is the text the script writes to its CSV file. */
module ClassifierCsv {
  import opened Wrappers
  import Text
  import PyText
  import Seqs

  // ---------------------------------------------------------------------------
  // Parsed documents

  /** One field of a status object: absent, an explicit JSON `null`, or a string. */
  datatype Field = Missing | Null | Str(s: string)

  /** One entry of `classified_statuses`. */
  datatype StatusObject = StatusObject(statusName: Field, statusType: Field, substatusType: Field)

  /** The `classified_statuses` member of a document: absent, `null`, or a list. */
  datatype StatusList = NoList | NullList | List(items: seq<StatusObject>)

  /** A parsed input file. */
  datatype Document = Document(classifiedStatuses: StatusList)

  /** `obj.get(key, default)` on a field: the default only when the key is absent;
      an explicit `null` is `None` whatever the default. */
  function Get(f: Field, default: Option<string>): (r: Option<string>)
    ensures f.Missing? ==> r == default
    ensures f.Null? ==> r == None
    ensures f.Str? ==> r == Some(f.s)
  {
    match f
    case Missing => default
    case Null => None
    case Str(s) => Some(s)
  }

  /** One tuple of `all_statuses`. */
  datatype StatusTuple = StatusTuple(name: Option<string>, statusType: Option<string>, substatusType: Option<string>)

  /** The tuple of one status object: `status_name` and `status_type` default to `""`,
      `substatus_type` to `None`. */
  function Extract(o: StatusObject): StatusTuple
  {
    StatusTuple(Get(o.statusName, Some("")), Get(o.statusType, Some("")), Get(o.substatusType, None))
  }

  /** A field left out of the object takes its default, and only then. */
  lemma ExtractDefaults(o: StatusObject)
    ensures Extract(o).name == Some("") <==> o.statusName == Missing || o.statusName == Str("")
    ensures Extract(o).statusType == Some("") <==> o.statusType == Missing || o.statusType == Str("")
    ensures Extract(o).substatusType == None <==> o.substatusType == Missing || o.substatusType == Null
  {
  }

  // ---------------------------------------------------------------------------
  // Choosing the files

  /** `[f for f in names if f.endswith(".json")]`. */
  function JsonFiles(names: seq<string>): (r: seq<string>)
    ensures |r| <= |names|
    ensures forall i :: 0 <= i < |r| ==> Text.EndsWith(r[i], ".json")
  {
    if names == [] then []
    else
      var init := JsonFiles(names[..|names| - 1]);
      var last := names[|names| - 1];
      if Text.EndsWith(last, ".json") then init + [last] else init
  }

  /** A name is kept exactly when it is listed and ends with `.json`. */
  lemma {:induction false} JsonFilesMember(names: seq<string>, x: string)
    ensures x in JsonFiles(names) <==> x in names && Text.EndsWith(x, ".json")
    decreases |names|
  {
    if names != [] {
      var init := names[..|names| - 1];
      JsonFilesMember(init, x);
      assert names == init + [names[|names| - 1]];
    }
  }

  /** Filtering keeps the listing order: the kept names of a longer listing are the kept
      names of its first part followed by those of its second. */
  lemma {:induction false} JsonFilesAppend(a: seq<string>, b: seq<string>)
    ensures JsonFiles(a + b) == JsonFiles(a) + JsonFiles(b)
    decreases |b|
  {
    if b == [] {
      assert a + b == a;
    } else {
      var n := |b|;
      assert (a + b)[..|a + b| - 1] == a + b[..n - 1];
      assert (a + b)[|a + b| - 1] == b[n - 1];
      JsonFilesAppend(a, b[..n - 1]);
    }
  }

  // ---------------------------------------------------------------------------
  // Collecting the tuples

  /** The tuples of some status objects, one per object and in list order. */
  function ExtractAll(items: seq<StatusObject>): (r: seq<StatusTuple>)
    ensures |r| == |items|
    ensures forall i :: 0 <= i < |items| ==> r[i] == Extract(items[i])
  {
    Seqs.Mapped(Extract, items)
  }

  /** What one document contributes: nothing when it has no `classified_statuses`,
      one tuple per entry otherwise; `None` when the member is `null`, which the
      `for` loop cannot iterate. */
  function DocTuples(doc: Document): Option<seq<StatusTuple>>
  {
    match doc.classifiedStatuses
    case NoList => Some([])
    case NullList => None
    case List(items) => Some(ExtractAll(items))
  }

  /** Every file to read has a document. */
  predicate Loaded(files: seq<string>, docs: map<string, Document>)
  {
    forall i | 0 <= i < |files| :: files[i] in docs
  }

  /** `all_statuses` after reading `files` in order, or the name of the first file whose
      `classified_statuses` is `null` (where the script stops with a TypeError). */
  function Collected(files: seq<string>, docs: map<string, Document>): Result<seq<StatusTuple>, string>
    requires Loaded(files, docs)
  {
    if files == [] then Success([])
    else
      var init :- Collected(files[..|files| - 1], docs);
      var last := files[|files| - 1];
      match DocTuples(docs[last])
      case None => Failure(last)
      case Some(ts) => Success(init + ts)
  }

  /** The number of status objects in the documents' lists. */
  function ItemCount(files: seq<string>, docs: map<string, Document>): nat
    requires Loaded(files, docs)
  {
    if files == [] then 0
    else
      var last := docs[files[|files| - 1]];
      ItemCount(files[..|files| - 1], docs) + (if last.classifiedStatuses.List? then |last.classifiedStatuses.items| else 0)
  }

  /** The nested loops of the script: for each file in turn, one tuple per entry of its
      list, appended in list order. */
  method CollectStatuses(files: seq<string>, docs: map<string, Document>) returns (r: Result<seq<StatusTuple>, string>)
    requires Loaded(files, docs)
    ensures r == Collected(files, docs)
  {
    var all: seq<StatusTuple> := [];
    for i := 0 to |files|
      invariant Collected(files[..i], docs) == Success(all)
    {
      assert files[..i + 1][..i] == files[..i];
      assert files[..i + 1][i] == files[i];
      var doc := docs[files[i]];
      match doc.classifiedStatuses {
        case NullList =>
          r := Failure(files[i]);
          CollectedPrefix(files, docs, i + 1);
          return;
        case NoList =>
          assert all + [] == all;
        case List(items) =>
          var start := all;
          for j := 0 to |items|
            invariant all == start + ExtractAll(items[..j])
          {
            assert items[..j + 1][..j] == items[..j];
            all := all + [Extract(items[j])];
          }
          assert items[..|items|] == items;
          assert DocTuples(doc) == Some(ExtractAll(items));
      }
    }
    assert files[..|files|] == files;
    r := Success(all);
  }

  /** Once a prefix of the files fails, the whole run fails with the same name. */
  lemma {:induction false} CollectedPrefix(files: seq<string>, docs: map<string, Document>, i: nat)
    requires Loaded(files, docs) && i <= |files|
    requires Collected(files[..i], docs).Failure?
    ensures Collected(files, docs) == Collected(files[..i], docs)
    decreases |files| - i
  {
    if i < |files| {
      assert files[..i + 1][..i] == files[..i];
      CollectedPrefix(files, docs, i + 1);
    } else {
      assert files[..i] == files;
    }
  }

  /** The failure-propagating step of `Collected`, on values: if `ab` combines `ra` and
      `rb`, then adding one more file's tuples `d` to both keeps them combined. */
  lemma ChainStep(ra: Result<seq<StatusTuple>, string>, rb: Result<seq<StatusTuple>, string>,
                  ab: Result<seq<StatusTuple>, string>, d: Option<seq<StatusTuple>>, last: string)
    requires ab == match ra
      case Failure(e) => Failure(e)
      case Success(x) =>
        match rb
        case Failure(e) => Failure(e)
        case Success(y) => Success(x + y)
    ensures (match ab
      case Failure(e) => Failure(e)
      case Success(x) =>
        match d
        case None => Failure(last)
        case Some(ts) => Success(x + ts)) ==
      match ra
      case Failure(e) => Failure(e)
      case Success(x) =>
        match (match rb
          case Failure(e) => Failure(e)
          case Success(y) =>
            match d
            case None => Failure(last)
            case Some(ts) => Success(y + ts))
        case Failure(e) => Failure(e)
        case Success(y) => Success(x + y)
  {
    if ra.Success? && rb.Success? && d.Some? {
      assert (ra.value + rb.value) + d.value == ra.value + (rb.value + d.value);
    }
  }

  /** Files of two loaded batches are loaded. */
  lemma LoadedAppend(a: seq<string>, b: seq<string>, docs: map<string, Document>)
    requires Loaded(a, docs) && Loaded(b, docs)
    ensures Loaded(a + b, docs)
  {
    forall i | 0 <= i < |a + b|
      ensures (a + b)[i] in docs
    {
      if i >= |a| {
        assert (a + b)[i] == b[i - |a|];
      }
    }
  }

  /** Reading one more file: the tuples so far, then that file's, or the first failure. */
  lemma CollectedSnoc(files: seq<string>, f: string, docs: map<string, Document>)
    requires Loaded(files + [f], docs)
    ensures Loaded(files, docs) && f in docs
    ensures Collected(files + [f], docs) ==
      match Collected(files, docs)
      case Failure(e) => Failure(e)
      case Success(x) =>
        match DocTuples(docs[f])
        case None => Failure(f)
        case Some(ts) => Success(x + ts)
  {
    assert (files + [f])[..|files|] == files;
    assert (files + [f])[|files|] == f;
  }

  /** Reading two batches of files in turn gives the tuples of the first batch followed by
      those of the second, and stops at the first failure. */
  lemma {:induction false} CollectedAppend(a: seq<string>, b: seq<string>, docs: map<string, Document>)
    requires Loaded(a, docs) && Loaded(b, docs)
    ensures Loaded(a + b, docs)
    ensures Collected(a + b, docs) ==
      match Collected(a, docs)
      case Failure(e) => Failure(e)
      case Success(x) =>
        match Collected(b, docs)
        case Failure(e) => Failure(e)
        case Success(y) => Success(x + y)
    decreases |b|
  {
    if b == [] {
      assert a + b == a;
      if Collected(a, docs).Success? {
        assert Collected(a, docs).value + [] == Collected(a, docs).value;
      }
    } else {
      var n := |b|;
      var init, last := b[..n - 1], b[n - 1];
      assert b == init + [last];
      assert a + b == (a + init) + [last];
      LoadedAppend(a, b, docs);
      CollectedSnoc(init, last, docs);
      CollectedAppend(a, init, docs);
      CollectedSnoc(a + init, last, docs);
      ChainStep(Collected(a, docs), Collected(init, docs), Collected(a + init, docs), DocTuples(docs[last]), last);
    }
  }

  /** A single file contributes exactly its list's tuples: none when it has no
      `classified_statuses`, one per entry, in order, when it has a list. */
  lemma CollectedSingle(f: string, docs: map<string, Document>)
    requires f in docs
    ensures Loaded([f], docs)
    ensures docs[f].classifiedStatuses.NoList? ==> Collected([f], docs) == Success([])
    ensures docs[f].classifiedStatuses.NullList? ==> Collected([f], docs) == Failure(f)
    ensures docs[f].classifiedStatuses.List? ==>
      Collected([f], docs) == Success(ExtractAll(docs[f].classifiedStatuses.items))
  {
    assert [f][..0] == [];
    assert Collected([], docs) == Success([]);
    match DocTuples(docs[f]) {
      case None =>
      case Some(ts) => assert [] + ts == ts;
    }
  }

  /** On success there is one tuple per status object of the files read. */
  lemma {:induction false} CollectedCount(files: seq<string>, docs: map<string, Document>)
    requires Loaded(files, docs)
    ensures Collected(files, docs).Success? ==> |Collected(files, docs).value| == ItemCount(files, docs)
    decreases |files|
  {
    if files != [] {
      CollectedCount(files[..|files| - 1], docs);
    }
  }

  /** The run fails exactly when some file's `classified_statuses` is `null`, and then
      names the first such file. */
  lemma {:induction false} CollectedFailure(files: seq<string>, docs: map<string, Document>)
    requires Loaded(files, docs)
    ensures Collected(files, docs).Failure? <==>
      exists i :: 0 <= i < |files| && docs[files[i]].classifiedStatuses.NullList?
    ensures Collected(files, docs).Failure? ==>
      exists i :: 0 <= i < |files| && docs[files[i]].classifiedStatuses.NullList? &&
        Collected(files, docs).error == files[i] &&
        forall j :: 0 <= j < i ==> !docs[files[j]].classifiedStatuses.NullList?
    decreases |files|
  {
    if files != [] {
      var n := |files|;
      var init := files[..n - 1];
      CollectedFailure(init, docs);
      if exists i :: 0 <= i < n - 1 && docs[init[i]].classifiedStatuses.NullList? {
        var i :| 0 <= i < n - 1 && docs[init[i]].classifiedStatuses.NullList?;
        assert files[i] == init[i];
      }
      if exists i :: 0 <= i < n && docs[files[i]].classifiedStatuses.NullList? {
        var i :| 0 <= i < n && docs[files[i]].classifiedStatuses.NullList?;
        if i < n - 1 {
          assert init[i] == files[i];
        }
      }
      if Collected(init, docs).Failure? {
        var i :| 0 <= i < n - 1 && docs[init[i]].classifiedStatuses.NullList? &&
          Collected(init, docs).error == init[i] &&
          forall j :: 0 <= j < i ==> !docs[init[j]].classifiedStatuses.NullList?;
        assert forall j :: 0 <= j < i ==> init[j] == files[j];
      } else if docs[files[n - 1]].classifiedStatuses.NullList? {
        assert forall j :: 0 <= j < n - 1 ==> init[j] == files[j];
      }
    }
  }

  // ---------------------------------------------------------------------------
  // Writing the CSV text

  /** The header line, without its newline. */
  const HeaderRow := "status_name,status_type,substatus_type"

  /** `"" if substatus_type is None else substatus_type`. */
  function SubstatusCell(v: Option<string>): (r: string)
    ensures v.None? ==> r == ""
    ensures v.Some? ==> r == v.value
  {
    if v.None? then "" else v.value
  }

  /** The three cells of a tuple as written: `status_name` and `status_type` through
      the f-string (`None` shows as `None`), `substatus_type` with `None` as empty. */
  function Cells(t: StatusTuple): (string, string, string)
  {
    (PyText.Format(t.name), PyText.Format(t.statusType), SubstatusCell(t.substatusType))
  }

  /** `f'"{status_name}","{status_type}","{substatus_value}"'`, without its newline: every
      cell between double quotes, nothing inside escaped. */
  function CsvRow(t: StatusTuple): string
  {
    var (a, b, c) := Cells(t);
    "\"" + a + "\",\"" + b + "\",\"" + c + "\""
  }

  /** The rows of some tuples, one per tuple and in order. */
  function CsvRows(ts: seq<StatusTuple>): (r: seq<string>)
    ensures |r| == |ts|
    ensures forall i :: 0 <= i < |ts| ==> r[i] == CsvRow(ts[i])
  {
    Seqs.Mapped(CsvRow, ts)
  }

  /** The file the script writes: the header line, then one line per tuple. */
  function CsvText(ts: seq<StatusTuple>): string
  {
    Text.Terminated([HeaderRow] + CsvRows(ts), '\n')
  }

  /** The writing loop: the header first, then each tuple's line in turn. */
  method WriteCsv(ts: seq<StatusTuple>) returns (text: string)
    ensures text == CsvText(ts)
  {
    text := HeaderRow + "\n";
    HeaderText();
    for i := 0 to |ts|
      invariant text == Text.Terminated([HeaderRow] + CsvRows(ts[..i]), '\n')
    {
      var t := ts[i];
      var substatusValue := if t.substatusType.None? then "" else t.substatusType.value;
      var line := "\"" + PyText.Format(t.name) + "\",\"" + PyText.Format(t.statusType) + "\",\"" + substatusValue + "\"\n";
      RowLine(t, substatusValue);
      CsvTextStep(ts, i);
      text := text + line;
    }
    assert ts[..|ts|] == ts;
  }

  lemma HeaderText()
    ensures Text.Terminated([HeaderRow], '\n') == HeaderRow + "\n"
  {
    assert [HeaderRow][1..] == [];
  }

  /** The line the loop writes for a tuple is its row and a newline. */
  lemma RowLine(t: StatusTuple, substatusValue: string)
    requires substatusValue == if t.substatusType.None? then "" else t.substatusType.value
    ensures "\"" + PyText.Format(t.name) + "\",\"" + PyText.Format(t.statusType) + "\",\"" + substatusValue + "\"\n" ==
      CsvRow(t) + "\n"
  {
    var a, b := PyText.Format(t.name), PyText.Format(t.statusType);
    assert Cells(t) == (a, b, substatusValue);
    var c := substatusValue;
    assert "\"" + a + "\",\"" + b + "\",\"" + c + "\"\n" == ("\"" + a + "\",\"" + b + "\",\"" + c + "\"") + "\n";
  }

  /** Writing one more tuple appends its row and a newline. */
  lemma CsvTextStep(ts: seq<StatusTuple>, i: nat)
    requires i < |ts|
    ensures Text.Terminated([HeaderRow] + CsvRows(ts[..i + 1]), '\n') ==
      Text.Terminated([HeaderRow] + CsvRows(ts[..i]), '\n') + CsvRow(ts[i]) + "\n"
  {
    assert ts[..i + 1][..i] == ts[..i];
    assert [HeaderRow] + CsvRows(ts[..i + 1]) == ([HeaderRow] + CsvRows(ts[..i])) + [CsvRow(ts[i])];
    Text.TerminatedAppend([HeaderRow] + CsvRows(ts[..i]), CsvRow(ts[i]), '\n');
  }

  /** The whole script: keep the `.json` names, collect their tuples, write the table;
      or stop, writing nothing, at the first file whose `classified_statuses` is `null`. */
  method Run(names: seq<string>, docs: map<string, Document>) returns (r: Result<string, string>)
    requires Loaded(JsonFiles(names), docs)
    ensures Collected(JsonFiles(names), docs).Failure? ==> r == Failure(Collected(JsonFiles(names), docs).error)
    ensures Collected(JsonFiles(names), docs).Success? ==> r == Success(CsvText(Collected(JsonFiles(names), docs).value))
  {
    var jsonFiles := JsonFiles(names);
    var statuses := CollectStatuses(jsonFiles, docs);
    if statuses.Failure? {
      return Failure(statuses.error);
    }
    var text := WriteCsv(statuses.value);
    return Success(text);
  }

  // ---------------------------------------------------------------------------
  // Reading the table back

  /** Reads the three cells of a row: double-quoted cells separated by commas,
      none holding a double quote. */
  function ParseRow(line: string): Option<(string, string, string)>
  {
    var pieces := Text.Split(line, '"');
    if |pieces| == 7 && pieces[0] == "" && pieces[2] == "," && pieces[4] == "," && pieces[6] == "" then
      Some((pieces[1], pieces[3], pieces[5]))
    else
      None
  }

  function ParseRows(lines: seq<string>): Option<seq<(string, string, string)>>
  {
    if lines == [] then Some([])
    else
      var init :- ParseRows(lines[..|lines| - 1]);
      var last :- ParseRow(lines[|lines| - 1]);
      Some(init + [last])
  }

  /** Reads the cells of every row back from the CSV text: the header line first, then
      one row per line, and a final newline. */
  function ParseCsv(text: string): Option<seq<(string, string, string)>>
  {
    ParseLines(Text.Split(text, '\n'))
  }

  /** The rows between the header line and the empty piece after the last newline. */
  function ParseLines(pieces: seq<string>): Option<seq<(string, string, string)>>
  {
    if |pieces| >= 2 && pieces[0] == HeaderRow && pieces[|pieces| - 1] == "" then
      ParseRows(pieces[1..|pieces| - 1])
    else
      None
  }

  /** The cells hold neither a double quote nor a line break. */
  predicate PlainCells(t: StatusTuple)
  {
    var (a, b, c) := Cells(t);
    '"' !in a && '"' !in b && '"' !in c && '\n' !in a && '\n' !in b && '\n' !in c
  }

  /** The cells of some tuples, in order. */
  function AllCells(ts: seq<StatusTuple>): (r: seq<(string, string, string)>)
    ensures |r| == |ts|
    ensures forall i :: 0 <= i < |ts| ==> r[i] == Cells(ts[i])
  {
    Seqs.Mapped(Cells, ts)
  }

  /** A row of plain cells splits on the double quote into its three cells and the
      two separating commas. */
  lemma RowSplit(t: StatusTuple)
    requires PlainCells(t)
    ensures Text.Split(CsvRow(t), '"') == ["", Cells(t).0, ",", Cells(t).1, ",", Cells(t).2, ""]
  {
    var (a, b, c) := Cells(t);
    SplitCells(a, b, c);
  }

  /** Three quote-free cells, each between quotes and separated by commas, split on the
      quote into the cells and the two commas. */
  lemma SplitCells(a: string, b: string, c: string)
    requires '"' !in a && '"' !in b && '"' !in c
    ensures Text.Split("\"" + a + "\",\"" + b + "\",\"" + c + "\"", '"') == ["", a, ",", b, ",", c, ""]
  {
    var q := '"';
    var tail := b + [q] + ("," + [q] + (c + [q] + ""));
    QuotedCells(a, b, c);
    SplitLastCells(b, c);
    Text.SplitAtSeparator(",", tail, q);
    Text.SplitAtSeparator(a, "," + [q] + tail, q);
    Text.SplitAtSeparator("", a + [q] + ("," + [q] + tail), q);
  }

  /** A row's text, regrouped around its six quotes. Kept apart from `SplitCells`: stated
      there, the regrouping of the string literals puts that proof near the resource limit. */
  lemma QuotedCells(a: string, b: string, c: string)
    ensures "\"" + a + "\",\"" + b + "\",\"" + c + "\"" ==
      "" + ['"'] + (a + ['"'] + ("," + ['"'] + (b + ['"'] + ("," + ['"'] + (c + ['"'] + "")))))
  {
  }

  /** The last two cells of a row, each closed by its quote, split into those cells. */
  lemma SplitLastCells(b: string, c: string)
    requires '"' !in b && '"' !in c
    ensures Text.Split(b + ['"'] + ("," + ['"'] + (c + ['"'] + "")), '"') == [b, ",", c, ""]
  {
    var q := '"';
    Text.SplitNoSeparator("", q);
    Text.SplitAtSeparator(c, "", q);
    Text.SplitAtSeparator(",", c + [q] + "", q);
    Text.SplitAtSeparator(b, "," + [q] + (c + [q] + ""), q);
  }

  /** A row of plain cells reads back as its cells. */
  lemma RowRoundTrip(t: StatusTuple)
    requires PlainCells(t)
    ensures ParseRow(CsvRow(t)) == Some(Cells(t))
  {
    RowSplit(t);
  }

  /** A row of plain cells is a single line. */
  lemma RowSingleLine(t: StatusTuple)
    requires PlainCells(t)
    ensures '\n' !in CsvRow(t)
  {
  }

  lemma {:induction false} RowsRoundTrip(ts: seq<StatusTuple>)
    requires forall i :: 0 <= i < |ts| ==> PlainCells(ts[i])
    ensures ParseRows(CsvRows(ts)) == Some(AllCells(ts))
    decreases |ts|
  {
    if ts != [] {
      var n := |ts|;
      var rows := CsvRows(ts);
      assert rows[..n - 1] == CsvRows(ts[..n - 1]);
      RowsRoundTrip(ts[..n - 1]);
      RowRoundTrip(ts[n - 1]);
    }
  }

  /** The table reads back as the header and then each tuple's cells, one line per tuple
      and in order, as long as no cell holds a double quote or a line break. */
  lemma CsvRoundTrip(ts: seq<StatusTuple>)
    requires forall i :: 0 <= i < |ts| ==> PlainCells(ts[i])
    ensures ParseCsv(CsvText(ts)) == Some(AllCells(ts))
  {
    var rows := CsvRows(ts);
    forall i | 0 <= i < |rows|
      ensures '\n' !in rows[i]
    {
      RowSingleLine(ts[i]);
    }
    RowsRoundTrip(ts);
    ParseTable(rows, AllCells(ts));
  }

  /** Single-line rows under the header read back as whatever the rows read back as. */
  lemma ParseTable(rows: seq<string>, cells: seq<(string, string, string)>)
    requires forall i :: 0 <= i < |rows| ==> '\n' !in rows[i]
    requires ParseRows(rows) == Some(cells)
    ensures ParseCsv(Text.Terminated([HeaderRow] + rows, '\n')) == Some(cells)
  {
    TableLines(rows);
    HeaderLines(rows);
  }

  lemma HeaderLines(rows: seq<string>)
    ensures ParseLines([HeaderRow] + (rows + [""])) == ParseRows(rows)
  {
    var pieces := [HeaderRow] + (rows + [""]);
    assert pieces[0] == HeaderRow && pieces[|pieces| - 1] == "";
    assert pieces[1..|pieces| - 1] == rows;
  }

  /** The lines of a table of single-line rows: the header, the rows, and the empty
      piece after the last newline. */
  lemma TableLines(rows: seq<string>)
    requires forall i :: 0 <= i < |rows| ==> '\n' !in rows[i]
    ensures Text.Split(Text.Terminated([HeaderRow] + rows, '\n'), '\n') == [HeaderRow] + (rows + [""])
  {
    Text.TerminatedSplit(rows, '\n');
    HeaderSplit(rows);
  }

  /** The header line splits off the rest of the table. */
  lemma HeaderSplit(rows: seq<string>)
    ensures Text.Split(Text.Terminated([HeaderRow] + rows, '\n'), '\n') ==
      [HeaderRow] + Text.Split(Text.Terminated(rows, '\n'), '\n')
  {
    assert ([HeaderRow] + rows)[1..] == rows;
    assert '\n' !in HeaderRow;
    Text.SplitAtSeparator(HeaderRow, Text.Terminated(rows, '\n'), '\n');
  }

  /** Cells are not escaped, so the table does not determine the tuples: a first cell
      holding `","` gives the same text as a second cell holding it. */
  lemma CellBoundaryAmbiguous(x: string, y: string, z: string, sub: Option<string>)
    ensures StatusTuple(Some(x + "\",\"" + y), Some(z), sub) != StatusTuple(Some(x), Some(y + "\",\"" + z), sub)
    ensures CsvText([StatusTuple(Some(x + "\",\"" + y), Some(z), sub)]) ==
      CsvText([StatusTuple(Some(x), Some(y + "\",\"" + z), sub)])
  {
    var t1 := StatusTuple(Some(x + "\",\"" + y), Some(z), sub);
    var t2 := StatusTuple(Some(x), Some(y + "\",\"" + z), sub);
    assert |x + "\",\"" + y| != |x|;
    var c := SubstatusCell(sub);
    assert Cells(t1) == (x + "\",\"" + y, z, c);
    assert Cells(t2) == (x, y + "\",\"" + z, c);
    assert "\"" + (x + "\",\"" + y) + "\",\"" + z + "\",\"" + c + "\"" ==
      "\"" + x + "\",\"" + (y + "\",\"" + z) + "\",\"" + c + "\"";
    SingleRowText(t1);
    SingleRowText(t2);
  }

  /** A last cell holding a line break between quotes gives the same text as two tuples. */
  lemma LineBreakAmbiguous(a: string, b: string, c: string, d: string, e: string, f: string)
    ensures CsvText([StatusTuple(Some(a), Some(b), Some(c + "\"\n\"" + d + "\",\"" + e + "\",\"" + f))]) ==
      CsvText([StatusTuple(Some(a), Some(b), Some(c)), StatusTuple(Some(d), Some(e), Some(f))])
  {
    var t3 := StatusTuple(Some(a), Some(b), Some(c + "\"\n\"" + d + "\",\"" + e + "\",\"" + f));
    var t4, t5 := StatusTuple(Some(a), Some(b), Some(c)), StatusTuple(Some(d), Some(e), Some(f));
    assert Cells(t3) == (a, b, c + "\"\n\"" + d + "\",\"" + e + "\",\"" + f);
    assert Cells(t4) == (a, b, c);
    assert Cells(t5) == (d, e, f);
    assert "\"\n\"" == "\"" + "\n" + "\"";
    assert "\"" + a + "\",\"" + b + "\",\"" + (c + "\"\n\"" + d + "\",\"" + e + "\",\"" + f) + "\"" + "\n" ==
      ("\"" + a + "\",\"" + b + "\",\"" + c + "\"") + "\n" + ("\"" + d + "\",\"" + e + "\",\"" + f + "\"") + "\n";
    SingleRowText(t3);
    TwoRowText(t4, t5);
  }

  /** The text of a two-tuple table. */
  lemma TwoRowText(t: StatusTuple, u: StatusTuple)
    ensures CsvText([t, u]) == HeaderRow + "\n" + CsvRow(t) + "\n" + CsvRow(u) + "\n"
  {
    assert [t, u][..1] == [t];
    assert [t][..0] == [];
    assert CsvRows([t, u]) == [CsvRow(t), CsvRow(u)];
    HeaderText();
    Text.TerminatedAppend([HeaderRow], CsvRow(t), '\n');
    Text.TerminatedAppend([HeaderRow, CsvRow(t)], CsvRow(u), '\n');
    assert [HeaderRow] + [CsvRow(t)] == [HeaderRow, CsvRow(t)];
    assert [HeaderRow, CsvRow(t)] + [CsvRow(u)] == [HeaderRow] + CsvRows([t, u]);
  }

  /** The text of a one-tuple table. */
  lemma SingleRowText(t: StatusTuple)
    ensures CsvText([t]) == HeaderRow + "\n" + CsvRow(t) + "\n"
  {
    assert [t][..0] == [];
    assert CsvRows([t]) == [CsvRow(t)];
    HeaderText();
    Text.TerminatedAppend([HeaderRow], CsvRow(t), '\n');
    assert [HeaderRow] + [CsvRow(t)] == [HeaderRow] + CsvRows([t]);
  }

  /** Two documents, the first listing one status whose `substatus_type` is `null`, the
      second without `classified_statuses`: the table has exactly one data row, with an
      empty last cell. */
  lemma TwoDocumentsOneRow()
    ensures var docs := map[
        "a.json" := Document(List([StatusObject(Str("A"), Str("Transit"), Null)])),
        "b.json" := Document(NoList)];
      Loaded(["a.json", "b.json"], docs) &&
      Collected(["a.json", "b.json"], docs) == Success([StatusTuple(Some("A"), Some("Transit"), None)]) &&
      CsvText(Collected(["a.json", "b.json"], docs).value) == HeaderRow + "\n" + "\"A\",\"Transit\",\"\"" + "\n"
  {
    var docs := map[
      "a.json" := Document(List([StatusObject(Str("A"), Str("Transit"), Null)])),
      "b.json" := Document(NoList)];
    var t := StatusTuple(Some("A"), Some("Transit"), None);
    CollectedSingle("a.json", docs);
    CollectedSingle("b.json", docs);
    CollectedAppend(["a.json"], ["b.json"], docs);
    assert ["a.json"] + ["b.json"] == ["a.json", "b.json"];
    assert ExtractAll([StatusObject(Str("A"), Str("Transit"), Null)]) == [t];
    assert [t] + [] == [t];
    SingleRowText(t);
  }
}
