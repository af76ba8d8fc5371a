/**
 * `create_csv_from_results`: turn the model's responses into CSV rows.
 *
 * For every response: take `content[0].text` (or `''` when there is no
 * `content`), cut it from the first `{` to the last `}`, decode that as JSON and
 * write one row per test of every test group, the group's name, patient, age and
 * date copied onto each of its rows; a missing key reads as `''`. Anything that
 * raises ends that response only; rows already written stay. The call returns the
 * rows with the patient name and test date of the last group read, and raises
 * when no group was ever read.
 *
 * `json.loads` is the parameter `parse`; the CSV text is its header plus its rows,
 * each cell the decoded JSON value `csv.writer` would render.
 */
module Reconciler {
  import opened Wrappers
  import opened Json

  const Header: seq<string> := ["Test_Group", "Patient_Name", "age", "Date_of_test", "Test_Name", "Result", "Reference_Range", "Unit"]

  /** One data row, columns in `Header` order. */
  datatype Row = Row(
    testGroup: Value, patientName: Value, age: Value, dateOfTest: Value,
    testName: Value, result: Value, referenceRange: Value, unit: Value)

  /** The returned CSV: header row, then data rows. */
  datatype Csv = Csv(header: seq<string>, rows: seq<Row>)

  /** The `name` and `date` of a test group. */
  datatype Patient = Patient(name: Value, date: Value)

  /** The triple the call returns, or the `UnboundLocalError` it raises when no group was read. */
  datatype CsvOutcome = CsvReady(csv: Csv, patientName: Value, testDate: Value) | NoGroupRead

  /**
   * What one response leaves behind: the rows it wrote, the patient of the last
   * group it read, and whether it ran to the end without raising.
   */
  datatype Contribution = Contribution(rows: seq<Row>, last: Option<Patient>, completed: bool)

  /** The `''` every missing key reads as. */
  const Blank: Value := Str("")

  /** The cells of a row in column order. */
  function Cells(r: Row): (cells: seq<Value>)
    ensures |cells| == |Header|
    ensures cells[0] == r.testGroup && cells[1] == r.patientName && cells[4] == r.testName
  {
    [r.testGroup, r.patientName, r.age, r.dateOfTest, r.testName, r.result, r.referenceRange, r.unit]
  }

  // ----- Line 176: the response text -----

  /** `v[0]`: a list's first element, a string's first character; anything else raises. */
  function First(v: Value): (r: Option<Value>)
    ensures v.Array? && v.items != [] ==> r == Some(v.items[0])
    ensures r.Some? ==> (v.Array? && v.items != []) || (v.Str? && v.s != [])
  {
    match v
    case Array(items) => if items != [] then Some(items[0]) else None
    case Str(s) => if s != [] then Some(Str([s[0]])) else None
    case _ => None
  }

  /** `result.get('content', [{}])[0].get('text', '')`, when it is a string; `None` when line 176 or 177 raises. */
  function ResponseText(result: Value): (r: Option<string>)
    ensures r.Some? ==> result.Object?
  {
    match Lookup(result, "content", Array([Object([])]))
    case None => None
    case Some(content) =>
      match First(content)
      case None => None
      case Some(item) =>
        match Lookup(item, "text", Blank)
        case Some(Str(s)) => Some(s)
        case _ => None
  }

  /** A body without `content` reads as the default `[{}]`, whose missing `text` reads as `''`. */
  lemma NoContentEmptyText(result: Value)
    requires result.Object?
    requires forall i :: 0 <= i < |result.fields| ==> result.fields[i].key != "content"
    ensures ResponseText(result) == Some("")
  {
    GetSpec(result.fields, "content", Array([Object([])]));
  }

  /** A body whose `content` is a list starting with a dict that has a string `text` reads as that string. */
  lemma ContentText(fields: seq<Field>, i: nat, items: seq<Value>, ifs: seq<Field>, j: nat, t: string)
    requires i < |fields| && LastWithKey(fields, i, "content") && fields[i].value == Array(items)
    requires items != [] && items[0] == Object(ifs)
    requires j < |ifs| && LastWithKey(ifs, j, "text") && ifs[j].value == Str(t)
    ensures ResponseText(Object(fields)) == Some(t)
  {
    GetSpec(fields, "content", Array([Object([])]));
    GetSpec(ifs, "text", Blank);
  }

  // ----- Lines 177-180: the brace span -----

  /** `s.find(c)`: index of the first `c`, or -1. */
  function Find(s: string, c: char): (i: int)
    ensures -1 <= i < |s|
    ensures i >= 0 ==> s[i] == c && forall j :: 0 <= j < i ==> s[j] != c
    ensures i == -1 ==> forall j :: 0 <= j < |s| ==> s[j] != c
  {
    if s == [] then -1
    else if s[0] == c then 0
    else
      var k := Find(s[1..], c);
      if k == -1 then -1 else k + 1
  }

  /** `s.rfind(c)`: index of the last `c`, or -1. */
  function RFind(s: string, c: char): (i: int)
    ensures -1 <= i < |s|
    ensures i >= 0 ==> s[i] == c
    ensures forall j :: i < j < |s| ==> s[j] != c
  {
    if s == [] then -1
    else if s[|s| - 1] == c then |s| - 1
    else RFind(s[..|s| - 1], c)
  }

  /** Every `}` of `s` comes before every `{` (in particular: `s` lacks one of them). */
  predicate NoBraceSpan(s: string) {
    forall i, j :: 0 <= i < |s| && 0 <= j < |s| && s[i] == '{' && s[j] == '}' ==> j < i
  }

  /**
   * `response_text[json_start:json_end]` when the guard of line 180 holds: from
   * the first `{` to the last `}`, both included. `None` exactly when no `}`
   * follows a `{`.
   */
  function BraceSpan(s: string): (r: Option<string>)
    ensures r.None? <==> NoBraceSpan(s)
    ensures r.Some? ==> |r.value| >= 2 && r.value[0] == '{' && r.value[|r.value| - 1] == '}'
    ensures r.Some? ==> exists a :: OutermostAt(s, a, r.value)
  {
    var start := Find(s, '{');
    var end := RFind(s, '}') + 1;
    if start >= 0 && end > start then
      assert OutermostAt(s, start, s[start..end]);
      Some(s[start..end])
    else None
  }

  /** `span` sits in `s` at `a`, with no `{` before it and no `}` after it. */
  predicate OutermostAt(s: string, a: int, span: string) {
    && 0 <= a <= |s| - |span|
    && s[a..a + |span|] == span
    && (forall j :: 0 <= j < a ==> s[j] != '{')
    && (forall j :: a + |span| <= j < |s| ==> s[j] != '}')
  }

  // ----- Lines 184-205: rows of one decoded document -----

  /** The row of line 195 for the test whose members are `test`. */
  function RowFor(groupName: Value, patient: Patient, age: Value, test: seq<Field>): Row {
    Row(groupName, patient.name, age, patient.date,
        Get(test, "test_name", Blank), Get(test, "result", Blank),
        Get(test, "reference_range", Blank), Get(test, "unit", Blank))
  }

  /** What writing a sequence of rows left: the rows, and whether it ended without raising. */
  datatype Written = Written(rows: seq<Row>, completed: bool)

  /** Lines 193-205: one row per test; a test that is not a dict raises at its `.get`. */
  function TestRows(groupName: Value, patient: Patient, age: Value, tests: seq<Value>): (w: Written)
    ensures |w.rows| <= |tests|
    ensures w.completed <==> forall k :: 0 <= k < |tests| ==> tests[k].Object?
  {
    if tests == [] then Written([], true)
    else if !tests[0].Object? then Written([], false)
    else
      var rest := TestRows(groupName, patient, age, tests[1..]);
      assert forall k :: 1 <= k < |tests| ==> tests[k] == tests[1..][k - 1];
      Written([RowFor(groupName, patient, age, tests[0].fields)] + rest.rows, rest.completed)
  }

  /** Lines 184-205: every group in turn; a group that is not a dict, or whose tests cannot be iterated, raises. */
  function GroupRows(groups: seq<Value>): (c: Contribution)
    ensures c.last.None? ==> c.rows == []
    ensures c.last.None? <==> groups == [] || !groups[0].Object?
  {
    if groups == [] then Contribution([], None, true)
    else
      match groups[0]
      case Object(fields) =>
        var patient := Patient(Get(fields, "name", Blank), Get(fields, "date", Blank));
        var groupName := Get(fields, "group_name", Blank);
        var age := Get(fields, "age", Blank);
        (match Iterate(Get(fields, "tests", Array([])))
         case None => Contribution([], Some(patient), false)
         case Some(tests) =>
           var w := TestRows(groupName, patient, age, tests);
           if !w.completed then Contribution(w.rows, Some(patient), false)
           else
             var rest := GroupRows(groups[1..]);
             Contribution(w.rows + rest.rows, if rest.last.Some? then rest.last else Some(patient), rest.completed))
      case _ => Contribution([], None, false)
  }

  /**
   * Lines 174-211 for one response. Rows are written only under a group that was
   * read, and a response whose text cannot be read writes nothing and raises.
   */
  function Respond(result: Value, parse: string -> Option<Value>): (c: Contribution)
    ensures c.last.None? ==> c.rows == []
    ensures ResponseText(result).None? ==> c.rows == [] && !c.completed
  {
    match ResponseText(result)
    case None => Contribution([], None, false)
    case Some(text) =>
      match BraceSpan(text)
      case None => Contribution([], None, true)
      case Some(payload) =>
        match parse(payload)
        case None => Contribution([], None, false)
        case Some(parsed) =>
          match Lookup(parsed, "test_groups", Array([]))
          case None => Contribution([], None, false)
          case Some(groupsValue) =>
            match Iterate(groupsValue)
            case None => Contribution([], None, false)
            case Some(groups) => GroupRows(groups)
  }

  // ----- Lines 173-214: all responses -----

  /** What each response leaves behind, in response order. */
  function Contributions(results: seq<Value>, parse: string -> Option<Value>): (cs: seq<Contribution>)
    ensures |cs| == |results|
    ensures forall k :: 0 <= k < |results| ==> cs[k] == Respond(results[k], parse)
  {
    seq(|results|, k requires 0 <= k < |results| => Respond(results[k], parse))
  }

  /** Every contribution's rows, in order. */
  function RowsOfAll(cs: seq<Contribution>): seq<Row> {
    if cs == [] then [] else RowsOfAll(cs[..|cs| - 1]) + cs[|cs| - 1].rows
  }

  /** The patient of the last group read by any response. */
  function LastPatient(cs: seq<Contribution>): Option<Patient> {
    if cs == [] then None
    else if cs[|cs| - 1].last.Some? then cs[|cs| - 1].last
    else LastPatient(cs[..|cs| - 1])
  }

  /** `LastPatient` is the patient left by the last response that read a group, and there is none only if no response read one. */
  lemma {:induction false} LastPatientIsLatest(cs: seq<Contribution>)
    ensures LastPatient(cs).None? <==> forall k :: 0 <= k < |cs| ==> cs[k].last.None?
    ensures LastPatient(cs).Some? ==>
              exists k :: 0 <= k < |cs| && cs[k].last == LastPatient(cs) && forall j :: k < j < |cs| ==> cs[j].last.None?
  {
    if cs != [] {
      var init := cs[..|cs| - 1];
      LastPatientIsLatest(init);
      assert forall k :: 0 <= k < |init| ==> init[k] == cs[k];
      if cs[|cs| - 1].last.None? && LastPatient(init).Some? {
        var k :| 0 <= k < |init| && init[k].last == LastPatient(init) && forall j :: k < j < |init| ==> init[j].last.None?;
        assert cs[k].last == LastPatient(cs);
      }
    }
  }

  /**
   * `create_csv_from_results(all_results)`. The CSV starts with the fixed header
   * and holds every response's rows in order; the returned patient name and test
   * date are those of `LastPatient`, the last group read by the last response
   * that read one (`LastPatientIsLatest`);
   * when no response read a group the call raises.
   */
  method CreateCsvFromResults(results: seq<Value>, parse: string -> Option<Value>) returns (out: CsvOutcome)
    ensures out.NoGroupRead? <==> LastPatient(Contributions(results, parse)).None?
    ensures out.CsvReady? ==> out.csv.header == Header && out.csv.rows == RowsOfAll(Contributions(results, parse))
    ensures out.CsvReady? ==> LastPatient(Contributions(results, parse)) == Some(Patient(out.patientName, out.testDate))
  {
    ghost var cs := Contributions(results, parse);
    var rows: seq<Row> := [];
    var last: Option<Patient> := None;
    var i := 0;
    while i < |results|
      invariant 0 <= i <= |results|
      invariant rows == RowsOfAll(cs[..i])
      invariant last == LastPatient(cs[..i])
    {
      var c := Respond(results[i], parse);
      assert cs[..i + 1][..i] == cs[..i] && cs[..i + 1][i] == c;
      rows := rows + c.rows;
      if c.last.Some? {
        last := c.last;
      }
      i := i + 1;
    }
    assert cs[..|results|] == cs;
    if last.None? {
      return NoGroupRead;
    }
    return CsvReady(Csv(Header, rows), last.value.name, last.value.date);
  }

  /** Isolation: responses contribute independently, so a failing response never removes another's rows. */
  lemma {:induction false} RowsOfAllAppend(xs: seq<Contribution>, ys: seq<Contribution>)
    ensures RowsOfAll(xs + ys) == RowsOfAll(xs) + RowsOfAll(ys)
    decreases |ys|
  {
    if ys == [] {
      assert xs + ys == xs;
    } else {
      var init := ys[..|ys| - 1];
      assert (xs + ys)[..|xs + ys| - 1] == xs + init;
      RowsOfAllAppend(xs, init);
    }
  }

  /** The contributions of two batches of responses laid end to end are each batch's, in turn. */
  lemma ContributionsAppend(xs: seq<Value>, ys: seq<Value>, parse: string -> Option<Value>)
    ensures Contributions(xs + ys, parse) == Contributions(xs, parse) + Contributions(ys, parse)
  {
  }

  /** A response without a `{ ... }` span writes nothing and raises nothing. */
  lemma NoSpanNoRows(result: Value, parse: string -> Option<Value>, text: string)
    requires ResponseText(result) == Some(text)
    requires NoBraceSpan(text)
    ensures Respond(result, parse) == Contribution([], None, true)
  {
  }

  /** A span that does not decode writes nothing (and ends that response). */
  lemma ParseFailureNoRows(result: Value, parse: string -> Option<Value>, text: string, payload: string)
    requires ResponseText(result) == Some(text)
    requires BraceSpan(text) == Some(payload)
    requires parse(payload).None?
    ensures Respond(result, parse) == Contribution([], None, false)
  {
  }

  // ----- The schema the prompt asks for, as a reference -----

  datatype TestRecord = TestRecord(testName: Value, result: Value, referenceRange: Value, unit: Value)
  datatype TestGroup = TestGroup(groupName: Value, name: Value, date: Value, age: Value, tests: seq<TestRecord>)

  /** A test dict read with `''` for every missing key. */
  function DecodeTest(t: Value): Option<TestRecord> {
    match t
    case Object(fs) =>
      Some(TestRecord(Get(fs, "test_name", Blank), Get(fs, "result", Blank),
                      Get(fs, "reference_range", Blank), Get(fs, "unit", Blank)))
    case _ => None
  }

  function DecodeTests(ts: seq<Value>): Option<seq<TestRecord>> {
    if ts == [] then Some([])
    else
      var first, rest := DecodeTest(ts[0]), DecodeTests(ts[1..]);
      if first.Some? && rest.Some? then Some([first.value] + rest.value) else None
  }

  /** A group dict whose `tests` is a list of dicts, or absent. */
  function DecodeGroup(g: Value): Option<TestGroup> {
    match g
    case Object(fs) =>
      (match Get(fs, "tests", Array([]))
       case Array(items) =>
         (match DecodeTests(items)
          case Some(tests) =>
            Some(TestGroup(Get(fs, "group_name", Blank), Get(fs, "name", Blank),
                           Get(fs, "date", Blank), Get(fs, "age", Blank), tests))
          case None => None)
       case _ => None)
    case _ => None
  }

  function DecodeGroups(gs: seq<Value>): Option<seq<TestGroup>> {
    if gs == [] then Some([])
    else
      var first, rest := DecodeGroup(gs[0]), DecodeGroups(gs[1..]);
      if first.Some? && rest.Some? then Some([first.value] + rest.value) else None
  }

  /** A document of the requested schema: a dict whose `test_groups` is a list of such groups, or absent. */
  function DecodeReport(doc: Value): Option<seq<TestGroup>> {
    match doc
    case Object(fs) =>
      (match Get(fs, "test_groups", Array([]))
       case Array(items) => DecodeGroups(items)
       case _ => None)
    case _ => None
  }

  /** The row of test `t` in group `g`: the group's metadata beside the test's own fields. */
  function RowOf(g: TestGroup, t: TestRecord): Row {
    Row(g.groupName, g.name, g.age, g.date, t.testName, t.result, t.referenceRange, t.unit)
  }

  /** The rows of `records`, all in group `g`, in order. */
  function RowsOfTests(g: TestGroup, records: seq<TestRecord>): (rows: seq<Row>)
    ensures |rows| == |records|
    ensures forall k :: 0 <= k < |records| ==> rows[k] == RowOf(g, records[k])
  {
    if records == [] then [] else [RowOf(g, records[0])] + RowsOfTests(g, records[1..])
  }

  /** One row per test, groups in order and tests in order within each group. */
  function RowsOf(groups: seq<TestGroup>): seq<Row> {
    if groups == [] then [] else RowsOfTests(groups[0], groups[0].tests) + RowsOf(groups[1..])
  }

  function TestCount(groups: seq<TestGroup>): nat {
    if groups == [] then 0 else |groups[0].tests| + TestCount(groups[1..])
  }

  function LastOf(groups: seq<TestGroup>): Option<Patient> {
    if groups == [] then None
    else Some(Patient(groups[|groups| - 1].name, groups[|groups| - 1].date))
  }

  /** Exactly one row per test, each carrying the metadata of the group the test belongs to. */
  lemma {:induction false} RowsOfShape(groups: seq<TestGroup>)
    ensures |RowsOf(groups)| == TestCount(groups)
    ensures forall r :: r in RowsOf(groups) ==>
              exists i, k :: 0 <= i < |groups| && 0 <= k < |groups[i].tests| && r == RowOf(groups[i], groups[i].tests[k])
  {
    if groups != [] {
      RowsOfShape(groups[1..]);
      var head := RowsOfTests(groups[0], groups[0].tests);
      forall r | r in RowsOf(groups)
        ensures exists i, k :: 0 <= i < |groups| && 0 <= k < |groups[i].tests| && r == RowOf(groups[i], groups[i].tests[k])
      {
        if r in head {
          var k :| 0 <= k < |head| && head[k] == r;
          assert r == RowOf(groups[0], groups[0].tests[k]);
        } else {
          assert r in RowsOf(groups[1..]);
          var i, k :| 0 <= i < |groups[1..]| && 0 <= k < |groups[1..][i].tests| && r == RowOf(groups[1..][i], groups[1..][i].tests[k]);
          assert groups[1..][i] == groups[i + 1];
        }
      }
    }
  }

  lemma DecodeTestsCons(tests: seq<Value>, records: seq<TestRecord>)
    requires tests != [] && DecodeTests(tests) == Some(records)
    ensures records != [] && tests[0].Object?
    ensures DecodeTest(tests[0]) == Some(records[0]) && DecodeTests(tests[1..]) == Some(records[1..])
  {
  }

  /** A list of test dicts writes exactly the rows of its decoded tests, without raising. */
  lemma {:induction false} TestRowsDecoded(g: TestGroup, tests: seq<Value>, records: seq<TestRecord>)
    requires DecodeTests(tests) == Some(records)
    ensures TestRows(g.groupName, Patient(g.name, g.date), g.age, tests) == Written(RowsOfTests(g, records), true)
  {
    if tests == [] {
      assert records == [];
    } else {
      DecodeTestsCons(tests, records);
      TestRowsDecoded(g, tests[1..], records[1..]);
      assert RowFor(g.groupName, Patient(g.name, g.date), g.age, tests[0].fields) == RowOf(g, records[0]);
    }
  }

  /** What decoding the first group of a list tells about that group's dict. */
  lemma DecodeGroupsCons(groups: seq<Value>, decoded: seq<TestGroup>)
    requires groups != [] && DecodeGroups(groups) == Some(decoded)
    ensures decoded != [] && DecodeGroups(groups[1..]) == Some(decoded[1..])
    ensures DecodeGroup(groups[0]) == Some(decoded[0])
    ensures groups[0].Object?
    ensures var fs, g := groups[0].fields, decoded[0];
      && Get(fs, "tests", Array([])).Array?
      && DecodeTests(Get(fs, "tests", Array([])).items) == Some(g.tests)
      && g.groupName == Get(fs, "group_name", Blank) && g.age == Get(fs, "age", Blank)
      && g.name == Get(fs, "name", Blank) && g.date == Get(fs, "date", Blank)
  {
  }

  lemma LastOfCons(decoded: seq<TestGroup>)
    requires decoded != []
    ensures LastOf(decoded) == if LastOf(decoded[1..]).Some? then LastOf(decoded[1..]) else Some(Patient(decoded[0].name, decoded[0].date))
  {
    if |decoded| > 1 {
      assert decoded[1..][|decoded[1..]| - 1] == decoded[|decoded| - 1];
    }
  }

  /**
   * Flattening: groups of the requested schema write exactly `RowsOf` (one row
   * per test, group-then-test order, each with its own group's metadata), raise
   * nothing, and leave the last group's patient.
   */
  lemma {:induction false} GroupRowsDecoded(groups: seq<Value>, decoded: seq<TestGroup>)
    requires DecodeGroups(groups) == Some(decoded)
    ensures GroupRows(groups) == Contribution(RowsOf(decoded), LastOf(decoded), true)
  {
    if groups == [] {
      assert decoded == [];
    } else {
      DecodeGroupsCons(groups, decoded);
      GroupRowsDecoded(groups[1..], decoded[1..]);
      TestRowsDecoded(decoded[0], Get(groups[0].fields, "tests", Array([])).items, decoded[0].tests);
      LastOfCons(decoded);
    }
  }

  /** A response carrying a document of the requested schema contributes exactly its flattened rows. */
  lemma WellFormedResponse(result: Value, parse: string -> Option<Value>, text: string, payload: string,
                           doc: Value, decoded: seq<TestGroup>)
    requires ResponseText(result) == Some(text)
    requires BraceSpan(text) == Some(payload)
    requires parse(payload) == Some(doc)
    requires DecodeReport(doc) == Some(decoded)
    ensures Respond(result, parse) == Contribution(RowsOf(decoded), LastOf(decoded), true)
  {
    GroupRowsDecoded(Get(doc.fields, "test_groups", Array([])).items, decoded);
  }

  /**
   * Rows are written as they are produced: when well-formed groups are followed by
   * something that is not a dict, their rows stay and only the rest of that
   * response is lost.
   */
  lemma {:induction false} RowsKeptBeforeFailure(good: seq<Value>, decoded: seq<TestGroup>, bad: Value, rest: seq<Value>)
    requires DecodeGroups(good) == Some(decoded)
    requires !bad.Object?
    ensures GroupRows(good + [bad] + rest) == Contribution(RowsOf(decoded), LastOf(decoded), false)
  {
    if good == [] {
      assert decoded == [];
      assert good + [bad] + rest == [bad] + rest;
    } else {
      var all := good + [bad] + rest;
      assert all[0] == good[0];
      assert all[1..] == good[1..] + [bad] + rest;
      DecodeGroupsCons(good, decoded);
      RowsKeptBeforeFailure(good[1..], decoded[1..], bad, rest);
      TestRowsDecoded(decoded[0], Get(good[0].fields, "tests", Array([])).items, decoded[0].tests);
      LastOfCons(decoded);
    }
  }

  /**
   * Line 200 raises on a test that is not a dict, after line 195 has written the
   * rows of the tests before it: those rows stay, and the rest of the list is lost.
   */
  lemma {:induction false} TestRowsKeptBeforeFailure(g: TestGroup, good: seq<Value>, records: seq<TestRecord>,
                                                     bad: Value, rest: seq<Value>)
    requires DecodeTests(good) == Some(records)
    requires !bad.Object?
    ensures TestRows(g.groupName, Patient(g.name, g.date), g.age, good + [bad] + rest) == Written(RowsOfTests(g, records), false)
  {
    if good == [] {
      assert records == [];
      assert good + [bad] + rest == [bad] + rest;
    } else {
      var all := good + [bad] + rest;
      assert all[0] == good[0];
      assert all[1..] == good[1..] + [bad] + rest;
      DecodeTestsCons(good, records);
      TestRowsKeptBeforeFailure(g, good[1..], records[1..], bad, rest);
      assert RowFor(g.groupName, Patient(g.name, g.date), g.age, good[0].fields) == RowOf(g, records[0]);
    }
  }

  /** A well-formed first group writes its decoded rows, then the rest of the list continues. */
  lemma GroupRowsHead(groups: seq<Value>, d: TestGroup)
    requires groups != [] && DecodeGroup(groups[0]) == Some(d)
    ensures var r := GroupRows(groups[1..]);
      GroupRows(groups) ==
        Contribution(RowsOfTests(d, d.tests) + r.rows, if r.last.Some? then r.last else Some(Patient(d.name, d.date)), r.completed)
  {
    var fs := groups[0].fields;
    TestRowsDecoded(d, Get(fs, "tests", Array([])).items, d.tests);
  }

  /**
   * Well-formed groups in front of any others: their rows come first, and
   * whatever follows decides whether the response completes.
   */
  lemma {:induction false} GroupRowsPrefix(good: seq<Value>, decoded: seq<TestGroup>, tail: seq<Value>)
    requires DecodeGroups(good) == Some(decoded)
    ensures GroupRows(good + tail).rows == RowsOf(decoded) + GroupRows(tail).rows
    ensures GroupRows(good + tail).completed == GroupRows(tail).completed
  {
    var t := GroupRows(tail);
    if good == [] {
      assert decoded == [];
      assert good + tail == tail;
      assert RowsOf(decoded) + t.rows == t.rows;
    } else {
      var all := good + tail;
      assert all[1..] == good[1..] + tail;
      DecodeGroupsCons(good, decoded);
      var d := decoded[0];
      var head := RowsOfTests(d, d.tests);
      GroupRowsPrefix(good[1..], decoded[1..], tail);
      GroupRowsHead(all, d);
      calc {
        GroupRows(all).rows;
        head + (RowsOf(decoded[1..]) + t.rows);
        (head + RowsOf(decoded[1..])) + t.rows;
        RowsOf(decoded) + t.rows;
      }
    }
  }

  /**
   * Well-formed groups in front of any others: the patient left is the last one
   * read by what follows, or else the last well-formed group's.
   */
  lemma {:induction false} GroupRowsPrefixPatient(good: seq<Value>, decoded: seq<TestGroup>, tail: seq<Value>)
    requires DecodeGroups(good) == Some(decoded)
    ensures GroupRows(good + tail).last ==
              if GroupRows(tail).last.Some? then GroupRows(tail).last else LastOf(decoded)
  {
    if good == [] {
      assert decoded == [];
      assert good + tail == tail;
    } else {
      var all := good + tail;
      assert all[1..] == good[1..] + tail;
      DecodeGroupsCons(good, decoded);
      GroupRowsPrefixPatient(good[1..], decoded[1..], tail);
      GroupRowsHead(all, decoded[0]);
      LastOfCons(decoded);
    }
  }



  /**
   * A group whose tests hold a non-dict after some test dicts: the rows of the
   * groups before it and of its own tests before the bad one stay, its patient
   * is the last read, and the response ends there.
   */
  lemma BadTestKeepsRows(good: seq<Value>, decoded: seq<TestGroup>, fields: seq<Field>,
                         tests: seq<Value>, records: seq<TestRecord>, bad: Value, more: seq<Value>, rest: seq<Value>)
    requires DecodeGroups(good) == Some(decoded)
    requires Get(fields, "tests", Array([])) == Array(tests + [bad] + more)
    requires DecodeTests(tests) == Some(records)
    requires !bad.Object?
    ensures var p := Patient(Get(fields, "name", Blank), Get(fields, "date", Blank));
      var g := TestGroup(Get(fields, "group_name", Blank), p.name, p.date, Get(fields, "age", Blank), records);
      GroupRows(good + [Object(fields)] + rest) == Contribution(RowsOf(decoded) + RowsOfTests(g, records), Some(p), false)
  {
    var p := Patient(Get(fields, "name", Blank), Get(fields, "date", Blank));
    var g := TestGroup(Get(fields, "group_name", Blank), p.name, p.date, Get(fields, "age", Blank), records);
    var tail := [Object(fields)] + rest;
    assert good + [Object(fields)] + rest == good + tail;
    GroupRowsPrefix(good, decoded, tail);
    GroupRowsPrefixPatient(good, decoded, tail);
    TestRowsKeptBeforeFailure(g, tests, records, bad, more);
    assert GroupRows(tail) == Contribution(RowsOfTests(g, records), Some(p), false);
  }

  /**
   * A group whose `tests` cannot be iterated (line 193 raises): the rows of the
   * groups before it stay, its patient is the last read, and the response ends there.
   */
  lemma UniterableTestsKeepRows(good: seq<Value>, decoded: seq<TestGroup>, fields: seq<Field>, rest: seq<Value>)
    requires DecodeGroups(good) == Some(decoded)
    requires Iterate(Get(fields, "tests", Array([]))).None?
    ensures GroupRows(good + [Object(fields)] + rest) ==
              Contribution(RowsOf(decoded), Some(Patient(Get(fields, "name", Blank), Get(fields, "date", Blank))), false)
  {
    var tail := [Object(fields)] + rest;
    assert good + [Object(fields)] + rest == good + tail;
    GroupRowsPrefix(good, decoded, tail);
    GroupRowsPrefixPatient(good, decoded, tail);
    assert RowsOf(decoded) + [] == RowsOf(decoded);
  }

  /** Two groups of two tests each give four rows, each with its own group's metadata. */
  lemma TwoGroupsOfTwo(g1: TestGroup, g2: TestGroup)
    requires |g1.tests| == 2 && |g2.tests| == 2
    ensures RowsOf([g1, g2]) ==
              [RowOf(g1, g1.tests[0]), RowOf(g1, g1.tests[1]), RowOf(g2, g2.tests[0]), RowOf(g2, g2.tests[1])]
  {
    assert [g1, g2][1..] == [g2];
    assert [g2][1..] == [];
    assert RowsOf([g2]) == RowsOfTests(g2, g2.tests) + [];
  }

  /** The usual Bedrock body: `{"content": [{"type": "text", "text": text}]}`. */
  function ModelBody(text: string): Value {
    Object([Field("content", Array([Object([Field("type", Str("text")), Field("text", Str(text))])]))])
  }

  /** Line 176 reads the text of the usual Bedrock body. */
  lemma ModelBodyText(text: string)
    ensures ResponseText(ModelBody(text)) == Some(text)
  {
    var item := Object([Field("type", Str("text")), Field("text", Str(text))]);
    assert Get(ModelBody(text).fields, "content", Array([Object([])])) == Array([item]);
    assert Get(item.fields, "text", Blank) == Str(text);
  }

  function TestDict(name: string, result: string, range: string, unit: string): Value {
    Object([Field("test_name", Str(name)), Field("result", Str(result)),
            Field("reference_range", Str(range)), Field("unit", Str(unit))])
  }

  lemma TestDictDecodes(name: string, result: string, range: string, unit: string)
    ensures DecodeTest(TestDict(name, result, range, unit)) == Some(TestRecord(Str(name), Str(result), Str(range), Str(unit)))
  {
    var fs := TestDict(name, result, range, unit).fields;
    assert LastWithKey(fs, 0, "test_name");
    GetSpec(fs, "test_name", Blank);
    assert LastWithKey(fs, 1, "result");
    GetSpec(fs, "result", Blank);
    assert LastWithKey(fs, 2, "reference_range");
    GetSpec(fs, "reference_range", Blank);
    assert LastWithKey(fs, 3, "unit");
    GetSpec(fs, "unit", Blank);
  }

  /** The two tests of the example report. */
  function CbcTests(): seq<Value> {
    [TestDict("Hemoglobin", "13.5", "12-16", "g/dL"), TestDict("Glucose", "95", "70-110", "mg/dL")]
  }

  function CbcRecords(): seq<TestRecord> {
    [TestRecord(Str("Hemoglobin"), Str("13.5"), Str("12-16"), Str("g/dL")),
     TestRecord(Str("Glucose"), Str("95"), Str("70-110"), Str("mg/dL"))]
  }

  /** One "CBC" group for patient "Jane Doe", aged 34, tested 2024-01-01. */
  function CbcGroupDict(): Value {
    Object([Field("group_name", Str("CBC")), Field("name", Str("Jane Doe")),
            Field("date", Str("2024-01-01")), Field("age", Str("34")), Field("tests", Array(CbcTests()))])
  }

  function CbcGroup(): TestGroup {
    TestGroup(Str("CBC"), Str("Jane Doe"), Str("2024-01-01"), Str("34"), CbcRecords())
  }

  function CbcDocument(): Value {
    Object([Field("test_groups", Array([CbcGroupDict()]))])
  }

  lemma DecodeTestsPair(a: Value, b: Value, ra: TestRecord, rb: TestRecord)
    requires DecodeTest(a) == Some(ra) && DecodeTest(b) == Some(rb)
    ensures DecodeTests([a, b]) == Some([ra, rb])
  {
    assert [a, b][1..] == [b];
    assert [b][1..] == [];
    assert [rb] + [] == [rb];
    assert DecodeTests([b]) == Some([rb]);
    assert [ra] + [rb] == [ra, rb];
  }

  lemma CbcTestsDecode()
    ensures DecodeTests(CbcTests()) == Some(CbcRecords())
  {
    TestDictDecodes("Hemoglobin", "13.5", "12-16", "g/dL");
    TestDictDecodes("Glucose", "95", "70-110", "mg/dL");
    DecodeTestsPair(CbcTests()[0], CbcTests()[1], CbcRecords()[0], CbcRecords()[1]);
  }

  lemma CbcGroupDecodes()
    ensures DecodeGroup(CbcGroupDict()) == Some(CbcGroup())
  {
    var fs := CbcGroupDict().fields;
    assert Get(fs, "tests", Array([])) == Array(CbcTests());
    assert Get(fs, "age", Blank) == Str("34");
    assert Get(fs, "date", Blank) == Str("2024-01-01");
    assert LastWithKey(fs, 1, "name");
    GetSpec(fs, "name", Blank);
    assert LastWithKey(fs, 0, "group_name");
    GetSpec(fs, "group_name", Blank);
    CbcTestsDecode();
  }

  lemma DecodeOneGroupReport(g: Value, decoded: TestGroup)
    requires DecodeGroup(g) == Some(decoded)
    ensures DecodeReport(Object([Field("test_groups", Array([g]))])) == Some([decoded])
  {
    assert [g][1..] == [];
    assert [decoded] + [] == [decoded];
    assert DecodeGroups([g]) == Some([decoded]);
  }

  lemma CbcDecodes()
    ensures DecodeReport(CbcDocument()) == Some([CbcGroup()])
  {
    CbcGroupDecodes();
    DecodeOneGroupReport(CbcGroupDict(), CbcGroup());
  }

  /**
   * A model reply wrapping that document in prose yields two rows, both for
   * patient "Jane Doe" in group "CBC", and the call returns her name and test date.
   */
  lemma CbcEndToEnd(text: string, payload: string, parse: string -> Option<Value>)
    requires BraceSpan(text) == Some(payload)
    requires parse(payload) == Some(CbcDocument())
    ensures var c := Respond(ModelBody(text), parse);
      && |c.rows| == 2
      && c.rows[0].patientName == Str("Jane Doe") && c.rows[1].patientName == Str("Jane Doe")
      && c.rows[0].testGroup == Str("CBC") && c.rows[1].testGroup == Str("CBC")
      && c.rows[0].testName == Str("Hemoglobin") && c.rows[1].testName == Str("Glucose")
      && c.last == Some(Patient(Str("Jane Doe"), Str("2024-01-01")))
  {
    ModelBodyText(text);
    CbcDecodes();
    var g := CbcGroup();
    WellFormedResponse(ModelBody(text), parse, text, payload, CbcDocument(), [g]);
    assert [g][1..] == [];
    assert RowsOf([g]) == RowsOfTests(g, g.tests) + [];
  }
}
