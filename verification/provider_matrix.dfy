/** The service/provider support matrix converter (md-table-to-json/js/app.js):
    a markdown table of services against providers is read into a JSON
    object of `✅`/`❌` marks, a new provider is merged into such an object
    from a comma-separated list of the services it supports, and the object
    is written back as a markdown table. */
module ProviderMatrix {
  import opened Text
  import opened Wrappers
  import opened OrderedMap
  import opened JsValues
  import opened MarkdownSyntax
  import opened LooseRows

  const Check := "✅"
  const Cross := "❌"
  const NoMarkdown := "Please paste a Markdown table."
  const InvalidMarkdown := "Error: Invalid Markdown table"
  const MissingMergeInput := "Please enter both provider name and supported services."
  const NoJsonData := "Error: No valid JSON data provided"
  const ErrorPrefix := "Error: "
  /** What V8 reports when `Object.keys` or `Object.entries` meets `null`. */
  const NullObject := "Error: Cannot convert undefined or null to object"
  const ServiceNameTitle := "**Service Name**"
  const LeftMarker := ":---"

  /** Services to providers to marks. */
  type Matrix = OMap<OMap<string>>

  // ---------------------------------------------------------------------
  // Markdown to JSON

  /** The cells of a line: trimmed, the empty ones dropped, and `**` removed
      from the rest. (Dropping the cells that are blank and then trimming
      keeps the same cells as trimming and then dropping the empty ones.) */
  function StrippedCells(line: string): (r: seq<string>)
    ensures |r| == |Cells(line)|
    ensures forall i :: 0 <= i < |r| ==> r[i] == RemoveDoubleStars(Cells(line)[i])
  {
    seq(|Cells(line)|, i requires 0 <= i < |Cells(line)| => RemoveDoubleStars(Cells(line)[i]))
  }

  /** The mark a table cell becomes: `✅` for `✅` or any casing of `yes`,
      `❌` for everything else (`❌` and `no` explicitly, the rest by
      default). */
  function Mark(cell: string): (r: string)
    ensures r == Check <==> cell == Check || Lower(cell) == "yes"
    ensures r in {Check, Cross}
  {
    if cell == Check || Lower(cell) == "yes" then Check else Cross
  }

  /** `headers[i]` used as a property name: "undefined" past the end. */
  function HeaderKey(headers: seq<string>, i: nat): (r: string)
    ensures i < |headers| ==> r == headers[i]
  {
    if i < |headers| then headers[i] else "undefined"
  }

  /** A data line that becomes an entry: it starts with `|`, has no `-`
      (which leaves out the separator line) and keeps at least one cell. */
  predicate IsEntryLine(line: string)
  {
    StartsWith(line, "|") && !Includes(line, "-") && |StrippedCells(line)| > 0
  }

  /** The assignments of one entry's column loop. */
  function MarkAssignments(headers: seq<string>, cells: seq<string>): (r: seq<Entry<string>>)
    ensures |r| == if cells == [] then 0 else |cells| - 1
    ensures forall j :: 0 <= j < |r| ==> r[j] == Entry(HeaderKey(headers, j + 1), Mark(cells[j + 1]))
  {
    if cells == [] then []
    else seq(|cells| - 1, j requires 0 <= j < |cells| - 1 => Entry(HeaderKey(headers, j + 1), Mark(cells[j + 1])))
  }

  /** The object of one entry: under the header of each column after the
      first, the mark of that column's cell. */
  function MarkRow(headers: seq<string>, cells: seq<string>): OMap<string>
  {
    Assigned(MarkAssignments(headers, cells))
  }

  /** Each column's header reads the mark of its cell, unless a later
      column has the same header; every value is a mark. */
  lemma MarkRowContents(headers: seq<string>, cells: seq<string>, i: nat)
    requires 1 <= i < |cells|
    requires forall j :: i < j < |cells| ==> HeaderKey(headers, j) != HeaderKey(headers, i)
    ensures Get(MarkRow(headers, cells), HeaderKey(headers, i)) == Some(Mark(cells[i]))
    ensures ValuesIn(MarkRow(headers, cells), {Check, Cross})
  {
    var entries := MarkAssignments(headers, cells);
    AssignedLastWins(entries, i - 1);
    AssignedValuesIn(entries, {Check, Cross});
  }

  /** The assignment a data line makes, if any: its first cell gets the
      object of its marks. */
  function LineUpdate(headers: seq<string>, line: string): (r: Option<Entry<OMap<string>>>)
    ensures r.Some? <==> IsEntryLine(line)
  {
    if IsEntryLine(line) then
      var cells := StrippedCells(line);
      Some(Entry(cells[0], MarkRow(headers, cells)))
    else None
  }

  function LineUpdates(headers: seq<string>, lines: seq<string>): (r: seq<Option<Entry<OMap<string>>>>)
    ensures |r| == |lines|
    ensures forall k :: 0 <= k < |lines| ==> r[k] == LineUpdate(headers, lines[k])
  {
    seq(|lines|, k requires 0 <= k < |lines| => LineUpdate(headers, lines[k]))
  }

  /** The JSON object the data lines give. */
  function EntriesObject(headers: seq<string>, lines: seq<string>): Matrix
  {
    AssignedSome(LineUpdates(headers, lines))
  }

  /** The first cell of an entry line. */
  function Host(line: string): string
    requires IsEntryLine(line)
  {
    StrippedCells(line)[0]
  }

  /** Some entry line has the first cell `name`. */
  predicate HasHost(lines: seq<string>, name: string)
  {
    exists k :: 0 <= k < |lines| && IsEntryLine(lines[k]) && Host(lines[k]) == name
  }

  /** The services of the output are exactly the first cells of the entry
      lines. */
  lemma EntriesObjectKeys(headers: seq<string>, lines: seq<string>, name: string)
    ensures HasKey(EntriesObject(headers, lines), name) <==> HasHost(lines, name)
  {
    var updates := LineUpdates(headers, lines);
    AssignedSomeKeys(updates, name);
    if HasHost(lines, name) {
      var k :| 0 <= k < |lines| && IsEntryLine(lines[k]) && Host(lines[k]) == name;
      assert updates[k].Some? && updates[k].value.key == name;
    }
    if AssignsSome(updates, name) {
      var k :| 0 <= k < |updates| && updates[k].Some? && updates[k].value.key == name;
      assert IsEntryLine(lines[k]) && Host(lines[k]) == name;
    }
  }

  /** An entry line whose first cell no later entry line repeats gives the
      object of that service. */
  lemma EntriesObjectLastWins(headers: seq<string>, lines: seq<string>, k: nat)
    requires k < |lines| && IsEntryLine(lines[k])
    requires forall j :: k < j < |lines| && IsEntryLine(lines[j]) ==> Host(lines[j]) != Host(lines[k])
    ensures Get(EntriesObject(headers, lines), Host(lines[k])) == Some(MarkRow(headers, StrippedCells(lines[k])))
  {
    var updates := LineUpdates(headers, lines);
    forall j | k < j < |updates| && updates[j].Some? ensures updates[j].value.key != updates[k].value.key {
      assert IsEntryLine(lines[j]);
    }
    AssignedSomeLastWins(updates, k);
  }

  /** The input's lines, each trimmed. */
  function TrimmedLines(text: string): (r: seq<string>)
    ensures |r| == |Split(text, '\n')|
    ensures forall i :: 0 <= i < |r| ==> r[i] == Trim(Split(text, '\n')[i])
  {
    var lines := Split(text, '\n');
    seq(|lines|, i requires 0 <= i < |lines| => Trim(lines[i]))
  }

  /** Markdown to JSON: blank input and input of one line are refused;
      otherwise the first line gives the headers and the others the
      entries. */
  function Converted(input: string): (r: Result<Matrix>)
    ensures Trim(input) == [] ==> r == Err(NoMarkdown)
    ensures Trim(input) != [] && |Split(Trim(input), '\n')| < 2 ==> r == Err(InvalidMarkdown)
    ensures r.Ok? ==> |Split(Trim(input), '\n')| >= 2 && UniqueKeys(r.value)
  {
    var markdownText := Trim(input);
    if markdownText == [] then Err(NoMarkdown)
    else
      var lines := TrimmedLines(markdownText);
      if |lines| < 2 then Err(InvalidMarkdown)
      else
        Ok(EntriesObject(StrippedCells(lines[0]), lines[1..]))
  }

  /** The conversion loop. */
  method ConvertToJson(input: string) returns (r: Result<Matrix>)
    ensures r == Converted(input)
  {
    var markdownText := Trim(input);
    if markdownText == [] {
      return Err(NoMarkdown);
    }
    var lines := TrimmedLines(markdownText);
    if |lines| < 2 {
      return Err(InvalidMarkdown);
    }
    var jsonData := ConvertLines(StrippedCells(lines[0]), lines[1..]);
    return Ok(jsonData);
  }

  /** The loop over the data lines. */
  method ConvertLines(headers: seq<string>, lines: seq<string>) returns (jsonData: Matrix)
    ensures jsonData == EntriesObject(headers, lines)
  {
    jsonData := [];
    var k := 0;
    while k < |lines|
      invariant 0 <= k <= |lines|
      invariant jsonData == EntriesObject(headers, lines[..k])
    {
      EntriesObjectAppend(headers, lines, k);
      jsonData := ConvertLine(headers, jsonData, lines[k]);
      k := k + 1;
    }
    assert lines[..k] == lines;
  }

  lemma EntriesObjectAppend(headers: seq<string>, lines: seq<string>, k: nat)
    requires k < |lines|
    ensures EntriesObject(headers, lines[..k + 1]) == Applied(EntriesObject(headers, lines[..k]), LineUpdate(headers, lines[k]))
  {
    assert LineUpdates(headers, lines[..k + 1]) == LineUpdates(headers, lines[..k]) + [LineUpdate(headers, lines[k])];
    AssignedSomeAppend(LineUpdates(headers, lines[..k]), LineUpdate(headers, lines[k]));
  }

  /** The body of the line loop: an entry line sets its service. */
  method ConvertLine(headers: seq<string>, jsonData: Matrix, line: string) returns (r: Matrix)
    ensures r == Applied(jsonData, LineUpdate(headers, line))
  {
    r := jsonData;
    if StartsWith(line, "|") && !Includes(line, "-") {
      var cells := StrippedCells(line);
      if |cells| > 0 {
        var row := BuildMarkRow(headers, cells);
        r := Set(jsonData, cells[0], row);
      }
    }
  }

  /** The column loop of one entry. */
  method BuildMarkRow(headers: seq<string>, cells: seq<string>) returns (row: OMap<string>)
    requires cells != []
    ensures row == MarkRow(headers, cells)
  {
    row := [];
    ghost var assignments := MarkAssignments(headers, cells);
    var i := 1;
    while i < |cells|
      invariant 1 <= i <= |cells|
      invariant row == Assigned(assignments[..i - 1])
    {
      AssignedStep(assignments, i - 1);
      var cellValue := cells[i];
      if cellValue == Check || Lower(cellValue) == "yes" {
        row := Set(row, HeaderKey(headers, i), Check);
      } else if cellValue == Cross || Lower(cellValue) == "no" {
        row := Set(row, HeaderKey(headers, i), Cross);
      } else {
        row := Set(row, HeaderKey(headers, i), Cross);
      }
      i := i + 1;
    }
    assert assignments[..i - 1] == assignments;
  }

  // ---------------------------------------------------------------------
  // Names and values

  /** `normalizeServiceName`: lower-cased and trimmed. */
  function NormalizeName(name: string): (r: string)
    ensures IsNormalName(r)
  {
    var r := Trim(Lower(name));
    LowerTrimCommute(name);
    r
  }

  /** A name in normal form: trimmed, without capitals. */
  predicate IsNormalName(s: string)
  {
    IsTrimmed(s) && NoCapitals(s)
  }

  /** Normalising leaves a name in normal form alone. */
  lemma NormalNameFixed(s: string)
    requires IsNormalName(s)
    ensures NormalizeName(s) == s
  {
    assert Lower(s) == s;
    TrimOfTrimmed(s);
  }

  /** Normalising a normalised name changes nothing. */
  lemma NormalizeNameIdempotent(name: string)
    ensures NormalizeName(NormalizeName(name)) == NormalizeName(name)
  {
    NormalNameFixed(NormalizeName(name));
  }

  /** The index of the first ASCII letter at or after `from`. */
  function FirstLetter(s: string, from: nat): (r: Option<nat>)
    ensures r.None? ==> forall j :: from <= j < |s| ==> !IsAsciiLetter(s[j])
    ensures r.Some? ==>
      (from <= r.value < |s| && IsAsciiLetter(s[r.value]) &&
       forall j :: from <= j < r.value ==> !IsAsciiLetter(s[j]))
    decreases |s| - from
  {
    if from >= |s| then None
    else if IsAsciiLetter(s[from]) then Some(from)
    else FirstLetter(s, from + 1)
  }

  /** `capitalizeFirstLetter`: the first ASCII letter upper-cased, nothing
      else changed; a string without letters comes back as it was. */
  function Capitalize(s: string): (r: string)
    ensures |r| == |s|
    ensures FirstLetter(s, 0).None? ==> r == s
    ensures FirstLetter(s, 0).Some? ==>
      var i := FirstLetter(s, 0).value;
      IsAsciiUpper(r[i]) && LowerChar(r[i]) == LowerChar(s[i]) &&
      forall j :: 0 <= j < |s| && j != i ==> r[j] == s[j]
  {
    match FirstLetter(s, 0)
    case None => s
    case Some(i) => s[..i] + [UpperChar(s[i])] + s[i + 1..]
  }

  /** `normalizeValue`: `❌` for a falsy value, otherwise `✅` exactly when
      its string, lower-cased and trimmed, is `yes` or `✅`. */
  function NormalizeValue(v: JsValue): (r: string)
    ensures r in {Check, Cross}
    ensures r == Check <==> !IsFalsy(v) && Trim(Lower(ToJsString(v))) in {"yes", Check}
  {
    if IsFalsy(v) then Cross
    else
      var val := Trim(Lower(ToJsString(v)));
      if val == "yes" || val == Check then Check else Cross
  }

  /** A mark is its own normal form. */
  lemma NormalizeMark(mark: string)
    requires mark in {Check, Cross}
    ensures NormalizeValue(JString(mark)) == mark
  {
    assert Lower(mark) == mark;
    TrimOfTrimmed(mark);
    assert ToJsString(JString(mark)) == mark;
  }

  /** Lower-casing a capitalised string gives what lower-casing the string
      gives. */
  lemma LowerCapitalize(s: string)
    ensures Lower(Capitalize(s)) == Lower(s)
  {
    var c := Capitalize(s);
    forall j | 0 <= j < |s| ensures LowerChar(c[j]) == LowerChar(s[j]) {
      if FirstLetter(s, 0).Some? && j == FirstLetter(s, 0).value {
      } else {
        assert c[j] == s[j];
      }
    }
  }

  /** So capitalising does not change a name's normal form. */
  lemma NormalizeCapitalized(s: string)
    ensures NormalizeName(Capitalize(s)) == NormalizeName(s)
  {
    LowerCapitalize(s);
  }

  /** A string with no ASCII capital letter. */
  predicate NoCapitals(s: string)
  {
    forall j :: 0 <= j < |s| ==> !IsAsciiUpper(s[j])
  }

  /** The capital of a capitalised string sits where its first letter was. */
  lemma CapitalsOfCapitalized(s: string, j: nat)
    requires NoCapitals(s) && j < |s|
    ensures IsAsciiUpper(Capitalize(s)[j]) <==> FirstLetter(s, 0) == Some(j)
  {
  }

  /** Capitalising is one-to-one on names without capitals, such as
      normalised names. */
  lemma CapitalizeInjective(a: string, b: string)
    requires NoCapitals(a) && NoCapitals(b)
    requires Capitalize(a) == Capitalize(b)
    ensures a == b
  {
    var c := Capitalize(a);
    assert |a| == |b|;
    match FirstLetter(a, 0)
    case None =>
    case Some(i) =>
      CapitalsOfCapitalized(a, i);
      CapitalsOfCapitalized(b, i);
      forall j | 0 <= j < |a| ensures a[j] == b[j] {
        if j == i {
          assert LowerChar(c[j]) == LowerChar(a[j]) == a[j];
          assert LowerChar(c[j]) == LowerChar(b[j]) == b[j];
        } else {
          assert c[j] == a[j] && c[j] == b[j];
        }
      }
  }

  // ---------------------------------------------------------------------
  // The object a merge and the markdown writer start from

  /** The pasted JSON (`parsed` stands for `JSON.parse` of it) when the
      trimmed box is not empty, the last result otherwise. */
  function BaseValue(jsonInput: string, parsed: Result<JsValue>, current: JsValue): (r: Result<JsValue>)
    ensures Trim(jsonInput) != [] ==> r == parsed
    ensures Trim(jsonInput) == [] ==> r == Ok(current)
  {
    if Trim(jsonInput) != [] then parsed else Ok(current)
  }

  /** The entries of the base: a parse error, `null` and an object without
      keys are reported. */
  function BaseEntries(base: Result<JsValue>): (r: Result<OMap<JsValue>>)
    ensures base.Err? ==> r == Err(ErrorPrefix + base.message)
    ensures base == Ok(JNull) ==> r == Err(NullObject)
    ensures base.Ok? && !base.value.JNull? && Entries(base.value).value == [] ==> r == Err(NoJsonData)
    ensures r.Ok? ==> base.Ok? && Entries(base.value) == Some(r.value) && r.value != []
  {
    match base
    case Err(m) => Err(ErrorPrefix + m)
    case Ok(v) =>
      match Entries(v)
      case None => Err(NullObject)
      case Some(entries) => if entries == [] then Err(NoJsonData) else Ok(entries)
  }

  /** Every value normalised to a mark, the keys kept. */
  function ValueMarks(entries: OMap<JsValue>): (r: OMap<string>)
    ensures |r| == |entries|
    ensures forall i :: 0 <= i < |r| ==> r[i] == Entry(entries[i].key, NormalizeValue(entries[i].value))
  {
    seq(|entries|, i requires 0 <= i < |entries| => Entry(entries[i].key, NormalizeValue(entries[i].value)))
  }

  /** A service's providers with every value normalised; `None` where
      `Object.entries` throws. */
  function NormalizedProviders(providers: JsValue): (r: Option<OMap<string>>)
    ensures r.None? <==> providers.JNull?
    ensures r.Some? ==> UniqueKeys(r.value) && ValuesIn(r.value, {Check, Cross})
  {
    match Entries(providers)
    case None => None
    case Some(entries) =>
      var marks := ValueMarks(entries);
      AssignedUnique(marks);
      AssignedValuesIn(marks, {Check, Cross});
      Some(Assigned(marks))
  }

  /** The providers of an object keep their keys and order, each value
      becoming its mark. */
  lemma NormalizedProvidersOfObject(fields: OMap<JsValue>)
    requires UniqueKeys(fields)
    ensures NormalizedProviders(JObject(fields)) == Some(ValueMarks(fields))
  {
    var marks := ValueMarks(fields);
    assert UniqueKeys(marks) by {
      forall i, j | 0 <= i < j < |marks| ensures marks[i].key != marks[j].key {
        assert marks[i].key == fields[i].key && marks[j].key == fields[j].key;
      }
    }
    AssignedOfUnique(marks);
  }

  /** Some service's providers are `null`. */
  predicate HasNull(entries: OMap<JsValue>)
  {
    exists i :: 0 <= i < |entries| && entries[i].value.JNull?
  }

  function ServiceEntries(entries: OMap<JsValue>): (r: seq<Entry<OMap<string>>>)
    requires !HasNull(entries)
    ensures |r| == |entries|
    ensures forall i :: 0 <= i < |r| ==> r[i].key == entries[i].key && Some(r[i].value) == NormalizedProviders(entries[i].value)
  {
    seq(|entries|, i requires 0 <= i < |entries| => Entry(entries[i].key, NormalizedProviders(entries[i].value).value))
  }

  /** The normalising loop: every service with its providers normalised,
      `None` when `Object.entries` throws on some service's providers. */
  function NormalizedData(entries: OMap<JsValue>): (r: Option<Matrix>)
    ensures r.None? <==> HasNull(entries)
    ensures r.Some? ==> UniqueKeys(r.value)
  {
    if HasNull(entries) then None
    else
      AssignedUnique(ServiceEntries(entries));
      Some(Assigned(ServiceEntries(entries)))
  }

  /** The services renamed to their normal form. */
  function NameNormalized(entries: OMap<JsValue>): (r: OMap<JsValue>)
    ensures |r| == |entries|
    ensures forall i :: 0 <= i < |r| ==> r[i] == Entry(NormalizeName(entries[i].key), entries[i].value)
  {
    seq(|entries|, i requires 0 <= i < |entries| => Entry(NormalizeName(entries[i].key), entries[i].value))
  }

  // ---------------------------------------------------------------------
  // Merging a provider

  /** Every service is named in its normal form. */
  predicate NormalKeys(m: Matrix)
  {
    forall i :: 0 <= i < |m| ==> IsNormalName(m[i].key)
  }

  /** Each name normalised. */
  function NormalizedNames(names: seq<string>): (r: seq<string>)
    ensures |r| == |names|
    ensures forall i :: 0 <= i < |r| ==> r[i] == NormalizeName(names[i])
  {
    seq(|names|, i requires 0 <= i < |names| => NormalizeName(names[i]))
  }

  /** The comma-separated services, each normalised. */
  function ServiceList(services: string): (r: seq<string>)
    ensures forall i :: 0 <= i < |r| ==> IsNormalName(r[i])
  {
    NormalizedNames(Split(services, ','))
  }

  /** The mark of the new provider for a service. */
  function ProviderMark(service: string, listed: seq<string>): (r: string)
    ensures r == Check <==> NormalizeName(service) in listed
    ensures r in {Check, Cross}
  {
    if NormalizeName(service) in listed then Check else Cross
  }

  /** The second loop: every service gets the new provider. */
  function Marked(u: Matrix, provider: string, listed: seq<string>): (r: Matrix)
    ensures |r| == |u|
    ensures forall i :: 0 <= i < |u| ==> r[i].key == u[i].key
  {
    seq(|u|, i requires 0 <= i < |u| => Entry(u[i].key, Set(u[i].value, provider, ProviderMark(u[i].key, listed))))
  }

  /** The new provider's mark of every service says whether it is listed. */
  predicate Covers(m: Matrix, provider: string, listed: seq<string>)
  {
    forall i :: 0 <= i < |m| ==> Get(m[i].value, provider) == Some(ProviderMark(m[i].key, listed))
  }

  /** After the second loop every service has the new provider, `✅`
      exactly when the service is listed, and every other provider keeps
      its mark. */
  lemma MarkedCovers(u: Matrix, provider: string, listed: seq<string>)
    ensures Covers(Marked(u, provider, listed), provider, listed)
    ensures forall i, q :: 0 <= i < |u| && q != provider ==>
      Get(Marked(u, provider, listed)[i].value, q) == Get(u[i].value, q)
  {
    var r := Marked(u, provider, listed);
    forall i | 0 <= i < |u| ensures Get(r[i].value, provider) == Some(ProviderMark(r[i].key, listed)) {
      GetSetSame(u[i].value, provider, ProviderMark(u[i].key, listed));
    }
    forall i, q | 0 <= i < |u| && q != provider ensures Get(r[i].value, q) == Get(u[i].value, q) {
      GetSetOther(u[i].value, provider, ProviderMark(u[i].key, listed), q);
    }
  }

  /** Some service of `u` normalises to `ns`. */
  predicate Lists(u: Matrix, ns: string)
  {
    ns in NormalizedNames(Keys(u))
  }

  /** An object of `❌` for the given providers. */
  function Crosses(providers: seq<string>): (r: OMap<string>)
    ensures ValuesIn(r, {Cross})
  {
    var entries := seq(|providers|, i requires 0 <= i < |providers| => Entry(providers[i], Cross));
    AssignedValuesIn(entries, {Cross});
    Assigned(entries)
  }

  /** It has exactly those providers. */
  lemma CrossesKeys(providers: seq<string>, q: string)
    ensures HasKey(Crosses(providers), q) <==> q in providers
  {
    var entries := seq(|providers|, i requires 0 <= i < |providers| => Entry(providers[i], Cross));
    AssignedKeys(entries, q);
    if q in providers {
      var i :| 0 <= i < |providers| && providers[i] == q;
      assert entries[i].key == q;
    }
  }

  /** One step of the third loop: a listed service no service normalises to
      is added with `❌` for every provider of the first service and `✅`
      for the new provider. */
  function AddService(u: Matrix, provider: string, ns: string): (r: Matrix)
    ensures UniqueKeys(u) ==> UniqueKeys(r)
  {
    if Lists(u, ns) then u
    else
      var u1 := Set(u, ns, []);
      var firstService := u1[0].key;
      var row := Set(Crosses(Keys(Get(u1, firstService).value)), provider, Check);
      assert UniqueKeys(u) ==> UniqueKeys(Set(u1, ns, row)) by {
        if UniqueKeys(u) {
          SetUnique(u, ns, []);
          SetUnique(u1, ns, row);
        }
      }
      Set(u1, ns, row)
  }

  /** The providers of the first service, which an added service copies. */
  function FirstProviders(u: Matrix): seq<string>
  {
    if u == [] then [] else Keys(u[0].value)
  }

  /** The row an added service gets. */
  function NewRow(u: Matrix, provider: string): (r: OMap<string>)
    ensures Get(r, provider) == Some(Check)
  {
    GetSetSame(Crosses(FirstProviders(u)), provider, Check);
    Set(Crosses(FirstProviders(u)), provider, Check)
  }

  /** A missing service is appended, and nothing already there changes. */
  lemma AddServiceAppends(u: Matrix, provider: string, ns: string)
    requires IsNormalName(ns) && !Lists(u, ns)
    ensures AddService(u, provider, ns) == u + [Entry(ns, NewRow(u, provider))]
  {
    NotListedNotKey(u, ns);
    SetNew(u, ns, []);
    var u1 := u + [Entry(ns, [])];
    assert Get(u1, u1[0].key).value == if u == [] then [] else u[0].value;
    SetAppended(u, ns, [], NewRow(u, provider));
  }

  /** A normal name no service normalises to is no service's name. */
  lemma NotListedNotKey(u: Matrix, ns: string)
    requires IsNormalName(ns) && !Lists(u, ns)
    ensures !HasKey(u, ns)
  {
    NormalNameFixed(ns);
  }

  /** An appended normal name is listed, and what was listed stays so. */
  lemma ListsAppended(u: Matrix, ns: string, row: OMap<string>)
    ensures Lists(u + [Entry(ns, row)], NormalizeName(ns))
    ensures forall x :: Lists(u, x) ==> Lists(u + [Entry(ns, row)], x)
  {
    assert NormalizedNames(Keys(u + [Entry(ns, row)])) == NormalizedNames(Keys(u)) + [NormalizeName(ns)];
  }

  /** A listed normal name is marked `✅`. */
  lemma ListedMark(ns: string, listed: seq<string>)
    requires IsNormalName(ns) && ns in listed
    ensures ProviderMark(ns, listed) == Check
  {
    NormalNameFixed(ns);
  }

  /** The third loop. */
  function ServicesAdded(u: Matrix, provider: string, listed: seq<string>): (r: Matrix)
    ensures UniqueKeys(u) ==> UniqueKeys(r)
  {
    if listed == [] then u
    else
      var n := |listed| - 1;
      AddService(ServicesAdded(u, provider, listed[..n]), provider, listed[n])
  }

  lemma ServicesAddedStep(u: Matrix, provider: string, listed: seq<string>, n: nat)
    requires n < |listed|
    ensures ServicesAdded(u, provider, listed[..n + 1]) == AddService(ServicesAdded(u, provider, listed[..n]), provider, listed[n])
  {
    assert listed[..n + 1][..n] == listed[..n];
  }

  /** Adding services keeps the services there were, unchanged, in front. */
  lemma {:induction false} ServicesAddedPrefix(u: Matrix, provider: string, listed: seq<string>)
    requires forall i :: 0 <= i < |listed| ==> IsNormalName(listed[i])
    ensures u <= ServicesAdded(u, provider, listed)
  {
    if listed != [] {
      var n := |listed| - 1;
      var prev := ServicesAdded(u, provider, listed[..n]);
      ServicesAddedPrefix(u, provider, listed[..n]);
      if !Lists(prev, listed[n]) {
        AddServiceAppends(prev, provider, listed[n]);
      }
    }
  }

  /** One added service keeps the new provider marks right. */
  lemma AddServiceCovers(u: Matrix, provider: string, ns: string, listed: seq<string>)
    requires IsNormalName(ns) && ns in listed
    requires Covers(u, provider, listed)
    ensures Covers(AddService(u, provider, ns), provider, listed)
  {
    if !Lists(u, ns) {
      AddServiceAppends(u, provider, ns);
      ListedMark(ns, listed);
      CoversAppend(u, provider, listed, Entry(ns, NewRow(u, provider)));
    }
  }

  lemma CoversAppend(u: Matrix, provider: string, listed: seq<string>, e: Entry<OMap<string>>)
    requires Covers(u, provider, listed)
    requires Get(e.value, provider) == Some(ProviderMark(e.key, listed))
    ensures Covers(u + [e], provider, listed)
  {
    var r := u + [e];
    forall i | 0 <= i < |r| ensures Get(r[i].value, provider) == Some(ProviderMark(r[i].key, listed)) {
      if i < |u| {
        assert r[i] == u[i];
      }
    }
  }

  /** One added service makes it listed, and keeps listed what was. */
  lemma AddServiceLists(u: Matrix, provider: string, ns: string)
    requires IsNormalName(ns)
    ensures Lists(AddService(u, provider, ns), ns)
    ensures forall x :: Lists(u, x) ==> Lists(AddService(u, provider, ns), x)
  {
    if !Lists(u, ns) {
      AddServiceAppends(u, provider, ns);
      ListsAppended(u, ns, NewRow(u, provider));
      NormalNameFixed(ns);
    }
  }

  /** Adding listed services keeps every new provider mark right. */
  lemma {:induction false} ServicesAddedCovers(u: Matrix, provider: string, listed: seq<string>, n: nat)
    requires n <= |listed|
    requires forall i :: 0 <= i < |listed| ==> IsNormalName(listed[i])
    requires Covers(u, provider, listed)
    ensures Covers(ServicesAdded(u, provider, listed[..n]), provider, listed)
  {
    if n > 0 {
      ServicesAddedCovers(u, provider, listed, n - 1);
      ServicesAddedStep(u, provider, listed, n - 1);
      AddServiceCovers(ServicesAdded(u, provider, listed[..n - 1]), provider, listed[n - 1], listed);
    }
  }

  /** After the third loop no listed service is missing. */
  lemma {:induction false} ServicesAddedLists(u: Matrix, provider: string, listed: seq<string>)
    requires forall i :: 0 <= i < |listed| ==> IsNormalName(listed[i])
    ensures forall x :: x in listed ==> Lists(ServicesAdded(u, provider, listed), x)
  {
    if listed != [] {
      var n := |listed| - 1;
      var prev := ServicesAdded(u, provider, listed[..n]);
      ServicesAddedLists(u, provider, listed[..n]);
      AddServiceLists(prev, provider, listed[n]);
      ListsGrow(prev, ServicesAdded(u, provider, listed), listed);
    }
  }

  /** The step of the induction above, apart from the loop. */
  lemma ListsGrow(prev: Matrix, r: Matrix, listed: seq<string>)
    requires listed != []
    requires forall x :: x in listed[..|listed| - 1] ==> Lists(prev, x)
    requires forall x :: Lists(prev, x) ==> Lists(r, x)
    requires Lists(r, listed[|listed| - 1])
    ensures forall x :: x in listed ==> Lists(r, x)
  {
    var n := |listed| - 1;
    forall x | x in listed ensures Lists(r, x) {
      if x != listed[n] {
        var j :| 0 <= j < |listed| && listed[j] == x;
        assert listed[..n][j] == x;
      }
    }
  }

  /** The services stay in normal form. */
  lemma {:induction false} ServicesAddedNormalKeys(u: Matrix, provider: string, listed: seq<string>)
    requires forall i :: 0 <= i < |listed| ==> IsNormalName(listed[i])
    requires NormalKeys(u)
    ensures NormalKeys(ServicesAdded(u, provider, listed))
  {
    if listed != [] {
      var n := |listed| - 1;
      var prev := ServicesAdded(u, provider, listed[..n]);
      ServicesAddedNormalKeys(u, provider, listed[..n]);
      if !Lists(prev, listed[n]) {
        AddServiceAppends(prev, provider, listed[n]);
      }
    }
  }

  /** Every service of the normalised base is in normal form. */
  lemma NormalizedDataKeys(entries: OMap<JsValue>)
    requires !HasNull(entries)
    requires forall i :: 0 <= i < |entries| ==> IsNormalName(entries[i].key)
    ensures NormalKeys(NormalizedData(entries).value)
  {
    var e := ServiceEntries(entries);
    var m := NormalizedData(entries).value;
    forall i | 0 <= i < |m| ensures IsNormalName(m[i].key) {
      AssignedKeyFrom(e, i);
      var k :| 0 <= k < |e| && e[k].key == m[i].key;
    }
  }

  /** Renaming the services keeps the `null` check. */
  lemma NameNormalizedHasNull(entries: OMap<JsValue>)
    ensures HasNull(NameNormalized(entries)) <==> HasNull(entries)
  {
    var r := NameNormalized(entries);
    if HasNull(entries) {
      var i :| 0 <= i < |entries| && entries[i].value.JNull?;
      assert r[i].value.JNull?;
    }
  }

  /** `updatedJSON`: the base with its services normalised, the new provider
      marked on every service, and the missing listed services added. */
  function Updated(entries: OMap<JsValue>, provider: string, listed: seq<string>): (r: Option<Matrix>)
    ensures r.None? <==> HasNull(entries)
    ensures r.Some? ==> UniqueKeys(r.value)
  {
    NameNormalizedHasNull(entries);
    match NormalizedData(NameNormalized(entries))
    case None => None
    case Some(u) =>
      var marked := Marked(u, provider, listed);
      assert UniqueKeys(marked) by {
        forall i, j | 0 <= i < j < |marked| ensures marked[i].key != marked[j].key {
          assert marked[i].key == u[i].key && marked[j].key == u[j].key;
        }
      }
      Some(ServicesAdded(marked, provider, listed))
  }

  /** The base services, normalised and before the new provider. */
  function NormalizedBase(entries: OMap<JsValue>): Matrix
    requires !HasNull(entries)
  {
    NameNormalizedHasNull(entries);
    NormalizedData(NameNormalized(entries)).value
  }

  /** After the merge every service has the new provider, `✅` exactly when
      its normal form is listed. */
  lemma UpdatedCovers(entries: OMap<JsValue>, provider: string, listed: seq<string>)
    requires forall i :: 0 <= i < |listed| ==> IsNormalName(listed[i])
    requires !HasNull(entries)
    ensures Covers(Updated(entries, provider, listed).value, provider, listed)
  {
    var u := NormalizedBase(entries);
    MarkedCovers(u, provider, listed);
    ServicesAddedCovers(Marked(u, provider, listed), provider, listed, |listed|);
    assert listed[..|listed|] == listed;
  }

  /** After the merge no listed service is missing. */
  lemma UpdatedLists(entries: OMap<JsValue>, provider: string, listed: seq<string>)
    requires forall i :: 0 <= i < |listed| ==> IsNormalName(listed[i])
    requires !HasNull(entries)
    ensures forall x :: x in listed ==> Lists(Updated(entries, provider, listed).value, x)
  {
    ServicesAddedLists(Marked(NormalizedBase(entries), provider, listed), provider, listed);
  }

  /** The base services come first, in their order, and keep every other
      provider's mark. */
  lemma UpdatedKeepsServices(entries: OMap<JsValue>, provider: string, listed: seq<string>)
    requires forall i :: 0 <= i < |listed| ==> IsNormalName(listed[i])
    requires !HasNull(entries)
    ensures var u := NormalizedBase(entries);
      var r := Updated(entries, provider, listed).value;
      |u| <= |r| &&
      forall i, q :: 0 <= i < |u| && q != provider ==> r[i].key == u[i].key && Get(r[i].value, q) == Get(u[i].value, q)
  {
    var u := NormalizedBase(entries);
    MarkedCovers(u, provider, listed);
    ServicesAddedPrefix(Marked(u, provider, listed), provider, listed);
  }

  /** Every service of the merge is in normal form. */
  lemma UpdatedNormalKeys(entries: OMap<JsValue>, provider: string, listed: seq<string>)
    requires forall i :: 0 <= i < |listed| ==> IsNormalName(listed[i])
    requires !HasNull(entries)
    ensures NormalKeys(Updated(entries, provider, listed).value)
  {
    var names := NameNormalized(entries);
    NameNormalizedHasNull(entries);
    NormalizedDataKeys(names);
    var u := NormalizedBase(entries);
    MarkedNormalKeys(u, provider, listed);
    ServicesAddedNormalKeys(Marked(u, provider, listed), provider, listed);
  }

  lemma MarkedNormalKeys(u: Matrix, provider: string, listed: seq<string>)
    requires NormalKeys(u)
    ensures NormalKeys(Marked(u, provider, listed))
  {
  }

  /** Each service renamed with its first letter capitalised. */
  function CapitalizedEntries(u: Matrix): (r: seq<Entry<OMap<string>>>)
    ensures |r| == |u|
    ensures forall i :: 0 <= i < |u| ==> r[i] == Entry(Capitalize(u[i].key), u[i].value)
  {
    seq(|u|, i requires 0 <= i < |u| => Entry(Capitalize(u[i].key), u[i].value))
  }

  /** The last loop: `finalJSON[capitalizeFirstLetter(service)] = providers`. */
  function Capitalized(u: Matrix): (r: Matrix)
    ensures UniqueKeys(r)
  {
    AssignedUnique(CapitalizedEntries(u));
    Assigned(CapitalizedEntries(u))
  }

  /** On services in normal form the last loop only renames: no two of
      them capitalise to the same name. */
  lemma CapitalizedRenames(u: Matrix)
    requires UniqueKeys(u) && NormalKeys(u)
    ensures Capitalized(u) == CapitalizedEntries(u)
  {
    var e := CapitalizedEntries(u);
    forall i, j | 0 <= i < j < |e| ensures e[i].key != e[j].key {
      if e[i].key == e[j].key {
        CapitalizeInjective(u[i].key, u[j].key);
      }
    }
    AssignedOfUnique(e);
  }

  /** The merge: both fields are required, the base must have keys and no
      `null` providers; the result is `finalJSON`. */
  function Merged(jsonInput: string, parsed: Result<JsValue>, current: JsValue, provider: string, services: string): (r: Result<Matrix>)
    ensures Trim(provider) == [] || Trim(services) == [] ==> r == Err(MissingMergeInput)
    ensures Trim(provider) != [] && Trim(services) != [] ==>
      var base := BaseEntries(BaseValue(jsonInput, parsed, current));
      (base.Err? ==> r == Err(base.message)) && (base.Ok? && HasNull(base.value) ==> r == Err(NullObject))
    ensures r.Ok? ==> UniqueKeys(r.value)
  {
    var newProvider := Trim(provider);
    var supported := Trim(services);
    if newProvider == [] || supported == [] then Err(MissingMergeInput)
    else
      match BaseEntries(BaseValue(jsonInput, parsed, current))
      case Err(m) => Err(m)
      case Ok(entries) =>
        match Updated(entries, newProvider, ServiceList(supported))
        case None => Err(NullObject)
        case Some(u) => Ok(Capitalized(u))
  }

  /** A successful merge renames the services of `updatedJSON`. */
  lemma MergedParts(jsonInput: string, parsed: Result<JsValue>, current: JsValue, provider: string, services: string)
    requires Merged(jsonInput, parsed, current, provider, services).Ok?
    ensures var base := BaseEntries(BaseValue(jsonInput, parsed, current));
      base.Ok? && !HasNull(base.value) &&
      Merged(jsonInput, parsed, current, provider, services).value ==
        CapitalizedEntries(Updated(base.value, Trim(provider), ServiceList(Trim(services))).value)
  {
    var base := BaseEntries(BaseValue(jsonInput, parsed, current));
    var listed := ServiceList(Trim(services));
    UpdatedNormalKeys(base.value, Trim(provider), listed);
    CapitalizedRenames(Updated(base.value, Trim(provider), listed).value);
  }

  /** After a merge every service has the new provider, `✅` exactly when the
      service, normalised, is in the comma-separated list. */
  lemma MergedMarksProvider(jsonInput: string, parsed: Result<JsValue>, current: JsValue, provider: string, services: string)
    ensures var r := Merged(jsonInput, parsed, current, provider, services);
      r.Ok? ==> MarksProvider(r.value, Trim(provider), ServiceList(Trim(services)))
  {
    var r := Merged(jsonInput, parsed, current, provider, services);
    if r.Ok? {
      MergedParts(jsonInput, parsed, current, provider, services);
      UpdatedMarksProvider(BaseEntries(BaseValue(jsonInput, parsed, current)).value, Trim(provider), ServiceList(Trim(services)));
    }
  }

  lemma UpdatedMarksProvider(entries: OMap<JsValue>, provider: string, listed: seq<string>)
    requires forall i :: 0 <= i < |listed| ==> IsNormalName(listed[i])
    requires !HasNull(entries)
    ensures MarksProvider(CapitalizedEntries(Updated(entries, provider, listed).value), provider, listed)
  {
    UpdatedCovers(entries, provider, listed);
    CapitalizedCovers(Updated(entries, provider, listed).value, provider, listed);
  }

  /** After a merge no listed service is missing: some service normalises
      to each. */
  lemma MergedListsServices(jsonInput: string, parsed: Result<JsValue>, current: JsValue, provider: string, services: string)
    ensures var r := Merged(jsonInput, parsed, current, provider, services);
      r.Ok? ==> forall x :: x in ServiceList(Trim(services)) ==> Lists(r.value, x)
  {
    var r := Merged(jsonInput, parsed, current, provider, services);
    if r.Ok? {
      MergedParts(jsonInput, parsed, current, provider, services);
      UpdatedListsAfterRenaming(BaseEntries(BaseValue(jsonInput, parsed, current)).value, Trim(provider), ServiceList(Trim(services)));
    }
  }

  lemma UpdatedListsAfterRenaming(entries: OMap<JsValue>, provider: string, listed: seq<string>)
    requires forall i :: 0 <= i < |listed| ==> IsNormalName(listed[i])
    requires !HasNull(entries)
    ensures forall x :: x in listed ==> Lists(CapitalizedEntries(Updated(entries, provider, listed).value), x)
  {
    UpdatedLists(entries, provider, listed);
    CapitalizedNames(Updated(entries, provider, listed).value);
  }

  /** Every service has the provider, `✅` exactly when the service's
      normal form is listed. */
  predicate MarksProvider(m: Matrix, provider: string, listed: seq<string>)
  {
    forall i :: 0 <= i < |m| ==>
      Get(m[i].value, provider) == Some(if NormalizeName(m[i].key) in listed then Check else Cross)
  }

  /** Renaming by capitalisation keeps the new provider's marks right. */
  lemma CapitalizedCovers(u: Matrix, provider: string, listed: seq<string>)
    requires Covers(u, provider, listed)
    ensures MarksProvider(CapitalizedEntries(u), provider, listed)
  {
    forall i | 0 <= i < |u| ensures NormalizeName(Capitalize(u[i].key)) == NormalizeName(u[i].key) {
      NormalizeCapitalized(u[i].key);
    }
  }

  /** Renaming by capitalisation keeps the normal forms of the names. */
  lemma CapitalizedNames(u: Matrix)
    ensures NormalizedNames(Keys(CapitalizedEntries(u))) == NormalizedNames(Keys(u))
  {
    forall i | 0 <= i < |u| ensures NormalizeName(Capitalize(u[i].key)) == NormalizeName(u[i].key) {
      NormalizeCapitalized(u[i].key);
    }
  }

  // ---------------------------------------------------------------------
  // The last result as JSON

  /** A row of marks as the JSON object it is kept as. */
  function LiftRow(row: OMap<string>): (r: OMap<JsValue>)
    ensures |r| == |row|
    ensures forall j :: 0 <= j < |r| ==> r[j] == Entry(row[j].key, JString(row[j].value))
  {
    seq(|row|, j requires 0 <= j < |row| => Entry(row[j].key, JString(row[j].value)))
  }

  /** `currentJSON` after a conversion or a merge. */
  function Lift(m: Matrix): (r: JsValue)
    ensures r.JObject? && |r.fields| == |m|
    ensures forall i :: 0 <= i < |m| ==> r.fields[i] == Entry(m[i].key, JObject(LiftRow(m[i].value)))
  {
    JObject(seq(|m|, i requires 0 <= i < |m| => Entry(m[i].key, JObject(LiftRow(m[i].value)))))
  }

  /** A row as the tools produce it: each provider once, each value a mark. */
  predicate IsMarkRow(row: OMap<string>)
  {
    UniqueKeys(row) && ValuesIn(row, {Check, Cross})
  }

  /** Normalising a row of marks gives it back. */
  lemma NormalizedLiftRow(row: OMap<string>)
    requires IsMarkRow(row)
    ensures NormalizedProviders(JObject(LiftRow(row))) == Some(row)
  {
    var fields := LiftRow(row);
    assert UniqueKeys(fields) by {
      forall i, j | 0 <= i < j < |fields| ensures fields[i].key != fields[j].key {
        assert fields[i].key == row[i].key && fields[j].key == row[j].key;
      }
    }
    NormalizedProvidersOfObject(fields);
    ValueMarksOfMarks(row);
  }

  lemma ValueMarksOfMarks(row: OMap<string>)
    requires ValuesIn(row, {Check, Cross})
    ensures ValueMarks(LiftRow(row)) == row
  {
    forall j | 0 <= j < |row| ensures NormalizeValue(JString(row[j].value)) == row[j].value {
      NormalizeMark(row[j].value);
    }
  }

  /** Normalising a result kept as JSON gives it back: the writer and a
      second merge see exactly what the last operation produced. */
  lemma NormalizedLift(m: Matrix)
    requires UniqueKeys(m)
    requires forall i :: 0 <= i < |m| ==> IsMarkRow(m[i].value)
    ensures NormalizedData(Lift(m).fields) == Some(m)
  {
    var fields := Lift(m).fields;
    forall i | 0 <= i < |m| ensures NormalizedProviders(fields[i].value) == Some(m[i].value) {
      NormalizedLiftRow(m[i].value);
    }
    var e := ServiceEntries(fields);
    assert e == m;
    AssignedOfUnique(m);
  }

  // ---------------------------------------------------------------------
  // JSON to markdown

  /** `**p**`. */
  function Bold(p: string): (r: string)
    ensures |r| == |p| + 4
  {
    "**" + p + "**"
  }

  function BoldAll(providers: seq<string>): (r: seq<string>)
    ensures |r| == |providers|
    ensures forall j :: 0 <= j < |r| ==> r[j] == Bold(providers[j])
  {
    seq(|providers|, j requires 0 <= j < |providers| => Bold(providers[j]))
  }

  function Markers(count: nat): (r: seq<string>)
    ensures |r| == count
    ensures forall j :: 0 <= j < count ==> r[j] == LeftMarker
  {
    seq(count, _ => LeftMarker)
  }

  /** `normalizedData[service][provider] || '❌'`. */
  function CellMark(row: OMap<string>, provider: string): (r: string)
    ensures HasKey(row, provider) && Get(row, provider).value != [] ==> r == Get(row, provider).value
    ensures !HasKey(row, provider) ==> r == Cross
  {
    match Get(row, provider)
    case Some(v) => if v == [] then Cross else v
    case None => Cross
  }

  function ServiceCells(row: OMap<string>, providers: seq<string>): (r: seq<string>)
    ensures |r| == |providers|
    ensures forall j :: 0 <= j < |r| ==> r[j] == CellMark(row, providers[j])
  {
    seq(|providers|, j requires 0 <= j < |providers| => CellMark(row, providers[j]))
  }

  /** A line of the written table: the first cell, then the others. */
  function TableLine(first: string, cells: seq<string>): string
  {
    "| " + first + " | " + Join(cells, " | ") + " |"
  }

  /** The providers of the table: those of the first service. */
  function TableProviders(data: Matrix): seq<string>
    requires data != []
  {
    Keys(data[0].value)
  }

  /** The header line, the separator line and one line per service. */
  function TableLines(data: Matrix): (r: seq<string>)
    requires data != []
    ensures |r| == 2 + |data|
  {
    var providers := TableProviders(data);
    [TableLine(ServiceNameTitle, BoldAll(providers)), TableLine(LeftMarker, Markers(|providers|))]
      + seq(|data|, i requires 0 <= i < |data| => TableLine(data[i].key, ServiceCells(data[i].value, providers)))
  }

  /** JSON to markdown: the base as for a merge, its providers normalised,
      the table joined by newlines. */
  function MarkdownOf(jsonInput: string, parsed: Result<JsValue>, current: JsValue): (r: Result<string>)
    ensures var base := BaseEntries(BaseValue(jsonInput, parsed, current));
      (base.Err? ==> r == Err(base.message)) && (base.Ok? && HasNull(base.value) ==> r == Err(NullObject))
  {
    match BaseEntries(BaseValue(jsonInput, parsed, current))
    case Err(m) => Err(m)
    case Ok(entries) =>
      match NormalizedData(entries)
      case None => Err(NullObject)
      case Some(data) =>
        NormalizedDataNonEmpty(entries);
        Ok(Join(TableLines(data), "\n"))
  }

  /** A base with services gives data with services. */
  lemma NormalizedDataNonEmpty(entries: OMap<JsValue>)
    requires entries != [] && !HasNull(entries)
    ensures NormalizedData(entries).value != []
  {
    var e := ServiceEntries(entries);
    AssignedKeys(e, e[0].key);
  }

  /** With at least one provider a table line is the row line of its cells. */
  lemma TableLineIsRowLine(first: string, cells: seq<string>)
    requires cells != []
    ensures TableLine(first, cells) == RowLine([first] + cells)
  {
    assert ([first] + cells)[1..] == cells;
  }

  /** The table has a header line, a separator line and a line per
      service; with at least one provider each line has a cell per
      provider after its first cell, and a service's cells are its marks,
      `❌` where it lacks the provider. */
  lemma TableLinesShape(data: Matrix)
    requires data != [] && TableProviders(data) != []
    ensures var providers := TableProviders(data);
      var lines := TableLines(data);
      lines[0] == RowLine([ServiceNameTitle] + BoldAll(providers)) &&
      lines[1] == RowLine([LeftMarker] + Markers(|providers|)) &&
      forall i :: 0 <= i < |data| ==> lines[i + 2] == RowLine([data[i].key] + ServiceCells(data[i].value, providers))
  {
    var providers := TableProviders(data);
    TableLineIsRowLine(ServiceNameTitle, BoldAll(providers));
    TableLineIsRowLine(LeftMarker, Markers(|providers|));
    forall i | 0 <= i < |data| ensures TableLines(data)[i + 2] == RowLine([data[i].key] + ServiceCells(data[i].value, providers)) {
      TableLineIsRowLine(data[i].key, ServiceCells(data[i].value, providers));
    }
  }

  /** The cells of a row of marks are marks. */
  lemma ServiceCellsAreMarks(row: OMap<string>, providers: seq<string>)
    requires ValuesIn(row, {Check, Cross})
    ensures forall j :: 0 <= j < |providers| ==> ServiceCells(row, providers)[j] in {Check, Cross}
  {
    forall j | 0 <= j < |providers| ensures ServiceCells(row, providers)[j] in {Check, Cross} {
      GetValuesIn(row, {Check, Cross}, providers[j]);
    }
  }

  // ---------------------------------------------------------------------
  // The loops of the merge and of the writer

  /** The provider loop: every provider's value normalised to a mark. */
  method NormalizeRow(entries: OMap<JsValue>) returns (row: OMap<string>)
    ensures row == Assigned(ValueMarks(entries))
  {
    row := [];
    ghost var marks := ValueMarks(entries);
    var j := 0;
    while j < |entries|
      invariant 0 <= j <= |entries|
      invariant row == Assigned(marks[..j])
    {
      AssignedStep(marks, j);
      row := Set(row, entries[j].key, NormalizeValue(entries[j].value));
      j := j + 1;
    }
    assert marks[..j] == marks;
  }

  /** The normalising loop; it stops at the first service whose providers
      are `null`, where `Object.entries` throws. */
  method NormalizeServices(entries: OMap<JsValue>) returns (r: Option<Matrix>)
    ensures r == NormalizedData(entries)
  {
    var data: Matrix := [];
    var i := 0;
    while i < |entries|
      invariant 0 <= i <= |entries|
      invariant !HasNull(entries[..i])
      invariant data == Assigned(ServiceEntries(entries[..i]))
    {
      var providers := entries[i].value;
      if providers.JNull? {
        NullStops(entries, i);
        return None;
      }
      var row := NormalizeRow(Entries(providers).value);
      NormalizedProvidersOf(providers);
      ServiceEntriesStep(entries, i);
      data := Set(data, entries[i].key, row);
      i := i + 1;
    }
    assert entries[..i] == entries;
    return Some(data);
  }

  lemma NullStops(entries: OMap<JsValue>, i: nat)
    requires i < |entries| && entries[i].value.JNull?
    ensures NormalizedData(entries) == None
  {
  }

  lemma NormalizedProvidersOf(v: JsValue)
    requires !v.JNull?
    ensures NormalizedProviders(v) == Some(Assigned(ValueMarks(Entries(v).value)))
  {
  }

  lemma ServiceEntriesStep(entries: OMap<JsValue>, i: nat)
    requires i < |entries| && !HasNull(entries[..i]) && !entries[i].value.JNull?
    ensures !HasNull(entries[..i + 1])
    ensures Assigned(ServiceEntries(entries[..i + 1])) ==
      Set(Assigned(ServiceEntries(entries[..i])), entries[i].key, NormalizedProviders(entries[i].value).value)
  {
    var prefix := entries[..i + 1];
    assert prefix[..i] == entries[..i];
    assert ServiceEntries(prefix) == ServiceEntries(entries[..i]) + [ServiceEntries(prefix)[i]];
    AssignedAppend(ServiceEntries(entries[..i]), ServiceEntries(prefix)[i]);
  }

  /** `updatedJSON[service][newProviderName] = ...` for every service. */
  method MarkProvider(u: Matrix, provider: string, listed: seq<string>) returns (r: Matrix)
    ensures r == Marked(u, provider, listed)
  {
    r := u;
    var i := 0;
    while i < |u|
      invariant 0 <= i <= |u| && |r| == |u|
      invariant forall j :: 0 <= j < i ==> r[j] == Marked(u, provider, listed)[j]
      invariant forall j :: i <= j < |u| ==> r[j] == u[j]
    {
      var service := r[i].key;
      var mark := if NormalizeName(service) in listed then Check else Cross;
      r := r[i := Entry(service, Set(r[i].value, provider, mark))];
      i := i + 1;
    }
  }

  /** The providers of the first service, each set to `❌`. */
  method CrossRow(providers: seq<string>) returns (row: OMap<string>)
    ensures row == Crosses(providers)
  {
    row := [];
    ghost var entries := seq(|providers|, i requires 0 <= i < |providers| => Entry(providers[i], Cross));
    var j := 0;
    while j < |providers|
      invariant 0 <= j <= |providers|
      invariant row == Assigned(entries[..j])
    {
      AssignedStep(entries, j);
      row := Set(row, providers[j], Cross);
      j := j + 1;
    }
    assert entries[..j] == entries;
  }

  /** One step of the third loop. */
  method AddMissingService(u: Matrix, provider: string, ns: string) returns (r: Matrix)
    ensures r == AddService(u, provider, ns)
  {
    if Lists(u, ns) {
      return u;
    }
    r := Set(u, ns, []);
    var firstService := r[0].key;
    var row := CrossRow(Keys(Get(r, firstService).value));
    row := Set(row, provider, Check);
    r := Set(r, ns, row);
  }

  /** The third loop. */
  method AddMissingServices(u: Matrix, provider: string, listed: seq<string>) returns (r: Matrix)
    ensures r == ServicesAdded(u, provider, listed)
  {
    r := u;
    var k := 0;
    while k < |listed|
      invariant 0 <= k <= |listed|
      invariant r == ServicesAdded(u, provider, listed[..k])
    {
      ServicesAddedStep(u, provider, listed, k);
      r := AddMissingService(r, provider, listed[k]);
      k := k + 1;
    }
    assert listed[..k] == listed;
  }

  /** The last loop. */
  method CapitalizeServices(u: Matrix) returns (r: Matrix)
    ensures r == Capitalized(u)
  {
    r := [];
    ghost var entries := CapitalizedEntries(u);
    var i := 0;
    while i < |u|
      invariant 0 <= i <= |u|
      invariant r == Assigned(entries[..i])
    {
      AssignedStep(entries, i);
      r := Set(r, Capitalize(u[i].key), u[i].value);
      i := i + 1;
    }
    assert entries[..i] == entries;
  }

  /** The page's state: `currentJSON`, the last result, which the merge and
      the writer fall back on when their JSON box is empty. */
  class Converter {
    var currentJson: JsValue

    constructor()
      ensures currentJson == JObject([])
    {
      currentJson := JObject([]);
    }

    /** Markdown to JSON; a result becomes `currentJSON`. */
    method ConvertMarkdown(input: string) returns (r: Result<Matrix>)
      modifies this
      ensures r == Converted(input)
      ensures currentJson == if r.Ok? then Lift(r.value) else old(currentJson)
    {
      r := ConvertToJson(input);
      if r.Ok? {
        currentJson := Lift(r.value);
      }
    }

    /** The merge of a provider; a result becomes `currentJSON`. */
    method MergeProvider(jsonInput: string, parsed: Result<JsValue>, provider: string, services: string) returns (r: Result<Matrix>)
      modifies this
      ensures r == Merged(jsonInput, parsed, old(currentJson), provider, services)
      ensures currentJson == if r.Ok? then Lift(r.value) else old(currentJson)
    {
      var newProvider := Trim(provider);
      var supported := Trim(services);
      if newProvider == [] || supported == [] {
        return Err(MissingMergeInput);
      }
      var base := BaseEntries(BaseValue(jsonInput, parsed, currentJson));
      if base.Err? {
        return Err(base.message);
      }
      var listed := ServiceList(supported);
      NameNormalizedHasNull(base.value);
      var normalized := NormalizeServices(NameNormalized(base.value));
      if normalized.None? {
        return Err(NullObject);
      }
      var updated := MarkProvider(normalized.value, newProvider, listed);
      updated := AddMissingServices(updated, newProvider, listed);
      var finalJson := CapitalizeServices(updated);
      currentJson := Lift(finalJson);
      return Ok(finalJson);
    }

    /** JSON to markdown; it leaves `currentJSON` alone. */
    method WriteMarkdown(jsonInput: string, parsed: Result<JsValue>) returns (r: Result<string>)
      ensures r == MarkdownOf(jsonInput, parsed, currentJson)
    {
      var base := BaseEntries(BaseValue(jsonInput, parsed, currentJson));
      if base.Err? {
        return Err(base.message);
      }
      var data := NormalizeServices(base.value);
      if data.None? {
        return Err(NullObject);
      }
      NormalizedDataNonEmpty(base.value);
      return Ok(Join(TableLines(data.value), "\n"));
    }
  }
}

