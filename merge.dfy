/** scripts/merge.py: merging the annotated citation contexts with the
    one-hot coded paper metadata, and extending every context with five
    metadata fields. Files are sequences of csv.DictReader records. */
module Merge {
  import opened Errors
  import Frames

  /** A row as csv.DictReader yields it: field name to text. */
  type Record = map<string, string>

  /** Metadata fields that are never copied onto a context. */
  const DropFieldnames: seq<string> :=
    ["zotero_ID", "DOI", "authors", "title", "pages", "codes", "keywords", "abstract"]

  /** The annotation categories, in the order they are inspected. */
  const Categories: seq<string> :=
    ["background", "uses_data", "uses_design", "uses_infrastructure", "similarities",
     "differences", "disagreement", "motivation", "extension", "future_work"]

  /** The metadata fields the extended output adds to every context. */
  const ExtensionFields: seq<string> :=
    ["type", "year", "design__type__resource_paper", "design__type__experimental", "design__type__theoretical"]

  // ------------------------------------------------------------ the two indexes

  /** The dictionary a loop `index[key(line)] = value(line)` builds, line after
      line, where reading a line's key or value may raise. */
  function Index<V>(lines: seq<Record>, entry: Record -> Result<(string, V)>): (r: Result<map<string, V>>)
  {
    if lines == [] then Ok(map[])
    else
      var n := |lines| - 1;
      match Index(lines[..n], entry)
      case Err(e) => Err(e)
      case Ok(m) =>
        match entry(lines[n])
        case Err(e) => Err(e)
        case Ok(kv) => Ok(m[kv.0 := kv.1])
  }

  /** Building an index succeeds exactly when every line can be read. */
  lemma {:induction false} IndexOk<V>(lines: seq<Record>, entry: Record -> Result<(string, V)>)
    ensures Index(lines, entry).Ok? <==> forall i :: 0 <= i < |lines| ==> entry(lines[i]).Ok?
  {
    if lines != [] {
      var n := |lines| - 1;
      var init := lines[..n];
      IndexOk(init, entry);
      assert forall i :: 0 <= i < n ==> init[i] == lines[i];
    }
  }

  /** The keys of an index are exactly the keys of its lines. */
  lemma {:induction false} IndexKeys<V>(lines: seq<Record>, entry: Record -> Result<(string, V)>, k: string)
    requires Index(lines, entry).Ok?
    ensures k in Index(lines, entry).value <==>
      exists i :: 0 <= i < |lines| && entry(lines[i]).Ok? && entry(lines[i]).value.0 == k
  {
    if lines != [] {
      var n := |lines| - 1;
      var init := lines[..n];
      IndexKeys(init, entry, k);
      assert forall i :: 0 <= i < n ==> init[i] == lines[i];
      if k != entry(lines[n]).value.0 && exists i :: 0 <= i < |lines| && entry(lines[i]).Ok? && entry(lines[i]).value.0 == k {
        var i :| 0 <= i < |lines| && entry(lines[i]).Ok? && entry(lines[i]).value.0 == k;
        assert i < n && entry(init[i]).value.0 == k;
      }
    }
  }

  /** A key maps to the value of the LAST line carrying it: later lines
      overwrite earlier ones. */
  lemma {:induction false} IndexLastWins<V>(lines: seq<Record>, entry: Record -> Result<(string, V)>, i: int)
    requires Index(lines, entry).Ok?
    requires 0 <= i < |lines| && entry(lines[i]).Ok?
    requires forall j :: i < j < |lines| ==> entry(lines[j]).Ok? && entry(lines[j]).value.0 != entry(lines[i]).value.0
    ensures entry(lines[i]).value.0 in Index(lines, entry).value
    ensures Index(lines, entry).value[entry(lines[i]).value.0] == entry(lines[i]).value.1
  {
    var n := |lines| - 1;
    var init := lines[..n];
    if i < n {
      assert init[i] == lines[i];
      assert forall j :: i < j < n ==> init[j] == lines[j];
      IndexLastWins(init, entry, i);
    }
  }

  /** Once a prefix has raised, the lines after it change nothing. */
  lemma {:induction false} IndexErrSticky<V>(lines: seq<Record>, entry: Record -> Result<(string, V)>, i: int)
    requires 0 <= i <= |lines| && Index(lines[..i], entry).Err?
    ensures Index(lines, entry) == Index(lines[..i], entry)
  {
    if i == |lines| {
      assert lines[..i] == lines;
    } else {
      var n := |lines| - 1;
      assert lines[..n][..i] == lines[..i];
      IndexErrSticky(lines[..n], entry, i);
    }
  }

  /** `id_mappings[line["result_id"]] = line["doi"]`: the right-hand side is
      read first, so a missing doi column is reported before result_id. */
  function IdEntry(line: Record): (r: Result<(string, string)>)
    ensures r.Ok? <==> "doi" in line && "result_id" in line
  {
    if "doi" !in line then Err(KeyError("doi"))
    else if "result_id" !in line then Err(KeyError("result_id"))
    else Ok((line["result_id"], line["doi"]))
  }

  /** `all_data[line["DOI"]] = line` */
  function DataEntry(line: Record): (r: Result<(string, Record)>)
    ensures r.Ok? <==> "DOI" in line
  {
    if "DOI" !in line then Err(KeyError("DOI")) else Ok((line["DOI"], line))
  }

  /** The loop filling id_mappings from the scholar-id table. */
  method BuildIdMappings(lines: seq<Record>) returns (r: Result<map<string, string>>)
    ensures r == Index(lines, IdEntry)
  {
    var idMappings: map<string, string> := map[];
    var i := 0;
    while i < |lines|
      invariant 0 <= i <= |lines|
      invariant Index(lines[..i], IdEntry) == Ok(idMappings)
    {
      var line := lines[i];
      assert lines[..i + 1][..i] == lines[..i];
      if "doi" !in line {
        IndexErrSticky(lines, IdEntry, i + 1);
        return Err(KeyError("doi"));
      }
      if "result_id" !in line {
        IndexErrSticky(lines, IdEntry, i + 1);
        return Err(KeyError("result_id"));
      }
      idMappings := idMappings[line["result_id"] := line["doi"]];
      i := i + 1;
    }
    assert lines[..i] == lines;
    r := Ok(idMappings);
  }

  /** The loop filling all_data from the metadata table. */
  method BuildAllData(lines: seq<Record>) returns (r: Result<map<string, Record>>)
    ensures r == Index(lines, DataEntry)
  {
    var allData: map<string, Record> := map[];
    var i := 0;
    while i < |lines|
      invariant 0 <= i <= |lines|
      invariant Index(lines[..i], DataEntry) == Ok(allData)
    {
      var line := lines[i];
      assert lines[..i + 1][..i] == lines[..i];
      if "DOI" !in line {
        IndexErrSticky(lines, DataEntry, i + 1);
        return Err(KeyError("DOI"));
      }
      allData := allData[line["DOI"] := line];
      i := i + 1;
    }
    assert lines[..i] == lines;
    r := Ok(allData);
  }

  /** A table whose every row has the named column. */
  predicate HasField(lines: seq<Record>, field: string) {
    forall i :: 0 <= i < |lines| ==> field in lines[i]
  }

  /** id_mappings is built exactly when every row has doi and result_id; its
      keys are the result_ids, and each sends to the doi of the last row
      listing it. */
  lemma IdMappingsSound(lines: seq<Record>)
    ensures Index(lines, IdEntry).Ok? <==> HasField(lines, "doi") && HasField(lines, "result_id")
    ensures Index(lines, IdEntry).Ok? ==> forall k :: k in Index(lines, IdEntry).value <==>
      exists i :: 0 <= i < |lines| && "result_id" in lines[i] && lines[i]["result_id"] == k
  {
    IndexOk(lines, IdEntry);
    if Index(lines, IdEntry).Ok? {
      forall k ensures k in Index(lines, IdEntry).value <==> exists i :: 0 <= i < |lines| && "result_id" in lines[i] && lines[i]["result_id"] == k {
        IndexKeys(lines, IdEntry, k);
      }
    } else {
      var i :| 0 <= i < |lines| && IdEntry(lines[i]).Err?;
    }
  }

  lemma IdMappingsLastWriteWins(lines: seq<Record>, i: int)
    requires HasField(lines, "doi") && HasField(lines, "result_id")
    requires 0 <= i < |lines|
    requires forall j :: i < j < |lines| ==> lines[j]["result_id"] != lines[i]["result_id"]
    ensures Index(lines, IdEntry).Ok?
    ensures lines[i]["result_id"] in Index(lines, IdEntry).value
    ensures Index(lines, IdEntry).value[lines[i]["result_id"]] == lines[i]["doi"]
  {
    IdMappingsSound(lines);
    IndexLastWins(lines, IdEntry, i);
  }

  /** all_data is built exactly when every row has a DOI; its keys are the
      DOIs, and each sends to the last metadata row with that DOI. */
  lemma AllDataSound(lines: seq<Record>)
    ensures Index(lines, DataEntry).Ok? <==> HasField(lines, "DOI")
    ensures Index(lines, DataEntry).Ok? ==> forall k :: k in Index(lines, DataEntry).value <==>
      exists i :: 0 <= i < |lines| && "DOI" in lines[i] && lines[i]["DOI"] == k
  {
    IndexOk(lines, DataEntry);
    if Index(lines, DataEntry).Ok? {
      forall k ensures k in Index(lines, DataEntry).value <==> exists i :: 0 <= i < |lines| && "DOI" in lines[i] && lines[i]["DOI"] == k {
        IndexKeys(lines, DataEntry, k);
      }
    } else {
      var i :| 0 <= i < |lines| && DataEntry(lines[i]).Err?;
    }
  }

  lemma AllDataLastWriteWins(lines: seq<Record>, i: int)
    requires HasField(lines, "DOI")
    requires 0 <= i < |lines|
    requires forall j :: i < j < |lines| ==> lines[j]["DOI"] != lines[i]["DOI"]
    ensures Index(lines, DataEntry).Ok?
    ensures lines[i]["DOI"] in Index(lines, DataEntry).value
    ensures Index(lines, DataEntry).value[lines[i]["DOI"]] == lines[i]
  {
    AllDataSound(lines);
    IndexLastWins(lines, DataEntry, i);
  }

  // ------------------------------------------------------------ annotation filter

  /** The inner `for category in [...]` loop as a function of the categories
      still to inspect: true at the first category equal to "1", a KeyError
      at the first category the line lacks before that. */
  function AnnotatedBy(line: Record, cats: seq<string>): (r: Result<bool>)
    ensures r.Err? ==> r.error.KeyError? && r.error.key in cats && r.error.key !in line
  {
    if cats == [] then Ok(false)
    else if cats[0] !in line then Err(KeyError(cats[0]))
    else if line[cats[0]] == "1" then Ok(true)
    else AnnotatedBy(line, cats[1..])
  }

  /** A line is annotated exactly when some category equals "1" and every
      category before it is present; it is unannotated exactly when every
      category is present and none equals "1". */
  lemma {:induction false} AnnotatedByIff(line: Record, cats: seq<string>)
    ensures AnnotatedBy(line, cats) == Ok(true) <==>
      exists j :: 0 <= j < |cats| && cats[j] in line && line[cats[j]] == "1" &&
        forall k :: 0 <= k < j ==> cats[k] in line
    ensures AnnotatedBy(line, cats) == Ok(false) <==>
      forall j :: 0 <= j < |cats| ==> cats[j] in line && line[cats[j]] != "1"
  {
    if cats != [] && cats[0] in line && line[cats[0]] != "1" {
      var rest := cats[1..];
      AnnotatedByIff(line, rest);
      assert forall j :: 1 <= j < |cats| ==> cats[j] == rest[j - 1];
      if j :| 0 <= j < |cats| && cats[j] in line && line[cats[j]] == "1" && forall k :: 0 <= k < j ==> cats[k] in line {
        assert j >= 1;
        assert forall k :: 0 <= k < j - 1 ==> rest[k] == cats[k + 1];
        assert rest[j - 1] in line && line[rest[j - 1]] == "1";
      }
      if j :| 0 <= j < |rest| && rest[j] in line && line[rest[j]] == "1" && forall k :: 0 <= k < j ==> rest[k] in line {
        assert cats[j + 1] in line && line[cats[j + 1]] == "1";
        assert forall k :: 0 <= k < j + 1 ==> cats[k] in line;
      }
    } else if cats != [] && cats[0] in line {
      assert cats[0] in line && line[cats[0]] == "1";
    }
  }

  /** With all ten category columns present the test cannot raise. */
  lemma {:induction false} AnnotatedByTotal(line: Record, cats: seq<string>)
    requires forall j :: 0 <= j < |cats| ==> cats[j] in line
    ensures AnnotatedBy(line, cats).Ok?
  {
    if cats != [] {
      AnnotatedByTotal(line, cats[1..]);
    }
  }

  /** The annotated flag of one context line, computed as merge.py does: a
      flag, a loop over the categories and a break at the first "1". */
  method IsAnnotated(line: Record) returns (r: Result<bool>)
    ensures r == AnnotatedBy(line, Categories)
  {
    var annotated := false;
    var i := 0;
    while i < |Categories|
      invariant 0 <= i <= |Categories|
      invariant AnnotatedBy(line, Categories) == AnnotatedBy(line, Categories[i..])
    {
      var category := Categories[i];
      if category !in line {
        return Err(KeyError(category));
      }
      if line[category] == "1" {
        annotated := true;
        break;
      }
      assert Categories[i..][1..] == Categories[i + 1..];
      i := i + 1;
    }
    r := Ok(annotated);
  }

  // ------------------------------------------------------------ overlay

  /** The non-dropped fields of a metadata row. */
  function Copied(meta: Record): (c: Record)
    ensures forall k :: k in c <==> k in meta && k !in DropFieldnames
  {
    map k | k in meta && k !in DropFieldnames :: meta[k]
  }

  /** The context line after `line[key] = value` for every metadata field
      outside DROP_FIELDNAMES: those fields win over same-named context fields. */
  function Overlay(line: Record, meta: Record): (r: Record)
    ensures forall k :: k in r <==> k in line || (k in meta && k !in DropFieldnames)
    ensures forall k :: k in meta && k !in DropFieldnames ==> r[k] == meta[k]
    ensures forall k :: k in line && (k !in meta || k in DropFieldnames) ==> r[k] == line[k]
  {
    line + Copied(meta)
  }

  /** The inner `for key, value in ....items()` loop, one field at a time in
      whatever order the dictionary yields them. */
  method OverlayFields(line: Record, meta: Record) returns (out: Record)
    ensures out == Overlay(line, meta)
  {
    out := line;
    var todo := meta.Keys;
    while todo != {}
      invariant todo <= meta.Keys
      invariant forall k :: k in out <==> k in line || (k in meta && k !in todo && k !in DropFieldnames)
      invariant forall k :: k in out ==> out[k] == if k in meta && k !in todo && k !in DropFieldnames then meta[k] else line[k]
      decreases todo
    {
      var key :| key in todo;
      if key !in DropFieldnames {
        out := out[key := meta[key]];
      }
      todo := todo - {key};
    }
    assert out == Overlay(line, meta);
  }

  // ------------------------------------------------------------ merged output

  /** What one context line contributes to the merged output. */
  datatype LineOutcome = Skipped | Written(row: Record) | Dropped

  /** The merged rows written, in order, and the final value of `dropped`. */
  datatype Merged = Merged(written: seq<Record>, dropped: nat)

  /** The line's cited_id maps to a DOI that all_data holds. */
  predicate Matched(line: Record, idMappings: map<string, string>, allData: map<string, Record>) {
    "cited_id" in line && line["cited_id"] in idMappings && idMappings[line["cited_id"]] in allData
  }

  /** The metadata row a matched line is merged with. */
  function MetaOf(line: Record, idMappings: map<string, string>, allData: map<string, Record>): Record
    requires Matched(line, idMappings, allData)
  {
    allData[idMappings[line["cited_id"]]]
  }

  /** The line is annotated and matched, so it is written. */
  predicate Writes(line: Record, idMappings: map<string, string>, allData: map<string, Record>) {
    AnnotatedBy(line, Categories) == Ok(true) && Matched(line, idMappings, allData)
  }

  /** One pass of the merge loop body. An unannotated line is skipped; for an
      annotated one a missing cited_id column or an id id_mappings lacks
      raises KeyError, a DOI all_data lacks is dropped, and otherwise the
      overlaid line is written. */
  function MergeLine(line: Record, idMappings: map<string, string>, allData: map<string, Record>): (r: Result<LineOutcome>)
    ensures r.Ok? <==> (AnnotatedBy(line, Categories).Ok? &&
      (AnnotatedBy(line, Categories).value ==> "cited_id" in line && line["cited_id"] in idMappings))
    ensures r == Ok(Skipped) <==> AnnotatedBy(line, Categories) == Ok(false)
    ensures r.Ok? && r.value.Written? <==> Writes(line, idMappings, allData)
    ensures r.Ok? && r.value.Written? ==> r.value.row == Overlay(line, MetaOf(line, idMappings, allData))
  {
    match AnnotatedBy(line, Categories)
    case Err(e) => Err(e)
    case Ok(annotated) =>
      if !annotated then Ok(Skipped)
      else if "cited_id" !in line then Err(KeyError("cited_id"))
      else if line["cited_id"] !in idMappings then Err(KeyError(line["cited_id"]))
      else if idMappings[line["cited_id"]] in allData then
        Ok(Written(Overlay(line, allData[idMappings[line["cited_id"]]])))
      else Ok(Dropped)
  }

  /** The merge loop over the context lines, as a function of its input. */
  function MergeRows(lines: seq<Record>, idMappings: map<string, string>, allData: map<string, Record>): (r: Result<Merged>)
  {
    if lines == [] then Ok(Merged([], 0))
    else
      var n := |lines| - 1;
      match MergeRows(lines[..n], idMappings, allData)
      case Err(e) => Err(e)
      case Ok(acc) =>
        match MergeLine(lines[n], idMappings, allData)
        case Err(e) => Err(e)
        case Ok(outcome) => Ok(Absorb(acc, outcome))
  }

  /** The running totals after one more line. */
  function Absorb(acc: Merged, outcome: LineOutcome): Merged {
    match outcome
    case Skipped => acc
    case Written(row) => acc.(written := acc.written + [row])
    case Dropped => acc.(dropped := acc.dropped + 1)
  }

  /** The merge of one more line, given the merge of the lines before it. */
  lemma MergeRowsNext(lines: seq<Record>, idMappings: map<string, string>, allData: map<string, Record>, i: int, acc: Merged)
    requires 0 <= i < |lines| && MergeRows(lines[..i], idMappings, allData) == Ok(acc)
    ensures MergeLine(lines[i], idMappings, allData).Err? ==>
      MergeRows(lines[..i + 1], idMappings, allData) == Err(MergeLine(lines[i], idMappings, allData).error)
    ensures MergeLine(lines[i], idMappings, allData).Ok? ==>
      MergeRows(lines[..i + 1], idMappings, allData) == Ok(Absorb(acc, MergeLine(lines[i], idMappings, allData).value))
  {
    assert lines[..i + 1][..i] == lines[..i];
  }

  /** Once a prefix has raised, the lines after it change nothing. */
  lemma {:induction false} MergeRowsErrSticky(lines: seq<Record>, idMappings: map<string, string>, allData: map<string, Record>, i: int)
    requires 0 <= i <= |lines| && MergeRows(lines[..i], idMappings, allData).Err?
    ensures MergeRows(lines, idMappings, allData) == MergeRows(lines[..i], idMappings, allData)
  {
    if i == |lines| {
      assert lines[..i] == lines;
    } else {
      var n := |lines| - 1;
      assert lines[..n][..i] == lines[..i];
      MergeRowsErrSticky(lines[..n], idMappings, allData, i);
    }
  }

  /** The merge runs to the end exactly when no line raises: a cited_id that
      id_mappings lacks is fatal, not a drop. */
  lemma {:induction false} MergeRowsOk(lines: seq<Record>, idMappings: map<string, string>, allData: map<string, Record>)
    ensures MergeRows(lines, idMappings, allData).Ok? <==>
      forall i :: 0 <= i < |lines| ==> MergeLine(lines[i], idMappings, allData).Ok?
  {
    if lines != [] {
      var n := |lines| - 1;
      var init := lines[..n];
      MergeRowsOk(init, idMappings, allData);
      assert forall i :: 0 <= i < n ==> init[i] == lines[i];
    }
  }

  /** Number of annotated lines. */
  function CountAnnotated(lines: seq<Record>): nat {
    if lines == [] then 0
    else CountAnnotated(lines[..|lines| - 1]) + (if AnnotatedBy(lines[|lines| - 1], Categories) == Ok(true) then 1 else 0)
  }

  /** Number of annotated lines whose DOI all_data holds. */
  function CountWrites(lines: seq<Record>, idMappings: map<string, string>, allData: map<string, Record>): nat {
    if lines == [] then 0
    else CountWrites(lines[..|lines| - 1], idMappings, allData) + (if Writes(lines[|lines| - 1], idMappings, allData) then 1 else 0)
  }

  /** Every annotated line is either written or dropped: dropped is the number
      of annotated lines minus the number written. */
  lemma {:induction false} MergeRowsCounts(lines: seq<Record>, idMappings: map<string, string>, allData: map<string, Record>)
    requires MergeRows(lines, idMappings, allData).Ok?
    ensures |MergeRows(lines, idMappings, allData).value.written| == CountWrites(lines, idMappings, allData)
    ensures MergeRows(lines, idMappings, allData).value.dropped == CountAnnotated(lines) - CountWrites(lines, idMappings, allData)
    ensures CountWrites(lines, idMappings, allData) <= CountAnnotated(lines)
  {
    if lines != [] {
      MergeRowsCounts(lines[..|lines| - 1], idMappings, allData);
    }
  }

  /** The lines the merge writes. */
  function WritesOf(idMappings: map<string, string>, allData: map<string, Record>): Record -> bool {
    line => Writes(line, idMappings, allData)
  }

  /** A row is the overlay of a matched line with its metadata row. */
  function OverlaidOf(idMappings: map<string, string>, allData: map<string, Record>): (Record, Record) -> bool {
    (line, row) => Matched(line, idMappings, allData) && row == Overlay(line, MetaOf(line, idMappings, allData))
  }

  /** The written rows are exactly the overlays of the annotated, matched
      lines, in input order: idx gives the line each written row comes from. */
  lemma {:induction false} MergeRowsWritten(lines: seq<Record>, idMappings: map<string, string>, allData: map<string, Record>)
    returns (idx: seq<int>)
    requires MergeRows(lines, idMappings, allData).Ok?
    ensures Frames.Picks(lines, WritesOf(idMappings, allData), OverlaidOf(idMappings, allData), MergeRows(lines, idMappings, allData).value.written, idx)
  {
    if lines == [] {
      idx := [];
    } else {
      var n := |lines| - 1;
      var init := lines[..n];
      var prev := MergeRowsWritten(init, idMappings, allData);
      var last := lines[n];
      var y := if Writes(last, idMappings, allData) then Overlay(last, MetaOf(last, idMappings, allData)) else last;
      idx := Frames.PicksStep(lines, WritesOf(idMappings, allData), OverlaidOf(idMappings, allData),
        MergeRows(init, idMappings, allData).value.written, prev, y, MergeRows(lines, idMappings, allData).value.written);
    }
  }

  /** A cited_id that id_mappings lacks, on an annotated line, stops the merge. */
  lemma UnmappedIdIsFatal(lines: seq<Record>, idMappings: map<string, string>, allData: map<string, Record>, i: int)
    requires 0 <= i < |lines|
    requires AnnotatedBy(lines[i], Categories) == Ok(true)
    requires "cited_id" in lines[i] && lines[i]["cited_id"] !in idMappings
    ensures MergeRows(lines, idMappings, allData).Err?
  {
    MergeRowsOk(lines, idMappings, allData);
  }

  /** One pass of the merge loop body as merge.py runs it: the category
      loop, the two lookups that may raise, and the field-by-field overlay. */
  method MergeOne(line: Record, idMappings: map<string, string>, allData: map<string, Record>)
    returns (r: Result<LineOutcome>)
    ensures r == MergeLine(line, idMappings, allData)
  {
    var annotated := IsAnnotated(line);
    if annotated.Err? {
      return Err(annotated.error);
    }
    if !annotated.value {
      return Ok(Skipped);
    }
    if "cited_id" !in line {
      return Err(KeyError("cited_id"));
    }
    if line["cited_id"] !in idMappings {
      return Err(KeyError(line["cited_id"]));
    }
    if idMappings[line["cited_id"]] in allData {
      var merged := OverlayFields(line, allData[idMappings[line["cited_id"]]]);
      return Ok(Written(merged));
    }
    return Ok(Dropped);
  }

  /** The merge loop as merge.py runs it, with the running `dropped` counter. */
  method MergeContexts(lines: seq<Record>, idMappings: map<string, string>, allData: map<string, Record>)
    returns (r: Result<Merged>)
    ensures r == MergeRows(lines, idMappings, allData)
  {
    var written: seq<Record> := [];
    var dropped: nat := 0;
    var i := 0;
    while i < |lines|
      invariant 0 <= i <= |lines|
      invariant MergeRows(lines[..i], idMappings, allData) == Ok(Merged(written, dropped))
    {
      MergeRowsNext(lines, idMappings, allData, i, Merged(written, dropped));
      var outcome := MergeOne(lines[i], idMappings, allData);
      if outcome.Err? {
        MergeRowsErrSticky(lines, idMappings, allData, i + 1);
        return Err(outcome.error);
      }
      match outcome.value {
        case Skipped =>
        case Written(row) =>
          written := written + [row];
        case Dropped =>
          dropped := dropped + 1;
      }
      i := i + 1;
    }
    assert lines[..i] == lines;
    r := Ok(Merged(written, dropped));
  }

  // ------------------------------------------------------------ headers

  /** Which metadata field names survive DROP_FIELDNAMES. */
  function NotDropped(fields: seq<string>): (mask: seq<bool>)
    ensures |mask| == |fields|
    ensures forall i :: 0 <= i < |fields| ==> (mask[i] <==> fields[i] !in DropFieldnames)
  {
    seq(|fields|, i requires 0 <= i < |fields| => fields[i] !in DropFieldnames)
  }

  /** The merged header: the context field names, then the metadata field
      names outside DROP_FIELDNAMES. */
  function MergedHeader(contextFields: seq<string>, dataFields: seq<string>): (h: seq<string>)
    ensures |contextFields| <= |h| && h[..|contextFields|] == contextFields
  {
    contextFields + Frames.Keep(dataFields, NotDropped(dataFields))
  }

  /** The added header names are exactly the non-dropped metadata field names,
      in their original order. */
  lemma MergedHeaderSound(contextFields: seq<string>, dataFields: seq<string>)
    ensures var added := MergedHeader(contextFields, dataFields)[|contextFields|..];
      && (forall x :: x in added <==> x in dataFields && x !in DropFieldnames)
      && Frames.SubsequenceAt(added, dataFields, Frames.Selected(NotDropped(dataFields)))
  {
    var mask := NotDropped(dataFields);
    var added := MergedHeader(contextFields, dataFields)[|contextFields|..];
    assert added == Frames.Keep(dataFields, mask);
    Frames.KeepIsSubsequence(dataFields, mask);
    forall x ensures x in added <==> x in dataFields && x !in DropFieldnames {
      Frames.KeepContains(dataFields, mask, x);
    }
  }

  /** Every field of a merged row is a header name, so csv.DictWriter, which
      raises on fields outside its header, accepts every written row. */
  lemma MergedRowFitsHeader(line: Record, meta: Record, contextFields: seq<string>, dataFields: seq<string>)
    requires forall k :: k in line ==> k in contextFields
    requires forall k :: k in meta ==> k in dataFields
    ensures forall k :: k in Overlay(line, meta) ==> k in MergedHeader(contextFields, dataFields)
  {
    MergedHeaderSound(contextFields, dataFields);
    var h := MergedHeader(contextFields, dataFields);
    assert h == h[..|contextFields|] + h[|contextFields|..];
  }

  // ------------------------------------------------------------ extended output

  /** `line[f] = meta[f]` for each of the fields in turn; the first field the
      metadata row lacks raises KeyError. */
  function CopyFields(line: Record, meta: Record, fields: seq<string>): Result<Record>
    decreases |fields|
  {
    if fields == [] then Ok(line)
    else if fields[0] !in meta then Err(KeyError(fields[0]))
    else CopyFields(line[fields[0] := meta[fields[0]]], meta, fields[1..])
  }

  /** Copying succeeds exactly when the metadata row has every field, and
      otherwise fails on one it lacks; the copy has the line's fields and the
      listed ones, the listed ones with the metadata's values. */
  lemma {:induction false} CopyFieldsSound(line: Record, meta: Record, fields: seq<string>)
    ensures var r := CopyFields(line, meta, fields);
      && (r.Ok? <==> forall f :: f in fields ==> f in meta)
      && (r.Err? ==> r.error.KeyError? && r.error.key in fields && r.error.key !in meta)
      && (r.Ok? ==> forall k :: k in r.value <==> k in line || k in fields)
      && (r.Ok? ==> forall k :: k in r.value ==> r.value[k] == if k in fields then meta[k] else line[k])
    decreases |fields|
  {
    if fields != [] && fields[0] in meta {
      CopyFieldsSound(line[fields[0] := meta[fields[0]]], meta, fields[1..]);
      assert forall f :: f in fields <==> f == fields[0] || f in fields[1..];
    }
  }

  /** One pass of the extension loop body: the five fields of the metadata row
      the line's cited_id maps to. Every lookup on the way may raise KeyError. */
  function ExtendLine(line: Record, idMappings: map<string, string>, allData: map<string, Record>): (r: Result<Record>)
    ensures r.Ok? <==> (Matched(line, idMappings, allData) &&
      forall f :: f in ExtensionFields ==> f in MetaOf(line, idMappings, allData))
  {
    if "cited_id" !in line then Err(KeyError("cited_id"))
    else if line["cited_id"] !in idMappings then Err(KeyError(line["cited_id"]))
    else if idMappings[line["cited_id"]] !in allData then Err(KeyError(idMappings[line["cited_id"]]))
    else
      CopyFieldsSound(line, allData[idMappings[line["cited_id"]]], ExtensionFields);
      CopyFields(line, allData[idMappings[line["cited_id"]]], ExtensionFields)
  }

  function ExtendLineOf(idMappings: map<string, string>, allData: map<string, Record>): Record -> Result<Record> {
    (line: Record) => ExtendLine(line, idMappings, allData)
  }

  /** An extended line carries exactly the five extension fields of its
      metadata row besides its own fields, which it keeps. */
  lemma ExtendLineEffect(line: Record, idMappings: map<string, string>, allData: map<string, Record>)
    requires ExtendLine(line, idMappings, allData).Ok?
    ensures Matched(line, idMappings, allData)
    ensures var e := ExtendLine(line, idMappings, allData).value;
      && (forall k :: k in e <==> k in line || k in ExtensionFields)
      && (forall k :: k in ExtensionFields ==> e[k] == MetaOf(line, idMappings, allData)[k])
      && (forall k :: k in line && k !in ExtensionFields ==> e[k] == line[k])
  {
    CopyFieldsSound(line, MetaOf(line, idMappings, allData), ExtensionFields);
  }

  /** The extended output: every context line, in order and whatever its
      annotation, extended as ExtendLine says; it is produced exactly when
      every line can be extended. */
  lemma ExtendSound(lines: seq<Record>, idMappings: map<string, string>, allData: map<string, Record>)
    ensures var r := Frames.Apply(lines, ExtendLineOf(idMappings, allData));
      && (r.Ok? <==> forall i :: 0 <= i < |lines| ==> ExtendLine(lines[i], idMappings, allData).Ok?)
      && (r.Ok? ==> |r.value| == |lines|)
      && (r.Ok? ==> forall i :: 0 <= i < |lines| ==> ExtendLine(lines[i], idMappings, allData) == Ok(r.value[i]))
  {
    Frames.ApplySound(lines, ExtendLineOf(idMappings, allData));
  }

  /** The extended header: the context field names and the five added ones. */
  function ExtendedHeader(contextFields: seq<string>): seq<string> {
    contextFields + ExtensionFields
  }

  /** The five assignments of the extension loop body, each reading the
      metadata row afresh. */
  method CopyExtensionFields(line: Record, meta: Record) returns (r: Result<Record>)
    ensures r == CopyFields(line, meta, ExtensionFields)
  {
    var out := line;
    ghost var rest := ExtensionFields;
    if "type" !in meta { return Err(KeyError("type")); }
    out := out["type" := meta["type"]];
    rest := rest[1..];
    assert CopyFields(line, meta, ExtensionFields) == CopyFields(out, meta, rest);
    if "year" !in meta { return Err(KeyError("year")); }
    out := out["year" := meta["year"]];
    rest := rest[1..];
    assert CopyFields(line, meta, ExtensionFields) == CopyFields(out, meta, rest);
    if "design__type__resource_paper" !in meta { return Err(KeyError("design__type__resource_paper")); }
    out := out["design__type__resource_paper" := meta["design__type__resource_paper"]];
    rest := rest[1..];
    assert CopyFields(line, meta, ExtensionFields) == CopyFields(out, meta, rest);
    if "design__type__experimental" !in meta { return Err(KeyError("design__type__experimental")); }
    out := out["design__type__experimental" := meta["design__type__experimental"]];
    rest := rest[1..];
    assert CopyFields(line, meta, ExtensionFields) == CopyFields(out, meta, rest);
    if "design__type__theoretical" !in meta { return Err(KeyError("design__type__theoretical")); }
    out := out["design__type__theoretical" := meta["design__type__theoretical"]];
    rest := rest[1..];
    assert rest == [];
    r := Ok(out);
  }

  /** The extension loop body for one line: the lookups through id_mappings
      and all_data, then the five assignments. */
  method ExtendOne(line: Record, idMappings: map<string, string>, allData: map<string, Record>) returns (r: Result<Record>)
    ensures r == ExtendLineOf(idMappings, allData)(line)
  {
    if "cited_id" !in line {
      r := Err(KeyError("cited_id"));
    } else if line["cited_id"] !in idMappings {
      r := Err(KeyError(line["cited_id"]));
    } else if idMappings[line["cited_id"]] !in allData {
      r := Err(KeyError(idMappings[line["cited_id"]]));
    } else {
      r := CopyExtensionFields(line, allData[idMappings[line["cited_id"]]]);
    }
  }

  /** The extension loop as merge.py writes it: five assignments per line. */
  method ExtendContexts(lines: seq<Record>, idMappings: map<string, string>, allData: map<string, Record>)
    returns (r: Result<seq<Record>>)
    ensures r == Frames.Apply(lines, ExtendLineOf(idMappings, allData))
  {
    var out: seq<Record> := [];
    var i := 0;
    while i < |lines|
      invariant 0 <= i <= |lines|
      invariant Frames.Apply(lines[..i], ExtendLineOf(idMappings, allData)) == Ok(out)
    {
      var line := lines[i];
      var extended := ExtendOne(line, idMappings, allData);
      Frames.ApplyStep(lines, ExtendLineOf(idMappings, allData), i, out);
      if extended.Err? {
        return Err(extended.error);
      }
      line := extended.value;
      out := out + [line];
      i := i + 1;
    }
    assert lines[..i] == lines;
    r := Ok(out);
  }

  /** Every field of an extended row is a header name, so csv.DictWriter
      accepts every extended row. */
  lemma ExtendedRowFitsHeader(line: Record, idMappings: map<string, string>, allData: map<string, Record>, contextFields: seq<string>)
    requires forall k :: k in line ==> k in contextFields
    requires ExtendLine(line, idMappings, allData).Ok?
    ensures forall k :: k in ExtendLine(line, idMappings, allData).value ==> k in ExtendedHeader(contextFields)
  {
    ExtendLineEffect(line, idMappings, allData);
  }

  // ------------------------------------------------------------ the script

  /** What merge.py produces: the merged header and rows with the number of
      dropped contexts, then the extended header and the extended rows, which
      may still fail after the merged output is complete. */
  datatype MergeOutput = MergeOutput(
    mergedHeader: seq<string>, merged: Merged,
    extendedHeader: seq<string>, extended: Result<seq<Record>>)

  /** merge.py from the contents of its three input files (field names and
      rows); an exception before the merged output is complete ends the script. */
  function MergeScript(scholarLines: seq<Record>, dataFields: seq<string>, dataLines: seq<Record>,
                       contextFields: seq<string>, contextLines: seq<Record>): Result<MergeOutput>
  {
    match Index(scholarLines, IdEntry)
    case Err(e) => Err(e)
    case Ok(idMappings) =>
      match Index(dataLines, DataEntry)
      case Err(e) => Err(e)
      case Ok(allData) =>
        match MergeRows(contextLines, idMappings, allData)
        case Err(e) => Err(e)
        case Ok(merged) =>
          Ok(MergeOutput(MergedHeader(contextFields, dataFields), merged,
                         ExtendedHeader(contextFields), Frames.Apply(contextLines, ExtendLineOf(idMappings, allData))))
  }

  /** The merged output is produced exactly when the two indexes can be built
      and the merge loop completes; the extended output is then produced
      exactly when every context line can be extended. */
  lemma MergeScriptOk(scholarLines: seq<Record>, dataFields: seq<string>, dataLines: seq<Record>,
                      contextFields: seq<string>, contextLines: seq<Record>)
    ensures var r := MergeScript(scholarLines, dataFields, dataLines, contextFields, contextLines);
      && (r.Ok? ==> HasField(scholarLines, "doi") && HasField(scholarLines, "result_id") && HasField(dataLines, "DOI"))
      && (r.Ok? <==> (Index(scholarLines, IdEntry).Ok? && Index(dataLines, DataEntry).Ok? &&
                      MergeRows(contextLines, Index(scholarLines, IdEntry).value, Index(dataLines, DataEntry).value).Ok?))
      && (r.Ok? ==> (r.value.extended.Ok? <==>
            forall i :: 0 <= i < |contextLines| ==>
              ExtendLine(contextLines[i], Index(scholarLines, IdEntry).value, Index(dataLines, DataEntry).value).Ok?))
  {
    IdMappingsSound(scholarLines);
    AllDataSound(dataLines);
    if Index(scholarLines, IdEntry).Ok? && Index(dataLines, DataEntry).Ok? {
      ExtendSound(contextLines, Index(scholarLines, IdEntry).value, Index(dataLines, DataEntry).value);
    }
  }

  /** merge.py as a whole: build the two indexes, run the merge loop, then
      the extension loop over the same context rows. */
  method RunMerge(scholarLines: seq<Record>, dataFields: seq<string>, dataLines: seq<Record>,
                  contextFields: seq<string>, contextLines: seq<Record>)
    returns (r: Result<MergeOutput>)
    ensures r == MergeScript(scholarLines, dataFields, dataLines, contextFields, contextLines)
  {
    var idMappings := BuildIdMappings(scholarLines);
    if idMappings.Err? {
      return Err(idMappings.error);
    }
    var allData := BuildAllData(dataLines);
    if allData.Err? {
      return Err(allData.error);
    }
    var merged := MergeContexts(contextLines, idMappings.value, allData.value);
    if merged.Err? {
      return Err(merged.error);
    }
    var extended := ExtendContexts(contextLines, idMappings.value, allData.value);
    r := Ok(MergeOutput(MergedHeader(contextFields, dataFields), merged.value,
                        ExtendedHeader(contextFields), extended));
  }
}
