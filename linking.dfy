/** scripts/main.py: reading the extracted citation contexts and linking them
    to the metadata of the cited papers. Frames arrive already read from
    their files; the linked frame and the count printed last are the result. */
module Linking {
  import opened Errors
  import opened Frames
  import opened Versions
  import opened ParseMetadata

  /** The columns of the linked output, in order. */
  const SelectCols: seq<string> :=
    ["cited_id", "cited_author", "cited_title",
     "citing_id", "citing_author", "citing_title",
     "citation_ref", "citation_sent", "citation_context",
     "title_sim"]

  /** The metadata columns the citations are joined with. */
  const MetadataCols: seq<string> := ["cited_id", "meta_cited_authors", "meta_cited_title"]

  // ------------------------------------------------------------ read_citation_contexts

  /** read_citation_contexts after reading the file: the citing_id column is
      dropped and cited_id renamed to cited_bibl_id. */
  function ReadCitationContexts(f: Frame): (r: Result<Frame>)
    ensures r.Ok? <==> "citing_id" in f.columns
    ensures r.Err? ==> r.error == KeyError("citing_id")
  {
    match Drop(f, "citing_id")
    case Err(e) => Err(e)
    case Ok(d) => Ok(Rename(d, "cited_id", "cited_bibl_id"))
  }

  /** Every context row loses citing_id, its cited_id moves to cited_bibl_id,
      and every other cell stays. */
  lemma ReadCitationContextsEffect(f: Frame)
    requires ReadCitationContexts(f).Ok?
    ensures var g := ReadCitationContexts(f).value;
      && |g.rows| == |f.rows|
      && (forall i :: 0 <= i < |f.rows| ==> "citing_id" !in g.rows[i] && "cited_id" !in g.rows[i])
      && (forall i :: 0 <= i < |f.rows| && "cited_id" in f.rows[i] ==>
            "cited_bibl_id" in g.rows[i] && g.rows[i]["cited_bibl_id"] == f.rows[i]["cited_id"])
      && (forall i, k :: 0 <= i < |f.rows| && k != "citing_id" && k != "cited_id" && k != "cited_bibl_id" ==>
            (k in g.rows[i] <==> k in f.rows[i]) && Get(g.rows[i], k) == Get(f.rows[i], k))
  {
    var d := Drop(f, "citing_id").value;
    forall i | 0 <= i < |f.rows|
      ensures "citing_id" !in ReadCitationContexts(f).value.rows[i]
      ensures "cited_id" !in ReadCitationContexts(f).value.rows[i]
      ensures "cited_id" in f.rows[i] ==>
        ("cited_bibl_id" in ReadCitationContexts(f).value.rows[i] &&
         ReadCitationContexts(f).value.rows[i]["cited_bibl_id"] == f.rows[i]["cited_id"])
      ensures forall k :: k != "citing_id" && k != "cited_id" && k != "cited_bibl_id" ==>
        (k in ReadCitationContexts(f).value.rows[i] <==> k in f.rows[i]) &&
        Get(ReadCitationContexts(f).value.rows[i], k) == Get(f.rows[i], k)
    {
      RenameRowEffect(d.rows[i], "cited_id", "cited_bibl_id");
    }
  }

  // ------------------------------------------------------------ the renamed inputs

  /** scholar_ids.rename(columns={'result_id': 'cited_id', 'title': 'scholar_title'}) */
  function RenameScholarIds(s: Frame): (r: Frame)
    ensures |r.rows| == |s.rows|
  {
    Rename(Rename(s, "result_id", "cited_id"), "title", "scholar_title")
  }

  /** metadata.rename(columns=column_map) */
  function RenameMetadata(m: Frame): (r: Frame)
    ensures |r.rows| == |m.rows|
  {
    Rename(Rename(Rename(m, "DOI", "meta_cited_doi"), "title", "meta_cited_title"), "authors", "meta_cited_authors")
  }

  /** What the scholar-id renames do to a row: cited_id and scholar_title
      take the old result_id and title cells (a row without the old name
      keeps what it had under the new one), the old names are gone, and
      every other cell stays. */
  lemma RenameScholarIdsRow(s: Frame, i: int)
    requires 0 <= i < |s.rows|
    ensures var r := s.rows[i]; var x := RenameScholarIds(s).rows[i];
      && "result_id" !in x && "title" !in x
      && Get(x, "cited_id") == (if "result_id" in r then r["result_id"] else Get(r, "cited_id"))
      && Get(x, "scholar_title") == (if "title" in r then r["title"] else Get(r, "scholar_title"))
      && forall k :: k != "result_id" && k != "title" && k != "cited_id" && k != "scholar_title" ==>
           (k in x <==> k in r) && Get(x, k) == Get(r, k)
  {
    var s1 := Rename(s, "result_id", "cited_id");
    RenameAt(s, "result_id", "cited_id", i);
    RenameAt(s1, "title", "scholar_title", i);
    RenameRowEffect(s.rows[i], "result_id", "cited_id");
    RenameRowEffect(s1.rows[i], "title", "scholar_title");
  }

  /** Three renames of a row with six distinct names: each new name takes
      its old name's cell, the old names are gone, every other cell stays. */
  lemma RenameRowThrice(r: Row, a1: string, b1: string, a2: string, b2: string, a3: string, b3: string)
    requires a1 != b1 && a1 != a2 && a1 != b2 && a1 != a3 && a1 != b3
    requires b1 != a2 && b1 != b2 && b1 != a3 && b1 != b3
    requires a2 != b2 && a2 != a3 && a2 != b3
    requires b2 != a3 && b2 != b3
    requires a3 != b3
    ensures var x := RenameRow(RenameRow(RenameRow(r, a1, b1), a2, b2), a3, b3);
      && a1 !in x && a2 !in x && a3 !in x
      && Get(x, b1) == (if a1 in r then r[a1] else Get(r, b1))
      && Get(x, b2) == (if a2 in r then r[a2] else Get(r, b2))
      && Get(x, b3) == (if a3 in r then r[a3] else Get(r, b3))
      && forall k :: (k != a1 && k != b1 && k != a2 && k != b2 && k != a3 && k != b3) ==>
           (k in x <==> k in r) && Get(x, k) == Get(r, k)
  {
    var r1 := RenameRow(r, a1, b1);
    var r2 := RenameRow(r1, a2, b2);
    RenameRowEffect(r, a1, b1);
    RenameRowEffect(r1, a2, b2);
    RenameRowEffect(r2, a3, b3);
  }

  /** What the metadata renames do to a row: meta_cited_doi,
      meta_cited_title and meta_cited_authors take the old DOI, title and
      authors cells (a row without the old name keeps what it had under the
      new one), the old names are gone, and every other cell stays. */
  lemma RenameMetadataRow(m: Frame, i: int)
    requires 0 <= i < |m.rows|
    ensures var r := m.rows[i]; var x := RenameMetadata(m).rows[i];
      && "DOI" !in x && "title" !in x && "authors" !in x
      && Get(x, "meta_cited_doi") == (if "DOI" in r then r["DOI"] else Get(r, "meta_cited_doi"))
      && Get(x, "meta_cited_title") == (if "title" in r then r["title"] else Get(r, "meta_cited_title"))
      && Get(x, "meta_cited_authors") == (if "authors" in r then r["authors"] else Get(r, "meta_cited_authors"))
      && forall k :: (k != "DOI" && k != "title" && k != "authors" && k != "meta_cited_doi"
           && k != "meta_cited_title" && k != "meta_cited_authors") ==>
           (k in x <==> k in r) && Get(x, k) == Get(r, k)
  {
    var m1 := Rename(m, "DOI", "meta_cited_doi");
    var m2 := Rename(m1, "title", "meta_cited_title");
    RenameAt(m, "DOI", "meta_cited_doi", i);
    RenameAt(m1, "title", "meta_cited_title", i);
    RenameAt(m2, "authors", "meta_cited_authors", i);
    RenameRowThrice(m.rows[i], "DOI", "meta_cited_doi", "title", "meta_cited_title", "authors", "meta_cited_authors");
  }

  /** The metadata joined with the scholar ids on meta_cited_doi = doi. */
  function LinkedMetadata(metadata: Frame, scholarIds: Frame): (r: Result<Frame>)
    ensures r.Ok? <==> ("DOI" in metadata.columns || "meta_cited_doi" in metadata.columns) && "doi" in scholarIds.columns
  {
    RenamedJoinKeys(metadata, scholarIds);
    InnerJoin(RenameMetadata(metadata), RenameScholarIds(scholarIds), "meta_cited_doi", "doi")
  }

  /** The join keys survive the renames: meta_cited_doi comes from DOI (or was
      there already), doi is untouched. */
  lemma RenamedJoinKeys(metadata: Frame, scholarIds: Frame)
    ensures "meta_cited_doi" in RenameMetadata(metadata).columns <==>
      "DOI" in metadata.columns || "meta_cited_doi" in metadata.columns
    ensures "doi" in RenameScholarIds(scholarIds).columns <==> "doi" in scholarIds.columns
  {
    var m1 := Rename(metadata, "DOI", "meta_cited_doi");
    var m2 := Rename(m1, "title", "meta_cited_title");
    assert "meta_cited_doi" in m1.columns <==> "DOI" in metadata.columns || "meta_cited_doi" in metadata.columns;
    assert "meta_cited_doi" in m2.columns <==> "meta_cited_doi" in m1.columns;
    var s1 := Rename(scholarIds, "result_id", "cited_id");
    assert "doi" in s1.columns <==> "doi" in scholarIds.columns;
  }

  /** The citations joined on cited_id with three metadata columns. */
  function CitationsWithMetadata(citations: Frame, linkedMetadata: Frame): (r: Result<Frame>)
    ensures r.Ok? ==> forall c :: c in r.value.columns <==> c in citations.columns || c in MetadataCols
  {
    match Project(linkedMetadata, MetadataCols)
    case Err(e) => Err(e)
    case Ok(p) => InnerJoin(citations, p, "cited_id", "cited_id")
  }

  /** The citation contexts with their scholar ids, reduced to the version of
      each citing paper with the most contexts. */
  function PreparedContexts(contexts: Frame): (r: Result<Frame>)
  {
    match ReadCitationContexts(contexts)
    case Err(e) => Err(e)
    case Ok(read) =>
      match WithScholarId(read)
      case Err(e) => Err(e)
      case Ok(withIds) =>
        WithScholarIdEffect(read);
        Ok(MaxRefVersions(withIds))
  }

  /** The prepared contexts are what get_version_with_max_refs returns for
      the contexts add_scholar_id has been through. */
  lemma PreparedContextsOk(contexts: Frame)
    requires PreparedContexts(contexts).Ok?
    ensures ReadCitationContexts(contexts).Ok?
    ensures WithScholarId(ReadCitationContexts(contexts).value).Ok?
    ensures HasScholarId(WithScholarId(ReadCitationContexts(contexts).value).value)
    ensures PreparedContexts(contexts).value == MaxRefVersions(WithScholarId(ReadCitationContexts(contexts).value).value)
  {
    WithScholarIdEffect(ReadCitationContexts(contexts).value);
  }

  // ------------------------------------------------------------ title scores

  /** get_title_dist as a cell of the title_dist column. */
  function TitleDistCell(row: Row): (r: Result<Cell>)
    ensures r.Ok? <==> GetTitleDist(row).Ok?
    ensures r.Ok? ==> r.value == Int(GetTitleDist(row).value)
  {
    match GetTitleDist(row)
    case Err(e) => Err(e)
    case Ok(d) => Ok(Int(d))
  }

  /** get_title_sim as a cell of the title_sim column. */
  function TitleSimCell(row: Row): (r: Result<Cell>)
    ensures r.Ok? <==> GetTitleSim(row).Ok?
    ensures r.Ok? ==> r.value == Real(GetTitleSim(row).value)
  {
    match GetTitleSim(row)
    case Err(e) => Err(e)
    case Ok(s) => Ok(Real(s))
  }

  /** The contexts after `cited_contexts['title_dist'] = ...apply(get_title_dist)`
      and `cited_contexts['title_sim'] = ...apply(get_title_sim)`. */
  function Scored(f: Frame): (r: Result<Frame>)
    ensures r.Ok? ==> |r.value.rows| == |f.rows|
  {
    match Apply(f.rows, TitleDistCell)
    case Err(e) => Err(e)
    case Ok(dists) =>
      var withDist := WithColumn(f, "title_dist", dists);
      match Apply(withDist.rows, TitleSimCell)
      case Err(e) => Err(e)
      case Ok(sims) => Ok(WithColumn(withDist, "title_sim", sims))
  }

  /** A title_sim cell above the threshold: the comparison `> 0.6`. */
  predicate AboveThreshold(c: Cell) {
    c.Real? && c.x > SimilarityThreshold
  }

  /** cited_contexts.title_sim > 0.6, row by row. */
  function ThresholdMask(f: Frame): (mask: seq<bool>)
    ensures |mask| == |f.rows|
    ensures forall i :: 0 <= i < |f.rows| ==> (mask[i] <==> AboveThreshold(Get(f.rows[i], "title_sim")))
  {
    seq(|f.rows|, i requires 0 <= i < |f.rows| => AboveThreshold(Get(f.rows[i], "title_sim")))
  }

  /** Every scored row keeps its other cells and gains its title distance and
      similarity; it is above the threshold exactly when 5 * dist < 2 * len of
      its metadata title. */
  lemma ScoredSound(f: Frame, i: int)
    requires Scored(f).Ok? && 0 <= i < |f.rows|
    ensures var row := Scored(f).value.rows[i];
      && "meta_cited_title" in f.rows[i] && "cited_title" in f.rows[i]
      && f.rows[i]["meta_cited_title"].Str? && |f.rows[i]["meta_cited_title"].s| > 0
      && Get(row, "title_dist") == Int(TitleDist(f.rows[i]["meta_cited_title"], f.rows[i]["cited_title"]))
      && Get(row, "title_sim").Real?
      && (AboveThreshold(Get(row, "title_sim")) <==>
            5 * TitleDist(f.rows[i]["meta_cited_title"], f.rows[i]["cited_title"]) < 2 * |f.rows[i]["meta_cited_title"].s|)
      && (forall k :: k != "title_dist" && k != "title_sim" ==>
            (k in row <==> k in f.rows[i]) && Get(row, k) == Get(f.rows[i], k))
  {
    var dists := Apply(f.rows, TitleDistCell).value;
    ApplySound(f.rows, TitleDistCell);
    var withDist := WithColumn(f, "title_dist", dists);
    var sims := Apply(withDist.rows, TitleSimCell).value;
    ApplySound(withDist.rows, TitleSimCell);
    var w := withDist.rows[i];
    assert TitleDistCell(f.rows[i]) == Ok(dists[i]);
    assert TitleSimCell(w) == Ok(sims[i]);
    assert w["meta_cited_title"] == f.rows[i]["meta_cited_title"];
  }

  // ------------------------------------------------------------ link_citation_contexts_and_metadata

  /** The linked frame written to the output file and the number printed last. */
  datatype Linked = Linked(frame: Frame, count: nat)

  /** cited_contexts with its two score columns: the three joins and the scoring. */
  function ScoredContexts(scholarIds: Frame, metadata: Frame, citations: Frame, contexts: Frame): (r: Result<Frame>)
  {
    match LinkedMetadata(metadata, scholarIds)
    case Err(e) => Err(e)
    case Ok(linkedMetadata) =>
      match CitationsWithMetadata(citations, linkedMetadata)
      case Err(e) => Err(e)
      case Ok(cited) =>
        match PreparedContexts(contexts)
        case Err(e) => Err(e)
        case Ok(prepared) =>
          match InnerJoin(cited, prepared, "citing_id", "citing_id")
          case Err(e) => Err(e)
          case Ok(joined) => Scored(joined)
  }

  /** The rows above the threshold, projected on the selected columns, and
      their number. */
  function Threshold(scored: Frame): (r: Result<Linked>)
  {
    var kept := Where(scored, ThresholdMask(scored));
    match Project(kept, SelectCols)
    case Err(e) => Err(e)
    case Ok(out) => Ok(Linked(out, |kept.rows|))
  }

  /** link_citation_contexts_and_metadata, from its four input frames. */
  function Link(scholarIds: Frame, metadata: Frame, citations: Frame, contexts: Frame): Result<Linked> {
    match ScoredContexts(scholarIds, metadata, citations, contexts)
    case Err(e) => Err(e)
    case Ok(scored) => Threshold(scored)
  }

  /** The output has exactly the ten selected columns in order, and the count
      printed is its number of rows. */
  lemma LinkShape(scholarIds: Frame, metadata: Frame, citations: Frame, contexts: Frame)
    requires Link(scholarIds, metadata, citations, contexts).Ok?
    ensures Link(scholarIds, metadata, citations, contexts).value.frame.columns == SelectCols
    ensures Link(scholarIds, metadata, citations, contexts).value.count ==
      |Link(scholarIds, metadata, citations, contexts).value.frame.rows|
  {
  }

  /** The written rows are exactly the scored rows whose similarity is
      strictly above 0.6, in order, with their selected cells: idx gives the
      scored row each output row comes from. */
  lemma ThresholdRows(scored: Frame) returns (idx: seq<int>)
    requires Threshold(scored).Ok?
    ensures var out := Threshold(scored).value.frame;
      && |idx| == |out.rows|
      && (forall k :: 0 <= k < |idx| ==> 0 <= idx[k] < |scored.rows| && AboveThreshold(Get(scored.rows[idx[k]], "title_sim")))
      && (forall k, c :: 0 <= k < |idx| && c in SelectCols ==> Get(out.rows[k], c) == Get(scored.rows[idx[k]], c))
      && (forall k, l :: 0 <= k < l < |idx| ==> idx[k] < idx[l])
      && (forall i :: 0 <= i < |scored.rows| && AboveThreshold(Get(scored.rows[i], "title_sim")) ==> i in idx)
  {
    var mask := ThresholdMask(scored);
    KeepIsSubsequence(scored.rows, mask);
    idx := Selected(mask);
  }

  /** Every joined context comes from the max-reference version of its citing
      paper: the context side of the join supplies the parsed doc_id and the
      citing id and version. */
  lemma JoinedFromMaxVersion(cited: Frame, withIds: Frame, row: Row)
    requires HasScholarId(withIds)
    requires InnerJoin(cited, MaxRefVersions(withIds), "citing_id", "citing_id").Ok?
    requires row in InnerJoin(cited, MaxRefVersions(withIds), "citing_id", "citing_id").value.rows
    ensures ScholarIdRow(row) && KeyOf(row) in MaxVersions(DocKeys(withIds.rows))
  {
    MaxRefVersionsChosen(withIds);
    JoinKeepsScholarId(cited, MaxRefVersions(withIds), MaxVersions(DocKeys(withIds.rows)), row);
  }

  /** Joining with a frame whose rows all carry their ids and a parsed doc_id
      from `chosen` gives rows that do too. */
  lemma JoinKeepsScholarId(cited: Frame, prepared: Frame, chosen: set<DocKey>, row: Row)
    requires forall r :: r in prepared.rows ==> ScholarIdRow(r) && KeyOf(r) in chosen
    requires InnerJoin(cited, prepared, "citing_id", "citing_id").Ok?
    requires row in InnerJoin(cited, prepared, "citing_id", "citing_id").value.rows
    ensures ScholarIdRow(row) && KeyOf(row) in chosen
  {
    var x := JoinKeepsRight(cited, prepared, "citing_id", "citing_id", row);
    assert ScholarIdRow(x);
    assert Get(row, "citing_id") == Get(x, "citing_id");
    assert Get(row, "citing_version") == Get(x, "citing_version");
  }

  /** link_citation_contexts_and_metadata as main.py runs it: the frames are
      rebound step by step, add_scholar_id and get_version_with_max_refs work
      on the contexts in place, and the two score columns are assigned in place. */
  method LinkCitationContextsAndMetadata(scholarIds: Frame, metadata: Frame, citations: Frame, contexts: Frame)
    returns (r: Result<Linked>)
    ensures r == Link(scholarIds, metadata, citations, contexts)
  {
    var linkedMetadata := LinkedMetadata(metadata, scholarIds);
    if linkedMetadata.Err? {
      return Err(linkedMetadata.error);
    }
    var cited := CitationsWithMetadata(citations, linkedMetadata.value);
    if cited.Err? {
      return Err(cited.error);
    }
    var read := ReadCitationContexts(contexts);
    if read.Err? {
      return Err(read.error);
    }
    var citationContexts := new DataFrame(read.value);
    var added := AddScholarId(citationContexts);
    if added.Err? {
      return Err(added.error);
    }
    WithScholarIdEffect(read.value);
    var prepared := GetVersionWithMaxRefs(citationContexts);
    assert PreparedContexts(contexts) == Ok(prepared);
    var joined := InnerJoin(cited.value, prepared, "citing_id", "citing_id");
    if joined.Err? {
      return Err(joined.error);
    }
    var citedContexts := new DataFrame(joined.value);
    var dists := Apply(citedContexts.rows, TitleDistCell);
    if dists.Err? {
      return Err(dists.error);
    }
    citedContexts.SetColumn("title_dist", dists.value);
    var sims := Apply(citedContexts.rows, TitleSimCell);
    if sims.Err? {
      return Err(sims.error);
    }
    citedContexts.SetColumn("title_sim", sims.value);
    assert ScoredContexts(scholarIds, metadata, citations, contexts) == Ok(citedContexts.Value());
    var scored := citedContexts.Value();
    var kept := Where(scored, ThresholdMask(scored));
    var out := Project(kept, SelectCols);
    if out.Err? {
      return Err(out.error);
    }
    r := Ok(Linked(out.value, |kept.rows|));
  }
}
