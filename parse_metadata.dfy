/** scripts/parse_metadata.py: parsing the citing paper's scholar id and
    version out of a doc_id path, scoring how close two titles are, and
    keeping one extracted version per citing paper. */
module ParseMetadata {
  import opened Errors
  import opened Frames
  import opened Versions
  import Levenshtein

  // ------------------------------------------------------------ parse_doc_id

  /** The file name of a path: what os.path.split returns second, everything
      after the last '/'. */
  function PathTail(p: string): (t: string)
    ensures '/' !in t
    ensures |t| <= |p| && p[|p| - |t|..] == t
    ensures |t| < |p| ==> p[|p| - |t| - 1] == '/'
  {
    if p == [] then []
    else if p[|p| - 1] == '/' then []
    else PathTail(p[..|p| - 1]) + [p[|p| - 1]]
  }

  /** The directory part of a path does not matter. */
  lemma PathTailIgnoresDirectory(dir: string, name: string)
    requires '/' !in name
    ensures PathTail(dir + "/" + name) == name
  {
    var p := dir + "/" + name;
    var t := PathTail(p);
    assert p[|dir|] == '/';
    assert p[|p| - |name|..] == name;
  }

  /** '.'.join(parts) */
  function Join(parts: seq<string>, sep: char): string
    requires |parts| >= 1
  {
    if |parts| == 1 then parts[0] else parts[0] + [sep] + Join(parts[1..], sep)
  }

  /** s.split(sep): the pieces between the separators, at least one and none
      of them holding a separator. */
  function Split(s: string, sep: char): (parts: seq<string>)
    ensures |parts| >= 1
    ensures forall i :: 0 <= i < |parts| ==> sep !in parts[i]
  {
    if s == [] then [[]]
    else
      var rest := Split(s[1..], sep);
      if s[0] == sep then
        assert ([[]] + rest)[1..] == rest;
        [[]] + rest
      else
        var parts := [[s[0]] + rest[0]] + rest[1..];
        assert parts[1..] == rest[1..];
        parts
  }

  /** Joining the pieces of a split gives the string back. */
  lemma {:induction false} JoinSplit(s: string, sep: char)
    ensures Join(Split(s, sep), sep) == s
  {
    if s != [] {
      JoinSplit(s[1..], sep);
      var rest := Split(s[1..], sep);
      assert [s[0]] + s[1..] == s;
      if s[0] != sep {
        var parts := Split(s, sep);
        assert parts[1..] == rest[1..];
        if |rest| > 1 {
          assert Join(rest, sep) == rest[0] + [sep] + Join(rest[1..], sep);
          assert Join(parts, sep) == [s[0]] + rest[0] + [sep] + Join(rest[1..], sep);
        }
      } else {
        assert ([[]] + rest)[1..] == rest;
      }
    }
  }

  /** Splitting a join of separator-free pieces gives the pieces back. */
  lemma {:induction false} SplitJoin(parts: seq<string>, sep: char)
    requires |parts| >= 1
    requires forall i :: 0 <= i < |parts| ==> sep !in parts[i]
    ensures Split(Join(parts, sep), sep) == parts
  {
    if |parts| == 1 {
      SplitPiece(parts[0], sep);
    } else {
      SplitJoin(parts[1..], sep);
      SplitPrefixed(parts[0], Join(parts[1..], sep), sep);
      assert parts == [parts[0]] + parts[1..];
    }
  }

  lemma {:induction false} SplitPiece(w: string, sep: char)
    requires sep !in w
    ensures Split(w, sep) == [w]
  {
    if w != [] {
      SplitPiece(w[1..], sep);
      assert [w[0]] + w[1..] == w;
    }
  }

  lemma {:induction false} SplitPrefixed(w: string, s: string, sep: char)
    requires sep !in w
    ensures Split(w + [sep] + s, sep) == [w] + Split(s, sep)
  {
    if w == [] {
      assert (w + [sep] + s)[1..] == s;
    } else {
      assert (w + [sep] + s)[1..] == w[1..] + [sep] + s;
      SplitPrefixed(w[1..], s, sep);
      assert [w[0]] + w[1..] == w;
    }
  }

  /** There are at least two pieces exactly when the separator occurs. */
  lemma {:induction false} SplitHasTwoPieces(s: string, sep: char)
    ensures |Split(s, sep)| >= 2 <==> sep in s
  {
    if s != [] {
      SplitHasTwoPieces(s[1..], sep);
      assert s == [s[0]] + s[1..];
    }
  }

  /** parse_doc_id: the first two '.'-separated pieces of the file name.
      Unpacking fewer than two pieces raises ValueError. */
  function ParseDocId(docId: string): (r: Result<DocKey>)
    ensures r.Ok? <==> '.' in PathTail(docId)
    ensures r.Err? ==> r.error == ValueError
    ensures r.Ok? ==> '.' !in r.value.id && '/' !in r.value.id
    ensures r.Ok? ==> '.' !in r.value.version && '/' !in r.value.version
    ensures r.Ok? ==>
      var name := r.value.id + "." + r.value.version;
      var t := PathTail(docId);
      name <= t && (|name| == |t| || t[|name|] == '.')
  {
    var fname := PathTail(docId);
    var parts := Split(fname, '.');
    SplitHasTwoPieces(fname, '.');
    if |parts| < 2 then Err(ValueError)
    else
      FirstTwoPieces(fname, '.');
      Ok(DocKey(parts[0], parts[1]))
  }

  /** The first two pieces of a split, with the separator between them, begin
      the string, and what follows them is the separator or nothing. */
  lemma FirstTwoPieces(t: string, sep: char)
    requires |Split(t, sep)| >= 2
    ensures var parts := Split(t, sep);
      var name := parts[0] + [sep] + parts[1];
      && name <= t && (|name| == |t| || t[|name|] == sep)
      && (forall c :: c in parts[0] ==> c in t)
      && (forall c :: c in parts[1] ==> c in t)
  {
    var parts := Split(t, sep);
    var name := parts[0] + [sep] + parts[1];
    var rest := if |parts| == 2 then [] else [sep] + Join(parts[2..], sep);
    JoinSplit(t, sep);
    assert Join(parts[1..], sep) == parts[1] + rest;
    assert t == name + rest;
  }

  /** Only the file name counts: "papers/abc123.v2.pdf" parses like "abc123.v2.pdf". */
  lemma ParseDocIdIgnoresDirectory(dir: string, name: string)
    requires '/' !in name
    ensures ParseDocId(dir + "/" + name) == ParseDocId(name)
  {
    PathTailIgnoresDirectory(dir, name);
    PathTailIgnoresDirectory("", name);
    assert "" + "/" + name == "/" + name;
    assert PathTail(name) == name;
  }

  /** A file name "<id>.<version>" followed by nothing or by a further
      '.'-suffix such as ".pdf" parses to that id and version, whatever
      directory it sits in. */
  lemma ParseDocIdOfName(dir: string, id: string, version: string, rest: string)
    requires '/' !in id && '.' !in id && '/' !in version && '.' !in version && '/' !in rest
    requires rest == [] || rest[0] == '.'
    ensures ParseDocId(dir + "/" + id + "." + version + rest) == Ok(DocKey(id, version))
  {
    var name := id + "." + version + rest;
    assert dir + "/" + id + "." + version + rest == dir + "/" + name;
    PathTailIgnoresDirectory(dir, name);
    SplitIdVersion(id, version, rest);
  }

  lemma SplitIdVersion(id: string, version: string, rest: string)
    requires '.' !in id && '.' !in version
    requires rest == [] || rest[0] == '.'
    ensures var parts := Split(id + "." + version + rest, '.');
      |parts| >= 2 && parts[0] == id && parts[1] == version
  {
    var tail := version + rest;
    VersionHead(version, rest);
    SplitPrefixed(id, tail, '.');
    assert id + ['.'] + tail == id + "." + version + rest;
  }

  /** The first piece of a version followed by nothing or a '.'-suffix is
      the version. */
  lemma VersionHead(version: string, rest: string)
    requires '.' !in version
    requires rest == [] || rest[0] == '.'
    ensures Split(version + rest, '.')[0] == version
  {
    if rest == [] {
      SplitPiece(version, '.');
      assert version + rest == version;
    } else {
      assert rest == ['.'] + rest[1..];
      SplitPrefixed(version, rest[1..], '.');
      assert version + ['.'] + rest[1..] == version + rest;
    }
  }

  // ------------------------------------------------------------ title scoring

  /** The distance given when neither title is a string. */
  const MissingTitlesDistance: nat := 200

  /** The similarity a row needs, strictly exceeded, to be written. */
  const SimilarityThreshold: real := 0.6

  function TextOrEmpty(c: Cell): string {
    if c.Str? then c.s else ""
  }

  /** get_title_dist on the row's meta_cited_title and cited_title: the edit
      distance of the lower-cased titles, where a title that is not a string
      counts as the empty title; 200 when neither is a string. */
  function TitleDist(metaTitle: Cell, citedTitle: Cell): (d: nat)
    ensures metaTitle.Str? || citedTitle.Str? ==>
      d == Levenshtein.Distance(Levenshtein.Lower(TextOrEmpty(metaTitle)), Levenshtein.Lower(TextOrEmpty(citedTitle)))
    ensures !metaTitle.Str? && !citedTitle.Str? ==> d == MissingTitlesDistance
  {
    if metaTitle.Str? && citedTitle.Str? then
      Levenshtein.Distance(Levenshtein.Lower(metaTitle.s), Levenshtein.Lower(citedTitle.s))
    else if metaTitle.Str? then |metaTitle.s|
    else if citedTitle.Str? then |citedTitle.s|
    else MissingTitlesDistance
  }

  /** Titles that differ only in the case of ASCII letters are at distance 0. */
  lemma TitleDistIgnoresCase(a: string, b: string)
    requires Levenshtein.Lower(a) == Levenshtein.Lower(b)
    ensures TitleDist(Str(a), Str(b)) == 0
  {
    Levenshtein.DistanceSelf(Levenshtein.Lower(a));
  }

  /** Two present titles are at distance 0 only if they agree up to case. */
  lemma TitleDistZero(a: string, b: string)
    ensures TitleDist(Str(a), Str(b)) == 0 <==> Levenshtein.Lower(a) == Levenshtein.Lower(b)
  {
    Levenshtein.DistanceZeroIff(Levenshtein.Lower(a), Levenshtein.Lower(b));
  }

  /** The distance does not depend on which title is the metadata one. */
  lemma TitleDistSymmetric(m: Cell, c: Cell)
    ensures TitleDist(m, c) == TitleDist(c, m)
  {
    if m.Str? && c.Str? {
      Levenshtein.DistanceSymmetric(Levenshtein.Lower(m.s), Levenshtein.Lower(c.s));
    }
  }

  /** When both titles are present the distance is at most the longer one's length. */
  lemma TitleDistBounded(a: string, b: string)
    ensures TitleDist(Str(a), Str(b)) <= Levenshtein.Max(|a|, |b|)
  {
  }

  /** get_title_dist(row): a KeyError when either title column is absent. */
  function GetTitleDist(row: Row): (r: Result<nat>)
    ensures r.Ok? <==> "meta_cited_title" in row && "cited_title" in row
    ensures r.Ok? ==> r.value == TitleDist(row["meta_cited_title"], row["cited_title"])
    ensures r.Err? ==> r.error == KeyError("meta_cited_title") || r.error == KeyError("cited_title")
    ensures "meta_cited_title" !in row ==> r == Err(KeyError("meta_cited_title"))
    ensures ("meta_cited_title" in row && "cited_title" !in row) ==> r == Err(KeyError("cited_title"))
  {
    if "meta_cited_title" !in row then Err(KeyError("meta_cited_title"))
    else if "cited_title" !in row then Err(KeyError("cited_title"))
    else Ok(TitleDist(row["meta_cited_title"], row["cited_title"]))
  }

  /** get_title_sim(row): 1 - title_dist / len(meta_cited_title). len of a
      non-string raises TypeError and an empty title ZeroDivisionError. */
  function GetTitleSim(row: Row): (r: Result<real>)
    ensures r.Ok? <==>
      && "meta_cited_title" in row && row["meta_cited_title"].Str? && |row["meta_cited_title"].s| > 0
      && "title_dist" in row && row["title_dist"].Int?
    ensures r.Ok? ==>
      var n := |row["meta_cited_title"].s| as real;
      var d := row["title_dist"].i as real;
      r.value * n == n - d && (r.value == 1.0 <==> d == 0.0)
    ensures r.Ok? ==> (r.value > SimilarityThreshold <==> 5 * row["title_dist"].i < 2 * |row["meta_cited_title"].s|)
    ensures "meta_cited_title" !in row ==> r == Err(KeyError("meta_cited_title"))
    ensures ("meta_cited_title" in row && row["meta_cited_title"].Str? && "title_dist" !in row) ==> r == Err(KeyError("title_dist"))
    ensures ("meta_cited_title" in row && !row["meta_cited_title"].Str?) ==> r == Err(TypeError)
    ensures ("meta_cited_title" in row && row["meta_cited_title"].Str? && "title_dist" in row && !row["title_dist"].Int?) ==> r == Err(TypeError)
    ensures ("meta_cited_title" in row && row["meta_cited_title"].Str? && |row["meta_cited_title"].s| == 0
      && "title_dist" in row && row["title_dist"].Int?) ==> r == Err(ZeroDivisionError)
  {
    if "meta_cited_title" !in row then Err(KeyError("meta_cited_title"))
    else if !row["meta_cited_title"].Str? then Err(TypeError)
    else if "title_dist" !in row then Err(KeyError("title_dist"))
    else if !row["title_dist"].Int? then Err(TypeError)
    else if |row["meta_cited_title"].s| == 0 then Err(ZeroDivisionError)
    else
      var n := |row["meta_cited_title"].s|;
      var d := row["title_dist"].i;
      ThresholdExact(d, n);
      Ok(1.0 - d as real / n as real)
  }

  /** The strict test sim > 0.6 in integers: 1 - d/n > 3/5 exactly when 5d < 2n. */
  lemma ThresholdExact(d: int, n: int)
    requires n > 0
    ensures (1.0 - d as real / n as real) * n as real == n as real - d as real
    ensures 1.0 - d as real / n as real > SimilarityThreshold <==> 5 * d < 2 * n
  {
    var q := d as real / n as real;
    assert q * n as real == d as real;
    ScaleLess(q, 0.4, n as real);
  }

  lemma ScaleLess(x: real, y: real, n: real)
    requires n > 0.0
    ensures x < y <==> x * n < y * n
  {
    if x < y {
      assert (y - x) * n > 0.0;
    } else {
      assert (x - y) * n >= 0.0;
    }
  }

  /** A row with only its metadata title gets similarity exactly 0 and is not written. */
  lemma OnlyMetaTitleScoresZero(row: Row, t: string)
    requires "meta_cited_title" in row && row["meta_cited_title"] == Str(t) && |t| > 0
    requires "cited_title" in row && !row["cited_title"].Str?
    requires "title_dist" in row && row["title_dist"] == Int(GetTitleDist(row).value)
    ensures GetTitleSim(row) == Ok(0.0)
  {
  }

  /** Titles equal up to case score 1 and are written. */
  lemma CaseOnlyDifferenceScoresOne(row: Row, a: string, b: string)
    requires "meta_cited_title" in row && row["meta_cited_title"] == Str(a) && |a| > 0
    requires "cited_title" in row && row["cited_title"] == Str(b)
    requires Levenshtein.Lower(a) == Levenshtein.Lower(b)
    requires "title_dist" in row && row["title_dist"] == Int(GetTitleDist(row).value)
    ensures GetTitleSim(row) == Ok(1.0)
  {
    TitleDistIgnoresCase(a, b);
  }

  /** The similarity never exceeds 1 when the distance comes from get_title_dist. */
  lemma SimAtMostOne(row: Row)
    requires GetTitleDist(row).Ok? && "title_dist" in row && row["title_dist"] == Int(GetTitleDist(row).value)
    requires GetTitleSim(row).Ok?
    ensures GetTitleSim(row).value <= 1.0
  {
    var n := |row["meta_cited_title"].s| as real;
    ScaleLess(1.0, GetTitleSim(row).value, n);
  }

  // ------------------------------------------------------------ add_scholar_id

  /** parse_doc_id applied to one row's doc_id: a cell that is not a string
      makes os.path.split raise TypeError. */
  function DocIdOf(r: Row): (k: Result<DocKey>)
    ensures k.Ok? <==> Get(r, "doc_id").Str? && '.' in PathTail(Get(r, "doc_id").s)
  {
    var cell := Get(r, "doc_id");
    if !cell.Str? then Err(TypeError) else ParseDocId(cell.s)
  }

  function PairCells(keys: seq<DocKey>): (cells: seq<Cell>)
    ensures |cells| == |keys|
  {
    seq(|keys|, i requires 0 <= i < |keys| => Pair(keys[i].id, keys[i].version))
  }

  function IdCells(keys: seq<DocKey>): (cells: seq<Cell>)
    ensures |cells| == |keys|
  {
    seq(|keys|, i requires 0 <= i < |keys| => Str(keys[i].id))
  }

  function VersionCells(keys: seq<DocKey>): (cells: seq<Cell>)
    ensures |cells| == |keys|
  {
    seq(|keys|, i requires 0 <= i < |keys| => Str(keys[i].version))
  }

  /** The three columns add_scholar_id writes agree with each other: the
      parsed pair, its first half as citing_id, its second as citing_version. */
  ghost predicate HasScholarId(f: Frame) {
    forall r :: r in f.rows ==> ScholarIdRow(r)
  }

  predicate HasParsedId(r: Row) {
    "parsed_doc_id" in r && r["parsed_doc_id"].Pair?
  }

  /** The parsed doc_id of a row add_scholar_id has been through. */
  function KeyOf(r: Row): DocKey
    requires HasParsedId(r)
  {
    DocKey(r["parsed_doc_id"].first, r["parsed_doc_id"].second)
  }

  ghost predicate ScholarIdRow(r: Row) {
    && HasParsedId(r)
    && Get(r, "citing_id") == Str(KeyOf(r).id)
    && Get(r, "citing_version") == Str(KeyOf(r).version)
  }

  /** The three assignments of add_scholar_id, given the parsed doc_ids. */
  function AssignScholarId(f: Frame, keys: seq<DocKey>): (g: Frame)
    requires |keys| == |f.rows|
    ensures |g.rows| == |f.rows|
  {
    var f1 := WithColumn(f, "parsed_doc_id", PairCells(keys));
    var f2 := WithColumn(f1, "citing_id", IdCells(keys));
    WithColumn(f2, "citing_version", VersionCells(keys))
  }

  /** After the assignments every row carries its own parsed doc_id and its
      two halves, and keeps every other cell. */
  lemma AssignScholarIdEffect(f: Frame, keys: seq<DocKey>)
    requires |keys| == |f.rows|
    ensures var g := AssignScholarId(f, keys);
      && (forall i :: 0 <= i < |f.rows| ==> HasParsedId(g.rows[i]) && KeyOf(g.rows[i]) == keys[i] && ScholarIdRow(g.rows[i]))
      && HasScholarId(g)
      && (forall i, c :: 0 <= i < |f.rows| && c != "parsed_doc_id" && c != "citing_id" && c != "citing_version" ==>
           (c in g.rows[i] <==> c in f.rows[i]) && Get(g.rows[i], c) == Get(f.rows[i], c))
      && (WellFormed(f) ==> WellFormed(g))
  {
    var f1 := WithColumn(f, "parsed_doc_id", PairCells(keys));
    var f2 := WithColumn(f1, "citing_id", IdCells(keys));
    var g := WithColumn(f2, "citing_version", VersionCells(keys));
    forall i | 0 <= i < |f.rows|
      ensures HasParsedId(g.rows[i]) && KeyOf(g.rows[i]) == keys[i] && ScholarIdRow(g.rows[i])
    {
      assert Get(f1.rows[i], "parsed_doc_id") == Pair(keys[i].id, keys[i].version);
      assert Get(g.rows[i], "parsed_doc_id") == Pair(keys[i].id, keys[i].version);
      assert Get(g.rows[i], "citing_id") == Str(keys[i].id);
      assert Get(g.rows[i], "citing_version") == Str(keys[i].version);
    }
    forall r | r in g.rows
      ensures ScholarIdRow(r)
    {
      var i :| 0 <= i < |g.rows| && g.rows[i] == r;
    }
  }

  /** The frame add_scholar_id leaves behind: the parsed pair, its id and
      its version assigned as three columns. A missing doc_id column is
      pandas' AttributeError, modelled as a KeyError. */
  function WithScholarId(f: Frame): (r: Result<Frame>)
    ensures r.Ok? ==> |r.value.rows| == |f.rows|
  {
    if "doc_id" !in f.columns then Err(KeyError("doc_id"))
    else match Apply(f.rows, DocIdOf)
      case Err(e) => Err(e)
      case Ok(keys) => Ok(AssignScholarId(f, keys))
  }

  /** add_scholar_id succeeds exactly when the doc_id column exists and every
      doc_id parses; otherwise it fails with the error of the first row that
      does not. */
  lemma WithScholarIdOk(f: Frame)
    ensures WithScholarId(f).Ok? <==> "doc_id" in f.columns && forall i :: 0 <= i < |f.rows| ==> DocIdOf(f.rows[i]).Ok?
    ensures "doc_id" in f.columns && WithScholarId(f).Err? ==>
      exists i :: 0 <= i < |f.rows| && DocIdOf(f.rows[i]).Err? && WithScholarId(f).error == DocIdOf(f.rows[i]).error
  {
    ApplySound(f.rows, DocIdOf);
  }

  /** When add_scholar_id succeeds every row keeps its other cells and gains
      its parsed doc_id, with citing_id and citing_version its two parts. */
  lemma WithScholarIdEffect(f: Frame)
    requires WithScholarId(f).Ok?
    ensures var g := WithScholarId(f).value;
      && HasScholarId(g)
      && (forall i :: 0 <= i < |f.rows| ==>
           HasParsedId(g.rows[i]) && ScholarIdRow(g.rows[i]) && DocIdOf(f.rows[i]) == Ok(KeyOf(g.rows[i])))
      && (forall i, c :: 0 <= i < |f.rows| && c != "parsed_doc_id" && c != "citing_id" && c != "citing_version" ==>
           (c in g.rows[i] <==> c in f.rows[i]) && Get(g.rows[i], c) == Get(f.rows[i], c))
      && (WellFormed(f) ==> WellFormed(g))
  {
    var keys := Apply(f.rows, DocIdOf).value;
    ApplySound(f.rows, DocIdOf);
    AssignScholarIdEffect(f, keys);
  }

  /** add_scholar_id: assigns the three columns in place; when a doc_id fails
      to parse the exception leaves the frame as it was. */
  method AddScholarId(df: DataFrame) returns (r: Result<()>)
    modifies df
    ensures r.Ok? <==> WithScholarId(old(df.Value())).Ok?
    ensures r.Ok? ==> df.Value() == WithScholarId(old(df.Value())).value
    ensures r.Err? ==> r.error == WithScholarId(old(df.Value())).error && df.Value() == old(df.Value())
  {
    if "doc_id" !in df.columns {
      return Err(KeyError("doc_id"));
    }
    var parsed := Apply(df.rows, DocIdOf);
    if parsed.Err? {
      return Err(parsed.error);
    }
    var keys := parsed.value;
    assert WithScholarId(old(df.Value())) == Ok(AssignScholarId(old(df.Value()), keys));
    df.SetColumn("parsed_doc_id", PairCells(keys));
    df.SetColumn("citing_id", IdCells(keys));
    df.SetColumn("citing_version", VersionCells(keys));
    r := Ok(());
  }

  // ------------------------------------------------------------ get_version_with_max_refs

  /** The parsed doc_id of every row of a frame add_scholar_id has been through. */
  function DocKeys(rows: seq<Row>): (keys: seq<DocKey>)
    requires forall r :: r in rows ==> HasParsedId(r)
    ensures |keys| == |rows|
  {
    seq(|rows|, i requires 0 <= i < |rows| => KeyOf(rows[i]))
  }

  function NumRefCells(keys: seq<DocKey>): (cells: seq<Cell>)
    ensures |cells| == |keys|
  {
    seq(|keys|, i requires 0 <= i < |keys| => Int(NumRefs(keys)[i]))
  }

  /** The frame get_version_with_max_refs returns: the rows, with num_refs,
      whose parsed doc_id is one of max_versions. */
  function MaxRefVersions(f: Frame): (r: Frame)
    requires HasScholarId(f)
  {
    var keys := DocKeys(f.rows);
    Where(WithColumn(f, "num_refs", NumRefCells(keys)), MemberMask(keys, MaxVersions(keys)))
  }

  /** get_version_with_max_refs: adds num_refs to its argument in place and
      returns the rows of each citing paper's most-referenced version. */
  method GetVersionWithMaxRefs(df: DataFrame) returns (r: Frame)
    requires HasScholarId(df.Value())
    modifies df
    ensures df.Value() == WithColumn(old(df.Value()), "num_refs", NumRefCells(DocKeys(old(df.rows))))
    ensures r == MaxRefVersions(old(df.Value()))
  {
    var keys := DocKeys(df.rows);
    df.SetColumn("num_refs", NumRefCells(keys));
    r := Where(df.Value(), MemberMask(keys, MaxVersions(keys)));
  }

  /** num_refs leaves every other cell alone, so the rows still carry their ids. */
  lemma NumRefsKeepsIds(f: Frame)
    requires HasScholarId(f)
    ensures var g := WithColumn(f, "num_refs", NumRefCells(DocKeys(f.rows)));
      && HasScholarId(g)
      && DocKeys(g.rows) == DocKeys(f.rows)
  {
    var g := WithColumn(f, "num_refs", NumRefCells(DocKeys(f.rows)));
    forall i | 0 <= i < |f.rows|
      ensures ScholarIdRow(g.rows[i]) && KeyOf(g.rows[i]) == KeyOf(f.rows[i])
    {
      assert f.rows[i] in f.rows;
      assert Get(g.rows[i], "parsed_doc_id") == Get(f.rows[i], "parsed_doc_id");
    }
    forall r | r in g.rows
      ensures ScholarIdRow(r)
    {
      var i :| 0 <= i < |g.rows| && g.rows[i] == r;
    }
  }

  /** What get_version_with_max_refs keeps, stated on the frame: the result is
      an order-preserving subsequence of the input rows (with num_refs added),
      every row still carries its ids, and its parsed doc_ids are exactly those
      the version choice keeps. */
  lemma MaxRefVersionsSound(f: Frame)
    requires HasScholarId(f)
    ensures var keys := DocKeys(f.rows);
      var out := MaxRefVersions(f);
      && SubsequenceAt(out.rows, WithColumn(f, "num_refs", NumRefCells(keys)).rows, Selected(MemberMask(keys, MaxVersions(keys))))
      && HasScholarId(out)
      && DocKeys(out.rows) == SelectMaxVersions(keys)
  {
    var keys := DocKeys(f.rows);
    var g := WithColumn(f, "num_refs", NumRefCells(keys));
    var mask := MemberMask(keys, MaxVersions(keys));
    KeepIsSubsequence(g.rows, mask);
    NumRefsKeepsIds(f);
    var out := MaxRefVersions(f);
    assert out.rows == Keep(g.rows, mask);
    var key := (r: Row) => if HasParsedId(r) then KeyOf(r) else DocKey("", "");
    assert forall i :: 0 <= i < |g.rows| ==> keys[i] == key(g.rows[i]) by {
      forall i | 0 <= i < |g.rows| ensures keys[i] == key(g.rows[i]) {
        assert g.rows[i] in g.rows;
      }
    }
    KeepMap(g.rows, mask, key, keys);
  }

  /** Every row get_version_with_max_refs returns carries its ids, and its
      parsed doc_id is in max_versions: the chosen version of its citing paper. */
  lemma MaxRefVersionsChosen(f: Frame)
    requires HasScholarId(f)
    ensures forall r :: r in MaxRefVersions(f).rows ==> ScholarIdRow(r) && KeyOf(r) in MaxVersions(DocKeys(f.rows))
  {
    var keys := DocKeys(f.rows);
    var out := MaxRefVersions(f);
    MaxRefVersionsSound(f);
    forall r | r in out.rows
      ensures ScholarIdRow(r) && KeyOf(r) in MaxVersions(keys)
    {
      var k :| 0 <= k < |out.rows| && out.rows[k] == r;
      var selected := SelectMaxVersions(keys);
      assert KeyOf(r) == selected[k];
      KeepContains(keys, MemberMask(keys, MaxVersions(keys)), KeyOf(r));
    }
  }
}
