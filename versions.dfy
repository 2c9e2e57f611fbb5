/** The choice of one extracted version per citing paper: the version with the
    most citation contexts wins, and a tie goes to the version whose
    best-counted row comes first. */
module Versions {
  import opened Frames

  /** A parsed doc_id: the scholar id of the citing paper and the version of
      its PDF the contexts were extracted from. */
  datatype DocKey = DocKey(id: string, version: string)

  /** The citing_id column. */
  function Ids(keys: seq<DocKey>): (ids: seq<string>)
    ensures |ids| == |keys|
    ensures forall i :: 0 <= i < |keys| ==> ids[i] == keys[i].id
  {
    seq(|keys|, i requires 0 <= i < |keys| => keys[i].id)
  }

  /** The num_refs column: for every row, the number of rows with the same
      parsed doc_id. */
  function NumRefs(keys: seq<DocKey>): (counts: seq<int>)
    ensures |counts| == |keys|
  {
    seq(|keys|, i requires 0 <= i < |keys| => multiset(keys)[keys[i]])
  }

  /** groupby(citing_id)[counts].idxmax() for the group of one id: the first
      position among the rows of that id whose count is largest, or -1 when
      no row has that id. */
  function IdxMax(ids: seq<string>, counts: seq<int>, id: string): (r: int)
    requires |ids| == |counts|
    ensures r == -1 <==> id !in ids
    ensures r != -1 ==> 0 <= r < |ids| && ids[r] == id
    ensures r != -1 ==> forall j :: 0 <= j < |ids| && ids[j] == id ==> counts[j] <= counts[r]
    ensures r != -1 ==> forall j :: 0 <= j < r && ids[j] == id ==> counts[j] < counts[r]
  {
    if ids == [] then -1
    else
      var n := |ids| - 1;
      assert ids == ids[..n] + [ids[n]];
      var p := IdxMax(ids[..n], counts[..n], id);
      if ids[n] != id then p
      else if p == -1 || counts[n] > counts[p] then n
      else p
  }

  /** The version kept for a citing paper: the parsed doc_id of the row idxmax picks. */
  function Chosen(keys: seq<DocKey>, id: string): (k: DocKey)
    requires id in Ids(keys)
    ensures k in keys && k.id == id
  {
    keys[IdxMax(Ids(keys), NumRefs(keys), id)]
  }

  /** max_versions: the parsed doc_ids of the rows idxmax picks, one per citing id. */
  function MaxVersions(keys: seq<DocKey>): set<DocKey> {
    set i | 0 <= i < |keys| :: Chosen(keys, Ids(keys)[i])
  }

  /** parsed_doc_id.isin(max_versions), row by row. */
  function MemberMask(keys: seq<DocKey>, s: set<DocKey>): (mask: seq<bool>)
    ensures |mask| == |keys|
    ensures forall i :: 0 <= i < |keys| ==> (mask[i] <==> keys[i] in s)
  {
    seq(|keys|, i requires 0 <= i < |keys| => keys[i] in s)
  }

  /** The parsed doc_ids of the rows get_version_with_max_refs returns. */
  function SelectMaxVersions(keys: seq<DocKey>): seq<DocKey> {
    Keep(keys, MemberMask(keys, MaxVersions(keys)))
  }

  /** A parsed doc_id is in max_versions exactly when it is the chosen
      version of its own citing id. */
  lemma InMaxVersions(keys: seq<DocKey>, k: DocKey)
    ensures k in MaxVersions(keys) <==> k.id in Ids(keys) && k == Chosen(keys, k.id)
  {
    if k.id in Ids(keys) && k == Chosen(keys, k.id) {
      var i :| 0 <= i < |keys| && Ids(keys)[i] == k.id;
      assert Chosen(keys, Ids(keys)[i]) in MaxVersions(keys);
    }
  }

  /** Filtering by membership in a set keeps every occurrence of a member and
      none of a non-member. */
  lemma KeepMembers(keys: seq<DocKey>, s: set<DocKey>, k: DocKey)
    ensures multiset(Keep(keys, MemberMask(keys, s)))[k] == if k in s then multiset(keys)[k] else 0
  {
    KeepCount(keys, MemberMask(keys, s), k, k in s);
  }

  function FirstIndex(keys: seq<DocKey>, k: DocKey): (i: int)
    requires k in keys
    ensures 0 <= i < |keys| && keys[i] == k
    ensures forall j :: 0 <= j < i ==> keys[j] != k
  {
    if keys[0] == k then 0 else 1 + FirstIndex(keys[1..], k)
  }

  // ------------------------------------------------------------ what survives

  /** The surviving rows are an order-preserving subsequence of the input. */
  lemma SelectionIsSubsequence(keys: seq<DocKey>)
    ensures SubsequenceAt(SelectMaxVersions(keys), keys, Selected(MemberMask(keys, MaxVersions(keys))))
  {
    KeepIsSubsequence(keys, MemberMask(keys, MaxVersions(keys)));
  }

  /** At most one version of each citing paper survives. */
  lemma OneVersionPerId(keys: seq<DocKey>)
    ensures forall a, b :: a in SelectMaxVersions(keys) && b in SelectMaxVersions(keys) && a.id == b.id ==> a == b
  {
    var out := SelectMaxVersions(keys);
    forall a, b | a in out && b in out && a.id == b.id
      ensures a == b
    {
      KeepMembers(keys, MaxVersions(keys), a);
      KeepMembers(keys, MaxVersions(keys), b);
      InMaxVersions(keys, a);
      InMaxVersions(keys, b);
    }
  }

  /** Every citing paper of the input keeps at least one row. */
  lemma EveryIdSurvives(keys: seq<DocKey>, i: int)
    requires 0 <= i < |keys|
    ensures exists k :: k in SelectMaxVersions(keys) && k.id == keys[i].id
  {
    var c := Chosen(keys, keys[i].id);
    InMaxVersions(keys, c);
    KeepMembers(keys, MaxVersions(keys), c);
    assert c in SelectMaxVersions(keys);
  }

  /** The surviving version has at least as many rows as every other version
      of the same citing paper. */
  lemma SurvivorHasMostRefs(keys: seq<DocKey>, k: DocKey, i: int)
    requires k in SelectMaxVersions(keys)
    requires 0 <= i < |keys| && keys[i].id == k.id
    ensures multiset(keys)[keys[i]] <= multiset(keys)[k]
  {
    KeepMembers(keys, MaxVersions(keys), k);
    InMaxVersions(keys, k);
    var r := IdxMax(Ids(keys), NumRefs(keys), k.id);
    assert NumRefs(keys)[i] <= NumRefs(keys)[r];
  }

  /** Every row of the surviving version survives, and no row of another. */
  lemma AllRowsOfSurvivorKept(keys: seq<DocKey>, k: DocKey)
    ensures multiset(SelectMaxVersions(keys))[k] == if k in MaxVersions(keys) then multiset(keys)[k] else 0
  {
    KeepMembers(keys, MaxVersions(keys), k);
  }

  /** Ties: when two versions of a citing paper have equally many rows, the one
      whose first row comes earlier survives. */
  lemma TieGoesToFirst(keys: seq<DocKey>, k: DocKey, other: DocKey)
    requires k in SelectMaxVersions(keys)
    requires other in keys && other.id == k.id && other != k
    requires multiset(keys)[other] == multiset(keys)[k]
    ensures FirstIndex(keys, k) < FirstIndex(keys, other)
  {
    KeepMembers(keys, MaxVersions(keys), k);
    InMaxVersions(keys, k);
    var j := FirstIndex(keys, other);
    var r := ChosenIndexBefore(keys, k, j);
    assert FirstIndex(keys, k) <= r;
  }

  /** The row idxmax picks for a chosen version comes before every other row
      of the same id with an equal count. */
  lemma ChosenIndexBefore(keys: seq<DocKey>, k: DocKey, j: int) returns (r: int)
    requires k.id in Ids(keys) && k == Chosen(keys, k.id)
    requires 0 <= j < |keys| && keys[j].id == k.id && keys[j] != k
    requires multiset(keys)[keys[j]] == multiset(keys)[k]
    ensures 0 <= r < j && keys[r] == k
  {
    var ids, counts := Ids(keys), NumRefs(keys);
    r := IdxMax(ids, counts, k.id);
    assert ids[j] == k.id;
    assert counts[j] == counts[r];
  }
}
