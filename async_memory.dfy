/** The in-memory storage driver `StorageDriverAsyncMemory` of
    `src/storage/storage-driver-async-memory.ts`.

    It keeps every document twice: once under the key `path|author`, and
    once in a per-path array kept newest first. It stamps each upserted
    copy with the next local index, starting from 0. Queries read one of
    the two indexes, sort with a comparator, and walk the result with a
    cursor, a filter and a limit. Closing cannot be undone, and a closed
    driver refuses to be read or written. */
module AsyncMemoryDriver {
  import opened Common
  import opened Strings
  import opened Arrays
  import opened JsMaps

  /** A document as the driver stores it; `localIndex` is `_localIndex`,
      missing on documents that were never stored. */
  datatype Doc = Doc(
    format: string,
    path: string,
    author: string,
    content: string,
    timestamp: int,
    signature: string,
    localIndex: Option<int>)

  // ---------------------------------------------------------------------
  // The key of the path-and-author index

  /** `combinePathAndAuthor(doc)`. */
  function Combine(path: string, author: string): string {
    path + "|" + author
  }

  /** The separator does not occur in `s`. */
  ghost predicate NoBar(s: string) {
    forall i :: 0 <= i < |s| ==> s[i] != '|'
  }

  /** Where the first separator of `s` is, or `|s|` when there is none. */
  function FirstBar(s: string): (n: nat)
    ensures n <= |s|
  {
    if s == [] then 0 else if s[0] == '|' then 0 else 1 + FirstBar(s[1..])
  }

  lemma {:induction false} FirstBarOfCombine(p: string, a: string)
    requires NoBar(p)
    ensures FirstBar(Combine(p, a)) == |p|
  {
    if p != [] {
      assert Combine(p, a)[1..] == Combine(p[1..], a);
      FirstBarOfCombine(p[1..], a);
    }
  }

  /** Because the separator can occur in neither part, the combined key
      determines the path and the author. */
  lemma CombineInjective(p1: string, a1: string, p2: string, a2: string)
    requires NoBar(p1) && NoBar(a1) && NoBar(p2) && NoBar(a2)
    requires Combine(p1, a1) == Combine(p2, a2)
    ensures p1 == p2 && a1 == a2
  {
    FirstBarOfCombine(p1, a1);
    FirstBarOfCombine(p2, a2);
    var c := Combine(p1, a1);
    assert p1 == c[..|p1|] && p2 == c[..|p2|];
    assert a1 == c[|p1| + 1..] && a2 == c[|p2| + 1..];
  }

  // ---------------------------------------------------------------------
  // Comparators

  /** One column of the arrays `compareArrays` compares. */
  datatype Cell = Str(s: string) | Num(n: int)

  datatype SortOrder = Asc | Desc

  /** `a < b` on two cells of the same kind. */
  predicate CellLess(a: Cell, b: Cell) {
    match (a, b)
    case (Str(x), Str(y)) => Less(x, y)
    case (Num(x), Num(y)) => x < y
    case _ => false
  }

  /** How two cells of one column compare: -1, 0 or 1, reversed for a
      descending column. */
  function Column(a: Cell, b: Cell, order: SortOrder): (r: int)
    ensures -1 <= r <= 1
    ensures r == 0 <==> !CellLess(a, b) && !CellLess(b, a)
  {
    if CellLess(a, b) then (if order == Asc then -1 else 1)
    else if CellLess(b, a) then (if order == Asc then 1 else -1)
    else 0
  }

  /** `compareArrays(a, b, orders)`: the first column where the two differ
      decides. The behaviour of `compareArrays` in `src/storage/compare.ts`
      is taken to be this. */
  function CompareArrays(a: seq<Cell>, b: seq<Cell>, orders: seq<SortOrder>): (r: int)
    requires |a| == |b| == |orders|
    ensures -1 <= r <= 1
  {
    if a == [] then 0
    else if Column(a[0], b[0], orders[0]) != 0 then Column(a[0], b[0], orders[0])
    else CompareArrays(a[1..], b[1..], orders[1..])
  }

  /** Two rows compare equal exactly when every column does; otherwise the
      result is that of the first column where they differ. */
  lemma {:induction false} CompareArraysMeaning(a: seq<Cell>, b: seq<Cell>, orders: seq<SortOrder>)
    requires |a| == |b| == |orders|
    ensures CompareArrays(a, b, orders) == 0 <==> forall i :: 0 <= i < |a| ==> Column(a[i], b[i], orders[i]) == 0
    ensures CompareArrays(a, b, orders) != 0 ==>
      exists k :: 0 <= k < |a| && CompareArrays(a, b, orders) == Column(a[k], b[k], orders[k]) &&
        forall i :: 0 <= i < k ==> Column(a[i], b[i], orders[i]) == 0
    decreases |a|
  {
    if a != [] && Column(a[0], b[0], orders[0]) == 0 {
      var a1, b1, o1 := a[1..], b[1..], orders[1..];
      CompareArraysMeaning(a1, b1, o1);
      assert forall i :: 1 <= i < |a| ==> a[i] == a1[i - 1] && b[i] == b1[i - 1] && orders[i] == o1[i - 1];
      if CompareArrays(a1, b1, o1) != 0 {
        var k :| 0 <= k < |a1| && CompareArrays(a1, b1, o1) == Column(a1[k], b1[k], o1[k]) &&
          forall i :: 0 <= i < k ==> Column(a1[i], b1[i], o1[i]) == 0;
        assert forall i :: 0 <= i < k + 1 ==> Column(a[i], b[i], orders[i]) == 0;
      }
    }
  }

  /** Three columns: the first that differs decides. */
  lemma CompareThree(x: seq<Cell>, y: seq<Cell>, o: seq<SortOrder>)
    requires |x| == |y| == |o| == 3
    ensures CompareArrays(x, y, o) ==
      if Column(x[0], y[0], o[0]) != 0 then Column(x[0], y[0], o[0])
      else if Column(x[1], y[1], o[1]) != 0 then Column(x[1], y[1], o[1])
      else Column(x[2], y[2], o[2])
  {
    var x1, y1, o1 := x[1..], y[1..], o[1..];
    var x2, y2, o2 := x1[1..], y1[1..], o1[1..];
    assert x2[1..] == [] && y2[1..] == [] && o2[1..] == [];
    assert CompareArrays(x2, y2, o2) == Column(x[2], y[2], o[2]);
    assert CompareArrays(x1, y1, o1) ==
      if Column(x[1], y[1], o[1]) != 0 then Column(x[1], y[1], o[1]) else CompareArrays(x2, y2, o2);
  }

  /** `docComparePathASCthenNewestFirst`, as written: its third column
      compares `a.signature` with itself. */
  function PathAscNewestFirst(a: Doc, b: Doc): int {
    CompareArrays(
      [Str(a.path), Num(a.timestamp), Str(a.signature)],
      [Str(b.path), Num(b.timestamp), Str(a.signature)],
      [Asc, Desc, Asc])
  }

  /** `docComparePathDESCthenNewestFirst`, as written. */
  function PathDescNewestFirst(a: Doc, b: Doc): int {
    CompareArrays(
      [Str(a.path), Num(a.timestamp), Str(a.signature)],
      [Str(b.path), Num(b.timestamp), Str(a.signature)],
      [Desc, Desc, Asc])
  }

  /** Newer first: -1 when `a` is newer, 1 when `b` is, 0 on a tie. */
  function NewestFirst(a: Doc, b: Doc): int {
    if a.timestamp > b.timestamp then -1 else if a.timestamp < b.timestamp then 1 else 0
  }

  /** Because of the repeated `a.signature`, the comparators order by path
      (ascending or descending), then newest first, and call two documents
      of the same path and timestamp equal whatever their signatures. */
  lemma PathComparatorsMeaning(a: Doc, b: Doc)
    ensures PathAscNewestFirst(a, b) ==
      if a.path == b.path then NewestFirst(a, b) else if Less(a.path, b.path) then -1 else 1
    ensures PathDescNewestFirst(a, b) ==
      if a.path == b.path then NewestFirst(a, b) else if Less(a.path, b.path) then 1 else -1
  {
    LessIrreflexive(a.signature);
    LessIrreflexive(a.path);
    LessAsymmetric(a.path, b.path);
    LessTrichotomy(a.path, b.path);
    CompareThree([Str(a.path), Num(a.timestamp), Str(a.signature)],
                 [Str(b.path), Num(b.timestamp), Str(a.signature)], [Asc, Desc, Asc]);
    CompareThree([Str(a.path), Num(a.timestamp), Str(a.signature)],
                 [Str(b.path), Num(b.timestamp), Str(a.signature)], [Desc, Desc, Asc]);
  }

  /** So the signature never breaks a tie, though the comments beside the
      comparators say it does. */
  lemma SignatureNeverBreaksTies(a: Doc, b: Doc, s: string, t: string)
    ensures PathAscNewestFirst(a, b) == PathAscNewestFirst(a.(signature := s), b.(signature := t))
    ensures PathDescNewestFirst(a, b) == PathDescNewestFirst(a.(signature := s), b.(signature := t))
  {
    PathComparatorsMeaning(a, b);
    PathComparatorsMeaning(a.(signature := s), b.(signature := t));
  }

  /** The local index, read as 0 when missing (`doc._localIndex ?? 0`). */
  function IndexOrZero(d: Doc): int {
    if d.localIndex.Some? then d.localIndex.value else 0
  }

  /** `compareByObjKey('_localIndex', 'ASC')`; every document it sorts has
      a local index, so how it treats a missing one does not matter. */
  function LocalIndexAsc(a: Doc, b: Doc): int {
    if IndexOrZero(a) < IndexOrZero(b) then -1 else if IndexOrZero(a) > IndexOrZero(b) then 1 else 0
  }

  /** `compareByObjKey('_localIndex', 'DESC')`. */
  function LocalIndexDesc(a: Doc, b: Doc): int {
    if IndexOrZero(a) < IndexOrZero(b) then 1 else if IndexOrZero(a) > IndexOrZero(b) then -1 else 0
  }

  lemma PathAscIsTotalPreorder(u: seq<Doc>)
    ensures TotalPreorderOn(PathAscNewestFirst, u)
  {
    forall a, b | a in u && b in u
      ensures PathAscNewestFirst(a, b) <= 0 || PathAscNewestFirst(b, a) <= 0
    {
      PathComparatorsMeaning(a, b);
      PathComparatorsMeaning(b, a);
      LessTrichotomy(a.path, b.path);
    }
    forall a, b, c | a in u && b in u && c in u && PathAscNewestFirst(a, b) <= 0 && PathAscNewestFirst(b, c) <= 0
      ensures PathAscNewestFirst(a, c) <= 0
    {
      PathComparatorsMeaning(a, b);
      PathComparatorsMeaning(b, c);
      PathComparatorsMeaning(a, c);
      LessTransitive(a.path, b.path, c.path);
      LessIrreflexive(a.path);
    }
  }

  lemma PathDescIsTotalPreorder(u: seq<Doc>)
    ensures TotalPreorderOn(PathDescNewestFirst, u)
  {
    forall a, b | a in u && b in u
      ensures PathDescNewestFirst(a, b) <= 0 || PathDescNewestFirst(b, a) <= 0
    {
      PathComparatorsMeaning(a, b);
      PathComparatorsMeaning(b, a);
      LessTrichotomy(a.path, b.path);
      LessAsymmetric(a.path, b.path);
      LessAsymmetric(b.path, a.path);
    }
    forall a, b, c | a in u && b in u && c in u && PathDescNewestFirst(a, b) <= 0 && PathDescNewestFirst(b, c) <= 0
      ensures PathDescNewestFirst(a, c) <= 0
    {
      PathComparatorsMeaning(a, b);
      PathComparatorsMeaning(b, c);
      PathComparatorsMeaning(a, c);
      LessTransitive(c.path, b.path, a.path);
      LessIrreflexive(a.path);
    }
  }

  /** The preorder `LocalIndexAsc(a, b) <= 0` is the order of the indexes. */
  lemma LocalIndexIsTotalPreorder(u: seq<Doc>)
    ensures TotalPreorderOn(LocalIndexAsc, u)
    ensures TotalPreorderOn(LocalIndexDesc, u)
  {
  }

  // ---------------------------------------------------------------------
  // The two indexes

  /** Every document of `h` has path `p`. */
  ghost predicate AtPath(h: seq<Doc>, p: string) {
    forall i :: 0 <= i < |h| ==> h[i].path == p
  }

  /** Newest first, one document per author. */
  ghost predicate Ordered(h: seq<Doc>) {
    && (forall i, j :: 0 <= i < j < |h| ==> h[i].author != h[j].author)
    && SortedBy(h, PathAscNewestFirst)
  }

  /** The documents of one path's array: all at that path, one per
      author, newest first. */
  ghost predicate PathArrayShape(h: seq<Doc>, p: string) {
    AtPath(h, p) && Ordered(h)
  }

  /** One path's array in `docsByPathNewestFirst`, which is never empty. */
  ghost predicate PathArrayValid(h: seq<Doc>, p: string) {
    |h| > 0 && PathArrayShape(h, p)
  }

  /** A document stored under key `k`: `k` is its combined key, its parts
      are free of the separator, and it carries an index already issued. */
  ghost predicate StoredUnder(d: Doc, k: string, maxLocalIndex: int) {
    && k == Combine(d.path, d.author)
    && NoBar(d.path) && NoBar(d.author)
    && d.localIndex.Some? && 0 <= d.localIndex.value <= maxLocalIndex
  }

  /** `d` is in its path's array. */
  ghost predicate Listed(byPath: JsMap<seq<Doc>>, d: Doc) {
    d.path in byPath.entries && d in byPath.entries[d.path]
  }

  /** `d` is the document stored under its combined key. */
  ghost predicate Keyed(byPathAndAuthor: JsMap<Doc>, d: Doc) {
    Combine(d.path, d.author) in byPathAndAuthor.entries && byPathAndAuthor.entries[Combine(d.path, d.author)] == d
  }

  /** The entry under key `k`, if there is one, is stored under it. */
  ghost predicate StoredAt(byPathAndAuthor: JsMap<Doc>, k: string, maxLocalIndex: int) {
    k in byPathAndAuthor.entries ==> StoredUnder(byPathAndAuthor.entries[k], k, maxLocalIndex)
  }

  /** Every entry is stored under its own key. The trigger keeps the
      facts about keys folded until a proof asks for one key's. */
  ghost predicate KeysStored(byPathAndAuthor: JsMap<Doc>, maxLocalIndex: int) {
    forall k {:trigger StoredAt(byPathAndAuthor, k, maxLocalIndex)} :: StoredAt(byPathAndAuthor, k, maxLocalIndex)
  }

  ghost predicate AllListed(byPathAndAuthor: JsMap<Doc>, byPath: JsMap<seq<Doc>>) {
    forall k :: k in byPathAndAuthor.entries ==> Listed(byPath, byPathAndAuthor.entries[k])
  }

  ghost predicate ArraysAtPaths(byPath: JsMap<seq<Doc>>) {
    forall p :: p in byPath.entries ==> |byPath.entries[p]| > 0 && AtPath(byPath.entries[p], p)
  }

  /** The array of path `p`, if there is one, is ordered. */
  ghost predicate OrderedAt(byPath: JsMap<seq<Doc>>, p: string) {
    p in byPath.entries ==> Ordered(byPath.entries[p])
  }

  /** Every array is ordered. The trigger keeps the (quadratic) ordering
      facts folded until a proof asks for one path's. */
  ghost predicate ArraysOrdered(byPath: JsMap<seq<Doc>>) {
    forall p {:trigger OrderedAt(byPath, p)} :: OrderedAt(byPath, p)
  }

  ghost predicate ArraysValid(byPath: JsMap<seq<Doc>>) {
    ArraysAtPaths(byPath) && ArraysOrdered(byPath)
  }

  /** The `i`-th document of path `p`'s array, if there is one, is keyed. */
  ghost predicate KeyedAt(byPathAndAuthor: JsMap<Doc>, byPath: JsMap<seq<Doc>>, p: string, i: int) {
    p in byPath.entries && 0 <= i < |byPath.entries[p]| ==> Keyed(byPathAndAuthor, byPath.entries[p][i])
  }

  /** Every document of every array is the one stored under its key. */
  ghost predicate AllKeyed(byPathAndAuthor: JsMap<Doc>, byPath: JsMap<seq<Doc>>) {
    forall p, i {:trigger KeyedAt(byPathAndAuthor, byPath, p, i)} :: KeyedAt(byPathAndAuthor, byPath, p, i)
  }

  /** The two indexes hold the same documents. */
  ghost predicate Consistent(byPathAndAuthor: JsMap<Doc>, byPath: JsMap<seq<Doc>>, maxLocalIndex: int) {
    && WellFormed(byPathAndAuthor) && WellFormed(byPath)
    && KeysStored(byPathAndAuthor, maxLocalIndex)
    && AllListed(byPathAndAuthor, byPath)
    && ArraysValid(byPath)
    && AllKeyed(byPathAndAuthor, byPath)
  }

  /** Consistency means: a document is in path `p`'s array exactly when it
      has path `p` and is the one stored under its key. */
  lemma ConsistentIndexesAgree(byPathAndAuthor: JsMap<Doc>, byPath: JsMap<seq<Doc>>, maxLocalIndex: int, p: string, d: Doc)
    requires Consistent(byPathAndAuthor, byPath, maxLocalIndex)
    ensures (p in byPath.entries && d in byPath.entries[p]) <==> (d.path == p && Keyed(byPathAndAuthor, d))
  {
    if p in byPath.entries && d in byPath.entries[p] {
      var i :| 0 <= i < |byPath.entries[p]| && byPath.entries[p][i] == d;
      assert KeyedAt(byPathAndAuthor, byPath, p, i);
    }
    if d.path == p && Keyed(byPathAndAuthor, d) {
      assert Listed(byPath, byPathAndAuthor.entries[Combine(d.path, d.author)]);
    }
  }

  /** Every stored document, once each. */
  lemma AllDocsMeaning(byPathAndAuthor: JsMap<Doc>, byPath: JsMap<seq<Doc>>, maxLocalIndex: int)
    requires Consistent(byPathAndAuthor, byPath, maxLocalIndex)
    ensures var r := MapValues(byPathAndAuthor);
      (forall d :: d in r <==> Keyed(byPathAndAuthor, d)) &&
      (forall i, j :: 0 <= i < j < |r| ==> r[i] != r[j])
  {
    var r := MapValues(byPathAndAuthor);
    var m := byPathAndAuthor;
    forall d ensures d in r <==> Keyed(m, d) {
      if d in r {
        var i :| 0 <= i < |r| && r[i] == d;
        assert StoredAt(m, m.keys[i], maxLocalIndex);
      }
      if Keyed(m, d) {
        var i :| 0 <= i < |m.keys| && m.keys[i] == Combine(d.path, d.author);
        assert r[i] == d;
      }
    }
    forall i, j | 0 <= i < j < |r| ensures r[i] != r[j] {
      assert StoredAt(m, m.keys[i], maxLocalIndex) && StoredAt(m, m.keys[j], maxLocalIndex);
    }
  }

  /** The first document of a path's array is at least as new as the rest. */
  lemma HeadIsNewest(h: seq<Doc>, p: string)
    requires |h| > 0 && AtPath(h, p) && SortedBy(h, PathAscNewestFirst)
    ensures forall m :: 0 <= m < |h| ==> h[m].timestamp <= h[0].timestamp
  {
    forall m | 0 < m < |h| ensures h[m].timestamp <= h[0].timestamp {
      PathComparatorsMeaning(h[0], h[m]);
    }
  }

  /** `_getLatestDocs()` without the closed check: the first document of
      each path's array, in the order the paths were first stored. */
  function LatestDocs(byPath: JsMap<seq<Doc>>): (r: seq<Doc>)
    requires WellFormed(byPath) && forall p :: p in byPath.entries ==> |byPath.entries[p]| > 0
    ensures |r| == |byPath.keys|
  {
    seq(|byPath.keys|, i requires 0 <= i < |byPath.keys| => byPath.entries[byPath.keys[i]][0])
  }

  /** The i-th latest document heads the array of the i-th path. */
  lemma LatestDocsHeads(byPath: JsMap<seq<Doc>>)
    requires WellFormed(byPath) && ArraysAtPaths(byPath)
    ensures var r := LatestDocs(byPath);
      forall i :: 0 <= i < |r| ==> r[i] == byPath.entries[byPath.keys[i]][0] && r[i].path == byPath.keys[i]
  {
  }

  lemma LatestDocsPaths(byPath: JsMap<seq<Doc>>)
    requires WellFormed(byPath) && ArraysAtPaths(byPath)
    ensures var r := LatestDocs(byPath);
      (forall p :: p in byPath.entries <==> exists i :: 0 <= i < |r| && r[i].path == p) &&
      (forall i, j :: 0 <= i < j < |r| ==> r[i].path != r[j].path)
  {
    var r := LatestDocs(byPath);
    LatestDocsHeads(byPath);
    forall p ensures p in byPath.entries <==> exists i :: 0 <= i < |r| && r[i].path == p {
      if p in byPath.entries {
        var i :| 0 <= i < |byPath.keys| && byPath.keys[i] == p;
        assert r[i].path == p;
      }
    }
  }

  lemma LatestDocsKeyed(byPathAndAuthor: JsMap<Doc>, byPath: JsMap<seq<Doc>>)
    requires WellFormed(byPath) && ArraysAtPaths(byPath) && AllKeyed(byPathAndAuthor, byPath)
    ensures var r := LatestDocs(byPath); forall i :: 0 <= i < |r| ==> Keyed(byPathAndAuthor, r[i])
  {
    LatestDocsHeads(byPath);
    forall i | 0 <= i < |byPath.keys| ensures Keyed(byPathAndAuthor, LatestDocs(byPath)[i]) {
      assert KeyedAt(byPathAndAuthor, byPath, byPath.keys[i], 0);
    }
  }

  lemma LatestDocsNewest(byPathAndAuthor: JsMap<Doc>, byPath: JsMap<seq<Doc>>)
    requires WellFormed(byPath) && ArraysValid(byPath) && AllListed(byPathAndAuthor, byPath)
    ensures var r := LatestDocs(byPath);
      forall i, k :: 0 <= i < |r| && k in byPathAndAuthor.entries && byPathAndAuthor.entries[k].path == r[i].path ==>
        byPathAndAuthor.entries[k].timestamp <= r[i].timestamp
  {
    var r := LatestDocs(byPath);
    LatestDocsHeads(byPath);
    forall i, k | 0 <= i < |r| && k in byPathAndAuthor.entries && byPathAndAuthor.entries[k].path == r[i].path
      ensures byPathAndAuthor.entries[k].timestamp <= r[i].timestamp
    {
      var d := byPathAndAuthor.entries[k];
      var h := byPath.entries[byPath.keys[i]];
      assert Listed(byPath, d) && OrderedAt(byPath, byPath.keys[i]);
      HeadIsNewest(h, byPath.keys[i]);
      var m :| 0 <= m < |h| && h[m] == d;
    }
  }

  /** The latest documents are stored documents, one per stored path, each
      at least as new as every document stored at its path. */
  lemma LatestDocsMeaning(byPathAndAuthor: JsMap<Doc>, byPath: JsMap<seq<Doc>>, maxLocalIndex: int)
    requires Consistent(byPathAndAuthor, byPath, maxLocalIndex)
    ensures var r := LatestDocs(byPath);
      (forall i :: 0 <= i < |r| ==> Keyed(byPathAndAuthor, r[i])) &&
      (forall p :: p in byPath.entries <==> exists i :: 0 <= i < |r| && r[i].path == p) &&
      (forall i, j :: 0 <= i < j < |r| ==> r[i].path != r[j].path) &&
      (forall i, k :: 0 <= i < |r| && k in byPathAndAuthor.entries && byPathAndAuthor.entries[k].path == r[i].path ==>
         byPathAndAuthor.entries[k].timestamp <= r[i].timestamp)
  {
    LatestDocsKeyed(byPathAndAuthor, byPath);
    LatestDocsPaths(byPath);
    LatestDocsNewest(byPathAndAuthor, byPath);
  }

  // ---------------------------------------------------------------------
  // Upserting

  /** The predicate `d.author !== author` of upsert's filter. */
  function OtherAuthor(author: string): Doc -> bool {
    (d: Doc) => d.author != author
  }

  /** Upsert's new array for a path: the old one without the author's
      document, the new document pushed, sorted newest first. */
  function NewestFirstWith(h: seq<Doc>, doc: Doc): seq<Doc> {
    SortBy(Filter(h, OtherAuthor(doc.author)) + [doc], PathAscNewestFirst)
  }

  /** As the old array is sorted, sorting after the push only inserts. */
  lemma NewestFirstWithInserts(h: seq<Doc>, doc: Doc)
    requires SortedBy(h, PathAscNewestFirst)
    ensures SortedBy(Filter(h, OtherAuthor(doc.author)), PathAscNewestFirst)
    ensures NewestFirstWith(h, doc) == InsertBy(Filter(h, OtherAuthor(doc.author)), doc, PathAscNewestFirst)
  {
    var f := Filter(h, OtherAuthor(doc.author));
    FilterSortedBy(h, OtherAuthor(doc.author), PathAscNewestFirst);
    SortByOfSorted(f, PathAscNewestFirst);
    var s := f + [doc];
    assert s[..|s| - 1] == f && s[|s| - 1] == doc;
  }

  /** Comparison with a document of the same path is by timestamp alone. */
  lemma SamePathTimestamps(f: seq<Doc>, k: nat, doc: Doc)
    requires k <= |f| && forall i :: 0 <= i < |f| ==> f[i].path == doc.path
    requires forall i :: 0 <= i < k ==> PathAscNewestFirst(f[i], doc) <= 0
    requires forall i :: k <= i < |f| ==> PathAscNewestFirst(f[i], doc) > 0
    ensures forall i :: 0 <= i < k ==> f[i].timestamp >= doc.timestamp
    ensures forall i :: k <= i < |f| ==> f[i].timestamp < doc.timestamp
  {
    forall i | 0 <= i < |f| ensures PathAscNewestFirst(f[i], doc) == NewestFirst(f[i], doc) {
      PathComparatorsMeaning(f[i], doc);
    }
  }

  /** As sorting is stable and the signature is ignored, the new document
      lands after every other document of its path that is as new as it,
      and before every older one; the rest keep their order. */
  lemma NewestFirstWithShape(h: seq<Doc>, doc: Doc) returns (k: nat)
    requires forall i :: 0 <= i < |h| ==> h[i].path == doc.path
    requires SortedBy(h, PathAscNewestFirst)
    ensures var f := Filter(h, OtherAuthor(doc.author));
      k <= |f| && NewestFirstWith(h, doc) == f[..k] + [doc] + f[k..] &&
      (forall i :: 0 <= i < k ==> f[i].timestamp >= doc.timestamp) &&
      (forall i :: k <= i < |f| ==> f[i].timestamp < doc.timestamp)
  {
    var f := Filter(h, OtherAuthor(doc.author));
    NewestFirstWithInserts(h, doc);
    PathAscIsTotalPreorder(f + [doc]);
    k := InsertByShape(f, doc, PathAscNewestFirst, f + [doc]);
    assert forall i :: 0 <= i < |f| ==> f[i] in h;
    SamePathTimestamps(f, k, doc);
  }

  /** A document whose author is new, put among documents with distinct
      authors, leaves the authors distinct. */
  lemma DistinctAuthorsAround(f: seq<Doc>, k: nat, d: Doc)
    requires k <= |f|
    requires forall i, j :: 0 <= i < j < |f| ==> f[i].author != f[j].author
    requires forall i :: 0 <= i < |f| ==> f[i].author != d.author
    ensures var h := f[..k] + [d] + f[k..]; forall i, j :: 0 <= i < j < |h| ==> h[i].author != h[j].author
  {
    var h := f[..k] + [d] + f[k..];
    assert forall i :: 0 <= i < |h| ==> (i < k ==> h[i] == f[i]) && (i == k ==> h[i] == d) && (i > k ==> h[i] == f[i - 1]);
  }

  /** Which documents the new array holds: the new one, and the other
      authors' earlier documents. */
  lemma NewArrayMembers(existing: seq<Doc>, d: Doc)
    ensures Replacement(existing, d, NewestFirstWith(existing, d))
  {
    var f := Filter(existing, OtherAuthor(d.author));
    var h := NewestFirstWith(existing, d);
    forall x ensures x in h <==> x == d || (x in existing && x.author != d.author) {
      assert x in h <==> x in multiset(h);
      assert x in f + [d] <==> x in multiset(f + [d]);
      if x in existing && x.author != d.author {
        var m :| 0 <= m < |existing| && existing[m] == x;
        assert OtherAuthor(d.author)(existing[m]);
      }
    }
  }

  /** Filtering keeps the authors distinct. */
  lemma FilterDistinctAuthors(existing: seq<Doc>, author: string)
    requires forall i, j :: 0 <= i < j < |existing| ==> existing[i].author != existing[j].author
    ensures var f := Filter(existing, OtherAuthor(author));
      forall i, j :: 0 <= i < j < |f| ==> f[i].author != f[j].author
  {
    var f := Filter(existing, OtherAuthor(author));
    var distinct := (x: Doc, y: Doc) => x.author != y.author;
    assert forall i, j :: 0 <= i < j < |existing| ==> distinct(existing[i], existing[j]);
    FilterKeepsOrder(existing, OtherAuthor(author), distinct);
    forall i, j | 0 <= i < j < |f| ensures f[i].author != f[j].author {
      assert distinct(f[i], f[j]);
    }
  }

  lemma NewArrayDistinct(existing: seq<Doc>, d: Doc)
    requires PathArrayShape(existing, d.path)
    ensures var h := NewestFirstWith(existing, d);
      forall i, j :: 0 <= i < j < |h| ==> h[i].author != h[j].author
  {
    var f := Filter(existing, OtherAuthor(d.author));
    var k := NewestFirstWithShape(existing, d);
    FilterDistinctAuthors(existing, d.author);
    DistinctAuthorsAround(f, k, d);
  }

  lemma NewArraySorted(existing: seq<Doc>, d: Doc)
    requires SortedBy(existing, PathAscNewestFirst)
    ensures SortedBy(NewestFirstWith(existing, d), PathAscNewestFirst)
  {
    var f := Filter(existing, OtherAuthor(d.author));
    NewestFirstWithInserts(existing, d);
    PathAscIsTotalPreorder(f + [d]);
    InsertBySorted(f, d, PathAscNewestFirst, f + [d]);
  }

  /** The array `upsert` builds for a path is a valid array holding the new
      document, and only it or the other authors' earlier documents. */
  lemma NewArrayValid(existing: seq<Doc>, d: Doc)
    requires PathArrayShape(existing, d.path)
    ensures var h := NewestFirstWith(existing, d);
      PathArrayValid(h, d.path) && Replacement(existing, d, h)
  {
    var h := NewestFirstWith(existing, d);
    NewArrayMembers(existing, d);
    NewArrayDistinct(existing, d);
    NewArraySorted(existing, d);
    assert forall i :: 0 <= i < |h| ==> h[i] in h;
  }

  /** The copy `upsert` stores: the document with its new local index. */
  function Stamped(doc: Doc, index: int): Doc {
    doc.(localIndex := Some(index))
  }

  /** `docByPathAndAuthor` after `upsert` stores `d`. */
  function PathAndAuthorAfter(byPathAndAuthor: JsMap<Doc>, d: Doc): JsMap<Doc> {
    MapSet(byPathAndAuthor, Combine(d.path, d.author), d)
  }

  /** The array of path `p` in `byPath`, or the empty array. */
  function ArrayAt(byPath: JsMap<seq<Doc>>, p: string): seq<Doc> {
    if p in byPath.entries then byPath.entries[p] else []
  }

  /** `docsByPathNewestFirst` after `upsert` stores `d`. */
  function ByPathAfter(byPath: JsMap<seq<Doc>>, d: Doc): JsMap<seq<Doc>> {
    MapSet(byPath, d.path, NewestFirstWith(ArrayAt(byPath, d.path), d))
  }

  lemma KeysStoredAfter(byPathAndAuthor: JsMap<Doc>, maxLocalIndex: int, doc: Doc)
    requires KeysStored(byPathAndAuthor, maxLocalIndex) && maxLocalIndex >= -1
    requires NoBar(doc.path) && NoBar(doc.author)
    ensures KeysStored(PathAndAuthorAfter(byPathAndAuthor, Stamped(doc, maxLocalIndex + 1)), maxLocalIndex + 1)
  {
    var next := maxLocalIndex + 1;
    var pa := PathAndAuthorAfter(byPathAndAuthor, Stamped(doc, next));
    forall k ensures StoredAt(pa, k, next) {
      assert StoredAt(byPathAndAuthor, k, maxLocalIndex);
    }
  }

  /** The new documents' array replacing path `d.path`'s: it holds `d`,
      and besides it only earlier documents of other authors at that path. */
  ghost predicate Replacement(existing: seq<Doc>, d: Doc, h: seq<Doc>) {
    forall x :: x in h <==> x == d || (x in existing && x.author != d.author)
  }

  lemma ArraysValidAfter(byPath: JsMap<seq<Doc>>, d: Doc, h: seq<Doc>)
    requires ArraysValid(byPath) && PathArrayValid(h, d.path)
    ensures ArraysValid(MapSet(byPath, d.path, h))
  {
    forall p ensures OrderedAt(MapSet(byPath, d.path, h), p) {
      assert OrderedAt(byPath, p);
    }
  }

  lemma AllKeyedAfter(byPathAndAuthor: JsMap<Doc>, byPath: JsMap<seq<Doc>>, maxLocalIndex: int, d: Doc, h: seq<Doc>)
    requires KeysStored(byPathAndAuthor, maxLocalIndex) && ArraysAtPaths(byPath) && AllKeyed(byPathAndAuthor, byPath)
    requires NoBar(d.path) && NoBar(d.author)
    requires Replacement(ArrayAt(byPath, d.path), d, h)
    ensures AllKeyed(PathAndAuthorAfter(byPathAndAuthor, d), MapSet(byPath, d.path, h))
  {
    var pa := PathAndAuthorAfter(byPathAndAuthor, d);
    var bp := MapSet(byPath, d.path, h);
    var existing := ArrayAt(byPath, d.path);
    forall p, i ensures KeyedAt(pa, bp, p, i) {
      if p in bp.entries && 0 <= i < |bp.entries[p]| {
        KeyedAfter(byPathAndAuthor, byPath, maxLocalIndex, d, h, p, i);
      }
    }
  }

  lemma KeyedAfter(byPathAndAuthor: JsMap<Doc>, byPath: JsMap<seq<Doc>>, maxLocalIndex: int, d: Doc, h: seq<Doc>, p: string, i: int)
    requires KeysStored(byPathAndAuthor, maxLocalIndex) && ArraysAtPaths(byPath) && AllKeyed(byPathAndAuthor, byPath)
    requires NoBar(d.path) && NoBar(d.author)
    requires Replacement(ArrayAt(byPath, d.path), d, h)
    requires p in MapSet(byPath, d.path, h).entries && 0 <= i < |MapSet(byPath, d.path, h).entries[p]|
    ensures Keyed(PathAndAuthorAfter(byPathAndAuthor, d), MapSet(byPath, d.path, h).entries[p][i])
  {
    var bp := MapSet(byPath, d.path, h);
    var existing := ArrayAt(byPath, d.path);
    var x := bp.entries[p][i];
    if x != d {
        var g := if p == d.path then existing else byPath.entries[p];
        assert x in g;
        var m :| 0 <= m < |g| && g[m] == x;
        assert KeyedAt(byPathAndAuthor, byPath, p, m);
        var key := Combine(x.path, x.author);
        assert StoredAt(byPathAndAuthor, key, maxLocalIndex);
        assert x.path != d.path || x.author != d.author;
        if key == Combine(d.path, d.author) {
          CombineInjective(x.path, x.author, d.path, d.author);
        }
    }
  }

  lemma AllListedAfter(byPathAndAuthor: JsMap<Doc>, byPath: JsMap<seq<Doc>>, maxLocalIndex: int, d: Doc, h: seq<Doc>)
    requires KeysStored(byPathAndAuthor, maxLocalIndex) && AllListed(byPathAndAuthor, byPath)
    requires Replacement(ArrayAt(byPath, d.path), d, h)
    ensures AllListed(PathAndAuthorAfter(byPathAndAuthor, d), MapSet(byPath, d.path, h))
  {
    var pa := PathAndAuthorAfter(byPathAndAuthor, d);
    var bp := MapSet(byPath, d.path, h);
    var key := Combine(d.path, d.author);
    forall k | k in pa.entries ensures Listed(bp, pa.entries[k]) {
      if k != key {
        var v := byPathAndAuthor.entries[k];
        assert StoredAt(byPathAndAuthor, k, maxLocalIndex) && Listed(byPath, v);
        assert v.path == d.path ==> v.author != d.author;
      }
    }
  }

  /** `upsert` keeps the two indexes consistent, with the index it issues. */
  lemma UpsertKeepsConsistent(byPathAndAuthor: JsMap<Doc>, byPath: JsMap<seq<Doc>>, maxLocalIndex: int, doc: Doc)
    requires Consistent(byPathAndAuthor, byPath, maxLocalIndex)
    requires maxLocalIndex >= -1
    requires NoBar(doc.path) && NoBar(doc.author)
    ensures var d := Stamped(doc, maxLocalIndex + 1);
      Consistent(PathAndAuthorAfter(byPathAndAuthor, d), ByPathAfter(byPath, d), maxLocalIndex + 1)
  {
    var d := Stamped(doc, maxLocalIndex + 1);
    var h := NewestFirstWith(ArrayAt(byPath, d.path), d);
    assert OrderedAt(byPath, d.path);
    NewArrayValid(ArrayAt(byPath, d.path), d);
    KeysStoredAfter(byPathAndAuthor, maxLocalIndex, doc);
    ArraysValidAfter(byPath, d, h);
    AllKeyedAfter(byPathAndAuthor, byPath, maxLocalIndex, d, h);
    AllListedAfter(byPathAndAuthor, byPath, maxLocalIndex, d, h);
  }

  /** After `upsert`, its copy is the document stored under its key, even
      when the author's earlier document at that path was newer; its path's
      array holds it, keeps the other authors' documents, and holds nothing
      else. */
  lemma UpsertReplaces(byPathAndAuthor: JsMap<Doc>, byPath: JsMap<seq<Doc>>, maxLocalIndex: int, doc: Doc)
    requires Consistent(byPathAndAuthor, byPath, maxLocalIndex)
    ensures var d := Stamped(doc, maxLocalIndex + 1);
      var h := ByPathAfter(byPath, d).entries[d.path];
      && Keyed(PathAndAuthorAfter(byPathAndAuthor, d), d)
      && d in h
      && (forall x :: x in h ==> x == d || (x in ArrayAt(byPath, d.path) && x.author != d.author))
      && (forall x :: x in ArrayAt(byPath, d.path) && x.author != d.author ==> x in h)
  {
    var d := Stamped(doc, maxLocalIndex + 1);
    NewArrayMembers(ArrayAt(byPath, d.path), d);
  }

  // ---------------------------------------------------------------------
  // Queries

  /** `query.startAfter`. */
  datatype StartAfter = StartAfter(path: Option<string>, localIndex: Option<int>)

  /** A query as `cleanUpQuery` returns it. The filter is given as the
      predicate `docMatchesFilter(·, filter)`. */
  datatype Query = Query(
    historyMode: string,
    orderBy: string,
    startAfter: Option<StartAfter>,
    limit: Option<int>,
    filter: Option<Doc -> bool>)

  datatype WillMatch = MatchAll | MatchSome | MatchNothing

  /** What `cleanUpQuery` returns; it is given to `queryWithState`. */
  datatype CleanQuery = CleanQuery(query: Query, willMatch: WillMatch)

  datatype QueryResult = QueryResult(docs: seq<Doc>, maxLocalIndex: int)

  /** The `orderBy` values `queryWithState` knows. */
  predicate KnownOrder(orderBy: string) {
    orderBy == "path ASC" || orderBy == "path DESC" || orderBy == "localIndex ASC" || orderBy == "localIndex DESC"
  }

  /** The comparator `queryWithState` sorts with for an order. */
  function OrderComparator(orderBy: string): (Doc, Doc) -> int
    requires KnownOrder(orderBy)
  {
    if orderBy == "path ASC" then PathAscNewestFirst
    else if orderBy == "path DESC" then PathDescNewestFirst
    else if orderBy == "localIndex ASC" then LocalIndexAsc
    else LocalIndexDesc
  }

  lemma OrderIsTotalPreorder(orderBy: string, u: seq<Doc>)
    requires KnownOrder(orderBy)
    ensures TotalPreorderOn(OrderComparator(orderBy), u)
  {
    if orderBy == "path ASC" {
      PathAscIsTotalPreorder(u);
    } else if orderBy == "path DESC" {
      PathDescIsTotalPreorder(u);
    } else {
      LocalIndexIsTotalPreorder(u);
    }
  }

  /** The document lies past the cursor in the query's order. */
  predicate AfterCursor(q: Query, d: Doc) {
    match q.startAfter
    case None => true
    case Some(sa) =>
      if q.orderBy == "path ASC" then sa.path.None? || !LessEq(d.path, sa.path.value)
      else if q.orderBy == "path DESC" then sa.path.None? || !LessEq(sa.path.value, d.path)
      else if q.orderBy == "localIndex ASC" then sa.localIndex.None? || !(IndexOrZero(d) <= sa.localIndex.value)
      else if q.orderBy == "localIndex DESC" then sa.localIndex.None? || !(IndexOrZero(d) >= sa.localIndex.value)
      else true
  }

  /** The loop of `queryWithState` keeps the document: past the cursor and
      matching the filter. */
  predicate Wanted(q: Query, d: Doc) {
    AfterCursor(q, d) && (q.filter.None? || q.filter.value(d))
  }

  function WantedBy(q: Query): Doc -> bool {
    (d: Doc) => Wanted(q, d)
  }

  /** How many documents the loop stops at: it checks the limit only after
      pushing, so a limit below 1 still lets one document through. */
  function LimitCount(limit: int): (n: int)
    ensures n >= 1 && (limit >= 1 ==> n == limit)
  {
    if limit >= 1 then limit else 1
  }

  /** The documents `queryWithState` returns from the sorted `docs`. */
  function Selected(q: Query, sorted: seq<Doc>): seq<Doc> {
    var wanted := Filter(sorted, WantedBy(q));
    if q.limit.Some? && |wanted| > LimitCount(q.limit.value) then wanted[..LimitCount(q.limit.value)]
    else wanted
  }

  /** `Selected` keeps a prefix of the wanted documents: at most the
      limit's count of them, and all of them when there is no limit. */
  lemma SelectedPrefix(q: Query, sorted: seq<Doc>)
    ensures var w := Filter(sorted, WantedBy(q)); var r := Selected(q, sorted);
      && |r| <= |w| && r == w[..|r|]
      && (q.limit.Some? ==> |r| <= LimitCount(q.limit.value))
      && (q.limit.None? ==> r == w)
  {
  }

  /** The selected documents are wanted, and in the order of `sorted`. */
  lemma SelectedInOrder(q: Query, sorted: seq<Doc>, cmp: (Doc, Doc) -> int)
    requires SortedBy(sorted, cmp)
    ensures var r := Selected(q, sorted);
      && (forall i :: 0 <= i < |r| ==> Wanted(q, r[i]))
      && IsSubsequence(r, sorted)
      && SortedBy(r, cmp)
  {
    var w := Filter(sorted, WantedBy(q));
    var r := Selected(q, sorted);
    SelectedPrefix(q, sorted);
    FilterSortedBy(sorted, WantedBy(q), cmp);
    FilterIsSubsequence(sorted, WantedBy(q));
    SubsequencePrefix(w, sorted, |r|);
    assert forall i :: 0 <= i < |r| ==> r[i] == w[i] && WantedBy(q)(w[i]);
  }

  /** What the results of a query promise: each is past the cursor and
      matches the filter; in order they are a subsequence of the sorted
      documents and stay sorted; there are at most `limit` of them for a
      limit of at least 1, and at most one for a smaller limit; without a
      limit, every wanted document is there. */
  lemma SelectedMeaning(q: Query, docs: seq<Doc>)
    requires KnownOrder(q.orderBy)
    ensures var sorted := SortBy(docs, OrderComparator(q.orderBy));
      var r := Selected(q, sorted);
      && (forall i :: 0 <= i < |r| ==> Wanted(q, r[i]))
      && IsSubsequence(r, sorted)
      && SortedBy(r, OrderComparator(q.orderBy))
      && (q.limit.Some? && q.limit.value >= 1 ==> |r| <= q.limit.value)
      && (q.limit.Some? && q.limit.value < 1 ==> |r| <= 1)
      && (q.limit.None? ==> forall i :: 0 <= i < |sorted| && Wanted(q, sorted[i]) ==> sorted[i] in r)
  {
    var cmp := OrderComparator(q.orderBy);
    OrderIsTotalPreorder(q.orderBy, docs);
    SortBySorted(docs, cmp);
    var sorted := SortBy(docs, cmp);
    SelectedInOrder(q, sorted, cmp);
    SelectedPrefix(q, sorted);
    assert forall i :: 0 <= i < |sorted| && Wanted(q, sorted[i]) ==> WantedBy(q)(sorted[i]);
  }

  /** Each cursor in words: past the path for path orders, past the
      local index (a missing one read as 0) for local-index orders. */
  lemma CursorMeaning(q: Query, d: Doc)
    requires Wanted(q, d) && q.startAfter.Some?
    ensures q.orderBy == "path ASC" && q.startAfter.value.path.Some? ==> Less(q.startAfter.value.path.value, d.path)
    ensures q.orderBy == "path DESC" && q.startAfter.value.path.Some? ==> Less(d.path, q.startAfter.value.path.value)
    ensures q.orderBy == "localIndex ASC" && q.startAfter.value.localIndex.Some? ==>
      IndexOrZero(d) > q.startAfter.value.localIndex.value
    ensures q.orderBy == "localIndex DESC" && q.startAfter.value.localIndex.Some? ==>
      IndexOrZero(d) < q.startAfter.value.localIndex.value
  {
  }

  /** One step of the query loop. */
  lemma SelectStep(q: Query, sorted: seq<Doc>, i: nat)
    requires i < |sorted|
    ensures Filter(sorted[..i + 1], WantedBy(q)) ==
      Filter(sorted[..i], WantedBy(q)) + (if Wanted(q, sorted[i]) then [sorted[i]] else [])
  {
    assert sorted[..i + 1] == sorted[..i] + [sorted[i]];
    FilterAppend(sorted[..i], [sorted[i]], WantedBy(q));
    assert [sorted[i]][1..] == [];
  }

  /** When the loop ends, by the limit or at the end of the array, what it
      kept is what `Selected` says. */
  lemma SelectEnd(q: Query, sorted: seq<Doc>, i: nat, done: bool)
    requires i <= |sorted|
    requires !done ==> i == |sorted|
    requires !done && q.limit.Some? ==> |Filter(sorted[..i], WantedBy(q))| < LimitCount(q.limit.value)
    requires done ==> q.limit.Some? && |Filter(sorted[..i], WantedBy(q))| == LimitCount(q.limit.value)
    ensures Filter(sorted[..i], WantedBy(q)) == Selected(q, sorted)
  {
    assert sorted == sorted[..i] + sorted[i..];
    FilterAppend(sorted[..i], sorted[i..], WantedBy(q));
    if !done {
      assert sorted[..i] == sorted;
    }
  }

  /** The driver's invariant: consistent indexes, every stored document
      carrying an index in `0..maxLocalIndex`, and `maxLocalIndex` never
      below its initial -1. */
  ghost predicate StoreValid(byPathAndAuthor: JsMap<Doc>, byPath: JsMap<seq<Doc>>, maxLocalIndex: int) {
    Consistent(byPathAndAuthor, byPath, maxLocalIndex) && maxLocalIndex >= -1
  }

  /** `upsert` keeps the invariant, issuing the next local index. */
  lemma UpsertKeepsValid(byPathAndAuthor: JsMap<Doc>, byPath: JsMap<seq<Doc>>, maxLocalIndex: int, doc: Doc)
    requires StoreValid(byPathAndAuthor, byPath, maxLocalIndex)
    requires NoBar(doc.path) && NoBar(doc.author)
    ensures var d := Stamped(doc, maxLocalIndex + 1);
      StoreValid(PathAndAuthorAfter(byPathAndAuthor, d), ByPathAfter(byPath, d), maxLocalIndex + 1)
  {
    UpsertKeepsConsistent(byPathAndAuthor, byPath, maxLocalIndex, doc);
  }

  /** `UpsertKeepsValid`, about the new state given by its parts. */
  lemma UpsertGives(byPathAndAuthor: JsMap<Doc>, byPath: JsMap<seq<Doc>>, maxLocalIndex: int, doc: Doc,
                    byPathAndAuthor': JsMap<Doc>, byPath': JsMap<seq<Doc>>, maxLocalIndex': int)
    requires StoreValid(byPathAndAuthor, byPath, maxLocalIndex)
    requires NoBar(doc.path) && NoBar(doc.author)
    requires maxLocalIndex' == maxLocalIndex + 1
    requires byPathAndAuthor' == PathAndAuthorAfter(byPathAndAuthor, Stamped(doc, maxLocalIndex'))
    requires byPath' == ByPathAfter(byPath, Stamped(doc, maxLocalIndex'))
    ensures StoreValid(byPathAndAuthor', byPath', maxLocalIndex')
  {
    UpsertKeepsValid(byPathAndAuthor, byPath, maxLocalIndex, doc);
  }

  // ---------------------------------------------------------------------
  // The driver

  class StorageDriverAsyncMemory {
    const workspace: string
    var maxLocalIndex: int
    var closed: bool
    var configKv: map<string, string>
    var docByPathAndAuthor: JsMap<Doc>
    var docsByPathNewestFirst: JsMap<seq<Doc>>

    ghost predicate Valid()
      reads this
    {
      StoreValid(docByPathAndAuthor, docsByPathNewestFirst, maxLocalIndex)
    }

    constructor (workspace: string)
      ensures Valid() && this.workspace == workspace
      ensures maxLocalIndex == -1 && !closed && configKv == map[]
      ensures docByPathAndAuthor.entries == map[] && docsByPathNewestFirst.entries == map[]
    {
      this.workspace := workspace;
      maxLocalIndex := -1;
      closed := false;
      configKv := map[];
      docByPathAndAuthor := EmptyMap();
      docsByPathNewestFirst := EmptyMap();
    }

    /** `isClosed()`. */
    method IsClosed() returns (r: bool)
      ensures r == closed
    {
      return closed;
    }

    /** `close()`: there is no way back. */
    method Close()
      modifies this`closed
      ensures closed
    {
      closed := true;
    }

    /** `getConfig(key)`; the configuration is reachable even when closed. */
    method GetConfig(key: string) returns (r: Option<string>)
      ensures r == if key in configKv then Some(configKv[key]) else None
    {
      return if key in configKv then Some(configKv[key]) else None;
    }

    /** `setConfig(key, value)`. */
    method SetConfig(key: string, value: string)
      modifies this`configKv
      ensures configKv == old(configKv)[key := value]
    {
      configKv := configKv[key := value];
    }

    /** `listConfigKeys()`: the keys in ascending order, once each. */
    method ListConfigKeys() returns (r: seq<string>)
      ensures StrictlySorted(r)
      ensures forall k :: k in r <==> k in configKv
    {
      return SortedKeys(configKv.Keys);
    }

    /** `deleteConfig(key)`: whether the key was there; only it is removed. */
    method DeleteConfig(key: string) returns (had: bool)
      modifies this`configKv
      ensures had == (key in old(configKv))
      ensures configKv == old(configKv) - {key}
    {
      had := key in configKv;
      configKv := configKv - {key};
    }

    /** `getMaxLocalIndex()`: the last index issued, -1 before the first;
        every stored document carries an index no greater. */
    method GetMaxLocalIndex() returns (r: Result<int>)
      requires Valid()
      ensures r == if closed then Failure(StorageIsClosedError) else Success(maxLocalIndex)
      ensures r.Success? ==> r.value >= -1
      ensures r.Success? ==> forall k :: k in docByPathAndAuthor.entries ==>
        docByPathAndAuthor.entries[k].localIndex.Some? && 0 <= docByPathAndAuthor.entries[k].localIndex.value <= r.value
    {
      if closed {
        return Failure(StorageIsClosedError);
      }
      forall k | k in docByPathAndAuthor.entries
        ensures docByPathAndAuthor.entries[k].localIndex.Some? && 0 <= docByPathAndAuthor.entries[k].localIndex.value <= maxLocalIndex
      {
        assert StoredAt(docByPathAndAuthor, k, maxLocalIndex);
      }
      return Success(maxLocalIndex);
    }

    /** `_getAllDocs()`: every stored document once, in the order the keys were first stored. */
    method GetAllDocs() returns (r: Result<seq<Doc>>)
      requires Valid()
      ensures closed ==> r == Failure(StorageIsClosedError)
      ensures !closed ==> r == Success(MapValues(docByPathAndAuthor))
    {
      if closed {
        return Failure(StorageIsClosedError);
      }
      return Success(MapValues(docByPathAndAuthor));
    }

    /** `_getLatestDocs()`: the newest document of each path. */
    method GetLatestDocs() returns (r: Result<seq<Doc>>)
      requires Valid()
      ensures closed ==> r == Failure(StorageIsClosedError)
      ensures !closed ==> r == Success(LatestDocs(docsByPathNewestFirst))
    {
      if closed {
        return Failure(StorageIsClosedError);
      }
      var docs: seq<Doc> := [];
      var keys := docsByPathNewestFirst.keys;
      ghost var latest := LatestDocs(docsByPathNewestFirst);
      var i := 0;
      while i < |keys|
        invariant 0 <= i <= |keys|
        invariant docs == latest[..i]
      {
        var docArray := docsByPathNewestFirst.entries[keys[i]];
        assert latest[..i + 1] == latest[..i] + [docArray[0]];
        docs := docs + [docArray[0]];
        i := i + 1;
      }
      assert latest[..i] == latest;
      return Success(docs);
    }

    /** `queryWithState(query)`, given what `cleanUpQuery(query)` returns. */
    method QueryWithState(cleaned: CleanQuery) returns (r: Result<QueryResult>)
      requires Valid()
      ensures closed ==> r == Failure(StorageIsClosedError)
      ensures !closed && cleaned.willMatch == MatchNothing ==> r == Success(QueryResult([], maxLocalIndex))
      ensures !closed && cleaned.willMatch != MatchNothing && !KnownOrder(cleaned.query.orderBy) ==>
        r == Failure(ValidationError("unrecognized query orderBy: " + JsonString(cleaned.query.orderBy)))
      ensures !closed && cleaned.willMatch != MatchNothing && KnownOrder(cleaned.query.orderBy) ==>
        var q := cleaned.query;
        var source := if q.historyMode == "all" then MapValues(docByPathAndAuthor) else LatestDocs(docsByPathNewestFirst);
        r == Success(QueryResult(Selected(q, SortBy(source, OrderComparator(q.orderBy))), maxLocalIndex))
    {
      if closed {
        return Failure(StorageIsClosedError);
      }
      var q := cleaned.query;
      if cleaned.willMatch == MatchNothing {
        var m := GetMaxLocalIndex();
        return Success(QueryResult([], m.value));
      }
      var fetched: Result<seq<Doc>>;
      if q.historyMode == "all" {
        fetched := GetAllDocs();
      } else {
        fetched := GetLatestDocs();
      }
      var docs := fetched.value;
      if !KnownOrder(q.orderBy) {
        return Failure(ValidationError("unrecognized query orderBy: " + JsonString(q.orderBy)));
      }
      docs := SortBy(docs, OrderComparator(q.orderBy));
      var filteredDocs: seq<Doc> := [];
      var i := 0;
      var done := false;
      while i < |docs| && !done
        invariant 0 <= i <= |docs|
        invariant filteredDocs == Filter(docs[..i], WantedBy(q))
        invariant !done && q.limit.Some? ==> |filteredDocs| < LimitCount(q.limit.value)
        invariant done ==> q.limit.Some? && |filteredDocs| == LimitCount(q.limit.value)
      {
        SelectStep(q, docs, i);
        var doc := docs[i];
        if Wanted(q, doc) {
          filteredDocs := filteredDocs + [doc];
          if q.limit.Some? && |filteredDocs| >= q.limit.value {
            done := true;
          }
        }
        i := i + 1;
      }
      SelectEnd(q, docs, i, done);
      var m := GetMaxLocalIndex();
      return Success(QueryResult(filteredDocs, m.value));
    }

    /** `queryDocs(query)`: the documents of `queryWithState`. */
    method QueryDocs(cleaned: CleanQuery) returns (r: Result<seq<Doc>>)
      requires Valid()
      ensures closed ==> r == Failure(StorageIsClosedError)
      ensures !closed && cleaned.willMatch == MatchNothing ==> r == Success([])
      ensures !closed && cleaned.willMatch != MatchNothing && KnownOrder(cleaned.query.orderBy) ==>
        var q := cleaned.query;
        var source := if q.historyMode == "all" then MapValues(docByPathAndAuthor) else LatestDocs(docsByPathNewestFirst);
        r == Success(Selected(q, SortBy(source, OrderComparator(q.orderBy))))
      ensures !closed && cleaned.willMatch != MatchNothing && !KnownOrder(cleaned.query.orderBy) ==>
        r == Failure(ValidationError("unrecognized query orderBy: " + JsonString(cleaned.query.orderBy)))
    {
      var result := QueryWithState(cleaned);
      if result.Failure? {
        return Failure(result.error);
      }
      return Success(result.value.docs);
    }

    /** `upsert(doc)`: stores a copy stamped with the next local index,
        replacing the author's document at the path even if it is newer.
        Path and author must not contain the separator `|`. */
    method Upsert(doc: Doc) returns (r: Result<Doc>)
      requires Valid()
      requires NoBar(doc.path) && NoBar(doc.author)
      modifies this`maxLocalIndex, this`docByPathAndAuthor, this`docsByPathNewestFirst
      ensures Valid()
      ensures old(closed) ==> r == Failure(StorageIsClosedError) && unchanged(this)
      ensures !old(closed) ==>
        var d := Stamped(doc, old(maxLocalIndex) + 1);
        && r == Success(d)
        && maxLocalIndex == old(maxLocalIndex) + 1
        && docByPathAndAuthor == PathAndAuthorAfter(old(docByPathAndAuthor), d)
        && docsByPathNewestFirst == ByPathAfter(old(docsByPathNewestFirst), d)
    {
      if closed {
        return Failure(StorageIsClosedError);
      }
      var d := Stamped(doc, maxLocalIndex + 1);
      maxLocalIndex, docByPathAndAuthor, docsByPathNewestFirst :=
        maxLocalIndex + 1,
        PathAndAuthorAfter(docByPathAndAuthor, d), ByPathAfter(docsByPathNewestFirst, d);
      UpsertGives(old(docByPathAndAuthor), old(docsByPathNewestFirst), old(maxLocalIndex), doc,
                  docByPathAndAuthor, docsByPathNewestFirst, maxLocalIndex);
      return Success(d);
    }
  }
}
