/** The original synchronous in-memory document store, `StorageMemory` of
    `src/storage/memory.ts`.

    It keeps, for every path, at most one document per author; which of a
    path's documents wins is decided when it is read, by `_historySortFn`
    (newest timestamp first, the greater signature breaking ties). The
    pure reads (`paths`, `getDocument`, `getValue`) are functions of the
    stored documents; `documents`, `values` and `authors` are methods with
    the source's loops, each proved equal to a specification function;
    `ingestDocument`, `set`, `_syncFrom` and `sync` change the store. */
module MemoryStorage {
  import opened Common
  import opened Strings
  import opened Arrays

  /** A signed document. Timestamps are microseconds since the epoch, so
      never negative. */
  datatype Doc = Doc(
    format: string,
    workspace: string,
    path: string,
    value: string,
    author: string,
    timestamp: nat,
    signature: string)

  /** An author's address and secret key. */
  datatype Keypair = Keypair(address: string, secret: string)

  /** What a caller of `set` provides; the timestamp is optional. */
  datatype DocToSet = DocToSet(format: string, path: string, value: string, timestamp: Option<int>)

  /** A document format's validator. Checking a document and signing one
      are cryptography outside this model, so both are given as functions:
      `documentIsValid(doc, futureCutoff)` and `signDocument(keypair, doc)`. */
  datatype Validator = Validator(
    format: string,
    documentIsValid: (Doc, Option<int>) -> bool,
    signDocument: (Keypair, Doc) -> Doc)

  /** The options of `paths`, `documents` and `values`; every one may be
      missing. `includeHistory` is true only when it was given as `true`. */
  datatype QueryOpts = QueryOpts(
    path: Option<string>,
    lowPath: Option<string>,
    highPath: Option<string>,
    pathPrefix: Option<string>,
    limit: Option<int>,
    includeHistory: bool)

  /** `{}` as a query. */
  const NoQuery := QueryOpts(None, None, None, None, None, false)

  /** `{ includeHistory: true }` as a query. */
  const HistoryQuery := NoQuery.(includeHistory := true)

  datatype SyncOpts = SyncOpts(direction: Option<string>, existing: Option<bool>, live: Option<bool>)

  datatype SyncResults = SyncResults(numPushed: nat, numPulled: nat)

  /** The message thrown by `_syncFrom` for a live sync. */
  const LiveSyncMessage := "live sync not implemented yet"

  /** The stored documents, `_docs`: for each path, its documents in the
      order their authors were first stored there, which is the order
      `Object.values(_docs[path])` lists them in. */
  type Docs = map<string, seq<Doc>>

  // ---------------------------------------------------------------------
  // The winner ordering

  /** `_historySortFn(a, b)`: negative when `a` sorts first. */
  function HistoryCompare(a: Doc, b: Doc): int {
    if a.timestamp < b.timestamp then 1
    else if a.timestamp > b.timestamp then -1
    else if Less(a.signature, b.signature) then 1
    else if Less(b.signature, a.signature) then -1
    else 0
  }

  /** `a` is at least as new as `b`: a later timestamp, or the same one and
      a signature that is not smaller. */
  predicate NewerOrSame(a: Doc, b: Doc) {
    a.timestamp > b.timestamp || (a.timestamp == b.timestamp && !Less(a.signature, b.signature))
  }

  /** The comparator is -1 exactly when `a` has the greater timestamp, or
      the same one and the greater signature; 0 exactly when both
      timestamp and signature are equal; and it is antisymmetric. */
  lemma HistoryCompareMeaning(a: Doc, b: Doc)
    ensures HistoryCompare(a, b) == -1 <==>
      a.timestamp > b.timestamp || (a.timestamp == b.timestamp && Less(b.signature, a.signature))
    ensures HistoryCompare(a, b) == 0 <==> a.timestamp == b.timestamp && a.signature == b.signature
    ensures HistoryCompare(a, b) == -HistoryCompare(b, a)
    ensures HistoryCompare(a, b) <= 0 <==> NewerOrSame(a, b)
  {
    LessAsymmetric(a.signature, b.signature);
    LessTrichotomy(a.signature, b.signature);
    LessIrreflexive(a.signature);
  }

  lemma NewerOrSameTransitive(a: Doc, b: Doc, c: Doc)
    ensures NewerOrSame(a, b) && NewerOrSame(b, c) ==> NewerOrSame(a, c)
  {
    LessTrichotomy(a.signature, b.signature);
    LessTransitive(b.signature, a.signature, c.signature);
  }

  /** The comparator is a total preorder, which is what makes the sorts
      below well defined. */
  lemma HistoryCompareIsTotalPreorder(u: seq<Doc>)
    ensures TotalPreorderOn(HistoryCompare, u)
  {
    forall a, b | a in u && b in u
      ensures HistoryCompare(a, b) <= 0 || HistoryCompare(b, a) <= 0
    {
      HistoryCompareMeaning(a, b);
    }
    forall a, b, c | a in u && b in u && c in u && HistoryCompare(a, b) <= 0 && HistoryCompare(b, c) <= 0
      ensures HistoryCompare(a, c) <= 0
    {
      HistoryCompareMeaning(a, b);
      HistoryCompareMeaning(b, c);
      HistoryCompareMeaning(a, c);
      NewerOrSameTransitive(a, b, c);
    }
  }

  /** `Object.values(_docs[path]).sort(_historySortFn)`: the same documents,
      newest first. */
  function SortedHistory(h: seq<Doc>): (r: seq<Doc>)
    ensures multiset(r) == multiset(h)
    ensures forall i, j :: 0 <= i < j < |r| ==> NewerOrSame(r[i], r[j])
  {
    HistoryCompareIsTotalPreorder(h);
    SortBySorted(h, HistoryCompare);
    var r := SortBy(h, HistoryCompare);
    assert forall i, j :: 0 <= i < j < |r| ==> NewerOrSame(r[i], r[j]) by {
      forall i, j | 0 <= i < j < |r| ensures NewerOrSame(r[i], r[j]) {
        HistoryCompareMeaning(r[i], r[j]);
      }
    }
    r
  }

  /** The winning document of a path: one of its documents, and at least
      as new as every other by (timestamp, signature). */
  function Winner(h: seq<Doc>): (w: Doc)
    requires |h| > 0
    ensures w in h
    ensures forall i :: 0 <= i < |h| ==> NewerOrSame(w, h[i])
  {
    var r := SortedHistory(h);
    assert r[0] in multiset(h);
    assert forall i :: 0 <= i < |h| ==> NewerOrSame(r[0], h[i]) by {
      forall i | 0 <= i < |h| ensures NewerOrSame(r[0], h[i]) {
        assert h[i] in multiset(r);
        var j :| 0 <= j < |r| && r[j] == h[i];
        LessIrreflexive(r[0].signature);
      }
    }
    r[0]
  }

  // ---------------------------------------------------------------------
  // The store's invariant and its nested-map view

  /** No two documents of `h` have the same author. */
  ghost predicate AuthorsDistinct(h: seq<Doc>) {
    forall i, j :: 0 <= i < j < |h| ==> h[i].author != h[j].author
  }

  /** The documents of one path: never none, all at that path, one per
      author. */
  ghost predicate HistoryValid(h: seq<Doc>, path: string) {
    && |h| > 0
    && (forall i :: 0 <= i < |h| ==> h[i].path == path)
    && AuthorsDistinct(h)
  }

  ghost predicate DocsValid(docs: Docs) {
    forall p :: p in docs ==> HistoryValid(docs[p], p)
  }

  /** Every stored document belongs to the workspace. */
  ghost predicate InWorkspace(docs: Docs, workspace: string) {
    forall p :: p in docs ==> forall i :: 0 <= i < |docs[p]| ==> docs[p][i].workspace == workspace
  }

  /** `h[author]`: that author's document in one path's documents. */
  function AuthorDoc(h: seq<Doc>, author: string): (r: Option<Doc>)
    ensures r.Some? ==> r.value in h && r.value.author == author
    ensures r.None? ==> forall i :: 0 <= i < |h| ==> h[i].author != author
  {
    if h == [] then None
    else if h[0].author == author then Some(h[0])
    else AuthorDoc(h[1..], author)
  }

  /** `_docs[path][author]`. */
  function DocBy(docs: Docs, path: string, author: string): Option<Doc> {
    if path in docs then AuthorDoc(docs[path], author) else None
  }

  /** `existingDocsByKey[doc.author] = doc`: the author's document is
      replaced where it stands, or the document is appended for an author
      new to the path. */
  function Put(h: seq<Doc>, doc: Doc): (r: seq<Doc>)
    ensures doc in r
    ensures forall i :: 0 <= i < |r| ==> r[i] == doc || r[i] in h
    ensures forall a :: AuthorDoc(r, a) == if a == doc.author then Some(doc) else AuthorDoc(h, a)
  {
    if h == [] then [doc]
    else if h[0].author == doc.author then
      assert forall i :: 1 <= i < |h| ==> h[i] == h[1..][i - 1];
      [doc] + h[1..]
    else
      var rest := Put(h[1..], doc);
      var r := [h[0]] + rest;
      assert forall i :: 1 <= i < |r| ==> r[i] == rest[i - 1];
      ConsAuthorDoc(h, doc, rest);
      r
  }

  /** `Put` keeps a path's documents at that path and one per author. */
  lemma {:induction false} PutKeepsHistory(h: seq<Doc>, doc: Doc)
    requires (forall i :: 0 <= i < |h| ==> h[i].path == doc.path) && AuthorsDistinct(h)
    ensures HistoryValid(Put(h, doc), doc.path)
    decreases |h|
  {
    if h != [] {
      assert forall i :: 0 <= i < |h[1..]| ==> h[1..][i] == h[i + 1];
      if h[0].author == doc.author {
        var r := [doc] + h[1..];
        assert forall i :: 1 <= i < |r| ==> r[i] == h[i];
      } else {
        PutKeepsHistory(h[1..], doc);
        ConsHistoryValid(h, doc, Put(h[1..], doc));
      }
    }
  }

  /** Putting back the first document of `h`, whose author differs from
      `doc`'s, in front of the rest keeps the author lookup of `Put`. */
  lemma ConsAuthorDoc(h: seq<Doc>, doc: Doc, rest: seq<Doc>)
    requires h != [] && h[0].author != doc.author
    requires forall a :: AuthorDoc(rest, a) == if a == doc.author then Some(doc) else AuthorDoc(h[1..], a)
    ensures forall a :: AuthorDoc([h[0]] + rest, a) == if a == doc.author then Some(doc) else AuthorDoc(h, a)
  {
    var r := [h[0]] + rest;
    assert r[1..] == rest;
  }

  /** Putting back the first document of `h`, whose author differs from
      `doc`'s, in front of the rest keeps one document per author. */
  lemma ConsHistoryValid(h: seq<Doc>, doc: Doc, rest: seq<Doc>)
    requires h != [] && h[0].author != doc.author
    requires (forall i :: 0 <= i < |h| ==> h[i].path == doc.path) && AuthorsDistinct(h)
    requires HistoryValid(rest, doc.path)
    requires forall i :: 0 <= i < |rest| ==> rest[i] == doc || rest[i] in h[1..]
    ensures HistoryValid([h[0]] + rest, doc.path)
  {
    var r := [h[0]] + rest;
    assert forall i :: 1 <= i < |r| ==> r[i] == rest[i - 1];
    forall k | 0 <= k < |rest| ensures rest[k].author != h[0].author {
      if rest[k] != doc {
        var m :| 0 <= m < |h[1..]| && h[1..][m] == rest[k];
        assert h[m + 1] == rest[k];
      }
    }
  }

  /** The store after accepting `doc`: `_docs[doc.path][doc.author] = doc`,
      every other (path, author) entry as it was. */
  function Ingested(docs: Docs, doc: Doc): (r: Docs)
    ensures r.Keys == docs.Keys + {doc.path}
    ensures forall p, a :: DocBy(r, p, a) == if p == doc.path && a == doc.author then Some(doc) else DocBy(docs, p, a)
    ensures forall p :: p in docs && p != doc.path ==> r[p] == docs[p]
    ensures DocsValid(docs) ==> DocsValid(r)
    ensures InWorkspace(docs, doc.workspace) ==> InWorkspace(r, doc.workspace)
  {
    var h := if doc.path in docs then docs[doc.path] else [];
    var r := docs[doc.path := Put(h, doc)];
    assert DocsValid(docs) ==> DocsValid(r) by {
      if DocsValid(docs) { PutKeepsHistory(h, doc); }
    }
    assert InWorkspace(docs, doc.workspace) ==> InWorkspace(r, doc.workspace) by {
      if InWorkspace(docs, doc.workspace) {
        forall p | p in r ensures forall i :: 0 <= i < |r[p]| ==> r[p][i].workspace == doc.workspace {
          if p == doc.path {
            forall i | 0 <= i < |r[p]| ensures r[p][i].workspace == doc.workspace {
              if r[p][i] != doc {
                var m :| 0 <= m < |h| && h[m] == r[p][i];
              }
            }
          }
        }
      }
    }
    r
  }

  // ---------------------------------------------------------------------
  // Reads

  /** The path filters of a query other than `path` and `limit`: the range
      `[lowPath, highPath)` when both bounds are given, and the prefix. */
  predicate PathMatches(q: QueryOpts, k: string) {
    && (q.lowPath.Some? && q.highPath.Some? ==> LessEq(q.lowPath.value, k) && Less(k, q.highPath.value))
    && (q.pathPrefix.Some? ==> StartsWith(k, q.pathPrefix.value))
  }

  /** The limit of a query takes effect when it is truthy: present and not 0. */
  predicate HasLimit(q: QueryOpts) {
    q.limit.Some? && q.limit.value != 0
  }

  /** `keys.filter(k => lowPath <= k && k < highPath)` when both bounds are
      given. */
  function RangeFilter(keys: seq<string>, q: QueryOpts): (r: seq<string>)
    requires StrictlySorted(keys)
    ensures StrictlySorted(r)
    ensures forall k :: k in r <==>
      (k in keys && (q.lowPath.Some? && q.highPath.Some? ==> LessEq(q.lowPath.value, k) && Less(k, q.highPath.value)))
  {
    if q.lowPath.Some? && q.highPath.Some? then
      var low, high := q.lowPath.value, q.highPath.value;
      var inRange := k => LessEq(low, k) && Less(k, high);
      FilterStrictlySorted(keys, inRange);
      var r := Filter(keys, inRange);
      assert forall k :: k in keys && LessEq(low, k) && Less(k, high) ==> k in r by {
        forall k | k in keys && LessEq(low, k) && Less(k, high) ensures k in r {
          var i :| 0 <= i < |keys| && keys[i] == k;
        }
      }
      r
    else keys
  }

  /** `keys.filter(k => k.startsWith(pathPrefix))` when a prefix is given. */
  function PrefixFilter(keys: seq<string>, q: QueryOpts): (r: seq<string>)
    requires StrictlySorted(keys)
    ensures StrictlySorted(r)
    ensures forall k :: k in r <==> k in keys && (q.pathPrefix.Some? ==> StartsWith(k, q.pathPrefix.value))
  {
    if q.pathPrefix.Some? then
      var prefix := q.pathPrefix.value;
      var hasPrefix := k => StartsWith(k, prefix);
      FilterStrictlySorted(keys, hasPrefix);
      var r := Filter(keys, hasPrefix);
      assert forall k :: k in keys && StartsWith(k, prefix) ==> k in r by {
        forall k | k in keys && StartsWith(k, prefix) ensures k in r {
          var i :| 0 <= i < |keys| && keys[i] == k;
        }
      }
      r
    else keys
  }

  /** The `lowPath`/`highPath` and `pathPrefix` filters of `paths`, applied
      in that order. */
  function FilterPaths(keys: seq<string>, q: QueryOpts): (r: seq<string>)
    requires StrictlySorted(keys)
    ensures StrictlySorted(r)
    ensures forall k :: k in r <==> k in keys && PathMatches(q, k)
  {
    PrefixFilter(RangeFilter(keys, q), q)
  }

  /** `paths(query)`: the stored paths the query selects, in ascending order. */
  function Paths(docs: Docs, q: QueryOpts): (r: seq<string>)
    ensures forall i :: 0 <= i < |r| ==> r[i] in docs
    ensures StrictlySorted(r)
  {
    if q.path.Some? then
      (if q.path.value in docs then [q.path.value] else [])
    else
      LimitedPaths(docs, q)
  }

  /** Without `path`: the stored paths that pass the filters, sorted, and
      cut as `slice(0, limit)` cuts them when the limit is truthy. */
  function LimitedPaths(docs: Docs, q: QueryOpts): (r: seq<string>)
    ensures forall i :: 0 <= i < |r| ==> r[i] in docs
    ensures StrictlySorted(r)
  {
    var matching := FilterPaths(SortedKeys(docs.Keys), q);
    var r := if HasLimit(q) then Slice(matching, q.limit.value) else matching;
    StoredPrefix(docs, matching, r);
    r
  }

  /** A leading part of a sorted list of stored paths is itself one. */
  lemma StoredPrefix(docs: Docs, matching: seq<string>, r: seq<string>)
    requires StrictlySorted(matching) && forall k :: k in matching ==> k in docs
    requires |r| <= |matching| && r == matching[..|r|]
    ensures StrictlySorted(r) && forall i :: 0 <= i < |r| ==> r[i] in docs
  {
    forall i | 0 <= i < |r| ensures r[i] in docs {
      assert r[i] == matching[i];
    }
  }

  /** The stored paths a query's filters select, sorted. */
  function MatchingPaths(docs: Docs, q: QueryOpts): (r: seq<string>) {
    SortedKeys(set k | k in docs && PathMatches(q, k))
  }

  /** Without a `path`, `paths` is the sorted list of the stored paths that
      pass the filters, cut to the limit as `slice(0, limit)` cuts it;
      a limit of 0 does not cut. */
  lemma PathsAreMatchingPaths(docs: Docs, q: QueryOpts)
    requires q.path.None?
    ensures Paths(docs, q) == if HasLimit(q) then Slice(MatchingPaths(docs, q), q.limit.value) else MatchingPaths(docs, q)
  {
    var matching := FilterPaths(SortedKeys(docs.Keys), q);
    StrictlySortedUnique(matching, MatchingPaths(docs, q));
  }

  /** What `paths` promises: a single stored `path` or nothing; otherwise
      only stored paths passing the filters, at most `limit` of them for a
      positive limit, and every matching path when there is no limit. */
  lemma PathsMeaning(docs: Docs, q: QueryOpts)
    ensures q.path.Some? ==> Paths(docs, q) == if q.path.value in docs then [q.path.value] else []
    ensures q.path.None? ==> forall i :: 0 <= i < |Paths(docs, q)| ==> PathMatches(q, Paths(docs, q)[i])
    ensures q.path.None? && HasLimit(q) && q.limit.value > 0 ==> |Paths(docs, q)| <= q.limit.value
    ensures q.path.None? && !HasLimit(q) ==> forall k :: k in docs && PathMatches(q, k) ==> k in Paths(docs, q)
  {
    if q.path.None? {
      PathsAreMatchingPaths(docs, q);
      var m := MatchingPaths(docs, q);
      var r := Paths(docs, q);
      forall i | 0 <= i < |r| ensures PathMatches(q, r[i]) {
        assert r[i] == m[i];
        assert m[i] in m;
      }
    }
  }

  /** `getDocument(path)`: nothing for a path not stored, else its winner. */
  function GetDocument(docs: Docs, path: string): (r: Option<Doc>)
    requires DocsValid(docs)
    ensures r.None? <==> path !in docs
    ensures r.Some? ==> r.value in docs[path] && r.value.path == path
    ensures r.Some? ==> forall i :: 0 <= i < |docs[path]| ==> NewerOrSame(r.value, docs[path][i])
  {
    if path !in docs then None else Some(Winner(docs[path]))
  }

  /** `getValue(path)`. */
  function GetValue(docs: Docs, path: string): (r: Option<string>)
    requires DocsValid(docs)
    ensures r.None? <==> path !in docs
    ensures r.Some? ==> exists i :: 0 <= i < |docs[path]| && docs[path][i].value == r.value
    ensures r.Some? ==> r.value == Winner(docs[path]).value
  {
    match GetDocument(docs, path)
    case None => None
    case Some(d) => Some(d.value)
  }

  /** The documents `documents` lists for one path. */
  function PathDocuments(h: seq<Doc>, includeHistory: bool): seq<Doc>
    requires |h| > 0
  {
    if includeHistory then SortedHistory(h) else [Winner(h)]
  }

  /** The documents of the given paths, path by path. */
  function Gather(docs: Docs, keys: seq<string>, includeHistory: bool): seq<Doc>
    requires DocsValid(docs) && forall i :: 0 <= i < |keys| ==> keys[i] in docs
    decreases |keys|
  {
    if keys == [] then []
    else Gather(docs, keys[..|keys| - 1], includeHistory) + PathDocuments(docs[keys[|keys| - 1]], includeHistory)
  }

  lemma GatherStep(docs: Docs, keys: seq<string>, i: nat, includeHistory: bool)
    requires DocsValid(docs) && forall j :: 0 <= j < |keys| ==> keys[j] in docs
    requires i < |keys|
    ensures Gather(docs, keys[..i + 1], includeHistory) ==
      Gather(docs, keys[..i], includeHistory) + PathDocuments(docs[keys[i]], includeHistory)
  {
    assert keys[..i + 1][..i] == keys[..i];
  }

  /** `documents(query)`, the specification of the method below. */
  function QueryDocuments(docs: Docs, q: QueryOpts): seq<Doc>
    requires DocsValid(docs)
  {
    Gather(docs, Paths(docs, q), q.includeHistory)
  }

  /** Without history: one document per path, that path's winner, in path
      order. */
  lemma {:induction false} GatherWinners(docs: Docs, keys: seq<string>)
    requires DocsValid(docs) && forall i :: 0 <= i < |keys| ==> keys[i] in docs
    ensures |Gather(docs, keys, false)| == |keys|
    ensures forall i :: 0 <= i < |keys| ==>
      var d := Gather(docs, keys, false)[i];
      d.path == keys[i] && d in docs[keys[i]] &&
      forall j :: 0 <= j < |docs[keys[i]]| ==> NewerOrSame(d, docs[keys[i]][j])
    decreases |keys|
  {
    if keys != [] {
      var init := keys[..|keys| - 1];
      GatherWinners(docs, init);
      var g := Gather(docs, keys, false);
      assert g == Gather(docs, init, false) + [Winner(docs[keys[|keys| - 1]])];
      forall i | 0 <= i < |keys| - 1 ensures g[i] == Gather(docs, init, false)[i] && keys[i] == init[i] { }
    }
  }

  /** With history: exactly the documents stored at the paths. */
  lemma {:induction false} GatherHistoryMembers(docs: Docs, keys: seq<string>)
    requires DocsValid(docs) && forall i :: 0 <= i < |keys| ==> keys[i] in docs
    ensures forall d :: d in Gather(docs, keys, true) <==> d.path in keys && d.path in docs && d in docs[d.path]
    decreases |keys|
  {
    if keys != [] {
      var init, last := keys[..|keys| - 1], keys[|keys| - 1];
      GatherHistoryMembers(docs, init);
      var g0 := Gather(docs, init, true);
      var h := SortedHistory(docs[last]);
      var g := g0 + h;
      forall d: Doc ensures d in h <==> d in docs[last] {
        assert d in h <==> d in multiset(h);
      }
      forall d: Doc ensures d in g <==> d.path in keys && d.path in docs && d in docs[d.path] {
        assert d in g <==> d in g0 || d in h;
        assert d.path in keys <==> d.path in init || d.path == last;
        if d in docs[last] {
          var m :| 0 <= m < |docs[last]| && docs[last][m] == d;
        }
      }
    }
  }

  /** With history: the documents come grouped by path, in the paths'
      ascending order. */
  lemma {:induction false} GatherHistoryOrder(docs: Docs, keys: seq<string>)
    requires DocsValid(docs) && forall i :: 0 <= i < |keys| ==> keys[i] in docs
    requires StrictlySorted(keys)
    ensures forall i, j :: 0 <= i < j < |Gather(docs, keys, true)| ==>
      !Less(Gather(docs, keys, true)[j].path, Gather(docs, keys, true)[i].path)
    decreases |keys|
  {
    if keys != [] {
      var init, last := keys[..|keys| - 1], keys[|keys| - 1];
      GatherHistoryOrder(docs, init);
      GatherHistoryMembers(docs, init);
      var g0 := Gather(docs, init, true);
      var h := SortedHistory(docs[last]);
      var g := g0 + h;
      forall i, j | 0 <= i < j < |g| ensures !Less(g[j].path, g[i].path) {
        if j < |g0| {
          assert g[i] == g0[i] && g[j] == g0[j];
        } else {
          assert g[j] in h && g[j] in multiset(h) && g[j] in docs[last];
          var m :| 0 <= m < |docs[last]| && docs[last][m] == g[j];
          if i < |g0| {
            assert g[i] in g0;
            var n :| 0 <= n < |init| && init[n] == g[i].path;
            assert keys[n] == g[i].path;
            LessAsymmetric(g[i].path, last);
          } else {
            assert g[i] in h && g[i] in multiset(h) && g[i] in docs[last];
            var n :| 0 <= n < |docs[last]| && docs[last][n] == g[i];
            LessIrreflexive(last);
          }
        }
      }
    }
  }

  /** A path's documents sorted newest first hold no document twice. */
  lemma SortedHistoryDistinct(h: seq<Doc>)
    requires AuthorsDistinct(h)
    ensures Distinct(SortedHistory(h))
  {
    PermutationDistinct(h, SortedHistory(h));
  }

  /** No document is listed twice, and those of one path come newest first. */
  ghost predicate DistinctNewestFirst(g: seq<Doc>) {
    forall i, j :: 0 <= i < j < |g| ==> g[i] != g[j] && (g[i].path == g[j].path ==> NewerOrSame(g[i], g[j]))
  }

  /** Appending a later path's documents keeps `DistinctNewestFirst`. */
  lemma ConcatDistinctNewestFirst(g0: seq<Doc>, h: seq<Doc>, last: string)
    requires DistinctNewestFirst(g0) && DistinctNewestFirst(h)
    requires forall d :: d in g0 ==> Less(d.path, last)
    requires forall e :: e in h ==> e.path == last
    ensures DistinctNewestFirst(g0 + h)
  {
    var g := g0 + h;
    LessIrreflexive(last);
    forall i, j | 0 <= i < j < |g| ensures g[i] != g[j] && (g[i].path == g[j].path ==> NewerOrSame(g[i], g[j])) {
      if j < |g0| {
        assert g[i] == g0[i] && g[j] == g0[j];
      } else if i >= |g0| {
        assert g[i] == h[i - |g0|] && g[j] == h[j - |g0|];
      } else {
        assert g[i] == g0[i] && g[j] == h[j - |g0|];
        assert g0[i] in g0 && h[j - |g0|] in h;
      }
    }
  }

  /** With history: no document is listed twice, and the documents of one
      path come newest first. */
  lemma {:induction false} GatherHistoryWithinPath(docs: Docs, keys: seq<string>)
    requires DocsValid(docs) && forall i :: 0 <= i < |keys| ==> keys[i] in docs
    requires StrictlySorted(keys)
    ensures DistinctNewestFirst(Gather(docs, keys, true))
    decreases |keys|
  {
    if keys != [] {
      var init, last := keys[..|keys| - 1], keys[|keys| - 1];
      assert StrictlySorted(init) by {
        forall i, j | 0 <= i < j < |init| ensures Less(init[i], init[j]) {
          assert init[i] == keys[i] && init[j] == keys[j];
        }
      }
      GatherHistoryWithinPath(docs, init);
      GatherHistoryMembers(docs, init);
      var g0, h := Gather(docs, init, true), SortedHistory(docs[last]);
      SortedHistoryDistinct(docs[last]);
      assert DistinctNewestFirst(h);
      forall d | d in g0 ensures Less(d.path, last) {
        var n :| 0 <= n < |init| && init[n] == d.path;
        assert keys[n] == d.path;
      }
      forall e | e in h ensures e.path == last {
        assert e in multiset(h) && e in docs[last];
      }
      ConcatDistinctNewestFirst(g0, h, last);
      assert Gather(docs, keys, true) == g0 + h;
    }
  }

  /** What `documents` promises: without `includeHistory`, one document per
      selected path, its winner, in path order; with it, every document
      stored at the selected paths exactly once, grouped by path in
      ascending order, and newest first within a path. */
  lemma DocumentsMeaning(docs: Docs, q: QueryOpts)
    requires DocsValid(docs)
    ensures var keys := Paths(docs, q); var r := QueryDocuments(docs, q);
      !q.includeHistory ==> |r| == |keys| && forall i :: 0 <= i < |keys| ==>
        r[i].path == keys[i] && r[i] in docs[keys[i]] &&
        forall j :: 0 <= j < |docs[keys[i]]| ==> NewerOrSame(r[i], docs[keys[i]][j])
    ensures var keys := Paths(docs, q); var r := QueryDocuments(docs, q);
      q.includeHistory ==> forall d :: d in r <==> d.path in keys && d.path in docs && d in docs[d.path]
    ensures var r := QueryDocuments(docs, q);
      q.includeHistory ==> forall i, j :: 0 <= i < j < |r| ==> !Less(r[j].path, r[i].path)
    ensures var r := QueryDocuments(docs, q);
      q.includeHistory ==> forall i, j :: 0 <= i < j < |r| ==> r[i] != r[j]
    ensures var r := QueryDocuments(docs, q);
      q.includeHistory ==> forall i, j :: 0 <= i < j < |r| && r[i].path == r[j].path ==> NewerOrSame(r[i], r[j])
  {
    if q.includeHistory {
      var keys := Paths(docs, q);
      GatherHistoryMembers(docs, keys);
      GatherHistoryOrder(docs, keys);
      GatherHistoryWithinPath(docs, keys);
      var r := QueryDocuments(docs, q);
      assert r == Gather(docs, keys, true);
      assert forall i, j :: 0 <= i < j < |r| ==> r[i] != r[j];
      assert forall i, j :: 0 <= i < j < |r| && r[i].path == r[j].path ==> NewerOrSame(r[i], r[j]);
    } else {
      GatherWinners(docs, Paths(docs, q));
    }
  }

  /** Every author with a document at some path. */
  function AuthorSet(docs: Docs): set<string> {
    set p, d | p in docs && d in docs[p] :: d.author
  }

  /** The authors of a list of documents. */
  function AuthorsIn(list: seq<Doc>): set<string> {
    set d | d in list :: d.author
  }

  lemma AuthorsInStep(list: seq<Doc>, i: nat)
    requires i < |list|
    ensures AuthorsIn(list[..i + 1]) == AuthorsIn(list[..i]) + {list[i].author}
  {
    assert list[..i + 1] == list[..i] + [list[i]];
  }

  /** The documents listed with their history have exactly the stored
      documents' authors. */
  lemma HistoryAuthors(docs: Docs)
    requires DocsValid(docs)
    ensures AuthorsIn(QueryDocuments(docs, HistoryQuery)) == AuthorSet(docs)
  {
    var all := QueryDocuments(docs, HistoryQuery);
    DocumentsMeaning(docs, HistoryQuery);
    PathsMeaning(docs, HistoryQuery);
    forall a ensures a in AuthorsIn(all) <==> a in AuthorSet(docs) {
      if a in AuthorSet(docs) {
        var p, d :| p in docs && d in docs[p] && d.author == a;
        var m :| 0 <= m < |docs[p]| && docs[p][m] == d;
        assert PathMatches(HistoryQuery, p);
        assert d in all;
      }
    }
  }

  // ---------------------------------------------------------------------
  // Ingesting

  /** The string form JavaScript gives the array `[timestamp, signature]`. */
  function HistoryKey(d: Doc): string {
    Decimal(d.timestamp) + "," + d.signature
  }

  /** `[doc.timestamp, doc.signature] <= [old.timestamp, old.signature]` as
      JavaScript evaluates it: both arrays are turned into strings, and
      the strings are compared. */
  predicate NotNewerAsWritten(doc: Doc, existing: Doc) {
    LessEq(HistoryKey(doc), HistoryKey(existing))
  }

  /** Whether `ingestDocument` keeps `doc`: a known format, a valid
      document, the store's own workspace, and either an author new to the
      path or a document that the comparison above finds newer than that
      author's stored one. */
  predicate Accepts(validators: map<string, Validator>, workspace: string, docs: Docs, doc: Doc, futureCutoff: Option<int>) {
    && doc.format in validators
    && validators[doc.format].documentIsValid(doc, futureCutoff)
    && doc.workspace == workspace
    && match DocBy(docs, doc.path, doc.author)
       case None => true
       case Some(existing) => !NotNewerAsWritten(doc, existing)
  }

  /** When the two timestamps have as many decimal digits, the string
      comparison is the comparison of (timestamp, signature) pairs. */
  lemma NotNewerSameWidth(doc: Doc, existing: Doc)
    requires |Decimal(doc.timestamp)| == |Decimal(existing.timestamp)|
    ensures NotNewerAsWritten(doc, existing) <==> NewerOrSame(existing, doc)
  {
    var pd, pe := Decimal(doc.timestamp) + ",", Decimal(existing.timestamp) + ",";
    DecimalOrderSameWidth(doc.timestamp, existing.timestamp);
    DecimalOrderSameWidth(existing.timestamp, doc.timestamp);
    if doc.timestamp == existing.timestamp {
      LessCommonPrefix(pd, existing.signature, doc.signature);
    } else {
      LessAppendSameLength(Decimal(existing.timestamp), Decimal(doc.timestamp),
        "," + existing.signature, "," + doc.signature);
      assert HistoryKey(existing) == Decimal(existing.timestamp) + ("," + existing.signature);
      assert HistoryKey(doc) == Decimal(doc.timestamp) + ("," + doc.signature);
    }
  }

  /** Across decimal widths the string comparison is not the numeric one:
      a same-author document with timestamp 10 is turned away when the
      stored one has timestamp 9, because "10,s" sorts before "9,s". */
  lemma NewerDocAcrossWidthsRejected(v: Validator)
    requires v.format == "es.4"
    requires forall d, c :: v.documentIsValid(d, c)
    ensures var stored := Doc("es.4", "+w.x", "/p", "a", "@a", 9, "s");
      var newer := stored.(timestamp := 10);
      var docs := map["/p" := [stored]];
      newer.timestamp > stored.timestamp &&
      !Accepts(map["es.4" := v], "+w.x", docs, newer, None)
  {
    var stored := Doc("es.4", "+w.x", "/p", "a", "@a", 9, "s");
    var newer := stored.(timestamp := 10);
    assert Decimal(9) == "9";
    assert Decimal(10) == "10";
    assert HistoryKey(stored) == "9,s";
    assert HistoryKey(newer) == "10,s";
    assert !Less("9,s", "10,s");
  }

  /** The timestamp `set` requests: the given one when positive, otherwise
      the current time. */
  function RequestedTimestamp(toSet: DocToSet, now: nat): (t: nat)
    ensures toSet.timestamp.Some? && toSet.timestamp.value > 0 ==> t == toSet.timestamp.value
    ensures !(toSet.timestamp.Some? && toSet.timestamp.value > 0) ==> t == now
  {
    if toSet.timestamp.Some? && toSet.timestamp.value > 0 then toSet.timestamp.value else now
  }

  /** The timestamp `set` gives the new document: the requested one raised
      to one more than the path's current winner. So it is newer than
      every document stored at the path, and it is either the requested
      timestamp or just past the winner's. */
  function SetTimestamp(docs: Docs, toSet: DocToSet, now: nat): (ts: nat)
    requires DocsValid(docs)
    ensures ts >= RequestedTimestamp(toSet, now) && ts >= 1
    ensures toSet.path in docs ==> forall i :: 0 <= i < |docs[toSet.path]| ==> docs[toSet.path][i].timestamp < ts
    ensures ts == RequestedTimestamp(toSet, now) ||
      ts == 1 + (if toSet.path in docs then Winner(docs[toSet.path]).timestamp else 0)
  {
    var existing := match GetDocument(docs, toSet.path)
      case None => 0
      case Some(d) => d.timestamp;
    Max(RequestedTimestamp(toSet, now), existing + 1)
  }

  /** The unsigned document `set` builds. */
  function Draft(workspace: string, docs: Docs, keypair: Keypair, toSet: DocToSet, now: nat): Doc
    requires DocsValid(docs)
  {
    Doc(toSet.format, workspace, toSet.path, toSet.value, keypair.address, SetTimestamp(docs, toSet, now), "")
  }

  /** A document `set` stores becomes the winner at its path, provided
      signing keeps the draft's path and timestamp. */
  lemma SetMakesWinner(docs: Docs, toSet: DocToSet, now: nat, signed: Doc)
    requires DocsValid(docs)
    requires signed.path == toSet.path && signed.timestamp == SetTimestamp(docs, toSet, now)
    ensures Ingested(docs, signed)[signed.path] != []
    ensures Winner(Ingested(docs, signed)[signed.path]) == signed
  {
    var after := Ingested(docs, signed);
    var h := if signed.path in docs then docs[signed.path] else [];
    var r := after[signed.path];
    assert r == Put(h, signed);
    var w := Winner(r);
    var k :| 0 <= k < |r| && r[k] == signed;
    assert NewerOrSame(w, r[k]);
    var i :| 0 <= i < |r| && r[i] == w;
    assert w == signed || w in h;
    assert w in h ==> w.timestamp < signed.timestamp;
  }

  /** The store and count after ingesting `list` in order, as `_syncFrom`
      does. At most one document is counted per ingest. */
  datatype Pull = Pull(docs: Docs, accepted: nat)

  function IngestAll(validators: map<string, Validator>, workspace: string, docs: Docs, list: seq<Doc>): (r: Pull)
    ensures r.accepted <= |list|
    ensures DocsValid(docs) ==> DocsValid(r.docs)
    ensures InWorkspace(docs, workspace) ==> InWorkspace(r.docs, workspace)
    decreases |list|
  {
    if list == [] then Pull(docs, 0)
    else
      var prev := IngestAll(validators, workspace, docs, list[..|list| - 1]);
      var d := list[|list| - 1];
      if Accepts(validators, workspace, prev.docs, d, None) then Pull(Ingested(prev.docs, d), prev.accepted + 1)
      else prev
  }

  lemma IngestAllStep(validators: map<string, Validator>, workspace: string, docs: Docs, list: seq<Doc>, i: nat)
    requires i < |list|
    ensures var prev := IngestAll(validators, workspace, docs, list[..i]);
      IngestAll(validators, workspace, docs, list[..i + 1]) ==
        if Accepts(validators, workspace, prev.docs, list[i], None)
        then Pull(Ingested(prev.docs, list[i]), prev.accepted + 1)
        else prev
  {
    assert list[..i + 1][..i] == list[..i];
  }

  /** The format-to-validator table the constructor builds: a later
      validator of the same format replaces an earlier one. */
  function ValidatorMap(validators: seq<Validator>): map<string, Validator>
    decreases |validators|
  {
    if validators == [] then map[]
    else
      var last := validators[|validators| - 1];
      ValidatorMap(validators[..|validators| - 1])[last.format := last]
  }

  /** The table has a key for exactly the formats given. */
  lemma {:induction false} ValidatorMapKeys(validators: seq<Validator>)
    ensures forall f :: f in ValidatorMap(validators) <==> exists i :: 0 <= i < |validators| && validators[i].format == f
    decreases |validators|
  {
    if validators != [] {
      var init, last := validators[..|validators| - 1], validators[|validators| - 1];
      ValidatorMapKeys(init);
      var m := ValidatorMap(validators);
      assert m == ValidatorMap(init)[last.format := last];
      forall f ensures f in m <==> exists i :: 0 <= i < |validators| && validators[i].format == f {
        if f in m && f != last.format {
          assert f in ValidatorMap(init);
          var i :| 0 <= i < |init| && init[i].format == f;
          assert validators[i] == init[i];
        }
        if exists i :: 0 <= i < |validators| && validators[i].format == f {
          var i :| 0 <= i < |validators| && validators[i].format == f;
          if i < |init| { assert init[i] == validators[i]; }
        }
      }
    }
  }

  /** For each format in the table, its validator is the last one given
      with that format. */
  lemma {:induction false} ValidatorMapLast(validators: seq<Validator>)
    ensures forall f :: f in ValidatorMap(validators) ==>
      exists i :: (0 <= i < |validators| && validators[i] == ValidatorMap(validators)[f] &&
        validators[i].format == f && forall j :: i < j < |validators| ==> validators[j].format != f)
    decreases |validators|
  {
    if validators != [] {
      var init, last := validators[..|validators| - 1], validators[|validators| - 1];
      ValidatorMapLast(init);
      var m := ValidatorMap(validators);
      assert m == ValidatorMap(init)[last.format := last];
      forall f | f in m
        ensures exists i :: (0 <= i < |validators| && validators[i] == m[f] &&
          validators[i].format == f && forall j :: i < j < |validators| ==> validators[j].format != f)
      {
        if f == last.format {
          assert validators[|validators| - 1] == m[f];
        } else {
          assert f in ValidatorMap(init);
          var i :| 0 <= i < |init| && init[i] == ValidatorMap(init)[f] && init[i].format == f &&
            forall j :: i < j < |init| ==> init[j].format != f;
          assert validators[i] == m[f];
          forall j | i < j < |validators| ensures validators[j].format != f {
            if j < |init| { assert validators[j] == init[j]; }
          }
        }
      }
    }
  }

  // ---------------------------------------------------------------------
  // The store

  class StorageMemory {
    var docs: Docs
    const workspace: string
    const validatorMap: map<string, Validator>

    ghost predicate Valid()
      reads this
    {
      DocsValid(docs) && InWorkspace(docs, workspace)
    }

    /** `new StorageMemory(validators, workspace)` once the workspace
        address has parsed and at least one validator is given. */
    constructor (validators: seq<Validator>, workspace: string)
      requires |validators| > 0
      ensures Valid() && docs == map[]
      ensures this.workspace == workspace && validatorMap == ValidatorMap(validators)
    {
      var m := map[];
      var i := 0;
      while i < |validators|
        invariant 0 <= i <= |validators|
        invariant m == ValidatorMap(validators[..i])
      {
        assert validators[..i + 1][..i] == validators[..i];
        m := m[validators[i].format := validators[i]];
        i := i + 1;
      }
      assert validators[..|validators|] == validators;
      this.workspace := workspace;
      validatorMap := m;
      docs := map[];
    }

    /** `documents(query)`. */
    method Documents(q: QueryOpts) returns (r: seq<Doc>)
      requires Valid()
      ensures r == QueryDocuments(docs, q)
    {
      var keys := Paths(docs, q);
      r := GatherPaths(keys, q.includeHistory);
    }

    /** The loop of `documents`: each path's documents sorted newest
        first, all of them with history and the first otherwise. */
    method GatherPaths(keys: seq<string>, includeHistory: bool) returns (r: seq<Doc>)
      requires Valid() && forall j :: 0 <= j < |keys| ==> keys[j] in docs
      ensures r == Gather(docs, keys, includeHistory)
    {
      r := [];
      var i := 0;
      while i < |keys|
        invariant 0 <= i <= |keys|
        invariant r == Gather(docs, keys[..i], includeHistory)
      {
        GatherStep(docs, keys, i, includeHistory);
        var history := SortedHistory(docs[keys[i]]);
        if includeHistory {
          r := r + history;
        } else {
          r := r + [history[0]];
        }
        i := i + 1;
      }
      assert keys[..|keys|] == keys;
    }

    /** `values(query)`: the values of `documents(query)`, in that order. */
    method Values(q: QueryOpts) returns (r: seq<string>)
      requires Valid()
      ensures |r| == |QueryDocuments(docs, q)|
      ensures forall i :: 0 <= i < |r| ==> r[i] == QueryDocuments(docs, q)[i].value
    {
      var ds := Documents(q);
      r := seq(|ds|, i requires 0 <= i < |ds| => ds[i].value);
    }

    /** `authors()`: every author with a stored document, ascending, once
        each. */
    method Authors() returns (r: seq<string>)
      requires Valid()
      ensures StrictlySorted(r)
      ensures forall a :: a in r <==> a in AuthorSet(docs)
    {
      var all := Documents(HistoryQuery);
      var seen: set<string> := {};
      var i := 0;
      while i < |all|
        invariant 0 <= i <= |all|
        invariant seen == AuthorsIn(all[..i])
      {
        AuthorsInStep(all, i);
        seen := seen + {all[i].author};
        i := i + 1;
      }
      assert all[..|all|] == all;
      HistoryAuthors(docs);
      r := SortedKeys(seen);
    }

    /** `ingestDocument(doc, futureCutoff)`: stores `doc` and reports true
        exactly when the store accepts it; otherwise nothing changes. */
    method IngestDocument(doc: Doc, futureCutoff: Option<int>) returns (accepted: bool)
      requires Valid()
      modifies this
      ensures Valid()
      ensures accepted == Accepts(validatorMap, workspace, old(docs), doc, futureCutoff)
      ensures docs == if accepted then Ingested(old(docs), doc) else old(docs)
    {
      if doc.format !in validatorMap {
        return false;
      }
      var validator := validatorMap[doc.format];
      if !validator.documentIsValid(doc, futureCutoff) {
        return false;
      }
      if doc.workspace != workspace {
        return false;
      }
      var existingDocsByKey := if doc.path in docs then docs[doc.path] else [];
      var existingFromSameAuthor := AuthorDoc(existingDocsByKey, doc.author);
      if existingFromSameAuthor.Some? && NotNewerAsWritten(doc, existingFromSameAuthor.value) {
        return false;
      }
      PutKeepsHistory(existingDocsByKey, doc);
      docs := docs[doc.path := Put(existingDocsByKey, doc)];
      return true;
    }

    /** `set(keypair, docToSet)` at time `now` (microseconds): builds the
        draft with the bumped timestamp, has the format's validator sign
        it, and ingests the result with that timestamp as the cutoff. */
    method Set(keypair: Keypair, toSet: DocToSet, now: nat) returns (ok: bool)
      requires Valid()
      modifies this
      ensures Valid()
      ensures toSet.format !in validatorMap ==> !ok && docs == old(docs)
      ensures toSet.format in validatorMap ==>
        var draft := Draft(workspace, old(docs), keypair, toSet, now);
        var signed := validatorMap[toSet.format].signDocument(keypair, draft);
        ok == Accepts(validatorMap, workspace, old(docs), signed, Some(draft.timestamp)) &&
        docs == if ok then Ingested(old(docs), signed) else old(docs)
    {
      if toSet.format !in validatorMap {
        return false;
      }
      var validator := validatorMap[toSet.format];
      var doc := Doc(toSet.format, workspace, toSet.path, toSet.value, keypair.address,
        RequestedTimestamp(toSet, now), "");
      var existingDocTimestamp := match GetDocument(docs, doc.path)
        case None => 0
        case Some(d) => d.timestamp;
      doc := doc.(timestamp := Max(doc.timestamp, existingDocTimestamp + 1));
      var signedDoc := validator.signDocument(keypair, doc);
      ok := IngestDocument(signedDoc, Some(doc.timestamp));
    }

    /** `_syncFrom(other, existing, live)`: ingests every document of
        `other`, history included, and counts the accepted ones. */
    method SyncFrom(other: StorageMemory, existing: bool, live: bool) returns (r: Result<nat>)
      requires Valid() && other.Valid()
      modifies this
      ensures Valid()
      ensures live ==> r == Failure(Thrown(LiveSyncMessage)) && docs == old(docs)
      ensures !live && !existing ==> r == Success(0) && docs == old(docs)
      ensures !live && existing ==>
        var pull := IngestAll(validatorMap, workspace, old(docs), QueryDocuments(old(other.docs), HistoryQuery));
        r == Success(pull.accepted) && docs == pull.docs
    {
      if live {
        return Failure(Thrown(LiveSyncMessage));
      }
      var numSuccess := 0;
      if existing {
        var list := other.Documents(HistoryQuery);
        var i := 0;
        while i < |list|
          invariant 0 <= i <= |list|
          invariant Valid()
          invariant IngestAll(validatorMap, workspace, old(docs), list[..i]) == Pull(docs, numSuccess)
        {
          IngestAllStep(validatorMap, workspace, old(docs), list, i);
          var success := IngestDocument(list[i], None);
          if success {
            numSuccess := numSuccess + 1;
          }
          i := i + 1;
        }
        assert list[..|list|] == list;
      }
      return Success(numSuccess);
    }

    /** `sync(other, opts)`: pulls, then pushes, as the direction says;
        nothing with itself or with a store of another workspace. */
    method Sync(other: StorageMemory, opts: SyncOpts) returns (r: Result<SyncResults>)
      requires Valid() && other.Valid()
      modifies this, other
      ensures Valid() && other.Valid()
      ensures other == this ==> r == Success(SyncResults(0, 0)) && docs == old(docs)
      ensures other != this && workspace != other.workspace ==>
        r == Success(SyncResults(0, 0)) && docs == old(docs) && other.docs == old(other.docs)
      ensures (other != this && workspace == other.workspace && opts.live == Some(true) &&
               SyncDirection(opts) in {"pull", "push", "both"}) ==> r == Failure(Thrown(LiveSyncMessage))
      ensures (other != this && workspace == other.workspace && opts.live == Some(true) &&
               SyncDirection(opts) in {"pull", "push", "both"}) ==> docs == old(docs) && other.docs == old(other.docs)
      ensures (other != this && workspace == other.workspace && SyncDirection(opts) !in {"pull", "push", "both"}) ==>
        r == Success(SyncResults(0, 0)) && docs == old(docs) && other.docs == old(other.docs)
      ensures (other != this && workspace == other.workspace && !SyncLive(opts) && !SyncExisting(opts)) ==>
        r == Success(SyncResults(0, 0)) && docs == old(docs) && other.docs == old(other.docs)
      ensures (other != this && workspace == other.workspace && !SyncLive(opts) && SyncExisting(opts)) ==>
        var pulls, pushes := SyncDirection(opts) in {"pull", "both"}, SyncDirection(opts) in {"push", "both"};
        var pull := IngestAll(validatorMap, workspace, old(docs), QueryDocuments(old(other.docs), HistoryQuery));
        var pulled := if pulls then pull.docs else old(docs);
        var push := IngestAll(other.validatorMap, other.workspace, old(other.docs), QueryDocuments(pulled, HistoryQuery));
        && r.Success?
        && docs == pulled
        && r.value.numPulled == (if pulls then pull.accepted else 0)
        && other.docs == (if pushes then push.docs else old(other.docs))
        && r.value.numPushed == (if pushes then push.accepted else 0)
      ensures other != this && r.Success? ==>
        r.value.numPulled <= |QueryDocuments(old(other.docs), HistoryQuery)| &&
        r.value.numPushed <= |QueryDocuments(docs, HistoryQuery)|
    {
      if other == this {
        return Success(SyncResults(0, 0));
      }
      if workspace != other.workspace {
        return Success(SyncResults(0, 0));
      }
      var direction := SyncDirection(opts);
      var existing := SyncExisting(opts);
      var live := SyncLive(opts);
      var numPushed, numPulled := 0, 0;
      if direction == "pull" || direction == "both" {
        var pulled := SyncFrom(other, existing, live);
        if pulled.Failure? {
          return Failure(pulled.error);
        }
        numPulled := pulled.value;
      }
      if direction == "push" || direction == "both" {
        var pushed := other.SyncFrom(this, existing, live);
        if pushed.Failure? {
          return Failure(pushed.error);
        }
        numPushed := pushed.value;
      }
      return Success(SyncResults(numPushed, numPulled));
    }
  }

  /** `opts?.direction || 'both'`. */
  function SyncDirection(opts: SyncOpts): string {
    if opts.direction.None? || opts.direction.value == "" then "both" else opts.direction.value
  }

  /** `opts.existing`, true when it is not given. */
  function SyncExisting(opts: SyncOpts): bool {
    if opts.existing.Some? then opts.existing.value else true
  }

  /** `opts.live`, false when it is not given. */
  function SyncLive(opts: SyncOpts): bool {
    if opts.live.Some? then opts.live.value else false
  }

  /** `new StorageMemory(validators, workspace)`, throwing as the
      constructor does. Parsing the workspace address is outside this
      model; `parseError` is its error, if any. */
  method NewStorageMemory(validators: seq<Validator>, workspace: string, parseError: Option<string>)
    returns (r: Result<StorageMemory>)
    ensures parseError.Some? ==> r == Failure(Thrown("invalid workspace address: " + parseError.value))
    ensures parseError.None? && |validators| == 0 ==> r == Failure(Thrown("must provide at least one validator"))
    ensures parseError.None? && |validators| > 0 ==>
      (r.Success? && fresh(r.value) && r.value.Valid() && r.value.docs == map[] &&
       r.value.workspace == workspace && r.value.validatorMap == ValidatorMap(validators))
  {
    if parseError.Some? {
      return Failure(Thrown("invalid workspace address: " + parseError.value));
    }
    if |validators| == 0 {
      return Failure(Thrown("must provide at least one validator"));
    }
    var s := new StorageMemory(validators, workspace);
    return Success(s);
  }
}
