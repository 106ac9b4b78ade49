/** The transfer manager of the syncer: an admission-controlled scheduler
    for attachment transfers. At most `activeLimit` transfers are active at
    once. A new transfer takes a free slot directly; otherwise it joins the
    tail of a first-in, first-out wait queue. The queue's head is admitted
    only by a completion that finds room, and `admit` runs while the
    completed transfer still counts as active, so a completion with a full
    active set admits nothing and a later arrival can take the freed slot
    ahead of the queue. Once the
    manager is sealed to internal transfers, it resolves a one-shot signal
    as soon as no internally requested transfer is waiting or active.

    A transfer's asynchronous completion becomes an explicit call:
    `OnDone(t)` when its `isDone` promise resolves, `OnFail(t)` when it
    rejects. The one-shot promise `fulfilledInternalTransfers` becomes a
    boolean that turns true when it is resolved. */
module TransferManagement {
  import opened Common
  import opened JsMaps

  datatype Origin = Internal | External

  /** The fields of a transfer's document that its report copies. */
  datatype DocRef = DocRef(author: string, path: string, format: string)

  /** An attachment transfer, an object the manager holds by reference. Its
      status and progress change as bytes move; the manager only reads them.
      `abortRequested` records that `abort()` was called on it. */
  class AttachmentTransfer {
    const hash: string
    const origin: Origin
    const share: string
    const doc: DocRef
    const kind: string
    const expectedSize: int
    var status: string
    var loaded: int
    var abortRequested: bool

    constructor (hash: string, origin: Origin, share: string, doc: DocRef, kind: string, expectedSize: int)
      ensures this.hash == hash && this.origin == origin && this.share == share
      ensures this.doc == doc && this.kind == kind && this.expectedSize == expectedSize
      ensures status == "ready" && loaded == 0 && !abortRequested
    {
      this.hash, this.origin, this.share, this.doc, this.kind, this.expectedSize := hash, origin, share, doc, kind, expectedSize;
      status, loaded, abortRequested := "ready", 0, false;
    }

    /** `abort()`: asks the transfer to stop. What the transfer then does
        with its bytes is not part of this model. */
    method Abort()
      modifies this
      ensures abortRequested
      ensures status == old(status) && loaded == old(loaded)
    {
      abortRequested := true;
    }
  }

  /** One row of the per-share, per-hash status table. */
  datatype Report = Report(
    author: string, path: string, format: string, hash: string, kind: string,
    status: string, bytesLoaded: int, totalBytes: int)

  /** `reports[share][hash]`, absent when either level is missing. */
  function ReportAt(reports: map<string, JsMap<Report>>, share: string, hash: string): Option<Report> {
    if share in reports && hash in reports[share].entries then Some(reports[share].entries[hash]) else None
  }

  /** Every share's table lists each of its hashes once. */
  ghost predicate ReportsWellFormed(reports: map<string, JsMap<Report>>) {
    forall s :: s in reports ==> WellFormed(reports[s])
  }

  /** The status table after `reports[share] ??= {}` and
      `reports[share][hash] = report`. */
  function ReportsWith(reports: map<string, JsMap<Report>>, share: string, hash: string, report: Report): (r: map<string, JsMap<Report>>)
    ensures r.Keys == reports.Keys + {share}
    ensures ReportAt(r, share, hash) == Some(report)
    ensures forall s, h :: s != share || h != hash ==> ReportAt(r, s, h) == ReportAt(reports, s, h)
    ensures ReportsWellFormed(reports) ==> ReportsWellFormed(r)
  {
    var table := if share in reports then reports[share] else EmptyMap();
    reports[share := MapSet(table, hash, report)]
  }

  /** `getReports(share)`: the share's reports in the order their hashes
      were first reported, none for a share never reported. */
  function ShareReports(reports: map<string, JsMap<Report>>, share: string): (r: seq<Report>)
    requires ReportsWellFormed(reports)
    ensures share !in reports ==> r == []
    ensures share in reports ==> |r| == |reports[share].keys|
    ensures share in reports ==>
      forall i :: 0 <= i < |r| ==> ReportAt(reports, share, reports[share].keys[i]) == Some(r[i])
  {
    if share in reports then MapValues(reports[share]) else []
  }

  /** The reports of a share hold exactly its table's rows. */
  lemma ShareReportsExact(reports: map<string, JsMap<Report>>, share: string, x: Report)
    requires ReportsWellFormed(reports)
    ensures x in ShareReports(reports, share) <==> exists h :: ReportAt(reports, share, h) == Some(x)
  {
    var r := ShareReports(reports, share);
    if exists h :: ReportAt(reports, share, h) == Some(x) {
      var h :| ReportAt(reports, share, h) == Some(x);
      var i :| 0 <= i < |reports[share].keys| && reports[share].keys[i] == h;
      assert r[i] == x;
    }
  }

  /** A status update leaves every other share's reports as they were. The
      updated share's list keeps its order: a hash reported before keeps
      its place, with the new row there; a new hash comes last. */
  lemma UpdatedShareReports(reports: map<string, JsMap<Report>>, share: string, hash: string, report: Report)
    requires ReportsWellFormed(reports)
    ensures forall s :: s != share ==> ShareReports(ReportsWith(reports, share, hash, report), s) == ShareReports(reports, s)
    ensures var before := ShareReports(reports, share);
      var after := ShareReports(ReportsWith(reports, share, hash, report), share);
      if share in reports && hash in reports[share].entries
      then |after| == |before| && forall i :: 0 <= i < |before| ==>
        after[i] == if reports[share].keys[i] == hash then report else before[i]
      else after == before + [report]
  {
    var r := ReportsWith(reports, share, hash, report);
    forall s | s != share ensures ShareReports(r, s) == ShareReports(reports, s) {
      if s in reports {
        assert r[s] == reports[s];
      }
    }
  }

  /** No transfer requested internally is waiting or active. */
  predicate NoInternal(waiting: seq<AttachmentTransfer>, active: set<AttachmentTransfer>) {
    && (forall i :: 0 <= i < |waiting| ==> waiting[i].origin != Internal)
    && (forall t :: t in active ==> t.origin != Internal)
  }

  /** When the internal-transfers signal may resolve: the manager is sealed
      and every internal transfer has settled. */
  predicate Drained(sealed: bool, waiting: seq<AttachmentTransfer>, active: set<AttachmentTransfer>) {
    sealed && NoInternal(waiting, active)
  }

  class TransferManager {
    var waiting: seq<AttachmentTransfer>
    var active: set<AttachmentTransfer>
    var failed: set<AttachmentTransfer>
    var completed: set<AttachmentTransfer>
    const activeLimit: int
    var isClosedToInternalRequests: bool
    /** Transfers with these hashes are dropped by `AddTransfer`. Nothing
        adds to it: every method leaves it a subset of what it was, and the
        constructor leaves it empty. */
    var barredHashes: set<string>
    /** Whether `fulfilledInternalTransfers` has been resolved. */
    var fulfilledInternalTransfers: bool
    var reports: map<string, JsMap<Report>>

    /** The bound on active transfers; a resolved signal stays truthful, for
        once it resolves no internal transfer can be waiting or active
        again; every share's table is well formed. */
    ghost predicate Valid()
      reads this
    {
      && |active| <= Max(activeLimit, 0)
      && (fulfilledInternalTransfers ==> Drained(isClosedToInternalRequests, waiting, active))
      && ReportsWellFormed(reports)
    }

    /** `new TransferManager(activeLimit)`. */
    constructor (activeLimit: int)
      ensures Valid()
      ensures this.activeLimit == activeLimit
      ensures waiting == [] && active == {} && failed == {} && completed == {}
      ensures !isClosedToInternalRequests && barredHashes == {} && !fulfilledInternalTransfers
      ensures reports == map[]
    {
      this.activeLimit := activeLimit;
      waiting, active, failed, completed := [], {}, {}, {};
      isClosedToInternalRequests, barredHashes, fulfilledInternalTransfers := false, {}, false;
      reports := map[];
    }

    /** `activate(transfer)` up to its first `await`: the transfer joins the
        active set. Calling `transfer.start()` and subscribing to its
        outcome are left to the transfer; the outcome arrives as `OnDone`
        or `OnFail`. */
    method Activate(transfer: AttachmentTransfer)
      modifies this
      ensures active == old(active) + {transfer}
      ensures waiting == old(waiting) && failed == old(failed) && completed == old(completed)
      ensures isClosedToInternalRequests == old(isClosedToInternalRequests)
      ensures barredHashes == old(barredHashes)
      ensures fulfilledInternalTransfers == old(fulfilledInternalTransfers)
      ensures reports == old(reports)
    {
      active := active + {transfer};
    }

    /** `queue(transfer)`: append to the tail of the waiting queue. */
    method Queue(transfer: AttachmentTransfer)
      modifies this
      ensures waiting == old(waiting) + [transfer]
      ensures active == old(active) && failed == old(failed) && completed == old(completed)
      ensures isClosedToInternalRequests == old(isClosedToInternalRequests)
      ensures barredHashes == old(barredHashes)
      ensures fulfilledInternalTransfers == old(fulfilledInternalTransfers)
      ensures reports == old(reports)
    {
      waiting := waiting + [transfer];
    }

    /** `admit()`: when a transfer waits and the active set has room, the
        head of the queue, and only it, becomes active. Otherwise nothing
        changes. */
    method Admit()
      requires Valid()
      modifies this
      ensures Valid()
      ensures old(waiting) == [] || |old(active)| >= activeLimit ==>
        waiting == old(waiting) && active == old(active)
      ensures old(waiting) != [] && |old(active)| < activeLimit ==>
        waiting == old(waiting)[1..] && active == old(active) + {old(waiting)[0]}
      ensures failed == old(failed) && completed == old(completed)
      ensures isClosedToInternalRequests == old(isClosedToInternalRequests)
      ensures barredHashes == old(barredHashes)
      ensures fulfilledInternalTransfers == old(fulfilledInternalTransfers)
      ensures reports == old(reports)
    {
      if |waiting| == 0 {
        return;
      }
      if |active| >= activeLimit {
        return;
      }
      var first := waiting[0];
      waiting := waiting[1..];
      Activate(first);
    }

    /** `checkInternallyMadeTransfersFinished()`: resolves the signal when
        the manager is sealed and no internal transfer is waiting or
        active. A resolved signal stays resolved. */
    method CheckInternallyMadeTransfersFinished()
      requires Valid()
      modifies this
      ensures Valid()
      ensures fulfilledInternalTransfers ==
        (old(fulfilledInternalTransfers) || Drained(isClosedToInternalRequests, waiting, active))
      ensures waiting == old(waiting) && active == old(active)
      ensures failed == old(failed) && completed == old(completed)
      ensures isClosedToInternalRequests == old(isClosedToInternalRequests)
      ensures barredHashes == old(barredHashes)
      ensures reports == old(reports)
    {
      if !isClosedToInternalRequests {
        return;
      }
      var atLeastOneInternalWaiting := false;
      var i := 0;
      while i < |waiting|
        invariant 0 <= i <= |waiting|
        invariant !atLeastOneInternalWaiting
        invariant forall j :: 0 <= j < i ==> waiting[j].origin != Internal
      {
        if waiting[i].origin == Internal {
          atLeastOneInternalWaiting := true;
          break;
        }
        i := i + 1;
      }
      if atLeastOneInternalWaiting {
        return;
      }
      var atLeastOneInternalActive := false;
      var unvisited := active;
      while unvisited != {}
        invariant unvisited <= active
        invariant !atLeastOneInternalActive
        invariant forall t :: t in active - unvisited ==> t.origin != Internal
        decreases |unvisited|
      {
        var t :| t in unvisited;
        if t.origin == Internal {
          atLeastOneInternalActive := true;
          break;
        }
        unvisited := unvisited - {t};
      }
      if atLeastOneInternalActive {
        return;
      }
      fulfilledInternalTransfers := true;
    }

    /** `addTransfer(transfer)`: once sealed, an internal transfer is an
        error; a transfer with a barred hash is dropped; otherwise it
        becomes active when there is room, or joins the tail of the queue. */
    method AddTransfer(transfer: AttachmentTransfer) returns (r: Outcome)
      requires Valid()
      modifies this
      ensures Valid()
      ensures isClosedToInternalRequests && transfer.origin == Internal ==>
        r == Fail(EarthstarError(SealedMessage)) && waiting == old(waiting) && active == old(active)
      ensures !(isClosedToInternalRequests && transfer.origin == Internal) ==> r == Pass
      ensures !(isClosedToInternalRequests && transfer.origin == Internal) && transfer.hash in barredHashes ==>
        waiting == old(waiting) && active == old(active)
      ensures !(isClosedToInternalRequests && transfer.origin == Internal) && transfer.hash !in barredHashes ==>
        if |old(active)| < activeLimit
        then active == old(active) + {transfer} && waiting == old(waiting)
        else active == old(active) && waiting == old(waiting) + [transfer]
      ensures failed == old(failed) && completed == old(completed)
      ensures isClosedToInternalRequests == old(isClosedToInternalRequests)
      ensures barredHashes == old(barredHashes)
      ensures fulfilledInternalTransfers == old(fulfilledInternalTransfers)
      ensures reports == old(reports)
    {
      if isClosedToInternalRequests && transfer.origin == Internal {
        return Fail(EarthstarError(SealedMessage));
      }
      if transfer.hash in barredHashes {
        return Pass;
      }
      if |active| < activeLimit {
        Activate(transfer);
      } else {
        Queue(transfer);
      }
      return Pass;
    }

    /** The `isDone.then` and `finally` callbacks of `activate`, for a
        transfer that completed: it is recorded as completed, `admit()` runs
        while it still counts as active, and only then it leaves the active
        set and the signal is re-checked. So a completion with the active
        set full admits nothing. */
    method OnDone(transfer: AttachmentTransfer)
      requires Valid() && transfer in active
      modifies this
      ensures Valid()
      ensures completed == old(completed) + {transfer} && failed == old(failed)
      ensures old(waiting) == [] || |old(active)| >= activeLimit ==>
        waiting == old(waiting) && active == old(active) - {transfer}
      ensures old(waiting) != [] && |old(active)| < activeLimit ==>
        waiting == old(waiting)[1..] && active == (old(active) + {old(waiting)[0]}) - {transfer}
      ensures fulfilledInternalTransfers ==
        (old(fulfilledInternalTransfers) || Drained(isClosedToInternalRequests, waiting, active))
      ensures isClosedToInternalRequests == old(isClosedToInternalRequests)
      ensures barredHashes == old(barredHashes)
      ensures reports == old(reports)
    {
      completed := completed + {transfer};
      Admit();
      active := active - {transfer};
      CheckInternallyMadeTransfersFinished();
    }

    /** The `catch` and `finally` callbacks of `activate`, for a transfer
        that failed: it is recorded as failed, its hash is no longer barred,
        it leaves the active set and the signal is re-checked. Nothing new
        is admitted. */
    method OnFail(transfer: AttachmentTransfer)
      requires Valid() && transfer in active
      modifies this
      ensures Valid()
      ensures failed == old(failed) + {transfer} && completed == old(completed)
      ensures barredHashes == old(barredHashes) - {transfer.hash}
      ensures waiting == old(waiting) && active == old(active) - {transfer}
      ensures fulfilledInternalTransfers ==
        (old(fulfilledInternalTransfers) || Drained(isClosedToInternalRequests, waiting, active))
      ensures isClosedToInternalRequests == old(isClosedToInternalRequests)
      ensures reports == old(reports)
    {
      failed, barredHashes := failed + {transfer}, barredHashes - {transfer.hash};
      active := active - {transfer};
      CheckInternallyMadeTransfersFinished();
    }

    /** `closeToInternalTransfers()`: seal, then re-check the signal. */
    method CloseToInternalTransfers()
      requires Valid()
      modifies this
      ensures Valid()
      ensures isClosedToInternalRequests
      ensures fulfilledInternalTransfers == (old(fulfilledInternalTransfers) || Drained(true, waiting, active))
      ensures waiting == old(waiting) && active == old(active)
      ensures failed == old(failed) && completed == old(completed)
      ensures barredHashes == old(barredHashes)
      ensures reports == old(reports)
    {
      isClosedToInternalRequests := true;
      CheckInternallyMadeTransfersFinished();
    }

    /** `cancel()`: seal, and ask every active transfer to abort. */
    method Cancel()
      requires Valid()
      modifies this, active
      ensures Valid()
      ensures isClosedToInternalRequests
      ensures forall t :: t in old(active) ==> t.abortRequested
      ensures forall t :: t in old(active) ==> t.status == old(t.status) && t.loaded == old(t.loaded)
      ensures waiting == old(waiting) && active == old(active)
      ensures failed == old(failed) && completed == old(completed)
      ensures barredHashes == old(barredHashes)
      ensures fulfilledInternalTransfers == old(fulfilledInternalTransfers)
      ensures reports == old(reports)
    {
      isClosedToInternalRequests := true;
      var unvisited := active;
      while unvisited != {}
        invariant unvisited <= active
        invariant forall t :: t in active - unvisited ==> t.abortRequested
        invariant forall t :: t in old(active) ==> t.status == old(t.status) && t.loaded == old(t.loaded)
        invariant waiting == old(waiting) && active == old(active)
        invariant failed == old(failed) && completed == old(completed)
        invariant isClosedToInternalRequests && barredHashes == old(barredHashes)
        invariant fulfilledInternalTransfers == old(fulfilledInternalTransfers)
        invariant reports == old(reports)
        decreases |unvisited|
      {
        var t :| t in unvisited;
        t.Abort();
        unvisited := unvisited - {t};
      }
    }

    /** `updateTransferStatus(transfer)`: overwrites the one row of the
        status table for the transfer's share and hash with its current
        fields; every other row stays as it was. */
    method UpdateTransferStatus(transfer: AttachmentTransfer)
      requires Valid()
      modifies this
      ensures Valid()
      ensures reports == ReportsWith(old(reports), transfer.share, transfer.hash,
        Report(transfer.doc.author, transfer.doc.path, transfer.doc.format, transfer.hash,
          transfer.kind, transfer.status, transfer.loaded, transfer.expectedSize))
      ensures waiting == old(waiting) && active == old(active)
      ensures failed == old(failed) && completed == old(completed)
      ensures isClosedToInternalRequests == old(isClosedToInternalRequests)
      ensures barredHashes == old(barredHashes)
      ensures fulfilledInternalTransfers == old(fulfilledInternalTransfers)
    {
      var report := Report(transfer.doc.author, transfer.doc.path, transfer.doc.format, transfer.hash,
        transfer.kind, transfer.status, transfer.loaded, transfer.expectedSize);
      reports := ReportsWith(reports, transfer.share, transfer.hash, report);
    }

    /** `getReports(share)`: collects the share's rows key by key. */
    method GetReports(share: string) returns (r: seq<Report>)
      requires Valid()
      ensures r == ShareReports(reports, share)
    {
      r := [];
      if share !in reports {
        return;
      }
      var table := reports[share];
      var i := 0;
      while i < |table.keys|
        invariant 0 <= i <= |table.keys|
        invariant r == ShareReports(reports, share)[..i]
      {
        r := r + [table.entries[table.keys[i]]];
        i := i + 1;
      }
    }

    /** `hasTransferWithHash(hash)`: whether the hash is barred. */
    method HasTransferWithHash(hash: string) returns (b: bool)
      ensures b <==> hash in barredHashes
    {
      return hash in barredHashes;
    }
  }

  const SealedMessage := "Tried to add internal transfer after transfer manager was sealed to internal transfers."

  /** With a limit of two, five transfers added in turn leave the first two
      active and the other three queued in arrival order. */
  method AdmissionScenario() returns (activeCount: nat, waitingCount: nat)
    ensures activeCount == 2 && waitingCount == 3
  {
    var m := new TransferManager(2);
    var d := DocRef("@suzy", "/a.txt", "es.5");
    var t1 := new AttachmentTransfer("b1", Internal, "+share.a", d, "download", 10);
    var t2 := new AttachmentTransfer("b2", Internal, "+share.a", d, "download", 10);
    var t3 := new AttachmentTransfer("b3", Internal, "+share.a", d, "download", 10);
    var t4 := new AttachmentTransfer("b4", Internal, "+share.a", d, "download", 10);
    var t5 := new AttachmentTransfer("b5", Internal, "+share.a", d, "download", 10);
    var o := m.AddTransfer(t1);
    assert m.active == {t1} && m.waiting == [];
    o := m.AddTransfer(t2);
    assert m.active == {t1, t2} && m.waiting == [];
    o := m.AddTransfer(t3);
    assert m.waiting == [t3];
    o := m.AddTransfer(t4);
    assert m.waiting == [t3, t4];
    o := m.AddTransfer(t5);
    assert m.active == {t1, t2} && m.waiting == [t3, t4, t5];
    activeCount, waitingCount := |m.active|, |m.waiting|;
  }

  /** A completion while the active set is full admits nothing: with a
      limit of one, the second transfer stays queued after the first
      completes. */
  method FullCompletionScenario() returns (activeAfterDone: nat, waitingAfterDone: nat)
    ensures activeAfterDone == 0 && waitingAfterDone == 1
  {
    var m := new TransferManager(1);
    var d := DocRef("@suzy", "/a.txt", "es.5");
    var t1 := new AttachmentTransfer("b1", External, "+share.a", d, "upload", 10);
    var t2 := new AttachmentTransfer("b2", External, "+share.a", d, "upload", 10);
    var o := m.AddTransfer(t1);
    o := m.AddTransfer(t2);
    m.OnDone(t1);
    activeAfterDone, waitingAfterDone := |m.active|, |m.waiting|;
  }

  /** A later arrival overtakes the queue: with a limit of one, after the
      first transfer completes the active set is empty, so a third transfer
      is activated at once and completes, while the second is still
      waiting and nothing is active. */
  method OvertakingScenario() returns (thirdCompleted: bool, waitingAfter: nat, activeAfter: nat)
    ensures thirdCompleted && waitingAfter == 1 && activeAfter == 0
  {
    var m := new TransferManager(1);
    var d := DocRef("@suzy", "/a.txt", "es.5");
    var t1 := new AttachmentTransfer("b1", External, "+share.a", d, "upload", 10);
    var t2 := new AttachmentTransfer("b2", External, "+share.a", d, "upload", 10);
    var t3 := new AttachmentTransfer("b3", External, "+share.a", d, "upload", 10);
    var o := m.AddTransfer(t1);
    o := m.AddTransfer(t2);
    assert m.active == {t1} && m.waiting == [t2];
    m.OnDone(t1);
    assert m.active == {} && m.waiting == [t2];
    o := m.AddTransfer(t3);
    assert m.active == {t3} && m.waiting == [t2];
    m.OnDone(t3);
    assert m.waiting == [t2];
    thirdCompleted, waitingAfter, activeAfter := t3 in m.completed, |m.waiting|, |m.active|;
  }

  /** No operation adds a hash to `barredHashes`, so `hasTransferWithHash`
      answers false for every hash, before and after transfers come and go. */
  method NothingBarredScenario() returns (before: bool, afterAdd: bool, afterFail: bool)
    ensures !before && !afterAdd && !afterFail
  {
    var m := new TransferManager(1);
    var d := DocRef("@suzy", "/a.txt", "es.5");
    before := m.HasTransferWithHash("b1");
    var t := new AttachmentTransfer("b1", External, "+share.a", d, "download", 10);
    var o := m.AddTransfer(t);
    afterAdd := m.HasTransferWithHash("b1");
    m.OnFail(t);
    afterFail := m.HasTransferWithHash("b1");
  }

  /** A failed transfer's hash is not barred afterwards, so a new transfer
      with that hash is taken in. */
  method RetryScenario() returns (accepted: bool)
    ensures accepted
  {
    var m := new TransferManager(1);
    var d := DocRef("@suzy", "/a.txt", "es.5");
    var t := new AttachmentTransfer("b1", External, "+share.a", d, "download", 10);
    var o := m.AddTransfer(t);
    m.OnFail(t);
    var again := new AttachmentTransfer("b1", External, "+share.a", d, "download", 10);
    o := m.AddTransfer(again);
    accepted := again in m.active;
  }

  /** Once sealed and with nothing internal left, the signal resolves, and
      a later internal transfer is refused. */
  method SealScenario() returns (fulfilled: bool, refused: Outcome)
    ensures fulfilled
    ensures refused == Fail(EarthstarError(SealedMessage))
  {
    var m := new TransferManager(1);
    var d := DocRef("@suzy", "/a.txt", "es.5");
    var t := new AttachmentTransfer("b1", Internal, "+share.a", d, "download", 10);
    var o := m.AddTransfer(t);
    m.CloseToInternalTransfers();
    m.OnDone(t);
    fulfilled := m.fulfilledInternalTransfers;
    var later := new AttachmentTransfer("b2", Internal, "+share.a", d, "download", 10);
    refused := m.AddTransfer(later);
  }
}
