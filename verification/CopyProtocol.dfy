/**
 The resumable copy as a protocol: runs that start, work on their parts in several threads,
 complete or are interrupted at any step, against a server that keeps uploads between runs.
 Each step is one critical section, one server request or one event outside the client; preparing
 a run, with its listing, is one step, and the listing may miss parts that arrive during it.
 */
module CopyProtocol {
  import opened Bytes
  import opened PartPlan
  import opened ResumableCopier
  import opened Wrappers

  /** A worker thread between its steps: what it has popped, and whether the copy request is out. */
  datatype Worker = Idle | Taken(part: Part) | Asked(part: Part) | Exited

  /**
   A run after its preparation. `reenabled` records whether requests were ever switched on again,
   `stale` whether the source is not the one its upload was created for.
   */
  datatype Run = Run(uploadId: nat, partSize: nat, hasPath: bool, queue: seq<Part>, workers: seq<Worker>,
                     copied: seq<Part>, failed: seq<Part>, dropped: seq<Part>,
                     handler: bool, consumed: nat, reenabled: bool, stale: bool)

  /** An object assembled by CompleteMultipartUpload, with the source as it was then and the run that asked for it. */
  datatype Published = Published(bytes: seq<byte>, submitted: seq<Part>, source: seq<byte>, origin: Run)

  /** The uploads of a server, each with the contents stored for its part numbers. */
  type Server = map<nat, map<nat, seq<byte>>>

  /** What an upload was created for: the part size, and size, modification time and version of the source. */
  datatype Upload = Upload(partSize: nat, size: nat, mtime: nat, version: nat)

  /** Source, record file, server and client. `uploads` remembers what every upload was created for. */
  datatype Sys = Sys(source: seq<byte>, version: nat, file: RecordFile, server: Server, uploads: map<nat, Upload>,
                     run: Option<Run>, enabled: bool, published: seq<Published>)

  datatype Step =
    | Begin(ps: nat, mtime: nat, hasPath: bool, answers: Answers, listOk: bool, missed: set<nat>,
            threads: nat, handler: bool)
    | Take(i: nat)                    // lock, pop the front of the queue
    | Leave(i: nat)                   // lock, find the queue empty
    | Check(i: nat)                   // look at the request switch
    | Store(i: nat)                   // the server copies the range
    | Report(i: nat, ok: bool)        // lock, record the outcome
    | Complete(submitted: seq<Part>, seen: bool)
    | Interrupt                       // the run ends, by a crash or an error return
    | Toggle(on: bool)
    | Abort(id: nat)                  // the server forgets an upload
    | Damage(file: RecordFile)        // the record file is lost or spoilt
    | Late(id: nat, number: nat)      // a request of an interrupted run reaches the server after all
    | Change(source: seq<byte>)       // the source object is overwritten

  predicate WorkerAt(s: Sys, i: nat)
  {
    s.run.Some? && i < |s.run.value.workers|
  }

  ghost predicate SortedCopy(copied: seq<Part>, submitted: seq<Part>)
  {
    && multiset(submitted) == multiset(copied)
    && forall i, j | 0 <= i < j < |submitted| :: submitted[i].number <= submitted[j].number
  }

  predicate AllExited(workers: seq<Worker>)
  {
    forall w <- workers :: w.Exited?
  }

  /**
   The modification time a caller gives is wrong for resuming: it is the one given when the
   recorded upload was created, the size is the same, and yet the source is another version.
   */
  predicate Misinformed(s: Sys, mtime: nat, hasPath: bool)
  {
    && hasPath && s.file.Saved? && s.file.record.intact
    && var id := s.file.record.uploadId;
       && id in s.server && id in s.uploads && s.uploads[id].version != s.version
       && s.uploads[id].size == |s.source| && s.uploads[id].mtime == mtime
  }

  ghost predicate Enabled(s: Sys, step: Step)
  {
    match step
    case Begin(ps, mtime, hasPath, a, listOk, missed, threads, handler) =>
      && s.run.None? && ps > 0 && threads > 0 && a.newId !in s.uploads
      && (s.file.Saved? ==> s.file.record.partSize > 0)
      && (a.gone ==> s.file.Saved? && s.file.record.uploadId !in s.server)
    case Take(i) => WorkerAt(s, i) && s.run.value.workers[i].Idle? && s.run.value.queue != []
    case Leave(i) => WorkerAt(s, i) && s.run.value.workers[i].Idle? && s.run.value.queue == []
    case Check(i) => WorkerAt(s, i) && s.run.value.workers[i].Taken?
    case Store(i) =>
      && WorkerAt(s, i) && s.run.value.workers[i].Asked? && s.run.value.uploadId in s.server
      && PartNumberAccepted(s.run.value.workers[i].part.number)
    case Report(i, ok) =>
      && WorkerAt(s, i) && s.run.value.workers[i].Asked?
      && (ok && s.run.value.uploadId in s.server ==>
            s.run.value.workers[i].part.number in s.server[s.run.value.uploadId])
    case Complete(submitted, seen) =>
      && s.run.Some? && AllExited(s.run.value.workers) && s.run.value.failed == [] && s.enabled && submitted != []
      && SortedCopy(s.run.value.copied, submitted) && s.run.value.uploadId in s.server
      && forall p <- submitted :: p.number in s.server[s.run.value.uploadId]
    case Interrupt => s.run.Some?
    case Toggle(on) => true
    case Abort(id) => id in s.server
    case Damage(file) => file.Saved? ==> !file.record.intact && file.record.partSize > 0
    case Late(id, n) =>
      && id in s.server && id in s.uploads && s.uploads[id].partSize > 0
      && 1 <= n <= PartCount(s.uploads[id].size, s.uploads[id].partSize) && PartNumberAccepted(n)
    case Change(source) => true
  }

  /** The bytes the server copies for a part: the source range the request names, cut at the end. */
  function SourceRange(src: seq<byte>, ps: nat, p: Part): seq<byte>
    requires p.number > 0
  {
    var from := Min(ps * (p.number - 1), |src|);
    src[from..Min(from + p.size, |src|)]
  }

  function WithPart(server: Server, id: nat, n: nat, bytes: seq<byte>): Server
    requires id in server
  {
    var content: map<nat, seq<byte>> := server[id][n := bytes];
    server[id := content]
  }

  /** The uploads after a run has been prepared. */
  function Created(s: Sys, st: Start, mtime: nat, a: Answers): Sys
  {
    if a.headOk && a.initOk && st.uploadId == a.newId then
      s.(file := st.file, server := s.server[a.newId := map[]],
         uploads := s.uploads[a.newId := Upload(st.partSize, |s.source|, mtime, s.version)])
    else s.(file := st.file)
  }

  /**
   A new run. Parts in `missed` reached the upload after the page they belong to was read: the
   listing does not show them, and they are copied once more.
   */
  function NewRun(s: Sys, st: Start, hasPath: bool, missed: set<nat>, threads: nat, handler: bool, stale: bool): Run
    requires st.partSize > 0 && (st.hasRecord ==> st.uploadId in s.server)
  {
    var listed := if st.hasRecord then Listed(s.server[st.uploadId] - missed, PART_NUMBER_UPPER_LIMIT) else [];
    Run(st.uploadId, st.partSize, hasPath, Missing(Plan(|s.source|, st.partSize), Numbers(listed)),
        seq(threads, _ => Idle), listed, [], [], handler, Total(listed), false, stale)
  }

  ghost function Next(s: Sys, step: Step): Sys
    requires Enabled(s, step)
  {
    match step
    case Begin(ps, mtime, hasPath, a, listOk, missed, threads, handler) =>
      var st := StartRun(|s.source|, mtime, ps, hasPath, s.file, a);
      StartMeaning(|s.source|, mtime, ps, hasPath, s.file, a);
      var s' := Created(s, st, mtime, a);
      if st.ok && (st.hasRecord ==> listOk && st.uploadId in s'.server) then
        var stale := Misinformed(s, mtime, hasPath);
        s'.(run := Some(NewRun(s', st, hasPath, missed, threads, handler, stale)))
      else s'
    case Take(i) =>
      var r := s.run.value;
      s.(run := Some(r.(queue := r.queue[1..], workers := r.workers[i := Taken(r.queue[0])])))
    case Leave(i) =>
      var r := s.run.value;
      s.(run := Some(r.(workers := r.workers[i := Exited])))
    case Check(i) =>
      var r, p := s.run.value, s.run.value.workers[i].part;
      if s.enabled then s.(run := Some(r.(workers := r.workers[i := Asked(p)])))
      else s.(run := Some(r.(workers := r.workers[i := Exited], dropped := r.dropped + [p])))
    case Store(i) =>
      var r, p := s.run.value, s.run.value.workers[i].part;
      s.(server := WithPart(s.server, r.uploadId, p.number, SourceRange(s.source, r.partSize, p)))
    case Report(i, ok) =>
      var r, p := s.run.value, s.run.value.workers[i].part;
      var r' := r.(workers := r.workers[i := Idle]);
      if ok then
        s.(run := Some(r'.(copied := r.copied + [p], consumed := r.consumed + if r.handler then p.size else 0)))
      else s.(run := Some(r'.(failed := r.failed + [p])))
    case Complete(submitted, seen) =>
      var r := s.run.value;
      var bytes := Assemble(s.server[r.uploadId], submitted);
      s.(file := if seen && r.hasPath then Absent else s.file, server := s.server - {r.uploadId},
         run := None, published := s.published + [Published(bytes, submitted, s.source, r)])
    case Interrupt => s.(run := None)
    case Toggle(on) =>
      var run := if s.run.Some? && on && !s.enabled then Some(s.run.value.(reenabled := true)) else s.run;
      s.(enabled := on, run := run)
    case Abort(id) => s.(server := s.server - {id})
    case Damage(file) => s.(file := file)
    case Late(id, n) =>
      var u := s.uploads[id];
      var p := PlannedPart(u.size, u.partSize, n);
      s.(server := WithPart(s.server, id, n, SourceRange(s.source, u.partSize, p)))
    case Change(source) =>
      var run := if s.run.Some? then Some(s.run.value.(stale := true)) else None;
      s.(source := source, version := s.version + 1, run := run)
  }

  // ---------------------------------------------------------------- the invariant

  function Holds(w: Worker): multiset<Part>
  {
    if w.Taken? || w.Asked? then multiset{w.part} else multiset{}
  }

  /** The parts in the hands of the worker threads. */
  function InFlight(workers: seq<Worker>): multiset<Part>
  {
    if workers == [] then multiset{} else InFlight(workers[..|workers| - 1]) + Holds(workers[|workers| - 1])
  }

  lemma {:induction false} InFlightUpdate(workers: seq<Worker>, i: nat, w: Worker)
    requires i < |workers|
    ensures Holds(workers[i]) <= InFlight(workers)
    ensures InFlight(workers[i := w]) == InFlight(workers) - Holds(workers[i]) + Holds(w)
    decreases |workers|
  {
    hide Holds;
    var last := |workers| - 1;
    var updated := workers[i := w];
    if i < last {
      InFlightUpdate(workers[..last], i, w);
      assert updated[..last] == workers[..last][i := w];
    } else {
      assert updated[..last] == workers[..last];
    }
  }

  lemma {:induction false} InFlightNothing(workers: seq<Worker>)
    requires forall w <- workers :: w.Idle? || w.Exited?
    ensures InFlight(workers) == multiset{}
  {
    if workers != [] {
      InFlightNothing(workers[..|workers| - 1]);
      assert workers[|workers| - 1] in workers;
    }
  }

  /** Every part of the plan, with where it is: queued, in flight, copied, failed or dropped. */
  function Accounted(r: Run): multiset<Part>
  {
    multiset(r.queue) + InFlight(r.workers) + multiset(r.copied) + multiset(r.failed) + multiset(r.dropped)
  }

  /** Plans stay within the limit, and the uploads of this version hold the bytes their part numbers stand for. */
  ghost predicate ServerInv(src: seq<byte>, version: nat, uploads: map<nat, Upload>, server: Server)
  {
    && (forall u <- uploads :: UploadInv(src, version, uploads[u]))
    && (forall u <- server ::
          && u in uploads && AllAccepted(server[u])
          && (uploads[u].version == version ==> StoredRight(src, uploads[u].partSize, server[u])))
  }

  ghost predicate UploadInv(src: seq<byte>, version: nat, u: Upload)
  {
    && u.partSize > 0 && PartCount(u.size, u.partSize) <= PART_NUMBER_UPPER_LIMIT
    && u.version <= version && (u.version == version ==> u.size == |src|)
  }

  ghost predicate AllAccepted(content: map<nat, seq<byte>>)
  {
    forall n <- content :: PartNumberAccepted(n)
  }

  ghost predicate FileInv(file: RecordFile, uploads: map<nat, Upload>)
  {
    file.Saved? ==>
      var r := file.record;
      && r.partSize > 0
      && (r.intact ==>
            r.uploadId in uploads
            && uploads[r.uploadId] == Upload(r.partSize, r.size, r.mtime, uploads[r.uploadId].version))
  }

  /** The upload of a run, if it still exists, holds what the run has copied. */
  ghost predicate CopiedIsStored(server: Server, r: Run)
  {
    r.uploadId in server ==> forall p <- r.copied :: p.number in server[r.uploadId]
  }

  ghost predicate RunInv(src: seq<byte>, version: nat, uploads: map<nat, Upload>, server: Server, enabled: bool, r: Run)
  {
    && r.partSize > 0 && r.uploadId in uploads && uploads[r.uploadId].partSize == r.partSize && r.workers != []
    && (r.stale <==> uploads[r.uploadId].version != version)
    && (!r.stale ==> Accounted(r) == multiset(Plan(|src|, r.partSize)))
    && CopiedIsStored(server, r)
    && (r.queue == [] || r.dropped != [] || forall w <- r.workers :: !w.Exited?)
    && (r.dropped != [] && !r.reenabled ==> !enabled)
    && (r.handler ==> r.consumed == Total(r.copied))
  }

  ghost predicate PublishedRight(p: Published)
  {
    && (!p.origin.reenabled ==> p.origin.dropped == [])
    && (!p.origin.stale ==>
          && (p.bytes == p.source <==> p.origin.dropped == [])
          && (p.origin.dropped == [] ==> p.origin.partSize > 0 && p.submitted == Plan(|p.source|, p.origin.partSize))
          && (p.origin.dropped == [] ==> PartCount(|p.source|, p.origin.partSize) < PART_NUMBER_UPPER_LIMIT)
          && (p.origin.dropped == [] && p.origin.handler ==> p.origin.consumed == |p.source|))
  }

  /** Completed uploads are gone from the server for good, each completed once. */
  ghost predicate CompletedInv(uploads: map<nat, Upload>, server: Server, published: seq<Published>)
  {
    && (forall p <- published :: p.origin.uploadId in uploads && p.origin.uploadId !in server)
    && (forall i, j | 0 <= i < j < |published| :: published[i].origin.uploadId != published[j].origin.uploadId)
  }

  ghost predicate Inv(s: Sys)
  {
    && ServerInv(s.source, s.version, s.uploads, s.server)
    && FileInv(s.file, s.uploads)
    && (s.run.Some? ==> RunInv(s.source, s.version, s.uploads, s.server, s.enabled, s.run.value))
    && CompletedInv(s.uploads, s.server, s.published)
    && forall p <- s.published :: PublishedRight(p)
  }

  ghost predicate Initial(s: Sys)
  {
    s.file.Absent? && s.server == map[] && s.uploads == map[] && s.run.None? && s.published == []
  }

  // ---------------------------------------------------------------- preservation, step by step

  lemma {:induction false} ListedBeyond(content: map<nat, seq<byte>>, lo: nat, hi: nat)
    requires lo <= hi && forall n <- content :: n <= lo
    ensures Listed(content, hi) == Listed(content, lo)
  {
    if lo < hi {
      ListedBeyond(content, lo, hi - 1);
    }
  }

  /** A new run accounts for its plan: what the upload holds is copied, the rest is queued. */
  lemma NewRunAccounts(s: Sys, st: Start, hasPath: bool, missed: set<nat>, threads: nat, handler: bool, stale: bool)
    requires ServerInv(s.source, s.version, s.uploads, s.server) && st.uploadId in s.uploads
    requires s.uploads[st.uploadId].version == s.version && s.uploads[st.uploadId].partSize == st.partSize
    requires st.hasRecord ==> st.uploadId in s.server
    ensures Accounted(NewRun(s, st, hasPath, missed, threads, handler, stale))
         == multiset(Plan(|s.source|, st.partSize))
  {
    hide Total, InFlight, PartBytes;
    var src := s.source;
    var r := NewRun(s, st, hasPath, missed, threads, handler, stale);
    InFlightNothing(r.workers);
    assert Accounted(r) == multiset(r.copied) + multiset(r.queue);
    hide Accounted;
    if st.hasRecord {
      var content, count := s.server[st.uploadId] - missed, PartCount(|src|, st.partSize);
      ListedBeyond(content, count, PART_NUMBER_UPPER_LIMIT);
      forall n | 1 <= n <= count
        ensures n in Numbers(r.copied) <==> n in content
      {
        assert n in content ==> Part(n, |content[n]|) in r.copied;
      }
      PlanSplits(src, st.partSize, content, Numbers(r.copied), count);
    } else {
      assert Numbers([]) == {};
      MissingNothing(Plan(|src|, st.partSize));
    }
  }

  /**
   Preparing a run keeps what is known of the server and the record, and the upload it settles on
   is one for this version of the source, unless the caller was misinformed.
   */
  lemma CreatedKeeps(s: Sys, step: Step)
    requires ServerInv(s.source, s.version, s.uploads, s.server) && FileInv(s.file, s.uploads)
    requires CompletedInv(s.uploads, s.server, s.published) && step.Begin? && Enabled(s, step)
    ensures var st := StartRun(|s.source|, step.mtime, step.ps, step.hasPath, s.file, step.answers);
      var s' := Created(s, st, step.mtime, step.answers);
      && st.partSize > 0 && ServerInv(s.source, s.version, s'.uploads, s'.server) && FileInv(s'.file, s'.uploads)
      && CompletedInv(s'.uploads, s'.server, s.published)
      && (st.ok ==> st.uploadId in s'.uploads && s'.uploads[st.uploadId].partSize == st.partSize)
      && (st.ok && st.uploadId in s'.server ==>
            (Misinformed(s, step.mtime, step.hasPath) <==> s'.uploads[st.uploadId].version != s.version))
      && s' == s.(file := s'.file, server := s'.server, uploads := s'.uploads)
      && (st.ok && !st.hasRecord ==> st.uploadId in s'.server)
  {
    hide PartCount, StartRun, ServerInv, CompletedInv, Determined;
    StartMeaning(|s.source|, step.mtime, step.ps, step.hasPath, s.file, step.answers);
    var st := StartRun(|s.source|, step.mtime, step.ps, step.hasPath, s.file, step.answers);
    NewUploadKeeps(s, step.answers.newId, Upload(st.partSize, |s.source|, step.mtime, s.version));
    RecordedUpload(s);
  }

  lemma RecordedUpload(s: Sys)
    requires ServerInv(s.source, s.version, s.uploads, s.server)
    ensures forall u <- s.server :: u in s.uploads
    ensures forall u <- s.uploads :: s.uploads[u].version == s.version ==> s.uploads[u].size == |s.source|
  {
  }

  /** A new, empty upload for this version of the source. */
  lemma NewUploadKeeps(s: Sys, id: nat, u: Upload)
    requires ServerInv(s.source, s.version, s.uploads, s.server) && CompletedInv(s.uploads, s.server, s.published)
    requires id !in s.uploads && u.size == |s.source| && u.version == s.version && u.partSize > 0
    ensures PartCount(u.size, u.partSize) <= PART_NUMBER_UPPER_LIMIT ==>
      && ServerInv(s.source, s.version, s.uploads[id := u], s.server[id := map[]])
      && CompletedInv(s.uploads[id := u], s.server[id := map[]], s.published)
  {
    EmptyStoredRight(s.source, u.partSize);
    hide StoredRight, PartCount;
  }

  lemma EmptyStoredRight(src: seq<byte>, ps: nat)
    requires ps > 0
    ensures StoredRight(src, ps, map[])
  {
  }

  lemma BeginKeeps(s: Sys, step: Step)
    requires Inv(s) && step.Begin? && Enabled(s, step)
    ensures Inv(Next(s, step))
  {
    hide StartRun, NewRun, Accounted, PublishedRight, Created, ServerInv, FileInv, CompletedInv, Misinformed;
    hide PartCount, Plan, Total;
    var st := StartRun(|s.source|, step.mtime, step.ps, step.hasPath, s.file, step.answers);
    var s' := Created(s, st, step.mtime, step.answers);
    CreatedKeeps(s, step);
    if st.ok && (st.hasRecord ==> step.listOk && st.uploadId in s'.server) {
      var stale := Misinformed(s, step.mtime, step.hasPath);
      if !stale {
        NewRunAccounts(s', st, step.hasPath, step.missed, step.threads, step.handler, stale);
      }
      NewRunFields(s', st, step.hasPath, step.missed, step.threads, step.handler, stale);
    }
  }

  lemma NewRunFields(s: Sys, st: Start, hasPath: bool, missed: set<nat>, threads: nat, handler: bool, stale: bool)
    requires st.partSize > 0 && (st.hasRecord ==> st.uploadId in s.server) && threads > 0
    ensures var r := NewRun(s, st, hasPath, missed, threads, handler, stale);
      && r.uploadId == st.uploadId && r.partSize == st.partSize && r.workers != [] && r.dropped == []
      && (forall w <- r.workers :: w.Idle?) && r.consumed == Total(r.copied) && r.stale == stale
      && CopiedIsStored(s.server, r)
  {
  }

  /** Taking a part from the queue, giving it up or reporting on it moves it and loses nothing. */
  lemma TakeAccounts(r: Run, i: nat)
    requires i < |r.workers| && r.workers[i].Idle? && r.queue != []
    ensures Accounted(r.(queue := r.queue[1..], workers := r.workers[i := Taken(r.queue[0])])) == Accounted(r)
  {
    hide InFlight;
    InFlightUpdate(r.workers, i, Taken(r.queue[0]));
    assert r.queue == [r.queue[0]] + r.queue[1..];
  }

  lemma HoldAccounts(r: Run, i: nat, w: Worker)
    requires i < |r.workers| && Holds(w) == Holds(r.workers[i])
    ensures Accounted(r.(workers := r.workers[i := w])) == Accounted(r)
  {
    hide InFlight, Holds;
    InFlightUpdate(r.workers, i, w);
  }

  lemma PutDownAccounts(r: Run, i: nat, w: Worker)
    requires i < |r.workers| && (r.workers[i].Taken? || r.workers[i].Asked?) && (w.Idle? || w.Exited?)
    ensures Accounted(r.(workers := r.workers[i := w])) + multiset{r.workers[i].part} == Accounted(r)
  {
    hide InFlight;
    InFlightUpdate(r.workers, i, w);
  }

  lemma AddAccounts(r: Run, p: Part, c: nat)
    ensures Accounted(r.(copied := r.copied + [p], consumed := c)) == Accounted(r) + multiset{p}
    ensures Accounted(r.(failed := r.failed + [p])) == Accounted(r) + multiset{p}
    ensures Accounted(r.(dropped := r.dropped + [p])) == Accounted(r) + multiset{p}
  {
    hide InFlight;
  }

  lemma TakeKeeps(s: Sys, i: nat)
    requires Inv(s) && Enabled(s, Take(i))
    ensures Inv(Next(s, Take(i)))
  {
    hide ServerInv, FileInv, CompletedInv, PartCount, Plan, PublishedRight, Total, Accounted;
    TakeAccounts(s.run.value, i);
  }

  lemma LeaveKeeps(s: Sys, i: nat)
    requires Inv(s) && Enabled(s, Leave(i))
    ensures Inv(Next(s, Leave(i)))
  {
    hide ServerInv, FileInv, CompletedInv, PartCount, Plan, PublishedRight, Total, Accounted;
    HoldAccounts(s.run.value, i, Exited);
  }

  lemma CheckKeeps(s: Sys, i: nat)
    requires Inv(s) && Enabled(s, Check(i))
    ensures Inv(Next(s, Check(i)))
  {
    hide ServerInv, FileInv, CompletedInv, PartCount, Plan, PublishedRight, Total, Accounted;
    var r := s.run.value;
    if s.enabled {
      HoldAccounts(r, i, Asked(r.workers[i].part));
    } else {
      PutDownAccounts(r, i, Exited);
      AddAccounts(r.(workers := r.workers[i := Exited]), r.workers[i].part, 0);
    }
  }

  lemma SuccessKeeps(s: Sys, i: nat)
    requires Inv(s) && Enabled(s, Report(i, true))
    ensures Inv(Next(s, Report(i, true)))
  {
    hide ServerInv, FileInv, CompletedInv, PartCount, Plan, PublishedRight, Total, Accounted;
    var r := s.run.value;
    var p := r.workers[i].part;
    CopiedAccounts(r, i, r.consumed + if r.handler then p.size else 0);
    TotalAppend(r.copied, [p]);
    TotalOfOne(p);
  }

  /** A part that goes from a worker's hands to the copied ones. */
  lemma CopiedAccounts(r: Run, i: nat, c: nat)
    requires i < |r.workers| && r.workers[i].Asked?
    ensures Accounted(r.(workers := r.workers[i := Idle], copied := r.copied + [r.workers[i].part], consumed := c))
         == Accounted(r)
  {
    hide Accounted;
    PutDownAccounts(r, i, Idle);
    AddAccounts(r.(workers := r.workers[i := Idle]), r.workers[i].part, c);
  }

  lemma FailureKeeps(s: Sys, i: nat)
    requires Inv(s) && Enabled(s, Report(i, false))
    ensures Inv(Next(s, Report(i, false)))
  {
    hide ServerInv, FileInv, CompletedInv, PartCount, Plan, PublishedRight, Total, Accounted;
    var r := s.run.value;
    PutDownAccounts(r, i, Idle);
    AddAccounts(r.(workers := r.workers[i := Idle]), r.workers[i].part, 0);
  }

  /** A part in a worker's hands is a part of the plan. */
  lemma FlyingIsPlanned(s: Sys, i: nat)
    requires Inv(s) && WorkerAt(s, i) && s.run.value.workers[i].Asked? && !s.run.value.stale
    ensures s.run.value.workers[i].part in Plan(|s.source|, s.run.value.partSize)
  {
    hide PartCount, Plan, PublishedRight, ServerInv, FileInv, CompletedInv, Total, InFlight;
    var r := s.run.value;
    InFlightUpdate(r.workers, i, Idle);
    assert r.workers[i].part in InFlight(r.workers);
    assert r.workers[i].part in multiset(Plan(|s.source|, r.partSize));
  }

  /** The range a copy request names is the planned slice. */
  lemma SourceRangeIsSlice(src: seq<byte>, ps: nat, p: Part)
    requires ps > 0 && p in Plan(|src|, ps)
    ensures 1 <= p.number <= PartCount(|src|, ps) && SourceRange(src, ps, p) == PartBytes(src, ps, p.number)
  {
    PartRange(|src|, ps, p.number);
    PlannedPartSize(|src|, ps, p.number);
  }

  lemma StoredRightUpdate(src: seq<byte>, ps: nat, content: map<nat, seq<byte>>, n: nat)
    requires ps > 0 && StoredRight(src, ps, content) && 1 <= n <= PartCount(|src|, ps)
    ensures StoredRight(src, ps, content[n := PartBytes(src, ps, n)])
  {
  }

  lemma LateBytes(src: seq<byte>, ps: nat, n: nat)
    requires ps > 0 && 1 <= n <= PartCount(|src|, ps)
    ensures PlannedPart(|src|, ps, n).number == n
    ensures SourceRange(src, ps, PlannedPart(|src|, ps, n)) == PartBytes(src, ps, n)
  {
    hide SourceRange, PartBytes;
    assert PlannedPart(|src|, ps, n) == Plan(|src|, ps)[n - 1];
    SourceRangeIsSlice(src, ps, PlannedPart(|src|, ps, n));
  }

  /** One more part in an upload, right if the upload is for this version, disturbs neither the server nor a run. */
  lemma StoredMore(s: Sys, id: nat, n: nat, bytes: seq<byte>)
    requires ServerInv(s.source, s.version, s.uploads, s.server) && id in s.server && PartNumberAccepted(n)
    requires var u := s.uploads[id];
      u.version == s.version ==>
        1 <= n <= PartCount(|s.source|, u.partSize) && bytes == PartBytes(s.source, u.partSize, n)
    ensures var server := WithPart(s.server, id, n, bytes);
      && ServerInv(s.source, s.version, s.uploads, server)
      && (CompletedInv(s.uploads, s.server, s.published) ==> CompletedInv(s.uploads, server, s.published))
      && forall r: Run ::
           RunInv(s.source, s.version, s.uploads, s.server, s.enabled, r)
           ==> RunInv(s.source, s.version, s.uploads, server, s.enabled, r)
  {
    var u := s.uploads[id];
    if u.version == s.version {
      StoredRightUpdate(s.source, u.partSize, s.server[id], n);
    }
    hide StoredRight, PartBytes, PartCount, Accounted, Plan, Total;
  }

  lemma StoreKeeps(s: Sys, i: nat)
    requires Inv(s) && Enabled(s, Store(i))
    ensures Inv(Next(s, Store(i)))
  {
    var r, p := s.run.value, s.run.value.workers[i].part;
    if !r.stale {
      FlyingIsPlanned(s, i);
      SourceRangeIsSlice(s.source, r.partSize, p);
    }
    StoredMore(s, r.uploadId, p.number, SourceRange(s.source, r.partSize, p));
    hide ServerInv, FileInv, CompletedInv, PartCount, PublishedRight, PartBytes, SourceRange, Accounted, Plan, Total;
  }

  // ---------------------------------------------------------------- completion

  lemma {:induction false} PlannedSorted(size: nat, ps: nat, count: nat)
    requires ps > 0 && count <= PartCount(size, ps)
    ensures Sorted(Planned(size, ps, count))
  {
  }

  /** Sorting by part number has only one outcome when the numbers are distinct. */
  lemma {:induction false} SortedIsUnique(plan: seq<Part>, b: seq<Part>)
    requires Sorted(plan) && multiset(plan) == multiset(b)
    requires forall i, j | 0 <= i < j < |b| :: b[i].number <= b[j].number
    ensures plan == b
    decreases |plan|
  {
    assert |multiset(plan)| == |plan| && |multiset(b)| == |b|;
    if plan != [] {
      FirstIsSame(plan, b);
      assert plan == [plan[0]] + plan[1..] && b == [b[0]] + b[1..];
      assert multiset(plan[1..]) == multiset(plan) - multiset{plan[0]};
      assert multiset(b[1..]) == multiset(b) - multiset{b[0]};
      SortedIsUnique(plan[1..], b[1..]);
    }
  }

  lemma FirstIsSame(plan: seq<Part>, b: seq<Part>)
    requires plan != [] && b != [] && Sorted(plan) && multiset(plan) == multiset(b)
    requires forall i, j | 0 <= i < j < |b| :: b[i].number <= b[j].number
    ensures plan[0] == b[0]
  {
    assert plan[0] in multiset(b);
    var i :| 0 <= i < |b| && b[i] == plan[0];
    assert b[0] in multiset(plan);
    var j :| 0 <= j < |plan| && plan[j] == b[0];
    assert plan[0].number <= plan[j].number && b[0].number <= b[i].number;
  }

  lemma {:induction false} AssembleLength(content: map<nat, seq<byte>>, parts: seq<Part>)
    requires forall p <- parts :: p.number in content && |content[p.number]| == p.size
    ensures |Assemble(content, parts)| == Total(parts)
  {
    if parts != [] {
      assert parts[|parts| - 1] in parts;
      assert forall p <- parts[..|parts| - 1] :: p in parts;
      AssembleLength(content, parts[..|parts| - 1]);
    }
  }

  lemma {:induction false} TotalAtLeast(parts: seq<Part>, p: Part)
    requires p in parts
    ensures Total(parts) >= p.size
  {
    if p != parts[|parts| - 1] {
      assert p in parts[..|parts| - 1];
      TotalAtLeast(parts[..|parts| - 1], p);
    }
  }

  /** When every thread has left and nothing failed, the plan is what was copied, dropped or left behind. */
  lemma LeftOver(src: seq<byte>, r: Run)
    requires r.partSize > 0 && r.workers != [] && Accounted(r) == multiset(Plan(|src|, r.partSize))
    requires r.queue == [] || r.dropped != [] || forall w <- r.workers :: !w.Exited?
    requires AllExited(r.workers) && r.failed == []
    ensures multiset(Plan(|src|, r.partSize)) == multiset(r.copied) + multiset(r.dropped) + multiset(r.queue)
    ensures r.dropped == [] ==> r.queue == []
    ensures Total(r.copied) + Total(r.dropped) + Total(r.queue) == |src|
  {
    hide PartCount, Plan, StoredRight, Total, InFlight;
    InFlightNothing(r.workers);
    assert r.workers[0] in r.workers;
    var all := (r.copied + r.dropped) + r.queue;
    assert multiset(all) == multiset(Plan(|src|, r.partSize));
    TotalPermutation(all, Plan(|src|, r.partSize));
    TotalAppend(r.copied + r.dropped, r.queue);
    TotalAppend(r.copied, r.dropped);
    PlanTotal(|src|, r.partSize);
  }

  lemma PlannedMember(src: seq<byte>, ps: nat, content: map<nat, seq<byte>>, p: Part)
    requires ps > 0 && p in Plan(|src|, ps) && StoredRight(src, ps, content)
    ensures p.size >= 1 && (p.number in content ==> |content[p.number]| == p.size)
  {
    PlannedPartSize(|src|, ps, p.number);
    PartRange(|src|, ps, p.number);
  }

  /** A completed run without a dropped part publishes the source; with one it publishes something shorter. */
  lemma CompletedBytes(s: Sys, submitted: seq<Part>)
    requires Inv(s) && Enabled(s, Complete(submitted, true)) && !s.run.value.stale
    ensures var r, src := s.run.value, s.source;
      && (Assemble(s.server[r.uploadId], submitted) == src <==> r.dropped == [])
      && (r.dropped == [] ==> submitted == Plan(|src|, r.partSize))
      && (r.dropped == [] ==> PartCount(|src|, r.partSize) < PART_NUMBER_UPPER_LIMIT)
      && (r.dropped == [] && r.handler ==> r.consumed == |src|)
  {
    hide PartCount, Plan, StoredRight, Total, Accounted, PublishedRight, CompletedInv;
    var r, src := s.run.value, s.source;
    var plan, content := Plan(|src|, r.partSize), s.server[r.uploadId];
    LeftOver(src, r);
    TotalPermutation(submitted, r.copied);
    if r.dropped == [] {
      NothingMissing(src, r.partSize, content, r.copied, submitted);
      PlanAccepted(|src|, r.partSize);
      assert Total([]) == 0 by { TotalOfNone(); }
    } else {
      forall p <- submitted
        ensures p.number in content && |content[p.number]| == p.size
      {
        assert p in multiset(submitted) && p in multiset(plan);
        PlannedMember(src, r.partSize, content, p);
      }
      AssembleLength(content, submitted);
      assert r.dropped[0] in multiset(plan);
      PlannedMember(src, r.partSize, content, r.dropped[0]);
      TotalAtLeast(r.dropped, r.dropped[0]);
    }
  }

  lemma NothingMissing(src: seq<byte>, ps: nat, content: map<nat, seq<byte>>, copied: seq<Part>, submitted: seq<Part>)
    requires ps > 0 && StoredRight(src, ps, content) && SortedCopy(copied, submitted)
    requires multiset(copied) == multiset(Plan(|src|, ps)) && forall p <- submitted :: p.number in content
    ensures submitted == Plan(|src|, ps) && Assemble(content, submitted) == src
  {
    hide PartCount, Planned;
    PlannedSorted(|src|, ps, PartCount(|src|, ps));
    SortedIsUnique(Plan(|src|, ps), submitted);
    PlanAssembles(src, ps, content);
  }

  /** Completion keeps the invariant; when the client sees it, the record is gone with the upload. */
  lemma CompleteKeeps(s: Sys, submitted: seq<Part>, seen: bool)
    requires Inv(s) && Enabled(s, Complete(submitted, seen))
    ensures Inv(Next(s, Complete(submitted, seen)))
    ensures var s' := Next(s, Complete(submitted, seen));
      s.run.value.uploadId !in s'.server && s'.file == if seen && s.run.value.hasPath then Absent else s.file
  {
    hide ServerInv, CompletedInv, Assemble, Total, Accounted, PartCount, Plan;
    var r := s.run.value;
    if !r.stale {
      CompletedBytes(s, submitted);
    }
    var p := Published(Assemble(s.server[r.uploadId], submitted), submitted, s.source, r);
    assert PublishedRight(p);
    UploadGone(s, p);
    hide PublishedRight, Enabled;
  }

  /** Dropping a completed upload from the server and noting its object. */
  lemma UploadGone(s: Sys, p: Published)
    requires ServerInv(s.source, s.version, s.uploads, s.server) && CompletedInv(s.uploads, s.server, s.published)
    requires p.origin.uploadId in s.server
    ensures ServerInv(s.source, s.version, s.uploads, s.server - {p.origin.uploadId})
    ensures CompletedInv(s.uploads, s.server - {p.origin.uploadId}, s.published + [p])
  {
    hide StoredRight, AllAccepted, UploadInv;
    assert forall i | 0 <= i < |s.published| :: s.published[i] in s.published;
  }

  lemma OutsideKeeps(s: Sys, step: Step)
    requires Inv(s) && Enabled(s, step)
    requires step.Interrupt? || step.Toggle? || step.Abort? || step.Damage?
    ensures Inv(Next(s, step))
  {
    hide PartCount, Plan, StoredRight, Total, InFlight, PublishedRight;
  }

  /** An overwritten source leaves every upload one of an older version. */
  lemma ChangeKeeps(s: Sys, source: seq<byte>)
    requires Inv(s)
    ensures Inv(Next(s, Change(source)))
  {
    hide PartCount, Plan, StoredRight, Total, InFlight, PublishedRight, CompletedInv, FileInv;
  }

  lemma LateKeeps(s: Sys, id: nat, n: nat)
    requires Inv(s) && Enabled(s, Late(id, n))
    ensures Inv(Next(s, Late(id, n)))
  {
    var u := s.uploads[id];
    if u.version == s.version {
      LateBytes(s.source, u.partSize, n);
    }
    StoredMore(s, id, n, SourceRange(s.source, u.partSize, PlannedPart(u.size, u.partSize, n)));
    hide Enabled, ServerInv, FileInv, CompletedInv, RunInv, PartCount, PlannedPart, PublishedRight, SourceRange;
  }

  lemma StepKeeps(s: Sys, step: Step)
    requires Inv(s) && Enabled(s, step)
    ensures Inv(Next(s, step))
  {
    hide Inv, Enabled, Next;
    match step
    case Begin(_, _, _, _, _, _, _, _) => BeginKeeps(s, step);
    case Take(i) => TakeKeeps(s, i);
    case Leave(i) => LeaveKeeps(s, i);
    case Check(i) => CheckKeeps(s, i);
    case Store(i) => StoreKeeps(s, i);
    case Report(i, ok) =>
      if ok {
        SuccessKeeps(s, i);
      } else {
        FailureKeeps(s, i);
      }
    case Complete(submitted, seen) => CompleteKeeps(s, submitted, seen);
    case Late(id, n) => LateKeeps(s, id, n);
    case Change(source) => ChangeKeeps(s, source);
    case _ => OutsideKeeps(s, step);
  }

  // ---------------------------------------------------------------- whole histories

  /** A history is a list of steps, each enabled where it is taken. */
  ghost predicate Possible(s: Sys, steps: seq<Step>)
    decreases |steps|
  {
    steps == [] || (Enabled(s, steps[0]) && Possible(Next(s, steps[0]), steps[1..]))
  }

  ghost function Reached(s: Sys, steps: seq<Step>): Sys
    requires Possible(s, steps)
    decreases |steps|
  {
    if steps == [] then s else Reached(Next(s, steps[0]), steps[1..])
  }

  lemma {:induction false} HistoryKeeps(s: Sys, steps: seq<Step>)
    requires Inv(s) && Possible(s, steps)
    ensures Inv(Reached(s, steps))
    decreases |steps|
  {
    hide Inv, Enabled, Next;
    if steps != [] {
      StepKeeps(s, steps[0]);
      HistoryKeeps(Next(s, steps[0]), steps[1..]);
    }
  }

  /**
   Over every history of interrupted and resumed runs and of changes to the source, an upload is
   completed with the source's own bytes, in plan order and with the progress count at the full
   size, unless requests were switched off and on again while the run that completed it was under
   way, the source changed under it, or its caller gave an old modification time for a new source.
   */
  lemma PublishedIsSource(s: Sys, steps: seq<Step>)
    requires Initial(s) && Possible(s, steps)
    ensures forall p <- Reached(s, steps).published | !p.origin.stale ::
      && (p.bytes == p.source <==> p.origin.dropped == [])
      && (!p.origin.reenabled ==> p.bytes == p.source)
      && (p.bytes == p.source ==> p.origin.partSize > 0 && p.submitted == Plan(|p.source|, p.origin.partSize))
      && (p.bytes == p.source ==> PartCount(|p.source|, p.origin.partSize) < PART_NUMBER_UPPER_LIMIT)
      && (p.bytes == p.source && p.origin.handler ==> p.origin.consumed == |p.source|)
  {
    hide Next, Enabled, Possible, Reached, Plan;
    InitialInv(s);
    HistoryKeeps(s, steps);
  }

  /** No upload is ever completed twice, and none that was completed is worked on again. */
  lemma CompletedOnce(s: Sys, steps: seq<Step>)
    requires Initial(s) && Possible(s, steps)
    ensures var e := Reached(s, steps);
      && (forall i, j | 0 <= i < j < |e.published| ::
            e.published[i].origin.uploadId != e.published[j].origin.uploadId)
      && (forall p <- e.published :: p.origin.uploadId !in e.server)
  {
    hide Next, Enabled, Possible, Reached, RunInv, ServerInv, FileInv;
    InitialInv(s);
    HistoryKeeps(s, steps);
  }

  /** In every reachable run each planned part is in exactly one place: queue, thread, copied, failed or dropped. */
  lemma EveryPartInOnePlace(s: Sys, steps: seq<Step>, p: Part)
    requires Initial(s) && Possible(s, steps) && Reached(s, steps).run.Some? && !Reached(s, steps).run.value.stale
    ensures var e := Reached(s, steps);
      var r := e.run.value;
      r.partSize > 0 &&
      multiset(r.queue)[p] + InFlight(r.workers)[p] + multiset(r.copied)[p]
        + multiset(r.failed)[p] + multiset(r.dropped)[p]
        == if p in Plan(|e.source|, r.partSize) then 1 else 0
  {
    hide Next, Enabled, Possible, Reached, Plan, InFlight;
    InitialInv(s);
    HistoryKeeps(s, steps);
    var e := Reached(s, steps);
    PlanCountsOnce(|e.source|, e.run.value.partSize, p);
    assert Accounted(e.run.value)[p] == multiset(Plan(|e.source|, e.run.value.partSize))[p];
  }

  lemma PlanCountsOnce(size: nat, ps: nat, p: Part)
    requires ps > 0
    ensures multiset(Plan(size, ps))[p] == if p in Plan(size, ps) then 1 else 0
  {
    hide PartCount;
    PlannedCountsOnce(size, ps, PartCount(size, ps), p);
  }

  lemma {:induction false} PlannedCountsOnce(size: nat, ps: nat, count: nat, p: Part)
    requires ps > 0 && count <= PartCount(size, ps)
    ensures multiset(Planned(size, ps, count))[p] == if p in Planned(size, ps, count) then 1 else 0
  {
    if count > 0 {
      PlannedCountsOnce(size, ps, count - 1, p);
      PartNumbers(size, ps, count);
      CountsOnceMore(Planned(size, ps, count - 1), PlannedPart(size, ps, count), p);
      hide PlannedPart, PartCount;
    }
  }

  lemma CountsOnceMore(front: seq<Part>, last: Part, p: Part)
    requires last !in front && multiset(front)[p] == if p in front then 1 else 0
    ensures multiset(front + [last])[p] == if p in front + [last] then 1 else 0
  {
    assert multiset(front + [last]) == multiset(front) + multiset{last};
  }

  lemma PartNumbers(size: nat, ps: nat, count: nat)
    requires ps > 0 && 1 <= count <= PartCount(size, ps)
    ensures PlannedPart(size, ps, count) !in Planned(size, ps, count - 1)
  {
  }

  // ---------------------------------------------------------------- the switch turned on again

  lemma Continue(s: Sys, step: Step, rest: seq<Step>)
    requires Enabled(s, step) && Possible(Next(s, step), rest)
    ensures Possible(s, [step] + rest)
    ensures Reached(s, [step] + rest) == Reached(Next(s, step), rest)
  {
    hide Enabled, Next;
    assert ([step] + rest)[1..] == rest;
  }

  /** The second half of the history below: the part in hand is dropped and the run completes all the same. */
  lemma DropAndComplete(s: Sys, r: Run, p: Part) returns (steps: seq<Step>)
    requires s.run == Some(r) && r.workers == [Taken(p)] && s.enabled && r.failed == [] && r.dropped == []
    requires |r.copied| == 1 && r.uploadId in s.server && r.copied[0].number in s.server[r.uploadId]
    ensures Possible(s, steps)
    ensures var e := Reached(s, steps);
      && e.published != []
      && e.published[|e.published| - 1].origin.dropped == [p] && e.published[|e.published| - 1].origin.stale == r.stale
  {
    var off := s.(enabled := false);
    var dropped := off.(run := Some(r.(workers := [Exited], dropped := [p])));
    var on := dropped.(enabled := true, run := Some(dropped.run.value.(reenabled := true)));
    assert r.workers[0 := Exited] == [Exited] && [] + [p] == [p];
    assert Next(s, Toggle(false)) == off;
    assert Next(off, Check(0)) == dropped;
    assert Next(dropped, Toggle(true)) == on;
    assert SortedCopy(r.copied, r.copied) && Enabled(on, Complete(r.copied, true));
    hide Enabled, Next;
    Continue(on, Complete(r.copied, true), []);
    Continue(dropped, Toggle(true), [Complete(r.copied, true)]);
    Continue(off, Check(0), [Toggle(true)] + [Complete(r.copied, true)]);
    Continue(s, Toggle(false), [Check(0)] + ([Toggle(true)] + [Complete(r.copied, true)]));
    steps := [Toggle(false)] + ([Check(0)] + ([Toggle(true)] + [Complete(r.copied, true)]));
    ghost var e := Next(on, Complete(r.copied, true));
    assert Reached(e, []) == e;
  }

  lemma TakeAlone(s: Sys, r: Run)
    requires s.run == Some(r) && r.workers == [Idle] && r.queue != []
    ensures Enabled(s, Take(0))
    ensures Next(s, Take(0)) == s.(run := Some(r.(queue := r.queue[1..], workers := [Taken(r.queue[0])])))
  {
    assert r.workers[0 := Taken(r.queue[0])] == [Taken(r.queue[0])];
  }

  lemma CheckAlone(s: Sys, r: Run, p: Part)
    requires s.run == Some(r) && r.workers == [Taken(p)] && s.enabled
    ensures Enabled(s, Check(0)) && Next(s, Check(0)) == s.(run := Some(r.(workers := [Asked(p)])))
  {
    assert r.workers[0 := Asked(p)] == [Asked(p)];
  }

  lemma StoreAlone(s: Sys, r: Run, p: Part)
    requires s.run == Some(r) && r.workers == [Asked(p)] && r.uploadId in s.server && PartNumberAccepted(p.number)
    ensures Enabled(s, Store(0))
    ensures Next(s, Store(0))
         == s.(server := WithPart(s.server, r.uploadId, p.number, SourceRange(s.source, r.partSize, p)))
  {
  }

  lemma ReportAlone(s: Sys, r: Run, p: Part)
    requires s.run == Some(r) && r.workers == [Asked(p)] && !r.handler
    requires r.uploadId in s.server && p.number in s.server[r.uploadId]
    ensures Enabled(s, Report(0, true))
    ensures Next(s, Report(0, true)) == s.(run := Some(r.(workers := [Idle], copied := r.copied + [p])))
  {
    assert r.workers[0 := Idle] == [Idle];
  }

  /** One idle worker pops a part, has it copied and reports it. */
  lemma CopyOne(s: Sys, r: Run) returns (steps: seq<Step>)
    requires s.run == Some(r) && s.enabled && r.workers == [Idle] && r.queue != [] && !r.handler
    requires PartNumberAccepted(r.queue[0].number) && r.uploadId in s.server
    ensures Possible(s, steps)
    ensures var p := r.queue[0];
      Reached(s, steps) == s.(server := WithPart(s.server, r.uploadId, p.number, SourceRange(s.source, r.partSize, p)),
                              run := Some(r.(queue := r.queue[1..], copied := r.copied + [p])))
  {
    hide Enabled, Next, Possible, Reached, SourceRange;
    var p := r.queue[0];
    var r1 := r.(queue := r.queue[1..], workers := [Taken(p)]);
    var r2 := r1.(workers := [Asked(p)]);
    var s1, s2 := s.(run := Some(r1)), s.(run := Some(r2));
    var s3 := s2.(server := WithPart(s.server, r.uploadId, p.number, SourceRange(s.source, r.partSize, p)));
    TakeAlone(s, r);
    CheckAlone(s1, r1, p);
    StoreAlone(s2, r2, p);
    ReportAlone(s3, r2, p);
    var s4 := s3.(run := Some(r2.(workers := [Idle], copied := r.copied + [p])));
    assert s4.run.value == r.(queue := r.queue[1..], copied := r.copied + [p]);
    StandStill(s4);
    Continue(s3, Report(0, true), []);
    Continue(s2, Store(0), [Report(0, true)] + []);
    Continue(s1, Check(0), [Store(0)] + ([Report(0, true)] + []));
    Continue(s, Take(0), [Check(0)] + ([Store(0)] + ([Report(0, true)] + [])));
    steps := [Take(0)] + ([Check(0)] + ([Store(0)] + ([Report(0, true)] + [])));
  }

  /** One idle worker copies a part and pops the next one. */
  lemma CopyOneTakeNext(s: Sys, r: Run, p: Part, q: Part) returns (steps: seq<Step>, r': Run)
    requires s.run == Some(r) && s.enabled && r.workers == [Idle] && r.queue == [p, q] && !r.handler
    requires PartNumberAccepted(p.number) && r.copied == [] && r.uploadId in s.server
    ensures r' == r.(queue := [], workers := [Taken(q)], copied := [p])
    ensures Possible(s, steps)
    ensures Reached(s, steps) == s.(
      server := WithPart(s.server, r.uploadId, p.number, SourceRange(s.source, r.partSize, p)), run := Some(r'))
  {
    hide Enabled, Next, Possible, Reached, SourceRange;
    assert [p, q][1..] == [q] && [q][1..] == [] && [] + [p] == [p];
    var first := CopyOne(s, r);
    var e := Reached(s, first);
    TakeAlone(e, e.run.value);
    r' := e.run.value.(queue := [], workers := [Taken(q)]);
    StandStill(e.(run := Some(r')));
    Continue(e, Take(0), []);
    Join(s, first, [Take(0)] + []);
    steps := first + ([Take(0)] + []);
  }

  lemma StandStill(s: Sys)
    ensures Possible(s, []) && Reached(s, []) == s
  {
  }

  lemma FirstRun(s: Sys, ps: nat, begin: Step, s1: Sys)
    requires Initial(s) && ps > 0 && PartCount(|s.source|, ps) == 2
    requires begin == Begin(ps, 0, false, Answers(false, true, true, 0, false), true, {}, 1, false)
    requires var queue := [PlannedPart(|s.source|, ps, 1), PlannedPart(|s.source|, ps, 2)];
      s1 == s.(server := map[0 := map[]], uploads := map[0 := Upload(ps, |s.source|, 0, s.version)],
               run := Some(Run(0, ps, false, queue, [Idle], [], [], [], false, 0, false, false)))
    ensures Enabled(s, begin) && Next(s, begin) == s1
  {
    TwoParts(|s.source|, ps);
    MissingNothing(Plan(|s.source|, ps));
    assert Numbers([]) == {};
    assert seq(1, _ => Idle) == [Idle];
  }

  lemma TwoParts(size: nat, ps: nat)
    requires ps > 0 && PartCount(size, ps) == 2
    ensures Plan(size, ps) == [PlannedPart(size, ps, 1), PlannedPart(size, ps, 2)]
  {
    assert Planned(size, ps, 2) == Plan(size, ps);
  }

  /** So the condition on the switch cannot be dropped: this history publishes something other than the source. */
  lemma SwitchingBackOnLosesAPart(s: Sys, ps: nat) returns (steps: seq<Step>)
    requires Initial(s) && s.enabled && ps > 0 && PartCount(|s.source|, ps) == 2
    ensures Possible(s, steps)
    ensures exists p <- Reached(s, steps).published :: !p.origin.stale && p.bytes != p.source
  {
    hide Next, Enabled, Possible, Reached, Inv, RunInv, StoredRight;
    var p, q := PlannedPart(|s.source|, ps, 1), PlannedPart(|s.source|, ps, 2);
    var begin := Begin(ps, 0, false, Answers(false, true, true, 0, false), true, {}, 1, false);
    var r1 := Run(0, ps, false, [p, q], [Idle], [], [], [], false, 0, false, false);
    var s1 := s.(server := map[0 := map[]], uploads := map[0 := Upload(ps, |s.source|, 0, s.version)], run := Some(r1));
    FirstRun(s, ps, begin, s1);
    var first, r := CopyOneTakeNext(s1, r1, p, q);
    var s2 := Reached(s1, first);
    var second := DropAndComplete(s2, r, q);
    Join(s1, first, second);
    Continue(s, begin, first + second);
    steps := [begin] + (first + second);
    InitialInv(s);
    HistoryKeeps(s, steps);
    LastIsRight(Reached(s2, second));
  }

  lemma InitialInv(s: Sys)
    requires Initial(s)
    ensures Inv(s)
  {
  }

  lemma LastIsRight(e: Sys)
    requires Inv(e) && e.published != []
    requires var o := e.published[|e.published| - 1].origin; o.dropped != [] && !o.stale
    ensures exists p <- e.published :: !p.origin.stale && p.bytes != p.source
  {
    var last := e.published[|e.published| - 1];
    assert last in e.published && PublishedRight(last);
  }

  lemma {:induction false} Join(s: Sys, a: seq<Step>, b: seq<Step>)
    requires Possible(s, a) && Possible(Reached(s, a), b)
    ensures Possible(s, a + b) && Reached(s, a + b) == Reached(Reached(s, a), b)
    decreases |a|
  {
    hide Next, Enabled;
    if a == [] {
      assert a + b == b;
    } else {
      Join(Next(s, a[0]), a[1..], b);
      assert (a + b)[1..] == a[1..] + b;
    }
  }

  // ---------------------------------------------------------------- an old modification time for a new source

  lemma RecordedRun(s: Sys, ps: nat, begin: Step, s1: Sys)
    requires Initial(s) && ps > 0 && PartCount(|s.source|, ps) == 2
    requires begin == Begin(ps, 0, true, Answers(false, true, true, 0, true), true, {}, 1, false)
    requires var queue := [PlannedPart(|s.source|, ps, 1), PlannedPart(|s.source|, ps, 2)];
      s1 == s.(server := map[0 := map[]], uploads := map[0 := Upload(ps, |s.source|, 0, s.version)],
               file := Saved(Record(0, |s.source|, 0, ps, true)),
               run := Some(Run(0, ps, true, queue, [Idle], [], [], [], false, 0, false, false)))
    ensures Enabled(s, begin) && Next(s, begin) == s1
  {
    TwoParts(|s.source|, ps);
    MissingNothing(Plan(|s.source|, ps));
    assert Numbers([]) == {};
    assert seq(1, _ => Idle) == [Idle];
  }

  /** Resuming with the old time: what is stored of the old source counts as copied. */
  lemma ResumedRun(s: Sys, ps: nat, first: seq<byte>, version: nat, begin: Step, s1: Sys)
    requires ps > 0 && PartCount(|s.source|, ps) == 2 && s.run.None? && |first| == ps
    requires s.server == map[0 := map[1 := first]]
    requires s.uploads == map[0 := Upload(ps, |s.source|, 0, version)] && version != s.version
    requires s.file == Saved(Record(0, |s.source|, 0, ps, true))
    requires begin == Begin(ps, 0, true, Answers(false, true, true, 1, true), true, {}, 1, false)
    requires var p, q := PlannedPart(|s.source|, ps, 1), PlannedPart(|s.source|, ps, 2);
      s1 == s.(run := Some(Run(0, ps, true, [q], [Idle], [p], [], [], false, ps, false, true)))
    ensures Enabled(s, begin) && Next(s, begin) == s1
  {
    hide PartCount, Missing, Listed, Total, Plan;
    var st := Start(true, true, ps, 0, s.file);
    StartMeaning(|s.source|, 0, ps, true, s.file, begin.answers);
    OneListed(s, ps, first, st);
    hide NewRun, StartRun;
    assert Created(s, st, 0, begin.answers) == s;
  }

  lemma OneListed(s: Sys, ps: nat, first: seq<byte>, st: Start)
    requires ps > 0 && PartCount(|s.source|, ps) == 2 && |first| == ps
    requires st.partSize == ps && st.uploadId == 0 && st.hasRecord && s.server == map[0 := map[1 := first]]
    ensures var p, q := PlannedPart(|s.source|, ps, 1), PlannedPart(|s.source|, ps, 2);
      NewRun(s, st, true, {}, 1, false, true)
        == Run(0, ps, true, [q], [Idle], [p], [], [], false, ps, false, true)
  {
    var p, q := PlannedPart(|s.source|, ps, 1), PlannedPart(|s.source|, ps, 2);
    TwoParts(|s.source|, ps);
    ListsOne(first);
    hide Missing, Listed, Plan, PartCount, Total;
    assert Numbers([p]) == {1};
    MissingOfTwo(p, q);
    TotalOfOne(p);
    assert seq(1, _ => Idle) == [Idle];
  }

  lemma ListsOne(first: seq<byte>)
    ensures var content: map<nat, seq<byte>> := map[1 := first];
      Listed(content - {}, PART_NUMBER_UPPER_LIMIT) == [Part(1, |first|)]
  {
    var content: map<nat, seq<byte>> := map[1 := first];
    assert content - {} == content;
    ListedBeyond(content, 1, PART_NUMBER_UPPER_LIMIT);
    ListedStep(content, 1);
    assert Listed(content, 0) == [];
  }

  lemma MissingOfTwo(p: Part, q: Part)
    requires p.number == 1 && q.number == 2
    ensures Missing([p, q], {1}) == [q]
  {
    assert [p, q][..1] == [p] && [p][..0] == [];
    assert Missing([], {1}) == [];
    MissingStep([p], {1});
    MissingStep([p, q], {1});
  }

  lemma LeaveAndComplete(s: Sys, r: Run, p: Part, q: Part) returns (steps: seq<Step>)
    requires s.run == Some(r) && s.enabled && r.workers == [Idle] && r.queue == [] && r.failed == []
    requires r.copied == [p, q] && p.number == 1 && q.number == 2
    requires r.uploadId in s.server && 1 in s.server[r.uploadId] && 2 in s.server[r.uploadId]
    ensures Possible(s, steps)
    ensures var e, content := Reached(s, steps), s.server[r.uploadId];
      && e.published != []
      && e.published[|e.published| - 1].source == s.source
      && e.published[|e.published| - 1].bytes == content[1] + content[2]
  {
    var s1 := s.(run := Some(r.(workers := [Exited])));
    assert r.workers[0 := Exited] == [Exited];
    assert Next(s, Leave(0)) == s1;
    assert SortedCopy([p, q], [p, q]) && Enabled(s1, Complete([p, q], true));
    AssembleTwo(s.server[r.uploadId], p, q);
    var e := Next(s1, Complete([p, q], true));
    hide Enabled, Next;
    StandStill(e);
    Continue(s1, Complete([p, q], true), []);
    Continue(s, Leave(0), [Complete([p, q], true)] + []);
    steps := [Leave(0)] + ([Complete([p, q], true)] + []);
  }

  lemma AssembleTwo(content: map<nat, seq<byte>>, p: Part, q: Part)
    requires p.number in content && q.number in content
    ensures Assemble(content, [p, q]) == content[p.number] + content[q.number]
  {
    assert [p, q][..1] == [p] && [p][..0] == [];
    assert Assemble(content, []) == [];
    assert Assemble(content, [p]) == content[p.number];
  }

  /**
   So the modification time cannot be left to chance: a caller that gives the old one for an
   overwritten source of the same size has the first part of one version published before the
   second part of the other.
   */
  lemma OldTimeMixesVersions(s: Sys, ps: nat, source: seq<byte>) returns (steps: seq<Step>)
    requires Initial(s) && s.enabled && ps > 0 && PartCount(|s.source|, ps) == 2 && |source| == |s.source|
    requires PartBytes(source, ps, 1) != PartBytes(s.source, ps, 1)
    ensures Possible(s, steps)
    ensures exists p <- Reached(s, steps).published ::
      && p.source == source && p.bytes != source
      && p.bytes == PartBytes(s.source, ps, 1) + PartBytes(source, ps, 2)
  {
    hide Next, Enabled, Possible, Reached, PartBytes, SourceRange;
    var size := |s.source|;
    var p, q := PlannedPart(size, ps, 1), PlannedPart(size, ps, 2);
    LateBytes(s.source, ps, 1);
    LateBytes(source, ps, 2);
    FirstIsFull(s.source, ps);
    var begin := Begin(ps, 0, true, Answers(false, true, true, 0, true), true, {}, 1, false);
    var again := Begin(ps, 0, true, Answers(false, true, true, 1, true), true, {}, 1, false);
    var r1 := Run(0, ps, true, [p, q], [Idle], [], [], [], false, 0, false, false);
    var s1 := s.(server := map[0 := map[]], uploads := map[0 := Upload(ps, size, 0, s.version)],
                 file := Saved(Record(0, size, 0, ps, true)), run := Some(r1));
    RecordedRun(s, ps, begin, s1);
    var first, r2 := CopyOneTakeNext(s1, r1, p, q);
    var s2 := Reached(s1, first);
    var s4 := s2.(run := None, source := source, version := s.version + 1);
    OverwriteBetweenRuns(s2, source);
    var a: map<nat, seq<byte>> := map[1 := PartBytes(s.source, ps, 1)];
    assert s2.server == map[0 := a];
    var r5 := Run(0, ps, true, [q], [Idle], [p], [], [], false, ps, false, true);
    var s5 := s4.(run := Some(r5));
    ResumedRun(s4, ps, PartBytes(s.source, ps, 1), s.version, again, s5);
    var second := CopyOne(s5, r5);
    var s6 := Reached(s5, second);
    assert [q][1..] == [] && [p] + [q] == [p, q];
    var third := LeaveAndComplete(s6, s6.run.value, p, q);
    Join(s5, second, third);
    Continue(s4, again, second + third);
    var tail := [again] + (second + third);
    Join(s2, [Interrupt, Change(source)], tail);
    Join(s1, first, [Interrupt, Change(source)] + tail);
    Continue(s, begin, first + ([Interrupt, Change(source)] + tail));
    steps := [begin] + (first + ([Interrupt, Change(source)] + tail));
    MixedIsWrong(s.source, source, ps);
    var e := Reached(s, steps);
    assert e.published[|e.published| - 1] in e.published;
  }

  lemma OverwriteBetweenRuns(s: Sys, source: seq<byte>)
    requires s.run.Some?
    ensures Possible(s, [Interrupt, Change(source)])
    ensures Reached(s, [Interrupt, Change(source)]) == s.(run := None, source := source, version := s.version + 1)
  {
    var s1 := s.(run := None);
    assert Next(s, Interrupt) == s1;
    var s2 := Next(s1, Change(source));
    hide Next, Enabled;
    StandStill(s2);
    Continue(s1, Change(source), []);
    Continue(s, Interrupt, [Change(source)] + []);
    assert [Interrupt] + ([Change(source)] + []) == [Interrupt, Change(source)];
  }

  lemma FirstIsFull(src: seq<byte>, ps: nat)
    requires ps > 0 && PartCount(|src|, ps) == 2
    ensures |PartBytes(src, ps, 1)| == ps && PlannedPart(|src|, ps, 1) == Part(1, ps)
    ensures PlannedPart(|src|, ps, 2).number == 2
  {
    PartRange(|src|, ps, 1);
  }

  lemma MixedIsWrong(a: seq<byte>, b: seq<byte>, ps: nat)
    requires ps > 0 && |a| == |b| && PartCount(|a|, ps) == 2 && PartBytes(a, ps, 1) != PartBytes(b, ps, 1)
    ensures PartBytes(a, ps, 1) + PartBytes(b, ps, 2) != b
  {
    PartRange(|a|, ps, 1);
    var mixed := PartBytes(a, ps, 1) + PartBytes(b, ps, 2);
    assert mixed[..ps] == PartBytes(a, ps, 1) && b[..ps] == PartBytes(b, ps, 1);
  }
}
