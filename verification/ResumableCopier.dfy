/**
 The single-threaded half of a resumable copy: loading, checking and writing the record,
 choosing the part size, and splitting the plan into parts already copied and parts to copy.
 */
module ResumableCopier {
  import opened Bytes
  import opened PartPlan

  /** The saved record; `intact` stands for its MD5 sum matching its other fields. */
  datatype Record = Record(uploadId: nat, size: nat, mtime: nat, partSize: nat, intact: bool)

  datatype RecordFile = Absent | Unreadable | Saved(record: Record)

  /** What the server and the file system answer while a run is being prepared. */
  datatype Answers = Answers(gone: bool, headOk: bool, initOk: bool, newId: nat, writeOk: bool)

  /** How preparing a run ends. */
  datatype Start = Start(ok: bool, hasRecord: bool, partSize: nat, uploadId: nat, file: RecordFile)

  predicate RecordAccepted(r: Record, size: nat, mtime: nat, gone: bool)
  {
    r.size == size && r.mtime == mtime && r.intact && !gone
  }

  /** A fresh upload: the part size is settled, an upload is created and a record written for it. */
  function PrepareStart(size: nat, mtime: nat, ps: nat, hasRecord: bool, oldId: nat, hasPath: bool, file: RecordFile,
                        a: Answers): Start
    requires ps > 0
  {
    var ps' := Determined(size, ps);
    if !a.headOk || !a.initOk then Start(false, hasRecord, ps', oldId, file)
    else
      var file' := if hasPath && a.writeOk then Saved(Record(a.newId, size, mtime, ps', true)) else file;
      Start(true, hasRecord, ps', a.newId, file')
  }

  /** Preparing a run, from the record file and the request to an upload to work on. */
  function StartRun(size: nat, mtime: nat, ps: nat, hasPath: bool, file: RecordFile, a: Answers): Start
    requires ps > 0 && (file.Saved? ==> file.record.partSize > 0)
  {
    if !hasPath then PrepareStart(size, mtime, ps, false, 0, false, file, a)
    else match file
      case Absent => PrepareStart(size, mtime, ps, false, 0, true, Absent, a)
      case Unreadable => PrepareStart(size, mtime, ps, false, 0, true, Absent, a)
      case Saved(r) =>
        if RecordAccepted(r, size, mtime, a.gone) then Start(true, true, r.partSize, r.uploadId, file)
        else PrepareStart(size, mtime, r.partSize, true, r.uploadId, true, Absent, a)
  }

  /**
   A run resumes the recorded upload, with its part size and its record, exactly when the record
   has the size and modification time of the request and is intact, and its upload is not gone.
   Otherwise it works on a new upload or fails, and the record file holds what that upload needs
   or nothing: a record that is rejected or unreadable is removed.
   */
  lemma StartMeaning(size: nat, mtime: nat, ps: nat, hasPath: bool, file: RecordFile, a: Answers)
    requires ps > 0 && (file.Saved? ==> file.record.partSize > 0)
    ensures var s := StartRun(size, mtime, ps, hasPath, file, a);
      var loaded := hasPath && file.Saved?;
      var same := loaded && file.record.size == size && file.record.mtime == mtime && file.record.intact && !a.gone;
      && (same ==> s == Start(true, true, file.record.partSize, file.record.uploadId, file))
      && (!same ==>
            && (s.ok <==> a.headOk && a.initOk) && s.hasRecord == loaded
            && s.partSize == Determined(size, if loaded then file.record.partSize else ps)
            && PartCount(size, s.partSize) <= PART_NUMBER_UPPER_LIMIT
            && s.uploadId == (if s.ok then a.newId else if loaded then file.record.uploadId else 0)
            && s.file == (if !hasPath then file
                          else if s.ok && a.writeOk then Saved(Record(a.newId, size, mtime, s.partSize, true))
                          else Absent))
  {
  }

  /**
   A rejected record is still in force: the copy is planned as the caller asked exactly when the
   record's part size and the caller's settle on the same one, or on one part each.
   */
  lemma RejectedRecordLingers(size: nat, mtime: nat, ps: nat, r: Record, a: Answers)
    requires size > 0 && ps > 0 && r.partSize > 0
    requires !RecordAccepted(r, size, mtime, a.gone) && a.headOk && a.initOk
    ensures var s := StartRun(size, mtime, ps, true, Saved(r), a);
      var mine, asked := Determined(size, r.partSize), Determined(size, ps);
      && s.ok && s.hasRecord && s.uploadId == a.newId && s.partSize > 0
      && (Plan(size, s.partSize) == Plan(size, asked) <==> mine == asked || (mine >= size && asked >= size))
  {
    hide Plan;
    PlansAgree(size, Determined(size, r.partSize), Determined(size, ps));
  }

  // ---------------------------------------------------------------- listing

  ghost predicate Sorted(parts: seq<Part>)
  {
    forall i, j | 0 <= i < j < |parts| :: parts[i].number < parts[j].number
  }

  /** The stored parts a listing with this marker still has to report. */
  function After(stored: seq<Part>, marker: nat): (rest: seq<Part>)
    ensures |rest| <= |stored| && rest == stored[|stored| - |rest|..]
    ensures rest != [] ==> rest[0].number > marker
    ensures forall i | 0 <= i < |stored| - |rest| :: stored[i].number <= marker
  {
    if stored == [] || stored[0].number > marker then stored else After(stored[1..], marker)
  }

  datatype ListPage = ListPage(parts: seq<Part>, truncated: bool, next: nat)

  /** One page of the listing: at most `limit` parts after the marker, and where the next page starts. */
  function ListParts(stored: seq<Part>, marker: nat, limit: nat): ListPage
    requires limit > 0
  {
    var rest := After(stored, marker);
    var page := rest[..Min(limit, |rest|)];
    ListPage(page, |rest| > limit, if page == [] then marker else page[|page| - 1].number)
  }

  /** Following the next marker drops exactly the page just read. */
  lemma NextPage(stored: seq<Part>, marker: nat, k: nat)
    requires Sorted(stored) && 0 < k <= |After(stored, marker)|
    ensures After(stored, After(stored, marker)[k - 1].number) == After(stored, marker)[k..]
  {
    hide After;
    var at := |stored| - |After(stored, marker)|;
    var next := stored[at + k - 1].number;
    var at' := |stored| - |After(stored, next)|;
    assert at' < |stored| ==> stored[at'].number > next;
    assert at' <= at + k by {
      assert at + k < |stored| ==> stored[at + k].number > next;
    }
  }

  lemma SliceOfTail(stored: seq<Part>, at: nat, k: nat)
    requires at + k <= |stored|
    ensures stored[at..][..k] == stored[at..at + k]
  {
  }

  /** A page is the next slice of the listing, and the next marker stands right after it. */
  lemma PageMeaning(stored: seq<Part>, marker: nat, limit: nat)
    requires Sorted(stored) && limit > 0
    ensures var page, at := ListParts(stored, marker, limit), |stored| - |After(stored, marker)|;
      var end := at + |page.parts|;
      && end <= |stored| && page.parts == stored[at..end]
      && (page.truncated ==> at < end && |After(stored, page.next)| == |stored| - end)
      && (!page.truncated ==> end == |stored|)
  {
    hide After, Sorted;
    var rest := After(stored, marker);
    var at, k := |stored| - |rest|, Min(limit, |rest|);
    SliceOfTail(stored, at, k);
    if |rest| > limit {
      NextPage(stored, marker, limit);
    }
  }

  lemma SortedSlice(stored: seq<Part>, from: nat, to: nat)
    requires Sorted(stored) && from <= to <= |stored|
    ensures Sorted(stored[from..to])
    ensures from < to ==> stored[from].number <= stored[to - 1].number
    ensures forall p <- stored[from..to] :: p in stored && stored[from].number <= p.number <= stored[to - 1].number
  {
  }

  /** A part of a sorted list whose number lies between those of two places stands between them. */
  lemma SortedSplit(stored: seq<Part>, from: nat, to: nat, p: Part)
    requires Sorted(stored) && from <= to <= |stored| && p in stored
    requires from > 0 ==> stored[from - 1].number < p.number
    requires to < |stored| ==> to > 0 && p.number <= stored[to - 1].number
    ensures p in stored[from..to]
  {
    var i :| 0 <= i < |stored| && stored[i] == p;
    assert stored[from..to][i - from] == p;
  }

  lemma PageEnds(stored: seq<Part>, marker: nat, limit: nat)
    requires Sorted(stored) && limit > 0
    ensures var page, at := ListParts(stored, marker, limit), |stored| - |After(stored, marker)|;
      var end := at + |page.parts|;
      && end <= |stored| && page.parts == stored[at..end]
      && (if at < end then page.next == stored[end - 1].number && marker < stored[at].number else page.next == marker)
      && (if page.truncated then at < end else end == |stored|)
      && (at > 0 ==> stored[at - 1].number <= marker)
  {
    hide After, Sorted;
    PageMeaning(stored, marker, limit);
  }

  /** A page holds everything the upload has between its marker and the next one, in order. */
  ghost predicate Covers(stored: seq<Part>, marker: nat, page: ListPage)
  {
    && Sorted(page.parts) && page.next >= marker && (page.truncated ==> page.next > marker)
    && (forall p <- page.parts :: p in stored && marker < p.number <= page.next)
    && (forall p <- stored :: marker < p.number && (p.number <= page.next || !page.truncated) ==> p in page.parts)
  }

  lemma PageCovers(stored: seq<Part>, marker: nat, limit: nat)
    requires Sorted(stored) && limit > 0
    ensures Covers(stored, marker, ListParts(stored, marker, limit))
  {
    hide After, Sorted, ListParts, Covers;
    PageEnds(stored, marker, limit);
    var page, at := ListParts(stored, marker, limit), |stored| - |After(stored, marker)|;
    SliceCovers(stored, at, at + |page.parts|, marker, page);
  }

  lemma SliceCovers(stored: seq<Part>, at: nat, end: nat, marker: nat, page: ListPage)
    requires Sorted(stored) && at <= end <= |stored| && page.parts == stored[at..end]
    requires at > 0 ==> stored[at - 1].number <= marker
    requires if at < end then page.next == stored[end - 1].number && marker < stored[at].number else page.next == marker
    requires if page.truncated then at < end else end == |stored|
    ensures Covers(stored, marker, page)
  {
    hide Sorted;
    SortedSlice(stored, at, end);
    forall p | p in stored && marker < p.number && (p.number <= page.next || !page.truncated)
      ensures p in page.parts
    {
      SortedSplit(stored, at, end, p);
    }
  }

  /** What a listing has gathered up to a marker, from an upload that grew from `first` to `now` meanwhile. */
  ghost predicate Gathered(first: seq<Part>, now: seq<Part>, marker: nat, copied: seq<Part>)
  {
    && Sorted(copied) && (forall p <- copied :: p in now && p.number <= marker)
    && (forall p <- first :: p.number <= marker ==> p in copied)
  }

  lemma GatherPage(first: seq<Part>, now: seq<Part>, marker: nat, copied: seq<Part>, limit: nat)
    requires Sorted(now) && limit > 0 && Gathered(first, now, marker, copied) && forall p <- first :: p in now
    ensures var page := ListParts(now, marker, limit);
      && Gathered(first, now, page.next, copied + page.parts)
      && (!page.truncated ==> forall p <- first :: p in copied + page.parts)
  {
    hide ListParts;
    PageCovers(now, marker, limit);
    var page := ListParts(now, marker, limit);
    forall i, j | 0 <= i < j < |copied + page.parts|
      ensures (copied + page.parts)[i].number < (copied + page.parts)[j].number
    {
      if i < |copied| <= j {
        assert copied[i] in copied && page.parts[j - |copied|] in page.parts;
      }
    }
  }

  lemma NoneIn(s: seq<Part>)
    ensures s == [] <==> forall p :: p !in s
  {
    assert s != [] ==> s[0] in s;
  }

  /** Two listings in part-number order with the same parts are the same. */
  lemma {:induction false} SortedAreSame(a: seq<Part>, b: seq<Part>)
    requires Sorted(a) && Sorted(b) && forall p :: p in a <==> p in b
    ensures a == b
    decreases |a|
  {
    if a == [] {
      NoneIn(b);
    } else {
      assert a[0] in b && b[0] in a;
      var i :| 0 <= i < |b| && b[i] == a[0];
      var j :| 0 <= j < |a| && a[j] == b[0];
      assert i == 0 && j == 0;
      assert a == [a[0]] + a[1..] && b == [b[0]] + b[1..];
      assert a[0] !in a[1..] && b[0] !in b[1..];
      assert forall p :: p in a <==> p == a[0] || p in a[1..];
      assert forall p :: p in b <==> p == b[0] || p in b[1..];
      SortedAreSame(a[1..], b[1..]);
    }
  }

  function Numbers(parts: seq<Part>): (s: set<nat>)
    ensures forall n :: n in s <==> exists p :: p in parts && p.number == n
  {
    set p <- parts :: p.number
  }

  /** The planned parts whose number is not among `done`, in plan order. */
  function Missing(plan: seq<Part>, done: set<nat>): seq<Part>
  {
    if plan == [] then []
    else
      var p := plan[|plan| - 1];
      Missing(plan[..|plan| - 1], done) + if p.number in done then [] else [p]
  }

  /** Missing parts are the planned ones not listed, in plan order. */
  lemma {:induction false} MissingMeaning(plan: seq<Part>, done: set<nat>)
    ensures forall p :: p in Missing(plan, done) <==> p in plan && p.number !in done
    ensures Sorted(plan) ==> Sorted(Missing(plan, done))
  {
    if plan != [] {
      var front, last := plan[..|plan| - 1], plan[|plan| - 1];
      MissingMeaning(front, done);
      MissingStep(plan, done);
      assert plan == front + [last];
      var more := if last.number in done then [] else [last];
      hide Missing, Sorted;
      if Sorted(plan) {
        SortedParts(plan);
        SortedMore(Missing(front, done), more);
      }
    }
  }

  lemma SortedParts(plan: seq<Part>)
    requires Sorted(plan) && plan != []
    ensures Sorted(plan[..|plan| - 1])
    ensures forall p <- plan[..|plan| - 1] :: p.number < plan[|plan| - 1].number
  {
  }

  /** The parts an upload holds, in number order, as the server lists them. */
  function Listed(content: map<nat, seq<byte>>, upTo: nat): (parts: seq<Part>)
    ensures forall p <- parts :: p.number in content && 1 <= p.number <= upTo && p.size == |content[p.number]|
    ensures forall n | 1 <= n <= upTo && n in content :: Part(n, |content[n]|) in parts
  {
    if upTo == 0 then []
    else Listed(content, upTo - 1) + if upTo in content then [Part(upTo, |content[upTo]|)] else []
  }

  lemma {:induction false} ListedSorted(content: map<nat, seq<byte>>, upTo: nat)
    ensures Sorted(Listed(content, upTo))
  {
    if upTo == 0 {
      assert Sorted([]);
    } else {
      hide Listed, Sorted;
      ListedSorted(content, upTo - 1);
      ListedStep(content, upTo);
      SortedMore(Listed(content, upTo - 1), if upTo in content then [Part(upTo, |content[upTo]|)] else []);
    }
  }

  lemma SortedMore(front: seq<Part>, more: seq<Part>)
    requires Sorted(front) && |more| <= 1 && forall p, q | p in front && q in more :: p.number < q.number
    ensures Sorted(front + more)
  {
    assert forall i | 0 <= i < |front| :: front[i] in front;
  }

  lemma ListedStep(content: map<nat, seq<byte>>, n: nat)
    requires n > 0
    ensures Listed(content, n) == Listed(content, n - 1) + if n in content then [Part(n, |content[n]|)] else []
  {
  }

  function Kept(content: map<nat, seq<byte>>, numbers: set<nat>): (m: map<nat, seq<byte>>)
    ensures forall n :: n in m <==> n in content && n in numbers
    ensures forall n <- m :: m[n] == content[n]
  {
    map n | n in content && n in numbers :: content[n]
  }

  /** Whatever a listing gathers from an upload, some part numbers left out, is the listing of the others. */
  lemma GatheredIsListed(content: map<nat, seq<byte>>, upTo: nat, copied: seq<Part>)
    requires Sorted(copied) && forall p <- copied :: p in Listed(content, upTo)
    ensures copied == Listed(Kept(content, Numbers(copied)), upTo)
  {
    hide Listed, Sorted;
    var some := Kept(content, Numbers(copied));
    ListedSorted(some, upTo);
    forall p
      ensures p in copied <==> p in Listed(some, upTo)
    {
      if p in copied {
        assert p.number in Numbers(copied) && p == Part(p.number, |some[p.number]|);
      }
      if p in Listed(some, upTo) {
        var q :| q in copied && q.number == p.number;
        assert q == p;
      }
    }
    SortedAreSame(copied, Listed(some, upTo));
  }

  lemma {:induction false} MissingNothing(plan: seq<Part>)
    ensures Missing(plan, {}) == plan
  {
    if plan != [] {
      MissingNothing(plan[..|plan| - 1]);
    }
  }

  /** Every planned part is either listed or missing, never both. */
  lemma {:induction false} PlanSplits(whole: seq<byte>, ps: nat, content: map<nat, seq<byte>>, done: set<nat>,
                                     count: nat)
    requires ps > 0 && count <= PartCount(|whole|, ps) && StoredRight(whole, ps, content)
    requires forall n | 1 <= n <= count :: n in done <==> n in content
    ensures multiset(Listed(content, count)) + multiset(Missing(Planned(|whole|, ps, count), done))
         == multiset(Planned(|whole|, ps, count))
  {
    hide PlannedPart, PartBytes, PartCount, StoredRight, Planned, Listed, Missing;
    if count == 0 {
      NothingSplits(whole, ps, content, done);
    } else {
      PlanSplits(whole, ps, content, done, count - 1);
      PlannedFront(|whole|, ps, count);
      StoredSize(whole, ps, content, count);
      ListedStep(content, count);
      var plan := Planned(|whole|, ps, count);
      SplitStep(plan, done, Listed(content, count - 1), if count in content then [plan[count - 1]] else []);
    }
  }

  lemma NothingSplits(whole: seq<byte>, ps: nat, content: map<nat, seq<byte>>, done: set<nat>)
    requires ps > 0
    ensures multiset(Listed(content, 0)) + multiset(Missing(Planned(|whole|, ps, 0), done))
         == multiset(Planned(|whole|, ps, 0))
  {
  }

  /** One more planned part goes to exactly one of the two lists. */
  lemma SplitStep(plan: seq<Part>, done: set<nat>, listed: seq<Part>, more: seq<Part>)
    requires plan != [] && more == if plan[|plan| - 1].number in done then [plan[|plan| - 1]] else []
    requires var front := plan[..|plan| - 1]; multiset(listed) + multiset(Missing(front, done)) == multiset(front)
    ensures multiset(listed + more) + multiset(Missing(plan, done)) == multiset(plan)
  {
    hide Missing;
    MissingStep(plan, done);
    assert plan == plan[..|plan| - 1] + [plan[|plan| - 1]];
  }

  lemma MissingStep(plan: seq<Part>, done: set<nat>)
    requires plan != []
    ensures Missing(plan, done) == Missing(plan[..|plan| - 1], done)
      + if plan[|plan| - 1].number in done then [] else [plan[|plan| - 1]]
  {
  }

  /** The part built in turn i of the planning loop is part i + 1 of the plan, unless the count was narrowed. */
  lemma PartOfTurn(size: nat, ps: nat, i: nat, partCount: nat)
    requires ps > 0 && i < partCount <= PartCount(size, ps)
    ensures ps * (partCount - 1) < size
    ensures partCount == PartCount(size, ps) ==>
      PlannedPart(size, ps, i + 1) == Part(i + 1, if i == partCount - 1 then size - ps * (partCount - 1) else ps)
  {
    PartRange(size, ps, partCount);
  }

  lemma PlannedTurn(size: nat, ps: nat, i: nat, part: Part, done: set<nat>)
    requires ps > 0 && i < PartCount(size, ps) && part == PlannedPart(size, ps, i + 1)
    ensures Missing(Planned(size, ps, i + 1), done)
         == Missing(Planned(size, ps, i), done) + if part.number in done then [] else [part]
  {
    hide Missing, PartCount, PlannedPart;
    PlannedFront(size, ps, i + 1);
    MissingStep(Planned(size, ps, i + 1), done);
  }

  lemma CountOfParts(size: nat, ps: nat)
    requires size > 0 && ps > 0
    ensures PartCount(size, ps) == (size - 1) / ps + 1
    ensures ToInt32(PartCount(size, ps)) <= PartCount(size, ps)
    ensures PartCount(size, ps) < TWO_31 ==> ToInt32(PartCount(size, ps)) == PartCount(size, ps)
    ensures Planned(size, ps, 0) == [] && forall done :: Missing([], done) == []
  {
  }

  lemma PlannedFront(size: nat, ps: nat, count: nat)
    requires ps > 0 && 1 <= count <= PartCount(size, ps)
    ensures Planned(size, ps, count)[..count - 1] == Planned(size, ps, count - 1)
  {
  }

  lemma StoredSize(whole: seq<byte>, ps: nat, content: map<nat, seq<byte>>, n: nat)
    requires ps > 0 && 1 <= n <= PartCount(|whole|, ps) && StoredRight(whole, ps, content)
    ensures PlannedPart(|whole|, ps, n).number == n
    ensures n in content ==> PlannedPart(|whole|, ps, n) == Part(n, |content[n]|)
  {
    PlannedPartSize(|whole|, ps, n);
    PartRange(|whole|, ps, n);
  }

  // ---------------------------------------------------------------- the worker object

  class ResumableCopier {
    const objectSize: nat
    var partSize: nat
    var hasRecord: bool
    var consumedSize: nat
    var uploadId: nat
    var record: Record

    constructor (objectSize: nat, partSize: nat)
      ensures this.objectSize == objectSize && this.partSize == partSize
      ensures !hasRecord && consumedSize == 0 && uploadId == 0
    {
      this.objectSize, this.partSize := objectSize, partSize;
      hasRecord, consumedSize, uploadId := false, 0, 0;
      record := Record(0, 0, 0, 0, false);
    }

    /** Doubles the part size until the plan is short enough, without leaving 64 bits. */
    method DeterminePartSize()
      requires 0 < objectSize < TWO_63 && 0 < partSize < TWO_64
      modifies `partSize
      ensures partSize == Determined(objectSize, old(partSize)) && partSize < TWO_64
    {
      var ps := partSize;
      var partCount := (objectSize - 1) / ps + 1;
      while partCount > PART_NUMBER_UPPER_LIMIT
        invariant 0 < ps < TWO_64 && partCount == PartCount(objectSize, ps)
        invariant Determined(objectSize, ps) == Determined(objectSize, old(partSize))
        decreases partCount
      {
        DoublingFits(objectSize, ps);
        DoublingShrinks(objectSize, ps);
        assert ps * 2 < TWO_64;
        ps := ps * 2;
        partCount := (objectSize - 1) / ps + 1;
      }
      partSize := ps;
    }

    /** Takes the record file's fields over; an unreadable file is an error. */
    method LoadRecord(hasPath: bool, file: RecordFile) returns (ok: bool)
      modifies `record, `partSize, `uploadId, `hasRecord
      ensures ok == (hasPath ==> !file.Unreadable?)
      ensures hasPath && file.Saved? ==>
        record == file.record && partSize == record.partSize && uploadId == record.uploadId && hasRecord
      ensures !(hasPath && file.Saved?) ==> unchanged(this)
    {
      ok := true;
      if hasPath {
        match file {
          case Absent =>
          case Unreadable => ok := false;
          case Saved(r) =>
            record := r;
            partSize := r.partSize;
            uploadId := r.uploadId;
            hasRecord := true;
        }
      }
    }

    /** A new upload, and a record for it when there is somewhere to write one. */
    method Prepare(mtime: nat, hasPath: bool, file: RecordFile, a: Answers) returns (ok: bool, file': RecordFile)
      requires 0 < objectSize < TWO_63 && 0 < partSize < TWO_64
      modifies `partSize, `uploadId, `record
      ensures Start(ok, hasRecord, partSize, uploadId, file')
           == PrepareStart(objectSize, mtime, old(partSize), hasRecord, old(uploadId), hasPath, file, a)
    {
      file' := file;
      DeterminePartSize();
      if !a.headOk || !a.initOk {
        return false, file';
      }
      uploadId := a.newId;
      if hasPath {
        record := Record(uploadId, objectSize, mtime, partSize, true);
        if a.writeOk {
          file' := Saved(record);
        }
      }
      ok := true;
    }

    /** The head of every run: load the record, check it, and prepare a new upload where it does not hold. */
    method Validate(mtime: nat, hasPath: bool, file: RecordFile, a: Answers) returns (ok: bool, file': RecordFile)
      requires 0 < objectSize < TWO_63 && 0 < partSize < TWO_64 && !hasRecord && uploadId == 0
      requires file.Saved? ==> 0 < file.record.partSize < TWO_64
      modifies `partSize, `uploadId, `record, `hasRecord
      ensures Start(ok, hasRecord, partSize, uploadId, file')
           == StartRun(objectSize, mtime, old(partSize), hasPath, file, a)
    {
      file' := file;
      var loaded := LoadRecord(hasPath, file);
      if hasPath && !loaded {
        file' := Absent;
      }
      if hasRecord {
        if RecordAccepted(record, objectSize, mtime, a.gone) {
          ok := true;
        } else {
          ok, file' := Prepare(mtime, hasPath, Absent, a);
        }
      } else {
        ok, file' := Prepare(mtime, hasPath, file', a);
      }
    }

    /** Adds one page of the listing to what was read before it. */
    method ReadPage(ghost first: seq<Part>, now: seq<Part>, marker: nat, limit: nat, copied: seq<Part>)
        returns (copied': seq<Part>, more: bool, next: nat)
      requires Sorted(now) && limit > 0 && Gathered(first, now, marker, copied) && forall p <- first :: p in now
      modifies `consumedSize
      ensures Gathered(first, now, next, copied') && (more ==> marker < next && exists p <- now :: p.number == next)
      ensures !more ==> forall p <- first :: p in copied'
      ensures consumedSize - Total(copied') == old(consumedSize) - Total(copied)
    {
      hide Total, ListParts, Sorted, Gathered;
      var answer := ListParts(now, marker, limit);
      GatherPage(first, now, marker, copied, limit);
      PageCovers(now, marker, limit);
      if answer.truncated {
        NextIsStored(now, marker, limit);
      }
      TotalAppend(copied, answer.parts);
      copied' := copied + answer.parts;
      consumedSize := consumedSize + Total(answer.parts);
      more, next := answer.truncated, answer.next;
    }

    static lemma NextIsStored(now: seq<Part>, marker: nat, limit: nat)
      requires Sorted(now) && limit > 0 && ListParts(now, marker, limit).truncated
      ensures exists p <- now :: p.number == ListParts(now, marker, limit).next
    {
      PageCovers(now, marker, limit);
      var page := ListParts(now, marker, limit);
      assert page.parts[|page.parts| - 1] in page.parts;
    }

    /**
     Reads the listing page by page until it is no longer truncated. Page i is answered from what
     the upload holds by then, which only grows.
     */
    method ListCopied(stored: nat -> seq<Part>, limit: nat -> nat, fails: nat -> bool)
        returns (ok: bool, copied: seq<Part>, pages: nat)
      requires Listable(stored) && forall i :: limit(i) > 0
      modifies `consumedSize
      ensures (forall i :: !fails(i)) ==> ok
      ensures fails(0) ==> !ok
      ensures ok ==> Sorted(copied) && consumedSize == old(consumedSize) + Total(copied)
      ensures ok ==> (forall p <- stored(0) :: p in copied) && forall p <- copied :: p in stored(pages)
      ensures ok && stored(pages) == stored(0) ==> copied == stored(0)
    {
      ok, copied, pages := true, [], 0;
      var marker: nat, more := 0, true;
      assert Total([]) == 0;
      hide Total;
      while more
        invariant Gathered(stored(0), stored(pages), marker, copied) && Within(stored(0), stored(pages))
        invariant more ==> marker <= PART_NUMBER_UPPER_LIMIT
        invariant !more ==> pages > 0 && forall p <- stored(0) :: p in copied
        invariant consumedSize == old(consumedSize) + Total(copied)
        invariant pages > 0 ==> !fails(0)
        decreases more, PART_NUMBER_UPPER_LIMIT - marker
      {
        if fails(pages) {
          ok := false;
          return;
        }
        copied, more, marker := ReadPage(stored(0), stored(pages), marker, limit(pages), copied);
        assert Within(stored(pages), stored(pages + 1));
        pages := pages + 1;
      }
      if stored(pages) == stored(0) {
        SortedAreSame(copied, stored(0));
      }
    }

    /** Splits the plan into what the recorded upload already holds and what is still to copy. */
    method GetPartsToUploadCopy(stored: nat -> seq<Part>, limit: nat -> nat, fails: nat -> bool)
        returns (ok: bool, copied: seq<Part>, toCopy: seq<Part>, pages: nat)
      requires partSize > 0 && objectSize > 0 && Listable(stored) && forall i :: limit(i) > 0
      modifies `consumedSize
      ensures !hasRecord || (forall i :: !fails(i)) ==> ok
      ensures hasRecord && fails(0) ==> !ok
      ensures ok && !hasRecord ==> copied == []
      ensures ok && hasRecord ==> (forall p <- stored(0) :: p in copied) && forall p <- copied :: p in stored(pages)
      ensures ok && hasRecord && stored(pages) == stored(0) ==> copied == stored(0)
      ensures ok ==> Sorted(copied) && consumedSize == old(consumedSize) + Total(copied)
      ensures ok && PartCount(objectSize, partSize) < TWO_31 ==>
        toCopy == Missing(Plan(objectSize, partSize), Numbers(copied))
      ensures ok && ToInt32(PartCount(objectSize, partSize)) <= 0 ==> toCopy == []
    {
      hide Total, Missing, Plan, ToInt32, Listable;
      ok, copied, toCopy, pages := true, [], [], 0;
      assert Total([]) == 0 by { TotalOfNone(); }
      if hasRecord {
        ok, copied, pages := ListCopied(stored, limit, fails);
        if !ok {
          return;
        }
      }
      toCopy := PlanMissing(Numbers(copied));
    }

    /** The planning loop; the number of parts is narrowed to 32 bits before it. */
    method PlanMissing(uploaded: set<nat>) returns (toCopy: seq<Part>)
      requires partSize > 0 && objectSize > 0
      ensures PartCount(objectSize, partSize) < TWO_31 ==> toCopy == Missing(Plan(objectSize, partSize), uploaded)
      ensures ToInt32(PartCount(objectSize, partSize)) <= 0 ==> toCopy == []
    {
      hide ToInt32, Missing, PartCount, PlannedPart, Planned;
      toCopy := [];
      CountOfParts(objectSize, partSize);
      var partCount := ToInt32((objectSize - 1) / partSize + 1);
      var i := 0;
      while i < partCount
        invariant i == 0 || i <= partCount
        invariant PartCount(objectSize, partSize) < TWO_31 ==>
          toCopy == Missing(Planned(objectSize, partSize, i), uploaded)
        invariant partCount <= 0 ==> toCopy == []
      {
        PartOfTurn(objectSize, partSize, i, partCount);
        var part := Part(i + 1, if i == partCount - 1 then objectSize - partSize * (partCount - 1) else partSize);
        if PartCount(objectSize, partSize) < TWO_31 {
          PlannedTurn(objectSize, partSize, i, part, uploaded);
        }
        if part.number !in uploaded {
          toCopy := toCopy + [part];
        }
        i := i + 1;
      }
    }
  }

  ghost predicate Within(a: seq<Part>, b: seq<Part>)
  {
    forall p <- a :: p in b
  }

  /** What an upload holds as time goes by: parts in number order, none beyond the limit, none taken away. */
  ghost predicate Listable(stored: nat -> seq<Part>)
  {
    && (forall i: nat :: Sorted(stored(i)) && forall p <- stored(i) :: 0 < p.number <= PART_NUMBER_UPPER_LIMIT)
    && (forall i: nat :: Within(stored(i), stored(i + 1)))
  }

  /**
   A whole preparation with a record that is rejected: the new upload is listed all the same, so
   a failing listing ends the run, and an empty one leads to the plan of the record's part size.
   */
  method PrepareAfterRejection(size: nat, mtime: nat, ps: nat, r: Record, a: Answers,
                               stored: nat -> seq<Part>, limit: nat -> nat, fails: nat -> bool)
      returns (ok: bool, copied: seq<Part>, toCopy: seq<Part>)
    requires 0 < size < TWO_63 && 0 < ps < TWO_64 && 0 < r.partSize < TWO_64
    requires !RecordAccepted(r, size, mtime, a.gone)
    requires Listable(stored) && forall i :: limit(i) > 0
    ensures !a.headOk || !a.initOk || fails(0) ==> !ok
    ensures a.headOk && a.initOk && (forall i :: !fails(i)) ==> ok
    ensures ok ==> toCopy == Missing(Plan(size, Determined(size, r.partSize)), Numbers(copied))
    ensures ok && (forall i :: stored(i) == []) ==>
      var mine, asked := Determined(size, r.partSize), Determined(size, ps);
      toCopy == Plan(size, asked) <==> mine == asked || (mine >= size && asked >= size)
  {
    hide Plan, Missing, Total, RecordAccepted, Listable, Determined, ToInt32, PartCount;
    var worker := new ResumableCopier(size, ps);
    var file;
    copied, toCopy := [], [];
    ok, file := worker.Validate(mtime, true, Saved(r), a);
    if ok {
      var pages;
      ok, copied, toCopy, pages := worker.GetPartsToUploadCopy(stored, limit, fails);
      if ok {
        DeterminedCount(size, worker.partSize, r.partSize);
        if forall i :: stored(i) == [] {
          assert copied == [] && Numbers(copied) == {};
          MissingNothing(Plan(size, worker.partSize));
          PlansAgree(size, worker.partSize, Determined(size, ps));
        }
      }
    }
  }

  lemma DeterminedCount(size: nat, ps: nat, asked: nat)
    requires asked > 0 && ps == Determined(size, asked)
    ensures PartCount(size, ps) < TWO_31
  {
  }
}
