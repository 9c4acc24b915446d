/** The module-level state of the catalogue API and its two request
    handlers: the JSON file, the `isWriting` flag and the FIFO `writeQueue`
    of pending writes. */
module VideoStore {
  import opened Wrappers
  import opened Strings
  import opened YouTubeUrl
  import opened VideoRecords
  import opened VideoListing

  /** What `readVideosFile` finds: no file, a file that cannot be read or
      parsed, or a stored collection. */
  datatype FileState = Absent | Unreadable | Stored(videos: seq<Video>)

  /** `readVideosFile`: a missing file is the empty collection; any other
      read or parse failure is passed on (`None`). */
  function ReadVideosFile(f: FileState): (r: Option<seq<Video>>)
    ensures r.None? <==> f.Unreadable?
    ensures f.Absent? ==> r == Some([])
    ensures f.Stored? ==> r == Some(f.videos)
  {
    match f
    case Absent => Some([])
    case Unreadable => None
    case Stored(videos) => Some(videos)
  }

  /** A queued `writeOperation`: the collection it writes to the file. */
  datatype WriteOp = WriteOp(videos: seq<Video>)

  /** The answer of `POST` at the moment it hands its write to the queue.
      `Refused` is a 400 or 409 (see `StatusOf`), `ReadFailed` a 500;
      `Queued` becomes a 200 carrying the video when its write succeeds and
      a 500 when it fails. */
  datatype PostResult = Refused(error: CreateError) | ReadFailed | Queued(video: Video)

  datatype Pagination = Pagination(total: nat, page: int, limit: int, totalPages: nat)

  /** The answer of `GET`: 400, 500 or 200 with one page and its counts. */
  datatype GetResult = InvalidPagination | ReadError | Listed(videos: seq<Video>, pagination: Pagination)

  /** Every write in `ops` would store a collection that keeps the
      catalogue invariant. */
  ghost predicate AllSound(ops: seq<WriteOp>) {
    forall i :: 0 <= i < |ops| ==> CatalogueInvariant(ops[i].videos)
  }

  lemma AllSoundAppend(ops: seq<WriteOp>, op: WriteOp)
    requires AllSound(ops) && CatalogueInvariant(op.videos)
    ensures AllSound(ops + [op])
  {
    var s := ops + [op];
    forall i | 0 <= i < |s| ensures CatalogueInvariant(s[i].videos) {
      if i < |ops| { assert s[i] == ops[i]; }
    }
  }

  class VideoStore {
    /** The content of `src/data/videos.json`. */
    var file: FileState
    var isWriting: bool
    var writeQueue: seq<WriteOp>
    /** Every write handed to the queue, in submission order. */
    ghost var submitted: seq<WriteOp>
    /** Every write that has settled, successfully or not, in order. */
    ghost var finished: seq<WriteOp>

    /** The queue is busy exactly when it holds a write (its head is the one
        running), and the pending writes are what was submitted and has not
        yet finished, in the same order. */
    ghost predicate Valid()
      reads this
    {
      && (isWriting <==> writeQueue != [])
      && submitted == finished + writeQueue
    }

    /** Every collection on disk or waiting to be written has unique ids and
        at most `MaxVideos` records. */
    ghost predicate Consistent()
      reads this
    {
      && (file.Stored? ==> CatalogueInvariant(file.videos))
      && AllSound(writeQueue)
    }

    /** The writes that have begun: the finished ones and the running head. */
    ghost function Started(): seq<WriteOp>
      reads this
      requires Valid()
    {
      finished + (if isWriting then [writeQueue[0]] else [])
    }

    /** Writes begin in submission order, never two at a time: the ones
        begun are a prefix of those submitted, made of the finished ones and
        at most one more. This follows from `Valid()`; the evidence that the
        queue behaves so is that the constructor establishes `Valid()` and
        every method that touches the queue keeps it. */
    lemma StartsInOrderOneAtATime()
      requires Valid()
      ensures Started() <= submitted
      ensures finished <= Started() && |Started()| <= |finished| + 1
    {
    }

    /** The state when the module is loaded: nothing queued or running. */
    constructor (initial: FileState)
      ensures Valid()
      ensures file == initial && !isWriting && writeQueue == []
      ensures submitted == [] && finished == []
      ensures Consistent() <==> (initial.Stored? ==> CatalogueInvariant(initial.videos))
    {
      file := initial;
      isWriting := false;
      writeQueue := [];
      submitted := [];
      finished := [];
    }

    /** `processWriteQueue`: starts the head unless a write is running or
        nothing is queued. */
    method ProcessWriteQueue()
      modifies this`isWriting
      ensures isWriting == (old(isWriting) || writeQueue != [])
    {
      if isWriting || writeQueue == [] {
        return;
      }
      isWriting := true;
    }

    /** `writeVideosFile`: appends the write to the tail of the queue and
        processes the queue, so the write begins at once when the queue was
        idle and waits its turn otherwise. */
    method WriteVideosFile(videos: seq<Video>)
      requires Valid()
      modifies this
      ensures Valid()
      ensures file == old(file)
      ensures writeQueue == old(writeQueue) + [WriteOp(videos)]
      ensures submitted == old(submitted) + [WriteOp(videos)] && finished == old(finished)
      ensures isWriting
      ensures Started() == old(Started()) + (if old(isWriting) then [] else [WriteOp(videos)])
    {
      writeQueue := writeQueue + [WriteOp(videos)];
      submitted := submitted + [WriteOp(videos)];
      ProcessWriteQueue();
    }

    /** The running head settles: a successful write replaces the file, a
        failed one leaves it as it was. Either way the flag is cleared, exactly
        the head leaves the queue, and the next write begins if there is one. */
    method CompleteWrite(succeeded: bool) returns (op: WriteOp)
      requires Valid() && isWriting
      modifies this
      ensures Valid()
      ensures op == old(writeQueue[0])
      ensures writeQueue == old(writeQueue[1..])
      ensures file == if succeeded then Stored(op.videos) else old(file)
      ensures finished == old(finished) + [op] && submitted == old(submitted)
      ensures isWriting == (writeQueue != [])
      ensures old(Consistent()) ==> Consistent()
    {
      op := writeQueue[0];
      if succeeded {
        file := Stored(op.videos);
      }
      finished := finished + [op];
      isWriting := false;
      writeQueue := writeQueue[1..];
      if |writeQueue| > 0 {
        ProcessWriteQueue();
      }
    }

    /** `POST /api/videos`: validation first, then the file is read, then
        the duplicate and capacity checks; only a request that passes all of
        them queues a write, and that write holds the new record followed by
        the collection as read. No refusal changes anything. */
    method Post(req: CreateRequest, parse: string -> Option<ParsedUrl>, createdAt: string) returns (r: PostResult)
      requires Valid()
      modifies this
      ensures Valid()
      ensures file == old(file) && finished == old(finished)
      ensures Validate(req, parse).Failure? ==> r == Refused(Validate(req, parse).error)
      ensures Validate(req, parse).Success? && old(file).Unreadable? ==> r == ReadFailed
      ensures Validate(req, parse).Success? && !old(file).Unreadable? ==>
                var a := Admit(ReadVideosFile(old(file)).value, Validate(req, parse).value, createdAt);
                r == if a.Success? then Queued(a.value) else Refused(a.error)
      ensures r.Queued? ==>
                && writeQueue == old(writeQueue) + [WriteOp([r.video] + ReadVideosFile(old(file)).value)]
                && submitted == old(submitted) + [WriteOp([r.video] + ReadVideosFile(old(file)).value)]
                && isWriting
      ensures !r.Queued? ==> writeQueue == old(writeQueue) && submitted == old(submitted) && isWriting == old(isWriting)
      ensures old(Consistent()) ==> Consistent()
    {
      var draft := Validate(req, parse);
      if draft.Failure? {
        return Refused(draft.error);
      }
      var data := ReadVideosFile(file);
      if data.None? {
        return ReadFailed;
      }
      var admitted := Admit(data.value, draft.value, createdAt);
      if admitted.Failure? {
        return Refused(admitted.error);
      }
      var videos := data.value;
      videos := [admitted.value] + videos;
      if Consistent() {
        AdmitKeepsInvariant(data.value, draft.value, createdAt);
        AllSoundAppend(writeQueue, WriteOp(videos));
      }
      WriteVideosFile(videos);
      r := Queued(admitted.value);
    }

    /** `GET /api/videos`: an absent or empty `page` is 1 and an absent or
        empty `limit` is 20; the listing is then that of `ListPage`. */
    method Get(q: Option<string>, pageParam: Option<int>, limitParam: Option<int>) returns (r: GetResult)
      ensures !ValidPagination(PageParam(pageParam), LimitParam(limitParam)) ==> r == InvalidPagination
      ensures ValidPagination(PageParam(pageParam), LimitParam(limitParam)) && file.Unreadable? ==> r == ReadError
      ensures ValidPagination(PageParam(pageParam), LimitParam(limitParam)) && !file.Unreadable? ==>
                var found := Search(ReadVideosFile(file).value, q);
                && r.Listed?
                && r.videos == PageOf(found, PageParam(pageParam), LimitParam(limitParam))
                && r.pagination == Pagination(|found|, PageParam(pageParam), LimitParam(limitParam),
                                              TotalPages(|found|, LimitParam(limitParam)))
    {
      r := ListPage(q, PageParam(pageParam), LimitParam(limitParam));
    }

    /** The listing once `page` and `limit` are numbers: they are checked
        before the file is read; then come the search filter, the slice of
        the requested page and the counts of the filtered list. Nothing
        changes. */
    method ListPage(q: Option<string>, page: int, limit: int) returns (r: GetResult)
      ensures !ValidPagination(page, limit) ==> r == InvalidPagination
      ensures ValidPagination(page, limit) && file.Unreadable? ==> r == ReadError
      ensures ValidPagination(page, limit) && !file.Unreadable? ==>
                var found := Search(ReadVideosFile(file).value, q);
                && r.Listed?
                && r.videos == PageOf(found, page, limit)
                && r.pagination == Pagination(|found|, page, limit, TotalPages(|found|, limit))
    {
      if page < 1 || limit < 1 || limit > MaxLimit {
        return InvalidPagination;
      }
      var data := ReadVideosFile(file);
      if data.None? {
        return ReadError;
      }
      var videos := data.value;
      var query := if q.Some? then Some(ToLower(q.value)) else None;
      if query.Some? && query.value != [] {
        videos := Filter(videos, query.value);
      }
      var total := |videos|;
      var start := (page - 1) * limit;
      var end := start + limit;
      PageStartIsProduct(page, limit);
      var pageVideos := Slice(videos, start, end);
      r := Listed(pageVideos, Pagination(total, page, limit, TotalPages(total, limit)));
    }
  }

  /** Only the final write is serialized, not the whole creation: two
      copies of one valid request whose reads both come before either write
      lands are both accepted, so two callers are told that the same id was
      created and two writes of it are queued. */
  method SameIdRace(req: CreateRequest, parse: string -> Option<ParsedUrl>)
      returns (first: PostResult, second: PostResult)
    requires Validate(req, parse).Success?
    ensures first.Queued? && second.Queued?
    ensures first.video.id == second.video.id
  {
    var store := new VideoStore(Absent);
    ghost var d := Validate(req, parse).value;
    assert !HasId([], d.id);
    first := store.Post(req, parse, "t1");
    second := store.Post(req, parse, "t2");
  }
}
