/** The disk queue: a feeder appending frames to numbered files and rolling over,
  * a reader behind it, and a cursor that records what has been acknowledged,
  * checkpoints it now and then, and deletes the files it has left behind. */
module QueueBuffer {
  import opened Bytes
  import opened Varint
  import opened Wire
  import opened Framing
  import opened QueueFiles
  import opened Decimal

  datatype QueueResult = Queued | Full | TooBig | WriteError

  datatype ReadResult = NoRecord | Record(msg: Blob, cursor: seq<byte>)

  datatype InitResult = NoFile | BadCheckpoint | Opened(id: nat, offset: nat)

  datatype CursorResult = Updated | Past | Unparsable | CheckpointError

  /** How the system calls of one checkpoint write turn out: the open, if there is one
    * to do, the write, which may stop after some bytes, and the truncation. */
  datatype Calls = Calls(opens: bool, failAt: Option<nat>, truncates: bool)

  /** An acknowledgement: a cursor, how many messages of its file are before it, and how
    * the calls turn out if a checkpoint is due. */
  datatype Ack = Ack(id: nat, offset: nat, k: nat, calls: Calls)

  predicate Succeed(calls: Calls) { calls.opens && calls.failAt.None? && calls.truncates }

  /** (id, offset) pairs in queue order. */
  predicate NotAfter(id: nat, offset: nat, id': nat, offset': nat) {
    id < id' || (id == id' && offset <= offset')
  }

  /** Bytes in the files with ids below `n`. */
  function TotalSize(files: map<nat, seq<byte>>, n: nat): nat {
    if n == 0 then 0 else TotalSize(files, n - 1) + if n - 1 in files then |files[n - 1]| else 0
  }

  lemma {:induction false} TotalChange(files: map<nat, seq<byte>>, files': map<nat, seq<byte>>, n: nat, id: nat)
    requires id < n
    requires forall i :: 0 <= i < n && i != id ==> (i in files <==> i in files')
    requires forall i :: 0 <= i < n && i != id && i in files ==> |files[i]| == |files'[i]|
    ensures TotalSize(files', n) - (if id in files' then |files'[id]| else 0)
            == TotalSize(files, n) - (if id in files then |files[id]| else 0)
  {
    if id == n - 1 {
      TotalSame(files, files', n - 1);
    } else {
      TotalChange(files, files', n - 1, id);
    }
  }

  lemma {:induction false} TotalSame(files: map<nat, seq<byte>>, files': map<nat, seq<byte>>, n: nat)
    requires forall i :: 0 <= i < n ==> (i in files <==> i in files')
    requires forall i :: 0 <= i < n && i in files ==> |files[i]| == |files'[i]|
    ensures TotalSize(files', n) == TotalSize(files, n)
  {
    if n > 0 {
      TotalSame(files, files', n - 1);
    }
  }

  /** BufferSize.Add: atomic addition on a uint64. */
  function AddSize(size: nat, delta: nat): nat { (size + delta) % TWO64 }

  /** ^uint64(n - 1), the two's complement of a file size. */
  function Complement(n: nat): nat { TWO64 - 1 - (n - 1) % TWO64 }

  /** Adding the complement subtracts exactly, for an empty file too. */
  lemma AddComplement(total: nat, n: nat)
    requires n <= total && n < TWO64
    ensures AddSize(total % TWO64, Complement(n)) == (total - n) % TWO64
  {
    ModAdd(total, Complement(n), TWO64);
    if n == 0 {
      ModShift(-1, 1, TWO64);
      ModSmall(TWO64 - 1, TWO64);
    } else {
      ModSmall(n - 1, TWO64);
      ModShift(total - n, 1, TWO64);
    }
  }

  /** `offset` is where the first `k` messages of file `id` end. */
  ghost predicate Stands(hist: seq<seq<Blob>>, id: nat, offset: nat, k: nat) {
    id < |hist| && k <= |hist[id]| && Boundary(hist[id], k) == offset
  }

  /** The messages before that place, over all files. */
  ghost function Before(hist: seq<seq<Blob>>, id: nat, k: nat): seq<Blob>
    requires id < |hist| && k <= |hist[id]|
  {
    Flatten(hist[..id]) + hist[id][..k]
  }

  /** Places further on in the files have more messages before them. */
  lemma BeforePrefix(hist: seq<seq<Blob>>, id: nat, k: nat)
    requires id < |hist| && k <= |hist[id]|
    ensures Before(hist, id, k) <= Flatten(hist)
  {
    FlattenConcat(hist[..id], hist[id..]);
    assert hist[..id] + hist[id..] == hist;
    assert hist[id..][0] == hist[id];
  }

  /** The message at a place is the next one of the whole queue. */
  lemma NextInQueue(hist: seq<seq<Blob>>, id: nat, k: nat)
    requires id < |hist| && k < |hist[id]|
    ensures Before(hist, id, k + 1) == Before(hist, id, k) + [hist[id][k]]
    ensures |Before(hist, id, k)| < |Flatten(hist)|
    ensures Flatten(hist)[|Before(hist, id, k)|] == hist[id][k]
  {
    BeforePrefix(hist, id, k + 1);
    assert hist[id][..k + 1] == hist[id][..k] + [hist[id][k]];
    assert Before(hist, id, k + 1)[|Before(hist, id, k)|] == hist[id][k];
  }

  /** The end of one file and the start of the next are the same place. */
  lemma AcrossFiles(hist: seq<seq<Blob>>, id: nat)
    requires id + 1 < |hist|
    ensures Before(hist, id, |hist[id]|) == Before(hist, id + 1, 0)
  {
    assert hist[..id + 1] == hist[..id] + [hist[id]];
    FlattenSnoc(hist[..id], hist[id]);
    assert hist[id][..|hist[id]|] == hist[id];
    assert Flatten(hist[..id + 1]) + hist[id + 1][..0] == Flatten(hist[..id + 1]);
  }

  lemma AtTheEnd(hist: seq<seq<Blob>>)
    requires hist != []
    ensures Before(hist, |hist| - 1, |hist[|hist| - 1]|) == Flatten(hist)
  {
    var last := hist[|hist| - 1];
    assert hist == hist[..|hist| - 1] + [last];
    FlattenSnoc(hist[..|hist| - 1], last);
    assert last[..|last|] == last;
  }

  /** Queueing one more message moves no place, and puts it at the end. */
  lemma QueuedLast(hist: seq<seq<Blob>>, msg: Blob)
    requires hist != []
    ensures var last := |hist| - 1; var hist' := hist[last := hist[last] + [msg]];
            && Flatten(hist') == Flatten(hist) + [msg]
            && (forall id, k :: 0 <= id < |hist| && 0 <= k <= |hist[id]| ==> Before(hist', id, k) == Before(hist, id, k))
            && (forall id: nat, offset: nat, k: nat :: Stands(hist, id, offset, k) ==> Stands(hist', id, offset, k))
  {
    hide Boundary;
    var last := |hist| - 1;
    var hist' := hist[last := hist[last] + [msg]];
    var front := hist[..last];
    assert hist == front + [hist[last]] && hist' == front + [hist[last] + [msg]];
    FlattenSnoc(front, hist[last]);
    FlattenSnoc(front, hist[last] + [msg]);
    forall id, k | 0 <= id < |hist| && 0 <= k <= |hist[id]| ensures Before(hist', id, k) == Before(hist, id, k) {
      assert hist'[..id] == hist[..id];
      assert hist'[id][..k] == hist[id][..k];
    }
    forall id: nat, offset: nat, k: nat | Stands(hist, id, offset, k) ensures Stands(hist', id, offset, k) {
      if id == last {
        BoundaryStable(hist[last], [msg], k);
      }
    }
  }

  lemma RolledLast(hist: seq<seq<Blob>>)
    ensures var hist' := hist + [[]];
            && Flatten(hist') == Flatten(hist)
            && (forall id, k :: 0 <= id < |hist| && 0 <= k <= |hist[id]| ==> Before(hist', id, k) == Before(hist, id, k))
            && (forall id: nat, offset: nat, k: nat :: Stands(hist, id, offset, k) ==> Stands(hist', id, offset, k))
  {
    hide Boundary;
    var hist' := hist + [[]];
    FlattenSnoc(hist, []);
    forall id, k | 0 <= id < |hist| && 0 <= k <= |hist[id]| ensures Before(hist', id, k) == Before(hist, id, k) {
      assert hist'[..id] == hist[..id];
    }
  }

  // ------------------------------------------------------------- invariants

  type Dir = map<nat, seq<byte>>

  /** Every file holds whole frames, and from the checkpointed file to the one
    * being written none is missing. */
  ghost predicate DiskOk(files: Dir, hist: seq<seq<Blob>>, writeId: nat, savedId: nat, maxMessage: nat) {
    && |hist| == writeId + 1
    && (forall id: nat :: id in files ==> id <= writeId && files[id] == FileOf(hist[id]))
    && (forall id: nat :: savedId <= id <= writeId ==> id in files)
    && (forall id: nat, k: nat :: id <= writeId && k < |hist[id]| ==> |hist[id][k]| <= maxMessage)
  }

  /** No file is gone or has lost bytes. */
  predicate Grown(files: Dir, files': Dir) {
    forall id: nat :: id in files ==> id in files' && files[id] <= files'[id]
  }

  /** The size counter is exact, and the configured limits hold up to one frame's
    * overhead. */
  ghost predicate SizesOk(files: Dir, writeId: nat, queueSize: nat, maxFileSize: nat, maxBufferSize: nat) {
    && queueSize == TotalSize(files, writeId + 1) % TWO64
    && (forall id: nat :: id in files ==> |files[id]| <= maxFileSize + 9)
    && (0 < maxBufferSize < TWO63 - 16 ==> TotalSize(files, writeId + 1) <= maxBufferSize + 9)
  }

  /** Checkpoint, cursor and reader all stand between messages, in this order. */
  ghost predicate PlacesOk(hist: seq<seq<Blob>>, savedId: nat, savedOffset: nat, savedAt: nat,
                           cursorId: nat, cursorOffset: nat, cursorAt: nat,
                           readId: nat, readOffset: nat, readAt: nat)
  {
    && Stands(hist, savedId, savedOffset, savedAt)
    && Stands(hist, cursorId, cursorOffset, cursorAt)
    && Stands(hist, readId, readOffset, readAt)
    && NotAfter(savedId, savedOffset, cursorId, cursorOffset)
    && NotAfter(cursorId, cursorOffset, readId, readOffset)
  }

  lemma DiskAppend(files: Dir, hist: seq<seq<Blob>>, writeId: nat, savedId: nat, maxMessage: nat, msg: Blob)
    requires DiskOk(files, hist, writeId, savedId, maxMessage) && writeId in files && |msg| <= maxMessage
    ensures DiskOk(files[writeId := files[writeId] + FrameFor(msg)],
                   hist[writeId := hist[writeId] + [msg]], writeId, savedId, maxMessage)
  {
    hide FrameFor;
    FileOfSnoc(hist[writeId], msg);
  }

  lemma DiskRoll(files: Dir, hist: seq<seq<Blob>>, writeId: nat, savedId: nat, maxMessage: nat)
    requires DiskOk(files, hist, writeId, savedId, maxMessage)
    ensures writeId + 1 !in files
    ensures DiskOk(files[writeId + 1 := []], hist + [[]], writeId + 1, savedId, maxMessage)
  {
    assert FileOf([]) == [];
  }

  lemma DiskDelete(files: Dir, hist: seq<seq<Blob>>, writeId: nat, savedId: nat, maxMessage: nat, id: nat)
    requires DiskOk(files, hist, writeId, savedId, maxMessage) && id < savedId
    ensures DiskOk(files - {id}, hist, writeId, savedId, maxMessage)
  {
    hide FileOf;
  }

  lemma SizesAppend(files: Dir, writeId: nat, queueSize: nat, maxFileSize: nat, maxBufferSize: nat, msg: Blob)
    requires SizesOk(files, writeId, queueSize, maxFileSize, maxBufferSize) && writeId in files
    requires |msg| < TWO32 && |files[writeId]| + |msg| <= maxFileSize
    requires maxBufferSize > 0 ==> (queueSize + |msg|) % TWO64 <= maxBufferSize
    ensures SizesOk(files[writeId := files[writeId] + FrameFor(msg)], writeId,
                    AddSize(queueSize, |FrameFor(msg)|), maxFileSize, maxBufferSize)
  {
    var total := TotalSize(files, writeId + 1);
    var f := FrameFor(msg);
    var files' := files[writeId := files[writeId] + f];
    TotalChange(files, files', writeId + 1, writeId);
    ModAdd(total, |f|, TWO64);
    if 0 < maxBufferSize < TWO63 - 16 {
      ModSmall(total, TWO64);
      ModSmall(total + |msg|, TWO64);
    }
  }

  lemma SizesRoll(files: Dir, writeId: nat, queueSize: nat, maxFileSize: nat, maxBufferSize: nat)
    requires SizesOk(files, writeId, queueSize, maxFileSize, maxBufferSize) && writeId + 1 !in files
    ensures SizesOk(files[writeId + 1 := []], writeId + 1, queueSize, maxFileSize, maxBufferSize)
  {
    TotalSame(files, files[writeId + 1 := []], writeId + 1);
  }

  /** Deleting one file takes exactly its size off the counter. */
  lemma SizesDelete(files: Dir, writeId: nat, queueSize: nat, maxFileSize: nat, maxBufferSize: nat, id: nat)
    requires SizesOk(files, writeId, queueSize, maxFileSize, maxBufferSize)
    requires id in files && id <= writeId && maxFileSize < TWO63 - 16
    ensures SizesOk(files - {id}, writeId, AddSize(queueSize, Complement(|files[id]|)), maxFileSize, maxBufferSize)
  {
    TotalChange(files, files - {id}, writeId + 1, id);
    AddComplement(TotalSize(files, writeId + 1), |files[id]|);
  }

  /** Where in its file the cursor stands, where the checkpoint stands, the advances of
    * the cursor since, whether a checkpoint write ever failed, and whether the last
    * one left the file in disorder. */
  datatype Marks = Marks(cursorAt: nat, savedId: nat, savedOffset: nat, savedAt: nat, advances: nat,
                         failed: bool, torn: bool)

  // -------------------------------------------------------------- the queue

  class Queue {
    // The queue directory.
    var files: Dir
    var checkpoint: Option<seq<byte>>
    var checkpointOpen: bool
    // Shared by feeder and reader.
    var queueSize: nat
    // BufferFeeder.
    var writeId: nat
    var writeFileSize: nat
    // BufferReader.
    var readId: nat
    var readOffset: nat
    var cursorId: nat
    var cursorOffset: nat
    var cursorCount: nat
    // QueueBufferConfig.
    const maxFileSize: nat
    const maxBufferSize: nat
    const cursorUpdateCount: nat
    const maxMessage: nat

    // The messages of every file ever written, how many of its file the reader has
    // read, and where the cursor and the checkpoint stand.
    ghost var hist: seq<seq<Blob>>
    ghost var readAt: nat
    ghost var m: Marks

    ghost predicate Valid()
      reads this
    {
      ValidButLag() && (!m.failed ==> m.advances == cursorCount <= cursorUpdateCount)
    }

    /** All of it but the bound on how far the checkpoint lags. */
    ghost predicate ValidButLag()
      reads this
    {
      && maxMessage < TWO32 && MaxRecord(maxMessage) <= maxFileSize < TWO63 - 16
      && DiskOk(files, hist, writeId, m.savedId, maxMessage)
      && SizesOk(files, writeId, queueSize, maxFileSize, maxBufferSize)
      && writeId in files && writeFileSize == |files[writeId]|
      && PlacesOk(hist, m.savedId, m.savedOffset, m.savedAt, cursorId, cursorOffset, m.cursorAt, readId, readOffset, readAt)
      && (checkpointOpen ==> checkpoint.Some?)
      && (!m.torn && checkpoint == None ==> m.savedId == 0 && m.savedOffset == 0)
      && (!m.torn && checkpoint.Some? ==> m.savedId < TWO32 && checkpoint.value == CursorText(m.savedId, m.savedOffset))
    }

    /** All messages queued so far, oldest first. */
    ghost function Queued(): seq<Blob>
      reads this
    {
      Flatten(hist)
    }

    /** The messages in front of the reader's place. */
    ghost function Consumed(): seq<Blob>
      reads this
      requires Valid()
    {
      Before(hist, readId, readAt)
    }

    /** NewBufferSet on an empty queue directory. */
    constructor (maxFileSize: nat, maxBufferSize: nat, cursorUpdateCount: nat, maxMessage: nat)
      requires maxMessage < TWO32 && MaxRecord(maxMessage) <= maxFileSize < TWO63 - 16
      ensures Valid() && Queued() == [] && Consumed() == [] && checkpoint == None && queueSize == 0 && !m.failed && !m.torn
      ensures this.maxFileSize == maxFileSize && this.maxBufferSize == maxBufferSize
      ensures this.maxMessage == maxMessage
      ensures this.cursorUpdateCount == if cursorUpdateCount == 0 then 1 else cursorUpdateCount
    {
      this.maxFileSize, this.maxBufferSize, this.maxMessage := maxFileSize, maxBufferSize, maxMessage;
      this.cursorUpdateCount := if cursorUpdateCount == 0 then 1 else cursorUpdateCount;
      files, checkpoint, queueSize := map[0 := []], None, 0;
      writeId, writeFileSize, readId, readOffset := 0, 0, 0, 0;
      cursorId, cursorOffset, cursorCount := 0, 0, 0;
      hist, readAt, m := [[]], 0, Marks(0, 0, 0, 0, 0, false, false);
      checkpointOpen := false;
      new;
      assert FileOf([]) == [];
      assert TotalSize(files, 1) == 0;
      assert hist[0][..0] == [];
    }

    /** RollQueue: start the next file. */
    method RollQueue()
      requires Valid()
      modifies this`files, this`writeId, this`writeFileSize, this`hist
      ensures Valid() && writeId == old(writeId) + 1 && writeFileSize == 0
      ensures writeId !in old(files) && files == old(files)[writeId := []] && hist == old(hist) + [[]]
      ensures Queued() == old(Queued()) && Consumed() == old(Consumed())
    {
      hide DiskOk;
      hide SizesOk;
      hide Stands;
      hide Before;
      DiskRoll(files, hist, writeId, m.savedId, maxMessage);
      SizesRoll(files, writeId, queueSize, maxFileSize, maxBufferSize);
      RolledLast(hist);
      PlaceBounds();
      writeId := writeId + 1;
      files := files[writeId := []];
      writeFileSize := 0;
      hist := hist + [[]];
    }

    /** findBufferId for the newest file; 0 when there is none. */
    method NewestId() returns (current: nat)
      ensures files != map[] ==> current in files
      ensures files == map[] ==> current == 0
      ensures forall i: nat :: i in files ==> i <= current
    {
      current := 0;
      var first, ids := true, files.Keys;
      while ids != {}
        invariant ids <= files.Keys && (first <==> ids == files.Keys)
        invariant first ==> current == 0
        invariant !first ==> current in files
        invariant forall i: nat :: i in files && i !in ids ==> i <= current
        decreases ids
      {
        var i :| i in ids;
        ids := ids - {i};
        if first || i > current {
          current, first := i, false;
        }
      }
    }

    /** NewBufferFeeder on an existing queue: it never goes on in an old file. */
    method StartFeeder()
      requires Valid()
      modifies this`files, this`writeId, this`writeFileSize, this`hist
      ensures Valid() && writeId == old(writeId) + 1 && files == old(files)[writeId := []]
      ensures Queued() == old(Queued()) && Consumed() == old(Consumed())
    {
      hide SizesOk;
      hide Stands;
      var newest := NewestId();
      assert newest == writeId;
      RollQueue();
    }

    /** What holds in every state of every run: the reader has seen a prefix of the
      * queue, checkpoint, cursor, reader and writer stand in this order, the
      * checkpoint lags by no more than the configured count, and the sizes are exact
      * and within one frame's overhead of their limits. */
    lemma Safety()
      requires Valid()
      ensures Consumed() <= Queued()
      ensures m.savedId <= cursorId <= readId <= writeId && writeId in files
      ensures NotAfter(m.savedId, m.savedOffset, cursorId, cursorOffset)
      ensures !m.failed ==> m.advances <= cursorUpdateCount
      ensures forall id: nat :: id in files ==> |files[id]| <= maxFileSize + 9
      ensures 0 < maxBufferSize < TWO63 - 16 ==>
                queueSize == TotalSize(files, writeId + 1) <= maxBufferSize + 9
    {
      hide DiskOk;
      PlaceBounds();
      BeforePrefix(hist, readId, readAt);
      if 0 < maxBufferSize < TWO63 - 16 {
        ModSmall(TotalSize(files, writeId + 1), TWO64);
      }
    }

    lemma PlaceBounds()
      requires Valid()
      ensures hist != [] && |hist| == writeId + 1
      ensures readId < |hist| && readAt <= |hist[readId]|
      ensures cursorId <= readId <= writeId && m.savedId <= cursorId
    {
    }

    /** QueueRecord.  `failAt` is how many bytes a failing write got onto the disk
      * before they were cut off again; None for a write that succeeds. */
    method QueueRecord(msg: Blob, failAt: Option<nat>) returns (r: QueueResult)
      requires Valid() && |msg| < TWO32
      modifies this`files, this`writeId, this`writeFileSize, this`hist, this`queueSize
      ensures Valid() && Consumed() == old(Consumed())
      ensures Queued() == old(Queued()) + if r == QueueResult.Queued then [msg] else []
      ensures r == Full <==> maxBufferSize > 0 && (old(queueSize) + |msg|) % TWO64 > maxBufferSize
      ensures r == Full ==> files == old(files)
      ensures writeId == if r == Full || old(writeFileSize) + |msg| <= maxFileSize then old(writeId) else old(writeId) + 1
      ensures r == TooBig <==> r != Full && |msg| > maxMessage
      ensures r == WriteError <==> r !in {Full, TooBig} && failAt.Some?
      ensures Grown(old(files), files)
      ensures r != QueueResult.Queued ==> queueSize == old(queueSize)
    {
      hide DiskOk;
      hide SizesOk;
      hide Stands;
      hide Before;
      hide FrameFor;
      if maxBufferSize > 0 && (queueSize + |msg|) % TWO64 > maxBufferSize {
        return Full;
      }
      ModSmall(|msg|, TWO32);
      if writeFileSize + |msg| > maxFileSize {
        RollQueue();
      }
      if |msg| > maxMessage {
        return TooBig;
      }
      var written := WriteFrame(msg, failAt);
      r := if written then QueueResult.Queued else WriteError;
    }

    /** The end of QueueRecord: append the frame, or cut a partial write off again. */
    method WriteFrame(msg: Blob, failAt: Option<nat>) returns (written: bool)
      requires Valid() && |msg| <= maxMessage && writeFileSize + |msg| <= maxFileSize
      requires maxBufferSize > 0 ==> (queueSize + |msg|) % TWO64 <= maxBufferSize
      modifies this`files, this`writeFileSize, this`hist, this`queueSize
      ensures Valid() && Consumed() == old(Consumed()) && written == failAt.None?
      ensures Queued() == old(Queued()) + if written then [msg] else []
      ensures !written ==> files == old(files) && queueSize == old(queueSize)
      ensures Grown(old(files), files)
    {
      hide DiskOk;
      hide SizesOk;
      hide Stands;
      hide Before;
      hide FrameFor;
      PlaceBounds();
      var outBytes := FrameFor(msg);
      if failAt.Some? {
        var n := if failAt.value < |outBytes| then failAt.value else |outBytes|;
        var size := |files[writeId]|;
        files := files[writeId := files[writeId] + outBytes[..n]];
        files := files[writeId := files[writeId][..size]];
        assert files == old(files);
        return false;
      }
      DiskAppend(files, hist, writeId, m.savedId, maxMessage, msg);
      SizesAppend(files, writeId, queueSize, maxFileSize, maxBufferSize, msg);
      QueuedLast(hist, msg);
      files := files[writeId := files[writeId] + outBytes];
      hist := hist[writeId := hist[writeId] + [msg]];
      queueSize := AddSize(queueSize, |outBytes|);
      writeFileSize := writeFileSize + |outBytes|;
      return true;
    }

    /** getFileFromId: the file itself, or else the oldest one after it. */
    method GetFileFromId(id: nat) returns (found: Option<nat>)
      ensures found.None? ==> forall i: nat :: i in files ==> i < id
      ensures found.Some? ==> found.value in files && found.value >= id
      ensures found.Some? ==> forall i: nat :: i in files && i >= id ==> found.value <= i
    {
      if id in files {
        return Some(id);
      }
      found := None;
      var ids := files.Keys;
      while ids != {}
        invariant ids <= files.Keys
        invariant found.Some? ==> found.value in files && found.value >= id
        invariant found.Some? ==> forall i: nat :: i in files && i !in ids && i >= id ==> found.value <= i
        invariant found.None? ==> forall i: nat :: i in files && i !in ids ==> i < id
        decreases ids
      {
        var i :| i in ids;
        ids := ids - {i};
        if i >= id && (found.None? || i < found.value) {
          found := Some(i);
        }
      }
    }

    /** initReadFile: where a reader is to start, from the checkpoint if there is
      * one and from the oldest file if not. */
    method InitReadFile() returns (r: InitResult)
      ensures checkpoint.Some? && ParseCursor(checkpoint.value).None? ==> r == BadCheckpoint
      ensures checkpoint.Some? && ParseCursor(checkpoint.value).Some? ==>
                var p := ParseCursor(checkpoint.value).value;
                && (p.0 in files && p.1 >= 0 ==> r == Opened(p.0, p.1))
                && (p.0 !in files && p != (0, 0) ==>
                      if r.Opened? then r.offset == 0 && OldestFrom(r.id, p.0) else r == NoFile && NoneFrom(p.0))
      ensures checkpoint.None? ==> if r.Opened? then r.offset == 0 && OldestFrom(r.id, 0) else r == NoFile && NoneFrom(0)
    {
      hide ParseCursor;
      var id, offset := 0, 0;
      if checkpoint.Some? {
        var p := ParseCursor(checkpoint.value);
        if p.None? {
          return BadCheckpoint;
        }
        id, offset := p.value.0, p.value.1;
      } else {
        var oldest := GetFileFromId(0);
        id := if oldest.Some? then oldest.value else 0;
      }
      if id == 0 && offset == 0 && id !in files {
        return NoFile;
      }
      if id !in files {
        var found := GetFileFromId(id);
        return if found.Some? then Opened(found.value, 0) else NoFile;
      }
      return if offset >= 0 then Opened(id, offset) else BadCheckpoint;
    }

    ghost predicate OldestFrom(found: nat, id: nat)
      reads this
    {
      found in files && found >= id && forall i: nat :: i in files && i >= id ==> found <= i
    }

    ghost predicate NoneFrom(id: nat)
      reads this
    {
      forall i: nat :: i in files ==> i < id
    }

    /** NewBufferReader: a fresh reader stands where the checkpoint says, or at the
      * start of the queue. */
    method StartReader()
      requires Valid() && !m.torn
      modifies this`readId, this`readOffset, this`readAt, this`cursorId, this`cursorOffset, this`m,
               this`cursorCount, this`checkpointOpen
      ensures Valid()
      ensures readId == cursorId == m.savedId && readOffset == cursorOffset == m.savedOffset && readAt == m.savedAt
      ensures m == old(m).(cursorAt := old(m.savedAt), advances := 0)
      ensures checkpoint == None ==> Consumed() == []
    {
      hide Valid;
      hide ParseCursor;
      hide OldestFrom;
      hide NoneFrom;
      var r := InitReadFile();
      StartsAtSaved(r);
      PlaceReader(r.id, r.offset);
      if checkpoint.None? {
        FreshStart();
      }
    }

    lemma FreshStart()
      requires Valid() && !m.torn && checkpoint == None && readId == m.savedId && readAt == m.savedAt
      ensures Consumed() == []
    {
      AtStart();
    }

    method PlaceReader(id: nat, offset: nat)
      requires Valid() && id == m.savedId && offset == m.savedOffset
      modifies this`readId, this`readOffset, this`readAt, this`cursorId, this`cursorOffset, this`m,
               this`cursorCount, this`checkpointOpen
      ensures Valid()
      ensures readId == cursorId == m.savedId && readOffset == cursorOffset == m.savedOffset && readAt == m.savedAt
      ensures m == old(m).(cursorAt := old(m.savedAt), advances := 0)
    {
      hide DiskOk, SizesOk, CursorText, PlacesOk;
      PlaceCursor(id, offset);
      PlacesBack(hist, m.savedId, m.savedOffset, m.savedAt, cursorId, cursorOffset, m.cursorAt, readId, readOffset, readAt);
      readId, readOffset, readAt := id, offset, m.savedAt;
    }

    /** A new reader's cursor is where the checkpoint is, with nothing to record. */
    method PlaceCursor(id: nat, offset: nat)
      requires Valid() && id == m.savedId && offset == m.savedOffset
      modifies this`cursorId, this`cursorOffset, this`m, this`cursorCount, this`checkpointOpen
      ensures Valid() && cursorId == m.savedId && cursorOffset == m.savedOffset
      ensures m == old(m).(cursorAt := old(m.savedAt), advances := 0)
    {
      hide DiskOk, SizesOk, CursorText, PlacesOk;
      PlacesBack(hist, m.savedId, m.savedOffset, m.savedAt, cursorId, cursorOffset, m.cursorAt, readId, readOffset, readAt);
      cursorId, cursorOffset, cursorCount, checkpointOpen := id, offset, 0, false;
      m := m.(cursorAt := m.savedAt, advances := 0);
    }

    lemma StartsAtSaved(r: InitResult)
      requires Valid() && !m.torn
      requires checkpoint.Some? && ParseCursor(checkpoint.value).Some? ==>
                 var p := ParseCursor(checkpoint.value).value; p.0 in files && p.1 >= 0 ==> r == Opened(p.0, p.1)
      requires checkpoint.None? ==> if r.Opened? then r.offset == 0 && OldestFrom(r.id, 0) else r == NoFile && NoneFrom(0)
      ensures r == Opened(m.savedId, m.savedOffset)
    {
      hide SizesOk;
      hide Stands;
      hide ParseCursor;
      hide CursorText;
      SavedExists();
      OffsetBound(m.savedId, m.savedOffset, m.savedAt);
      if checkpoint.Some? {
        CursorRoundTrip(m.savedId, m.savedOffset);
      }
    }

    lemma SavedExists()
      requires Valid()
      ensures m.savedId in files
    {
    }

    lemma OffsetBound(id: nat, offset: nat, k: nat)
      requires Valid() && Stands(hist, id, offset, k) && id in files
      ensures offset <= |files[id]| < TWO63
    {
      FromBoundary(hist[id], k);
    }

    lemma AtStart()
      requires Valid() && m.savedId == 0 && m.savedOffset == 0
      ensures m.savedAt == 0 && Before(hist, 0, 0) == []
    {
      if m.savedAt > 0 {
        BoundaryOrder(hist[0], 0, m.savedAt);
      }
    }

    /** The reader has whole frames ahead of it in its file. */
    lemma ReaderAhead()
      requires Valid()
      ensures readId in files && readOffset <= |files[readId]| && readId < |hist| && readAt <= |hist[readId]|
      ensures files[readId][readOffset..] == FileOf(hist[readId][readAt..]) && maxMessage < TWO32
      ensures forall i :: 0 <= i < |hist[readId][readAt..]| ==> |hist[readId][readAt..][i]| <= maxMessage
    {
      hide SizesOk, FileOf;
      FromBoundary(hist[readId], readAt);
    }

    /** What the reader sees there. */
    lemma ReaderSees()
      requires Valid()
      ensures readId in files && readOffset <= |files[readId]|
      ensures readId < |hist| && readAt <= |hist[readId]|
      ensures var found := FindFrame(files[readId][readOffset..], maxMessage);
              if readAt == |hist[readId]| then found.1 == []
              else var f := FrameFor(hist[readId][readAt]);
                   && found == (|f|, f) && |f| >= 2 && HeaderEnd(f) <= |f| && f[HeaderEnd(f)..] == hist[readId][readAt]
    {
      hide FindFrame, Valid, FrameFor;
      ReaderAhead();
      var ms := hist[readId];
      if readAt == |ms| {
        assert ms[readAt..] == [] && FileOf([]) == [];
        NoSeparator();
        FindNone([], maxMessage);
      } else {
        NextFrame(ms[readAt..], EmptyHeader, maxMessage);
      }
    }

    /** NextRecord, as one step: the next message of the queue with the cursor that
      * stands behind it, or NoRecord when every message has been read. */
    method NextRecord() returns (r: ReadResult)
      requires Valid()
      modifies this`readId, this`readOffset, this`readAt
      ensures Valid()
      ensures r.NoRecord? ==> Consumed() == old(Consumed()) == Queued()
      ensures r.Record? ==>
                && |old(Consumed())| < |Queued()| && r.msg == Queued()[|old(Consumed())|]
                && Consumed() == old(Consumed()) + [r.msg] && r.cursor == CursorText(readId, readOffset)
      decreases writeId - readId
    {
      hide FindFrame;
      hide FrameFor;
      ReaderSees();
      var found := FindFrame(files[readId][readOffset..], maxMessage);
      var n, record := found.0, found.1;
      if record == [] {
        var next := GetFileFromId(readId + 1);
        if next.None? {
          NothingLeft();
          return NoRecord;
        }
        SkipToNext(next.value);
        r := NextRecord();
        return;
      }
      var msg := record[HeaderEnd(record)..];
      Advance(n);
      r := Record(msg, CursorText(readId, readOffset));
    }

    lemma NothingLeft()
      requires Valid() && readId < |hist| && readAt == |hist[readId]| && NoneFrom(readId + 1)
      ensures Consumed() == Queued()
    {
      hide SizesOk, DiskOk, Before, FileOf, Flatten;
      PlaceBounds();
      assert readId == writeId;
      AtTheEnd(hist);
    }

    /** Go on to the next file once this one is read to its end. */
    method SkipToNext(id: nat)
      requires Valid() && readId < |hist| && readAt == |hist[readId]| && OldestFrom(id, readId + 1)
      modifies this`readId, this`readOffset, this`readAt
      ensures Valid() && readId == id > old(readId) && readOffset == readAt == 0 && Consumed() == old(Consumed())
    {
      hide DiskOk;
      hide SizesOk;
      hide Before;
      hide Boundary;
      NextFileIs(id);
      AcrossFiles(hist, readId);
      StandsAtStart(hist, id);
      readId, readOffset, readAt := id, 0, 0;
    }

    lemma NextFileIs(id: nat)
      requires Valid() && OldestFrom(id, readId + 1)
      ensures id == readId + 1 < |hist|
    {
      hide SizesOk;
      hide Stands;
      PlaceBounds();
      assert readId + 1 in files;
    }

    method Advance(n: nat)
      requires Valid() && readId < |hist| && readAt < |hist[readId]| && n == |FrameFor(hist[readId][readAt])|
      modifies this`readOffset, this`readAt
      ensures Valid() && readOffset == old(readOffset) + n && Consumed() == old(Consumed()) + [hist[readId][old(readAt)]]
      ensures |old(Consumed())| < |Queued()| && Queued()[|old(Consumed())|] == hist[readId][old(readAt)]
    {
      hide DiskOk;
      hide SizesOk;
      hide Before;
      hide Boundary;
      hide FrameFor;
      NextInQueue(hist, readId, readAt);
      BoundaryNext(hist[readId], readAt);
      readOffset := readOffset + n;
      readAt := readAt + 1;
    }

    /** writeCheckpoint, any of whose calls may fail: the first open empties the file,
      * and a write that stops early leaves what it got to over what there was. */
    method WriteCheckpoint(text: seq<byte>, calls: Calls) returns (ok: bool)
      requires ValidButLag() && cursorId < TWO32 && text == CursorText(cursorId, cursorOffset)
      modifies this`checkpoint, this`checkpointOpen, this`m, this`cursorCount
      ensures Valid()
      ensures ok <==> (old(checkpointOpen) || calls.opens) && calls.failAt.None? && calls.truncates
      ensures ok ==> checkpoint == Some(text) && m.savedId == cursorId && m.savedOffset == cursorOffset
                     && cursorCount == 0 && m.failed == old(m.failed) && !m.torn
      ensures !ok ==> m.failed && m.savedId == old(m.savedId) && cursorCount == old(cursorCount)
      ensures !ok && !old(checkpointOpen) && !calls.opens ==> checkpoint == old(checkpoint) && m.torn == old(m.torn)
    {
      hide SizesOk, CursorText, DiskOk, PlacesOk, Stands, Flatten, Before;
      PlacesSaved(hist, m.savedId, m.savedOffset, m.savedAt, cursorId, cursorOffset, m.cursorAt, readId, readOffset, readAt);
      DiskLater(files, hist, writeId, m.savedId, maxMessage, cursorId);
      ok := PutCheckpoint(text, calls);
      if ok {
        cursorCount := 0;
        m := m.(savedId := cursorId, savedOffset := cursorOffset, savedAt := m.cursorAt, advances := 0, torn := false);
      } else {
        m := m.(torn := m.torn || old(checkpointOpen) || calls.opens, failed := true);
      }
    }

    /** The calls on the checkpoint file. */
    method PutCheckpoint(text: seq<byte>, calls: Calls) returns (ok: bool)
      requires checkpointOpen ==> checkpoint.Some?
      modifies this`checkpoint, this`checkpointOpen
      ensures checkpointOpen ==> checkpoint.Some?
      ensures ok <==> (old(checkpointOpen) || calls.opens) && calls.failAt.None? && calls.truncates
      ensures ok ==> checkpoint == Some(text)
      ensures !old(checkpointOpen) && !calls.opens ==> checkpoint == old(checkpoint)
    {
      if !checkpointOpen {
        if !calls.opens {
          return false;
        }
        checkpointOpen, checkpoint := true, Some([]);
      }
      var n := if calls.failAt.Some? && calls.failAt.value < |text| then calls.failAt.value else |text|;
      var was := checkpoint.value;
      checkpoint := Some(text[..n] + if |was| > n then was[n..] else []);
      if calls.failAt.Some? || !calls.truncates {
        return false;
      }
      checkpoint := Some(checkpoint.value[..n]);
      assert checkpoint.value == text;
      return true;
    }

    /** A checkpoint is written on moving to this place. */
    ghost predicate Due(id: nat, offset: nat)
      reads this
    {
      && NotAfter(cursorId, cursorOffset, id, offset) && (id, offset) != (cursorId, cursorOffset)
      && (id != cursorId || cursorCount >= cursorUpdateCount)
    }

    /** A file that is still there behind the cursor. */
    ghost predicate Left(f: nat)
      reads this
    {
      f in files && f < cursorId
    }

    /** updateCursor with a cursor that NextRecord handed out, the acknowledgements
      * coming in any order.  The cursor only moves forward, stays behind the reader,
      * and takes with it exactly the files that lie wholly before it. */
    method UpdateCursor(queueCursor: seq<byte>, calls: Calls, ghost id: nat, ghost offset: nat, ghost k: nat)
      returns (r: CursorResult)
      requires Valid() && queueCursor == CursorText(id, offset)
      requires Stands(hist, id, offset, k) && NotAfter(id, offset, readId, readOffset) && offset < TWO63
      modifies this`files, this`checkpoint, this`checkpointOpen, this`queueSize, this`cursorId, this`cursorOffset,
               this`cursorCount, this`m
      ensures Valid() && NotAfter(old(cursorId), old(cursorOffset), cursorId, cursorOffset)
      ensures r == Unparsable <==> id >= TWO32
      ensures r == Past <==> id < TWO32 && !NotAfter(old(cursorId), old(cursorOffset), id, offset)
      ensures r in {Unparsable, Past} ==> files == old(files) && cursorId == old(cursorId)
                                          && cursorOffset == old(cursorOffset) && checkpoint == old(checkpoint)
      ensures r in {Updated, CheckpointError} ==> cursorId == id && cursorOffset == offset
      ensures files == if r == Updated && id > old(cursorId) then old(files) - Passed(old(cursorId), id) else old(files)
      ensures r == CheckpointError <==>
                id < TWO32 && old(Due(id, offset)) && !((old(checkpointOpen) || calls.opens) && calls.failAt.None? && calls.truncates)
      ensures r == CheckpointError ==> m.failed
      ensures Succeed(calls) ==> m.failed == old(m.failed) && (m.torn ==> old(m.torn))
      ensures forall f: nat :: old(Left(f)) || (r == CheckpointError && f in old(files) && f < id) ==> Left(f)
    {
      hide DiskOk, SizesOk, Stands, CursorText, Passed;
      forall f: nat ensures f in Passed(cursorId, id) <==> cursorId <= f < id {
        PassedIff(cursorId, id, f);
      }
      CursorRoundTrip(id, offset);
      var p := ParseCursor(queueCursor);
      if p.None? {
        return Unparsable;
      }
      var id', offset' := p.value.0, p.value.1;
      if id' < cursorId || (id' == cursorId && offset' < cursorOffset) {
        return Past;
      }
      if id' == cursorId && offset' == cursorOffset {
        return Updated;
      }
      var oldId := cursorId;
      var due := MoveCursor(id', offset', k);
      if !due {
        return Updated;
      }
      var ok := WriteCheckpoint(queueCursor, calls);
      if !ok {
        return CheckpointError;
      }
      DeletePassed(oldId, id');
      return Updated;
    }

    /** Whatever is acknowledged later, in any order and with any failures, this reader
      * never deletes a file that has been left behind. */
    method UpdateAll(acks: seq<Ack>)
      requires Valid()
      requires forall i :: 0 <= i < |acks| ==> HandedOut(acks[i])
      modifies this`files, this`checkpoint, this`checkpointOpen, this`queueSize, this`cursorId, this`cursorOffset,
               this`cursorCount, this`m
      ensures Valid() && NotAfter(old(cursorId), old(cursorOffset), cursorId, cursorOffset)
      ensures forall f: nat :: old(Left(f)) ==> Left(f)
    {
      hide Valid, Stands, CursorText;
      for i := 0 to |acks|
        invariant Valid() && NotAfter(old(cursorId), old(cursorOffset), cursorId, cursorOffset)
        invariant forall f: nat :: old(Left(f)) ==> Left(f)
      {
        var a := acks[i];
        var _ := UpdateCursor(CursorText(a.id, a.offset), a.calls, a.id, a.offset, a.k);
      }
    }

    /** A cursor that NextRecord has handed out. */
    ghost predicate HandedOut(a: Ack)
      reads this
    {
      Stands(hist, a.id, a.offset, a.k) && NotAfter(a.id, a.offset, readId, readOffset) && a.offset < TWO63
    }

    /** Move the cursor; says whether a checkpoint is due: always in a new file, and
      * otherwise on every advance after CursorUpdateCount unrecorded ones. */
    method MoveCursor(id: nat, offset: nat, ghost k: nat) returns (due: bool)
      requires Valid() && Stands(hist, id, offset, k) && NotAfter(id, offset, readId, readOffset)
      requires NotAfter(cursorId, cursorOffset, id, offset)
      modifies this`cursorId, this`cursorOffset, this`cursorCount, this`m
      ensures cursorId == id && cursorOffset == offset
      ensures m == old(m).(cursorAt := k, advances := old(m.advances) + 1)
      ensures due ==> ValidButLag()
      ensures due <==> id != old(cursorId) || old(cursorCount) >= cursorUpdateCount
      ensures !due ==> Valid() && id == old(cursorId)
    {
      hide DiskOk;
      hide SizesOk;
      hide Stands;
      due := id != cursorId || cursorCount >= cursorUpdateCount;
      cursorId, cursorOffset := id, offset;
      m := m.(cursorAt := k, advances := m.advances + 1);
      if !due {
        cursorCount := cursorCount + 1;
      }
    }

    /** Delete the files the cursor has left behind, taking their sizes off. */
    method DeletePassed(oldId: nat, id: nat)
      requires Valid() && oldId <= id == m.savedId
      modifies this`files, this`queueSize
      ensures Valid() && files == old(files) - Passed(oldId, id)
    {
      hide Valid;
      PlaceBounds();
      ghost var before := files;
      assert files == before - Passed(oldId, oldId);
      for delId := oldId to id
        invariant Valid() && files == before - Passed(oldId, delId)
      {
        if delId in files {
          DeleteFile(delId);
        } else {
          assert files == before - Passed(oldId, delId + 1);
        }
      }
    }

    method DeleteFile(id: nat)
      requires Valid() && id in files && id < m.savedId <= writeId
      modifies this`files, this`queueSize
      ensures Valid() && files == old(files) - {id}
    {
      hide PlacesOk, SizesOk, DiskOk, CursorText;
      DiskDelete(files, hist, writeId, m.savedId, maxMessage, id);
      SizesDelete(files, writeId, queueSize, maxFileSize, maxBufferSize, id);
      queueSize := AddSize(queueSize, Complement(|files[id]|));
      files := files - {id};
    }

    /** A fresh reader on a directory whose checkpoint is a cursor handed out earlier,
      * with none of the files from it on deleted: it stands right behind the message
      * that carried the cursor, whatever was queued since. */
    method Reopen(queueCursor: seq<byte>, id: nat, offset: nat, ghost k: nat)
      requires Valid() && queueCursor == CursorText(id, offset) && id < TWO32
      requires Stands(hist, id, offset, k) && NotAfter(id, offset, readId, readOffset)
      requires forall j: nat :: id <= j <= writeId ==> j in files
      modifies this`checkpoint, this`checkpointOpen, this`m, this`readId, this`readOffset, this`readAt,
               this`cursorId, this`cursorOffset, this`cursorCount
      ensures Valid() && Stands(hist, readId, readOffset, readAt)
      ensures readId == id && readAt == k && Consumed() == Before(hist, id, k)
    {
      hide Before, CursorText, DiskOk, SizesOk, Boundary;
      SetCheckpoint(queueCursor, id, offset, k);
      StartReader();
    }

    method SetCheckpoint(queueCursor: seq<byte>, id: nat, offset: nat, ghost k: nat)
      requires Valid() && queueCursor == CursorText(id, offset) && id < TWO32
      requires Stands(hist, id, offset, k) && NotAfter(id, offset, readId, readOffset)
      requires forall j: nat :: id <= j <= writeId ==> j in files
      modifies this`checkpoint, this`m, this`cursorId, this`cursorOffset
      ensures Valid() && !m.torn && m.savedId == id && m.savedOffset == offset && m.savedAt == k
      ensures checkpoint == Some(queueCursor)
    {
      hide DiskOk;
      hide SizesOk;
      hide PlacesOk;
      hide Stands;
      hide CursorText;
      DiskFrom(files, hist, writeId, m.savedId, maxMessage, id);
      PlacesAt(hist, m.savedId, m.savedOffset, m.savedAt, cursorId, cursorOffset, m.cursorAt, readId, readOffset, readAt,
               id, offset, k);
      checkpoint := Some(queueCursor);
      cursorId, cursorOffset := id, offset;
      m := m.(cursorAt := k, savedId := id, savedOffset := offset, savedAt := k, torn := false);
    }

    /** Read until there is nothing more: exactly the messages not read before. */
    method Drain() returns (out: seq<Blob>)
      requires Valid()
      modifies this`readId, this`readOffset, this`readAt
      ensures Valid() && Consumed() == Queued()
      ensures |old(Consumed())| <= |Queued()| && out == Queued()[|old(Consumed())|..]
    {
      hide Valid, Before;
      out := [];
      Safety();
      ghost var start := Consumed();
      assert Queued()[..|start|] == start;
      while true
        invariant Valid() && Consumed() == start + out <= Queued()
        decreases |Queued()| - |Consumed()|
      {
        var r := NextRecord();
        if r.NoRecord? {
          assert start + out == Queued();
          return;
        }
        Safety();
        assert start + out + [r.msg] == start + (out + [r.msg]);
        out := out + [r.msg];
      }
      assert false;
    }

    /** Started again from a cursor, the reader returns exactly what was queued after
      * the message that carried it. */
    method Replay(queueCursor: seq<byte>, id: nat, offset: nat, ghost k: nat) returns (out: seq<Blob>)
      requires Valid() && queueCursor == CursorText(id, offset) && id < TWO32
      requires Stands(hist, id, offset, k) && NotAfter(id, offset, readId, readOffset)
      requires forall j: nat :: id <= j <= writeId ==> j in files
      modifies this`checkpoint, this`checkpointOpen, this`m, this`readId, this`readOffset, this`readAt,
               this`cursorId, this`cursorOffset, this`cursorCount
      ensures Valid() && |Before(hist, id, k)| <= |Queued()| && out == Queued()[|Before(hist, id, k)|..]
    {
      hide Valid, Before, CursorText;
      Reopen(queueCursor, id, offset, k);
      out := Drain();
    }
  }

  /** The ids from `a` up to but not including `b`. */
  function Passed(a: nat, b: nat): set<nat> {
    if b <= a then {} else Passed(a, b - 1) + {b - 1}
  }

  lemma PlacesBack(hist: seq<seq<Blob>>, savedId: nat, savedOffset: nat, savedAt: nat,
                   cursorId: nat, cursorOffset: nat, cursorAt: nat, readId: nat, readOffset: nat, readAt: nat)
    requires PlacesOk(hist, savedId, savedOffset, savedAt, cursorId, cursorOffset, cursorAt, readId, readOffset, readAt)
    ensures PlacesOk(hist, savedId, savedOffset, savedAt, savedId, savedOffset, savedAt, savedId, savedOffset, savedAt)
    ensures PlacesOk(hist, savedId, savedOffset, savedAt, savedId, savedOffset, savedAt, readId, readOffset, readAt)
    ensures savedId < |hist| && savedAt <= |hist[savedId]|
  {
    hide Boundary;
  }

  lemma PlacesSaved(hist: seq<seq<Blob>>, savedId: nat, savedOffset: nat, savedAt: nat,
                    cursorId: nat, cursorOffset: nat, cursorAt: nat, readId: nat, readOffset: nat, readAt: nat)
    requires PlacesOk(hist, savedId, savedOffset, savedAt, cursorId, cursorOffset, cursorAt, readId, readOffset, readAt)
    ensures savedId <= cursorId
    ensures PlacesOk(hist, cursorId, cursorOffset, cursorAt, cursorId, cursorOffset, cursorAt, readId, readOffset, readAt)
  {
    hide Stands;
  }

  lemma PlacesAt(hist: seq<seq<Blob>>, savedId: nat, savedOffset: nat, savedAt: nat,
                 cursorId: nat, cursorOffset: nat, cursorAt: nat, readId: nat, readOffset: nat, readAt: nat,
                 id: nat, offset: nat, k: nat)
    requires PlacesOk(hist, savedId, savedOffset, savedAt, cursorId, cursorOffset, cursorAt, readId, readOffset, readAt)
    requires Stands(hist, id, offset, k) && NotAfter(id, offset, readId, readOffset)
    ensures PlacesOk(hist, id, offset, k, id, offset, k, readId, readOffset, readAt)
  {
    hide Boundary;
  }

  lemma {:induction false} PassedIff(a: nat, b: nat, id: nat)
    ensures id in Passed(a, b) <==> a <= id < b
    decreases b
  {
    if a < b {
      PassedIff(a, b - 1, id);
    }
  }

  lemma DiskFrom(files: Dir, hist: seq<seq<Blob>>, writeId: nat, savedId: nat, maxMessage: nat, id: nat)
    requires DiskOk(files, hist, writeId, savedId, maxMessage) && forall j: nat :: id <= j <= writeId ==> j in files
    ensures DiskOk(files, hist, writeId, id, maxMessage)
  {
  }

  lemma DiskLater(files: Dir, hist: seq<seq<Blob>>, writeId: nat, savedId: nat, maxMessage: nat, id: nat)
    requires DiskOk(files, hist, writeId, savedId, maxMessage) && savedId <= id
    ensures DiskOk(files, hist, writeId, id, maxMessage)
  {
  }

  lemma StandsAtStart(hist: seq<seq<Blob>>, id: nat)
    requires id < |hist|
    ensures Stands(hist, id, 0, 0)
  {
    assert hist[id][..0] == [] && FileOf([]) == [];
  }
}
