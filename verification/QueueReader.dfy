/** The reader of the disk queue as it reads: through the buffer of a splitter runner,
  * which runs ahead of the offset the cursor is made of. */
module QueueReader {
  import opened Bytes
  import opened Varint
  import opened Wire
  import opened Framing
  import opened Splitters
  import opened SplitterRunner
  import opened QueueFiles
  import opened Decimal
  import opened QueueBuffer

  datatype NextResult = NeedData | Read(result: ReadResult)

  /** The pieces in which reads hand out the bytes of a file; never nothing. */
  ghost predicate Cuts(pieces: seq<byte> -> seq<seq<byte>>) {
    forall s :: Flatten(pieces(s)) == s && [] !in pieces(s)
  }

  /** A queue file holds nothing but records within the limit, and none of it is read
    * wrongly with a header kept from another file. */
  lemma FileOrderly(ms: seq<Blob>, header: Header, maxMessage: nat)
    requires maxMessage < TWO32 && forall i :: 0 <= i < |ms| ==> |ms[i]| <= maxMessage
    ensures Manageable(HekaSplitter(maxMessage), FileOf(ms), MaxRecord(maxMessage))
    ensures Fresh(HekaSplitter(maxMessage), header, FileOf(ms))
  {
    hide FileOf, Stale, Agrees;
    FileRecords(ms, maxMessage);
    if ms == [] {
      NoneStale(header);
    } else {
      NextFrame(ms, header, maxMessage);
      AgreesIffFresh(header, FileOf(ms), maxMessage);
    }
  }

  lemma NoneStale(header: Header)
    ensures FileOf([]) == [] && !Stale(header, [])
  {
    NoSeparator();
  }

  lemma {:induction false} FileRecords(ms: seq<Blob>, maxMessage: nat)
    requires maxMessage < TWO32 && forall i :: 0 <= i < |ms| ==> |ms[i]| <= maxMessage
    ensures forall rec :: rec in Records(HekaSplitter(maxMessage), FileOf(ms)) ==> |rec| <= MaxRecord(maxMessage)
    ensures Tail(HekaSplitter(maxMessage), FileOf(ms)) == []
  {
    hide Find, FindFrame, FrameFor;
    var sp := HekaSplitter(maxMessage);
    if ms == [] {
      EmptyHasNone(sp);
      EndOf(sp, []);
    } else {
      var f := FrameFor(ms[0]);
      NextFrame(ms, EmptyHeader, maxMessage);
      FirstOf(ms);
      FoundFirst(maxMessage, FileOf(ms), |f|, f);
      FileRecords(ms[1..], maxMessage);
      assert Records(sp, FileOf(ms)) == [f] + Records(sp, FileOf(ms[1..]));
    }
  }

  lemma FirstOf(ms: seq<Blob>)
    requires ms != []
    ensures |FrameFor(ms[0])| <= |FileOf(ms)| && FileOf(ms)[|FrameFor(ms[0])|..] == FileOf(ms[1..])
  {
    hide FrameFor, FileOf;
    NoneStale(EmptyHeader);
    FromBoundary(ms, 1);
    BoundaryNext(ms, 0);
    assert ms[..0] == [];
  }

  /** What a call of the runner can have found in a file of these messages. */
  lemma Fetched(ms: seq<Blob>, maxMessage: nat, n: nat, record: seq<byte>, later: seq<byte>)
    requires maxMessage < TWO32 && forall i :: 0 <= i < |ms| ==> |ms[i]| <= maxMessage
    requires n <= |FileOf(ms)| && later == FileOf(ms)[n..]
    requires Find(HekaSplitter(maxMessage), FileOf(ms))
             == if record != [] then (n, record)
                else var r := Find(HekaSplitter(maxMessage), later); (n + r.0, r.1)
    ensures record == [] ==> n == 0
    ensures record != [] ==> ms != [] && record == FrameFor(ms[0]) && n == |record|
    ensures Find(HekaSplitter(maxMessage), FileOf(ms)) == (0, []) <==> ms == []
    ensures ms == [] ==> FileOf(ms) == []
  {
    hide FindFrame, FrameFor;
    if ms == [] {
      NoSeparator();
      FindNone([], maxMessage);
    } else {
      NextFrame(ms, EmptyHeader, maxMessage);
    }
  }

  /** A frame gives back its message. */
  lemma Unframed(msg: Blob, maxMessage: nat)
    requires |msg| <= maxMessage < TWO32
    ensures var f := FrameFor(msg); |f| >= 2 && HeaderEnd(f) <= |f| && f[HeaderEnd(f)..] == msg
  {
    NextFrame([msg], EmptyHeader, maxMessage);
  }

  /** The end of a file that has been read, less what is not yet taken. */
  lemma Slice(file: seq<byte>, from: nat, a: seq<byte>, b: seq<byte>)
    requires from <= |file| && a + b == file[from..]
    ensures from <= |file| - |b| && a == file[from..|file| - |b|]
  {
    assert a == (a + b)[..|a|];
  }

  class BufferReader {
    const q: Queue
    const runner: SRunner
    const pieces: seq<byte> -> seq<seq<byte>>
    // How far the open file has been read.
    var filePos: nat

    /** What has been read of the file, up to where it has been read, is behind the
      * recorded offset or pending in the buffer. */
    ghost predicate Valid()
      reads this, q, runner, runner.buf
    {
      && q.Valid() && Ready() && runner.Valid() && Cuts(pieces)
      && Synced(q.readOffset)
    }

    ghost predicate Ready()
      reads runner, runner.buf
    {
      && runner.Valid() && runner.splitter == HekaSplitter(q.maxMessage)
      && runner.maxRecord == MaxRecord(q.maxMessage)
      && runner.Bounded() && !runner.reachedEOF
      && (runner.needData ==> Find(runner.splitter, runner.Pending()) == (0, []))
    }

    ghost predicate Synced(offset: nat)
      requires runner.Valid()
      reads this, q, runner, runner.buf
    {
      && q.readId in q.files && offset <= filePos <= |q.files[q.readId]|
      && runner.Pending() == q.files[q.readId][offset..filePos]
    }

    /** A reader with an empty buffer, its file opened at the recorded offset. */
    constructor (q: Queue, bufferSize: nat, pieces: seq<byte> -> seq<seq<byte>>)
      requires q.Valid() && Cuts(pieces)
      requires (if bufferSize == 0 then 8 * 1024 else bufferSize) <= MaxRecord(q.maxMessage)
      ensures Valid() && this.q == q && this.pieces == pieces && fresh(runner) && fresh(runner.buf) && fresh(runner.heka)
    {
      this.q, this.pieces := q, pieces;
      runner := new SRunner(HekaSplitter(q.maxMessage), bufferSize, MaxRecord(q.maxMessage), false, false);
      filePos := q.readOffset;
      new;
      q.ReaderSees();
      EmptyHasNone(runner.splitter);
    }

    /** One call of the runner: nothing yet, or the frame at the recorded offset, or
      * the end of the file with everything in it taken. */
    method Fetch() returns (n: nat, record: seq<byte>, err: Err)
      requires Valid()
      modifies this`filePos, runner, runner.buf, runner.heka
      ensures runner.buf == old(runner.buf) || fresh(runner.buf)
      ensures Ready() && runner.Valid() && Synced(q.readOffset + n) && err != ShortBuffer && filePos >= old(filePos)
      ensures q.readId < |q.hist| && q.readAt <= |q.hist[q.readId]|
      ensures record == [] ==> n == 0
      ensures record != [] ==>
                && q.readAt < |q.hist[q.readId]| && record == FrameFor(q.hist[q.readId][q.readAt]) && n == |record|
                && |q.hist[q.readId][q.readAt]| <= q.maxMessage < TWO32
      ensures err == EOF ==>
                && record == [] && q.readAt == |q.hist[q.readId]|
                && runner.Pending() == [] && filePos == |q.files[q.readId]|
      ensures err == Ok && record == [] ==> runner.needData && (old(runner.needData) ==> filePos > old(filePos))
    {
      hide Find, FrameFor, FileOf, Queue.Valid, Ready;
      q.ReaderAhead();
      ghost var file, offset, ms := q.files[q.readId], q.readOffset, q.hist[q.readId][q.readAt..];
      var r := new Reader(pieces(q.files[q.readId][filePos..]), false);
      Joins(file, offset, filePos);
      n, record, err := Call(r, ms);
      assert file[offset..][n..] == file[offset + n..];
      Slice(file, offset + n, runner.Pending(), r.Rest());
      filePos := |q.files[q.readId]| - |Flatten(r.chunks)|;
    }

    /** The call, for a buffer and a file that together hold the frames of messages. */
    method Call(r: Reader, ghost ms: seq<Blob>) returns (n: nat, record: seq<byte>, err: Err)
      requires Ready() && runner.Valid() && !r.eofWithLast && runner.Pending() + r.Rest() == FileOf(ms)
      requires q.maxMessage < TWO32 && forall i :: 0 <= i < |ms| ==> |ms[i]| <= q.maxMessage
      modifies runner, runner.buf, runner.heka, r
      ensures runner.buf == old(runner.buf) || fresh(runner.buf)
      ensures Ready() && runner.Valid() && err != ShortBuffer && |r.Rest()| <= |old(r.Rest())|
      ensures n <= |FileOf(ms)| && runner.Pending() + r.Rest() == FileOf(ms)[n..]
      ensures record == [] ==> n == 0
      ensures record != [] ==> ms != [] && record == FrameFor(ms[0]) && n == |record|
      ensures err == EOF ==> record == [] && ms == [] && runner.Pending() == [] && r.Rest() == []
      ensures err == Ok && record == [] ==>
                runner.needData && (old(runner.needData && r.Packed()) ==> |r.Rest()| < |old(r.Rest())|)
    {
      hide Find, FindFrame, Manageable, Fresh, Records, Tail, FrameFor, FileOf;
      FileOrderly(ms, runner.heka.header, q.maxMessage);
      n, record, err := runner.GetRecordFromStream(r);
      assert err == EOF ==> runner.Pending() + r.Rest() == runner.Pending();
      Fetched(ms, q.maxMessage, n, record, runner.Pending() + r.Rest());
    }

    /** Close a file read to its end, with nothing of it pending, and open the next. */
    method NextFile(id: nat)
      requires Valid() && runner.Pending() == [] && filePos == |q.files[q.readId]|
      requires q.readId < |q.hist| && q.readAt == |q.hist[q.readId]| && q.OldestFrom(id, q.readId + 1)
      modifies this`filePos, q`readId, q`readOffset, q`readAt
      ensures Valid() && q.readId > old(q.readId) && q.Consumed() == old(q.Consumed())
    {
      hide FileOf, Find, Queue.Valid;
      q.SkipToNext(id);
      q.ReaderAhead();
      filePos := 0;
    }

    /** NextRecord: what the queue's reader would read next, whatever the sizes in which
      * the file hands out its bytes, or a request to be called again. */
    method NextRecord() returns (r: NextResult)
      requires Valid()
      modifies this`filePos, q`readId, q`readOffset, q`readAt, runner, runner.buf, runner.heka
      ensures Valid() && (runner.buf == old(runner.buf) || fresh(runner.buf))
      ensures r == Read(NoRecord) ==> q.Consumed() == old(q.Consumed()) == q.Queued()
      ensures r.Read? && r.result.Record? ==>
                && |old(q.Consumed())| < |q.Queued()| && r.result.msg == q.Queued()[|old(q.Consumed())|]
                && q.Consumed() == old(q.Consumed()) + [r.result.msg]
                && r.result.cursor == CursorText(q.readId, q.readOffset)
      ensures r == NeedData ==> q.Consumed() == old(q.Consumed()) && runner.needData
      ensures r == NeedData && q.readId <= old(q.readId) ==>
                && q.readId == old(q.readId) && filePos >= old(filePos)
                && (old(runner.needData) ==> filePos > old(filePos))
      decreases q.writeId - q.readId
    {
      hide Find, FileOf, FrameFor, Queue.Valid;
      var n, record, err := Fetch();
      if err == EOF {
        var next := q.GetFileFromId(q.readId + 1);
        if next.None? {
          q.NothingLeft();
          return Read(NoRecord);
        }
        NextFile(next.value);
        q.PlaceBounds();
        r := NextRecord();
        return;
      }
      if |record| == 0 {
        return NeedData;
      }
      Unframed(q.hist[q.readId][q.readAt], q.maxMessage);
      var msg := record[HeaderEnd(record)..];
      q.Advance(n);
      return Read(Record(msg, CursorText(q.readId, q.readOffset)));
    }

    /** A message is queued while bytes are pending. */
    method Feed(msg: Blob, failAt: Option<nat>) returns (r: QueueResult)
      requires Valid() && |msg| < TWO32
      modifies q`files, q`writeId, q`writeFileSize, q`hist, q`queueSize
      ensures Valid() && q.Consumed() == old(q.Consumed())
      ensures q.Queued() == old(q.Queued()) + if r == QueueResult.Queued then [msg] else []
    {
      hide Find, Queue.Valid;
      r := q.QueueRecord(msg, failAt);
      assert old(q.files)[q.readId] <= q.files[q.readId];
    }

    /** A message is acknowledged while bytes are pending: never is the file being read
      * deleted. */
    method Acknowledge(queueCursor: seq<byte>, calls: Calls, ghost id: nat, ghost offset: nat, ghost k: nat)
      returns (r: CursorResult)
      requires Valid() && queueCursor == CursorText(id, offset)
      requires Stands(q.hist, id, offset, k) && NotAfter(id, offset, q.readId, q.readOffset) && offset < TWO63
      modifies q`files, q`checkpoint, q`checkpointOpen, q`queueSize, q`cursorId, q`cursorOffset, q`cursorCount, q`m
      ensures Valid() && q.Consumed() == old(q.Consumed()) && q.Queued() == old(q.Queued())
    {
      hide Find, Queue.Valid, Stands, Before;
      r := q.UpdateCursor(queueCursor, calls, id, offset, k);
      PassedIff(old(q.cursorId), id, q.readId);
    }

    /** What is left of the open file. */
    ghost function Unread(): nat
      requires Within()
      reads this, q
    {
      |q.files[q.readId]| - filePos
    }

    ghost predicate Within()
      reads this, q
    {
      q.readId in q.files && filePos <= |q.files[q.readId]| && q.readId <= q.writeId
    }

    lemma Sound()
      requires Valid()
      ensures q.Valid() && Within() && q.Consumed() <= q.Queued()
    {
      q.Safety();
      q.PlaceBounds();
    }

    /** Read until there is nothing more: exactly the messages not read before. */
    method Drain() returns (out: seq<Blob>)
      requires Valid()
      modifies this`filePos, q`readId, q`readOffset, q`readAt, runner, runner.buf, runner.heka
      ensures Valid() && q.Consumed() == q.Queued()
      ensures |old(q.Consumed())| <= |q.Queued()| && out == q.Queued()[|old(q.Consumed())|..]
    {
      hide Valid, Before, Queue.Valid;
      out := [];
      Sound();
      ghost var start := q.Consumed();
      assert q.Queued()[..|start|] == start;
      while true
        invariant Valid() && (runner.buf == old(runner.buf) || fresh(runner.buf))
        invariant q.Valid() && q.Consumed() == start + out <= q.Queued()
        invariant Within()
        decreases |q.Queued()| - |q.Consumed()|, q.writeId - q.readId, Unread(), !runner.needData
      {
        var r := NextRecord();
        Sound();
        if r == Read(NoRecord) {
          assert start + out == q.Queued();
          return;
        }
        if r.Read? {
          assert start + out + [r.result.msg] == start + (out + [r.result.msg]);
          out := out + [r.result.msg];
        }
      }
      assert false;
    }
  }

  lemma Joins(file: seq<byte>, i: nat, j: nat)
    requires i <= j <= |file|
    ensures file[i..j] + file[j..] == file[i..]
  {
  }
}
