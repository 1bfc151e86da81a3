/** sRunner: a growing, compacting buffer between a reader and a splitter. */
module SplitterRunner {
  import opened Bytes
  import opened Varint
  import opened Wire
  import opened Framing
  import opened HekaStream
  import opened Splitters

  datatype Err = Ok | EOF | ShortBuffer

  /** An io.Reader that hands out a stream in chunks of its own choosing, empty
    * ones included, and reports EOF either after the last byte or along with it. */
  class Reader {
    var chunks: seq<seq<byte>>
    const eofWithLast: bool

    constructor (chunks: seq<seq<byte>>, eofWithLast: bool)
      ensures this.chunks == chunks && this.eofWithLast == eofWithLast
    {
      this.chunks := chunks;
      this.eofWithLast := eofWithLast;
    }

    /** What it has not handed out yet. */
    ghost function Rest(): seq<byte>
      reads this
    {
      Flatten(chunks)
    }

    lemma Ended()
      ensures chunks == [] ==> Rest() == []
    {
    }

    ghost function Work(): nat
      reads this
    {
      |chunks| + |Flatten(chunks)|
    }

    /** It never hands out nothing. */
    ghost predicate Packed()
      reads this
    {
      [] !in chunks
    }

    method Read(room: nat) returns (data: seq<byte>, eof: bool)
      modifies this
      ensures |data| <= room && (eof && !eofWithLast ==> data == [])
      ensures old(Packed()) && room > 0 && !eof ==> data != []
      ensures old(Rest()) == data + Rest()
      ensures eof ==> chunks == []
      ensures !eof && room > 0 ==> Work() < old(Work())
      ensures data != [] ==> Work() < old(Work())
      ensures Work() <= old(Work())
    {
      if chunks == [] {
        return [], true;
      }
      var c := chunks[0];
      if |c| <= room {
        data := c;
        chunks := chunks[1..];
        eof := eofWithLast && chunks == [];
      } else {
        data := c[..room];
        ghost var rest := Flatten(chunks[1..]);
        chunks := [c[room..]] + chunks[1..];
        assert chunks[1..] == old(chunks)[1..];
        assert c + rest == c[..room] + (c[room..] + rest);
        eof := false;
      }
    }
  }

  /** What `read` does to the buffer before it calls the reader. */
  datatype Plan = Full | Keep | Compact | Grow(size: nat)

  function BufferPlan(cap: nat, scanPos: nat, readPos: nat, maxRecord: nat): (p: Plan) {
    if cap - readPos > cap / 2 then Keep
    else if scanPos > 0 then Compact
    else if cap * 2 <= maxRecord then Grow(cap * 2)
    else if cap == maxRecord then if readPos == cap then Full else Keep
    else if cap < maxRecord then Grow(maxRecord)
    else Keep
  }

  /** The room left for the reader under a plan. */
  function RoomAfter(cap: nat, scanPos: nat, readPos: nat, maxRecord: nat): int {
    match BufferPlan(cap, scanPos, readPos, maxRecord)
    case Full => cap
    case Keep => cap - readPos
    case Compact => cap - (readPos - scanPos)
    case Grow(size) => size - readPos
  }

  /** The reader is never handed an empty slice, exactly when the buffer is not
    * configured larger than the largest record. */
  lemma RoomIffBounded(cap: nat, maxRecord: nat)
    requires cap > 0
    ensures (forall scanPos: nat, readPos: nat | scanPos <= readPos <= cap ::
               RoomAfter(cap, scanPos, readPos, maxRecord) > 0)
            <==> cap <= maxRecord
  {
    if cap > maxRecord {
      assert RoomAfter(cap, 0, cap, maxRecord) == 0;
    }
  }

  /** For instance, with records of at most 4 bytes and a buffer of 8: eight bytes
    * without a delimiter fit in at once, hold no record, and leave no room. */
  lemma OverlargeExample()
    ensures var s := seq(8, i => 97);
            && RoomAfter(8, 0, 0, 4) == 8
            && Find(TokenSplitter(10, 1), s) == (0, [])
            && BufferPlan(8, 0, 8, 4) == Keep && RoomAfter(8, 0, 8, 4) == 0
  {
    IndexByteNone(seq(8, i => 97), 10);
  }

  /** The records SplitStream and SplitBytes are to deliver. */
  function Delivered(sp: Splitter, incompleteFinal: bool, s: seq<byte>): seq<seq<byte>> {
    Records(sp, s) + if incompleteFinal && Tail(sp, s) != [] then [Tail(sp, s)] else []
  }

  /** The same, with the header cached at the start. */
  function DeliveredFrom(sp: Splitter, header: Header, incompleteFinal: bool, s: seq<byte>): seq<seq<byte>> {
    var tail := TailFrom(sp, header, s);
    RecordsFrom(sp, header, s) + if incompleteFinal && tail != [] then [tail] else []
  }

  /** A length cached from data that ended inside a frame makes SplitBytes deliver
    * bytes that are no record; by themselves they hold none. */
  lemma StaleDelivery(maxMessage: nat)
    requires maxMessage >= 5
    ensures var sp := HekaSplitter(maxMessage);
            var cut, junk := [RECORD_SEPARATOR, 2, 8, 5, UNIT_SEPARATOR], [RECORD_SEPARATOR, 0, 97, 1, 2, 3, 4, 5];
            && DeliveredFrom(sp, EmptyHeader, false, cut) == []
            && DeliveredFrom(sp, HeaderAfter(sp, EmptyHeader, cut), false, junk) == [junk]
            && Delivered(sp, false, junk) == []
  {
    hide Search, FindFrame;
    StaleExample(maxMessage);
    var sp := HekaSplitter(maxMessage);
    var junk := [RECORD_SEPARATOR, 0, 97, 1, 2, 3, 4, 5];
    IndexByteNone([], RECORD_SEPARATOR);
    SearchNone(EmptyHeader, [], maxMessage);
    assert junk[8..] == [];
    assert RecordsFrom(sp, EmptyHeader, junk[8..]) == [];
  }

  /** No record is over the limit, and any unterminated tail is under it. */
  predicate Manageable(sp: Splitter, s: seq<byte>, maxRecord: nat) {
    && (forall rec :: rec in Records(sp, s) ==> |rec| <= maxRecord)
    && |Tail(sp, s)| < maxRecord
  }

  lemma ManageableRest(sp: Splitter, s: seq<byte>, maxRecord: nat)
    requires Manageable(sp, s, maxRecord) && Find(sp, s).1 != []
    ensures Manageable(sp, s[Find(sp, s).0..], maxRecord)
    ensures |Find(sp, s).1| <= maxRecord
  {
    hide Find;
    var r := Find(sp, s);
    var more := Records(sp, s[r.0..]);
    assert Records(sp, s) == [r.1] + more;
    forall rec | rec in more ensures |rec| <= maxRecord {
      assert rec in [r.1] + more;
    }
    assert r.1 in [r.1] + more;
  }

  /** A buffer filled to the limit without a record would break the promise. */
  lemma NeverFull(sp: Splitter, s: seq<byte>, t: seq<byte>, maxRecord: nat)
    requires !sp.NullSplitter? && maxRecord >= HeaderRoom(sp)
    requires Find(sp, s) == (0, []) && Manageable(sp, s + t, maxRecord)
    ensures |s| < maxRecord
  {
    hide Find;
    assert (s + t)[0..] == s + t;
    if |s| >= maxRecord {
      StallIsLong(sp, s, t);
      if Find(sp, s + t).1 != [] {
        ManageableRest(sp, s + t, maxRecord);
      }
    }
  }

  // ------------------------------------------------ records over the limit

  /** What comes out of any stream when at most `max` bytes can wait for a record, and
    * what is left: a record within the limit comes out whole.  One over it, or an
    * unterminated end over it, is cut off after `max` bytes, which are kept or dropped,
    * and the search starts anew behind them.  An end of just `max` bytes counts as over
    * the limit if the end of the stream is noticed too late. */
  function Sieved(sp: Splitter, s: seq<byte>, max: nat, keep: bool, late: bool): (seq<seq<byte>>, seq<byte>)
    requires max > 0
    decreases |s|
  {
    var r := Find(sp, s);
    if r.1 != [] && |r.1| <= max then
      var more := Sieved(sp, s[r.0..], max, keep, late);
      ([r.1] + more.0, more.1)
    else
      var t := s[r.0 - |r.1|..];
      if |t| < max || (|t| == max && !late) then ([], t)
      else
        var more := Sieved(sp, t[max..], max, keep, late);
        ((if keep then [t[..max]] else []) + more.0, more.1)
  }

  /** Whatever length is cached when bytes are cut off, it is not applied behind them. */
  predicate FreshThrough(sp: Splitter, s: seq<byte>, max: nat)
    requires max > 0
    decreases |s|
  {
    sp.HekaSplitter? ==>
      var r := Find(sp, s);
      if r.1 != [] && |r.1| <= max then FreshThrough(sp, s[r.0..], max)
      else
        var t := s[r.0 - |r.1|..];
        |t| > max ==> NeverStale(t[max..]) && FreshThrough(sp, t[max..], max)
  }

  predicate NeverStale(s: seq<byte>) {
    var i := IndexByte(s, RECORD_SEPARATOR);
    i == -1 || !Unclosed(s[i..])
  }

  lemma FreshWith(sp: Splitter, header: Header, s: seq<byte>)
    requires NeverStale(s)
    ensures Fresh(sp, header, s)
  {
    hide IndexByte, Unclosed;
  }

  /** The rest of a stream behind the next record, or behind what a vain search stepped
    * over, is sieved the same. */
  lemma SieveNext(sp: Splitter, s: seq<byte>, n: nat, record: seq<byte>, max: nat, keep: bool, late: bool)
    requires max > 0 && n <= |s| && |record| <= max
    requires Find(sp, s) == if record != [] then (n, record) else var later := Find(sp, s[n..]); (n + later.0, later.1)
    ensures var more := Sieved(sp, s[n..], max, keep, late);
            Sieved(sp, s, max, keep, late) == ((if record == [] then [] else [record]) + more.0, more.1)
    ensures FreshThrough(sp, s, max) ==> FreshThrough(sp, s[n..], max)
  {
    hide Find, NeverStale;
    if record == [] {
      var later := Find(sp, s[n..]);
      assert s[n..][later.0..] == s[n + later.0..];
      assert s[n..][later.0 - |later.1|..] == s[n + later.0 - |later.1|..];
      assert [] + Sieved(sp, s[n..], max, keep, late).0 == Sieved(sp, s[n..], max, keep, late).0;
    }
  }

  /** A full buffer without a record is cut off. */
  lemma SieveCut(sp: Splitter, s: seq<byte>, t: seq<byte>, keep: bool, late: bool)
    requires !sp.NullSplitter? && Find(sp, s) == (0, []) && |s| >= HeaderRoom(sp) && |s| > 0
    ensures t != [] || late ==>
              var more := Sieved(sp, t, |s|, keep, late);
              Sieved(sp, s + t, |s|, keep, late) == ((if keep then [s] else []) + more.0, more.1)
    ensures FreshThrough(sp, s + t, |s|) ==>
              FreshThrough(sp, t, |s|) && (sp.HekaSplitter? && t != [] ==> NeverStale(t))
  {
    hide Find, NeverStale;
    StallIsLong(sp, s, t);
    assert (s + t)[0..] == s + t && (s + t)[|s|..] == t && (s + t)[..|s|] == s;
    if t == [] {
      assert s + t == s;
      FreshNothing(sp, |s|);
    }
  }

  lemma FreshNothing(sp: Splitter, max: nat)
    requires max > 0
    ensures FreshThrough(sp, [], max)
  {
  }

  /** What waits at the end of the stream is left. */
  lemma SieveEnd(sp: Splitter, s: seq<byte>, max: nat, keep: bool, late: bool)
    requires max > 0 && Find(sp, s) == (0, []) && (|s| < max || (|s| == max && !late))
    ensures Sieved(sp, s, max, keep, late) == ([], s)
  {
    hide Find;
    assert s[0..] == s;
  }

  /** So the end of a line over the limit comes out as if it were a line: with room for
    * two bytes, the last letter of three. */
  lemma CutLineExample(late: bool)
    ensures Sieved(TokenSplitter(10, 1), [97, 97] + [97, 10], 2, false, late) == ([[97, 10]], [])
  {
    hide Sieved;
    var sp := TokenSplitter(10, 1);
    ShortLines();
    SieveCut(sp, [97, 97], [97, 10], false, late);
    SieveNext(sp, [97, 10], 2, [97, 10], 2, false, late);
    SieveEnd(sp, [], 2, false, late);
    assert [97, 10][2..] == [];
    assert [] + [[97, 10]] == [[97, 10]] && [[97, 10]] + [] == [[97, 10]];
  }

  lemma ShortLines()
    ensures var sp := TokenSplitter(10, 1);
            Find(sp, [97, 97]) == (0, []) && Find(sp, [97, 10]) == (2, [97, 10]) && Find(sp, []) == (0, [])
  {
    IndexByteNone([97, 97], 10);
    IndexByteAt([97, 10], 10, 1);
    assert [97, 10][..2] == [97, 10];
  }

  predicate Within(recs: seq<seq<byte>>, max: nat) {
    forall rec :: rec in recs ==> |rec| <= max
  }

  lemma WithinBoth(a: seq<seq<byte>>, b: seq<seq<byte>>, max: nat)
    requires Within(a, max) && Within(b, max)
    ensures Within(a + b, max)
  {
  }

  /** Nothing over the limit comes out or is left. */
  lemma {:induction false} SieveBounds(sp: Splitter, s: seq<byte>, max: nat, keep: bool, late: bool)
    requires max > 0
    ensures var r := Sieved(sp, s, max, keep, late);
            Within(r.0, max) && |r.1| <= max && (late ==> |r.1| < max)
    decreases |s|
  {
    hide Find, Sieved;
    var r := Find(sp, s);
    if r.1 != [] && |r.1| <= max {
      assert Within([r.1], max);
      SieveNext(sp, s, r.0, r.1, max, keep, late);
      SieveBounds(sp, s[r.0..], max, keep, late);
      WithinBoth([r.1], Sieved(sp, s[r.0..], max, keep, late).0, max);
    } else {
      SieveStuck(sp, s, max, keep, late);
      var t := s[r.0 - |r.1|..];
      if |t| > max || (|t| == max && late) {
        var kept := if keep then [t[..max]] else [];
        assert Within(kept, max);
        SieveBounds(sp, t[max..], max, keep, late);
        WithinBoth(kept, Sieved(sp, t[max..], max, keep, late).0, max);
      }
    }
  }

  /** What is stuck on is left, or cut off. */
  lemma SieveStuck(sp: Splitter, s: seq<byte>, max: nat, keep: bool, late: bool)
    requires max > 0 && (Find(sp, s).1 == [] || |Find(sp, s).1| > max)
    ensures var r := Find(sp, s); var t := s[r.0 - |r.1|..];
            Sieved(sp, s, max, keep, late)
            == if |t| < max || (|t| == max && !late) then ([], t)
               else var more := Sieved(sp, t[max..], max, keep, late);
                    ((if keep then [t[..max]] else []) + more.0, more.1)
  {
    hide Find;
  }

  /** The streams that come out as they are are exactly those whose records fit. */
  lemma ManageableIffSieved(sp: Splitter, s: seq<byte>, max: nat, keep: bool)
    requires max > 0
    ensures Manageable(sp, s, max) <==> Sieved(sp, s, max, keep, true) == (Records(sp, s), Tail(sp, s))
  {
    hide Sieved, Records, Tail;
    SieveBounds(sp, s, max, keep, true);
    if Manageable(sp, s, max) {
      ManageableSieved(sp, s, max, keep, true);
    }
  }

  /** On a stream whose records fit nothing is cut off. */
  lemma {:induction false} ManageableSieved(sp: Splitter, s: seq<byte>, max: nat, keep: bool, late: bool)
    requires max > 0 && Manageable(sp, s, max)
    ensures Sieved(sp, s, max, keep, late) == (Records(sp, s), Tail(sp, s)) && FreshThrough(sp, s, max)
    decreases |s|
  {
    hide Find;
    var r := Find(sp, s);
    if r.1 != [] {
      ManageableRest(sp, s, max);
      ManageableSieved(sp, s[r.0..], max, keep, late);
    }
  }

  class SRunner {
    var buf: array<byte>
    var readPos: nat
    var scanPos: nat
    var needData: bool
    var reachedEOF: bool
    const splitter: Splitter
    // The splitter object behind a HekaSplitter; it keeps a header between calls.
    const heka: HekaFramingSplitter
    const maxRecord: nat
    const keepTruncated: bool
    const incompleteFinal: bool
    // Bytes taken from readers, and bytes accounted for to the caller.
    ghost var taken: nat
    ghost var reported: nat

    ghost predicate Valid()
      reads this, buf
    {
      && scanPos <= readPos <= buf.Length && 0 < buf.Length
      && reported + (readPos - scanPos) == taken
      && (splitter.HekaSplitter? ==> heka.maxMessage == splitter.maxMessage)
    }

    /** Nothing stands between the runner and the stream: no stale header is cached,
      * and no record is pending when more data is asked for. */
    ghost predicate Calm(rest: seq<byte>)
      requires scanPos <= readPos <= buf.Length
      reads this, buf, heka
    {
      && Fresh(splitter, heka.header, Pending() + rest)
      && (!splitter.NullSplitter? && needData ==> Find(splitter, Pending()) == (0, []))
    }

    /** Bytes read but not consumed. */
    ghost function Pending(): seq<byte>
      reads this, buf
      requires scanPos <= readPos <= buf.Length
    {
      buf[scanPos..readPos]
    }

    /** min_buffer_size was not set above MAX_RECORD_SIZE. */
    ghost predicate Bounded()
      reads this
    {
      buf.Length <= maxRecord
    }

    constructor (splitter: Splitter, bufferSize: nat, maxRecord: nat, keepTruncated: bool, incompleteFinal: bool)
      ensures Valid() && fresh(buf) && fresh(heka) && heka.header == EmptyHeader
      ensures this.splitter == splitter && this.maxRecord == maxRecord
      ensures this.keepTruncated == keepTruncated && this.incompleteFinal == incompleteFinal
      ensures buf.Length == (if bufferSize == 0 then 8 * 1024 else bufferSize)
      ensures Pending() == [] && !reachedEOF && taken == reported == 0
    {
      var size := if bufferSize == 0 then 8 * 1024 else bufferSize;
      buf := new byte[size];
      readPos, scanPos, needData, reachedEOF := 0, 0, true, false;
      this.splitter, this.maxRecord := splitter, maxRecord;
      this.keepTruncated, this.incompleteFinal := keepTruncated, incompleteFinal;
      taken, reported := 0, 0;
      heka := new HekaFramingSplitter(if splitter.HekaSplitter? then splitter.maxMessage else 0);
    }

    /** FindRecord of the configured splitter. */
    method FindRecord(view: seq<byte>) returns (bytesRead: nat, record: seq<byte>)
      requires splitter.HekaSplitter? ==> heka.maxMessage == splitter.maxMessage
      modifies heka
      ensures (bytesRead, record, heka.header) == SearchBy(splitter, old(heka.header), view)
    {
      hide Search;
      match splitter {
        case NullSplitter =>
          return |view|, view;
        case TokenSplitter(delimiter, count) =>
          bytesRead, record := FindTokens(view, delimiter, count);
        case HekaSplitter(_) =>
          bytesRead, record := heka.FindRecord(view);
      }
    }

    method GetRemainingData() returns (record: seq<byte>)
      requires Valid()
      modifies this
      ensures Valid() && buf == old(buf)
      ensures record == old(Pending()) && Pending() == []
      ensures heka.header == old(heka.header)
      ensures needData == old(needData) && reachedEOF == old(reachedEOF)
      ensures taken == old(taken) && reported == old(reported) + |record|
    {
      record := buf[scanPos..readPos];
      reported := reported + |record|;
      scanPos, readPos := 0, 0;
    }

    /** The first half of `read`: make room, or give up on an oversize record. */
    method MakeRoom() returns (full: bool, dropped: nat)
      requires Valid()
      modifies this, buf
      ensures buf == old(buf) || fresh(buf)
      ensures scanPos <= readPos <= buf.Length && 0 < buf.Length
      ensures old(Bounded()) ==> Bounded()
      ensures full == BufferPlan(old(buf.Length), old(scanPos), old(readPos), maxRecord).Full?
      ensures !full ==> Pending() == old(Pending())
      ensures !full ==> buf.Length - readPos == RoomAfter(old(buf.Length), old(scanPos), old(readPos), maxRecord)
      ensures full ==> Pending() == [] && dropped == |old(Pending())| == maxRecord && dropped > 0
      ensures full ==> buf[..] == old(Pending())
      ensures taken == old(taken) && reported == old(reported)
      ensures needData == old(needData) && reachedEOF == old(reachedEOF)
    {
      var bufCap := buf.Length;
      full, dropped := false, 0;
      if bufCap - readPos <= bufCap / 2 {
        if scanPos == 0 {
          var newSize := bufCap * 2;
          if newSize > maxRecord {
            if bufCap == maxRecord {
              if readPos == bufCap {
                scanPos, readPos := 0, 0;
                return true, bufCap;
              } else {
                newSize := 0;
              }
            } else {
              newSize := maxRecord;
            }
          }
          if newSize > 0 {
            SetMinimumBufferSize(newSize);
          }
        } else {
          Reclaim();
        }
      }
    }

    method SetMinimumBufferSize(size: nat)
      requires Valid()
      modifies this`buf
      ensures buf == old(buf) || fresh(buf)
      ensures buf.Length == if old(buf).Length < size then size else old(buf).Length
      ensures scanPos <= readPos <= buf.Length && Pending() == old(Pending())
    {
      if buf.Length < size {
        var newSlice := new byte[size];
        var was := buf;
        forall k | 0 <= k < was.Length {
          newSlice[k] := was[k];
        }
        buf := newSlice;
      }
    }

    /** Move the unconsumed bytes to the front of the buffer. */
    method Reclaim()
      requires Valid()
      modifies this`readPos, this`scanPos, buf
      ensures scanPos == 0 && readPos == old(readPos - scanPos) <= buf.Length
      ensures Pending() == old(Pending())
    {
      var held := buf[scanPos..readPos];
      forall k | 0 <= k < |held| {
        buf[k] := held[k];
      }
      readPos, scanPos := readPos - scanPos, 0;
    }

    /** `read`: bytes land behind the unconsumed ones; readPos is not moved yet. */
    method Fill(r: Reader) returns (n: nat, err: Err)
      requires Valid()
      modifies this, buf, r
      ensures buf == old(buf) || fresh(buf)
      ensures err != ShortBuffer ==> readPos + n <= buf.Length
      ensures scanPos <= readPos <= buf.Length && 0 < buf.Length
      ensures old(Bounded()) ==> Bounded()
      ensures needData == old(needData) && reachedEOF == old(reachedEOF)
      ensures (err == ShortBuffer)
              == BufferPlan(old(buf.Length), old(scanPos), old(readPos), maxRecord).Full?
      ensures err == ShortBuffer ==>
                && Pending() == [] && n == |old(Pending())| == maxRecord && n > 0 && buf[..] == old(Pending())
                && r.chunks == old(r.chunks) && r.Rest() == old(r.Rest()) && r.Work() == old(r.Work())
                && taken == old(taken) && reported == old(reported) + n
      ensures err != ShortBuffer ==>
                && Pending() == old(Pending())
                && old(r.Rest()) == buf[readPos..readPos + n] + r.Rest()
                && taken == old(taken) + n && reported == old(reported)
      ensures err == EOF ==> r.chunks == []
      ensures r.Work() <= old(r.Work())
      ensures n > 0 && err != ShortBuffer ==> r.Work() < old(r.Work())
      ensures err == Ok && old(Bounded()) ==> r.Work() < old(r.Work()) && (old(r.Packed()) ==> n > 0)
      ensures err == EOF && !r.eofWithLast ==> n == 0
    {
      hide Find, BufferPlan, Flatten, RoomAfter;
      var full, dropped := MakeRoom();
      if full {
        reported := reported + dropped;
        return dropped, ShortBuffer;
      }
      RoomPositive(old(buf.Length), old(scanPos), old(readPos), maxRecord);
      n, err := Take(r);
    }

    /** Call the reader for the free part of the buffer. */
    method Take(r: Reader) returns (n: nat, err: Err)
      requires scanPos <= readPos <= buf.Length
      modifies this`taken, buf, r
      ensures err != ShortBuffer && readPos + n <= buf.Length
      ensures Pending() == old(Pending()) && old(r.Rest()) == buf[readPos..readPos + n] + r.Rest()
      ensures taken == old(taken) + n
      ensures err == EOF ==> r.chunks == []
      ensures r.Work() <= old(r.Work()) && (n > 0 ==> r.Work() < old(r.Work()))
      ensures err == Ok && buf.Length - readPos > 0 ==> r.Work() < old(r.Work()) && (old(r.Packed()) ==> n > 0)
      ensures err == EOF && !r.eofWithLast ==> n == 0
    {
      hide Flatten;
      var data, eof := r.Read(buf.Length - readPos);
      Store(data);
      n := |data|;
      taken := taken + n;
      err := if eof then EOF else Ok;
    }

    /** What the reader leaves in the free part of the buffer. */
    method Store(data: seq<byte>)
      requires scanPos <= readPos && readPos + |data| <= buf.Length
      modifies buf
      ensures buf[readPos..readPos + |data|] == data
      ensures Pending() == old(Pending())
    {
      forall k | 0 <= k < |data| {
        buf[readPos + k] := data[k];
      }
    }

    /** One call: a record, or nothing yet, or an error.  Every byte taken from the
      * reader is either reported to the caller or still pending.  On a stream
      * whose records fit, and with no stale header cached, the record is the next
      * record of the stream, and EOF is reported only once no whole record is left. */
    method GetRecordFromStream(r: Reader) returns (bytesRead: nat, record: seq<byte>, err: Err)
      requires Valid() && (reachedEOF ==> r.chunks == [])
      modifies this, buf, r, heka
      ensures Valid() && (reachedEOF ==> r.chunks == [])
      ensures buf == old(buf) || fresh(buf)
      ensures old(Bounded()) ==> Bounded()
      ensures reported == old(reported) + bytesRead
      ensures taken - old(taken) == |old(r.Rest())| - |r.Rest()|
      ensures err == EOF ==> record == [] && r.chunks == []
      ensures err == ShortBuffer ==>
                && needData && !reachedEOF && old(needData) && Pending() == [] && r.Rest() == old(r.Rest())
                && bytesRead == |old(Pending())| == maxRecord
                && record == if keepTruncated then old(Pending()) else []
      ensures old(Bounded()) ==> bytesRead <= maxRecord
      ensures old(Bounded()) && err != EOF ==>
                || r.Work() < old(r.Work())
                || (r.Work() == old(r.Work()) && |Pending()| < |old(Pending())|)
                || (r.Work() == old(r.Work()) && |Pending()| == |old(Pending())| && needData && !old(needData))
      ensures err == Ok && record == [] ==> needData && !reachedEOF
      ensures old(Orderly(Pending() + r.Rest()) && Calm(r.Rest())) ==> err != ShortBuffer
      ensures !splitter.NullSplitter? && old(Calm(r.Rest())) && err != ShortBuffer ==>
                && NextOf(old(Pending()) + old(r.Rest()), bytesRead, record, err, Pending(), r.Rest())
                && Calm(r.Rest())
      ensures err != ShortBuffer ==>
                && bytesRead <= |old(Pending()) + old(r.Rest())|
                && Pending() + r.Rest() == (old(Pending()) + old(r.Rest()))[bytesRead..]
                && (splitter.NullSplitter? ==> record == (old(Pending()) + old(r.Rest()))[..bytesRead])
                && (splitter.NullSplitter? && old(Pending()) == [] ==> Pending() == [])
      ensures !r.eofWithLast && !old(reachedEOF) ==> !reachedEOF
      ensures |r.Rest()| <= |old(r.Rest())|
      ensures old(Bounded() && needData && r.Packed()) && !r.eofWithLast && !old(reachedEOF) && err == Ok && record == [] ==>
                |r.Rest()| < |old(r.Rest())|
    {
      hide Find, Fresh, SearchBy, NextOf, Orderly, BufferPlan, Reader.Rest, Reader.Work, Reader.Packed;
      ghost var before, rest := Pending(), r.Rest();
      if needData && !reachedEOF {
        if Orderly(before + rest) && Calm(rest) {
          NoOverflow(before, rest);
        }
        bytesRead, record, err := ReadMore(r);
        if err != Ok {
          r.Ended();
          NothingTaken(before, rest);
          return;
        }
      }
      assert Pending() + r.Rest() == before + rest;
      r.Ended();
      bytesRead, record, err := Scan(r.Rest());
    }

    static lemma Joined(a: array<byte>, i: nat, j: nat, k: nat)
      requires i <= j <= k <= a.Length
      ensures a[i..k] == a[i..j] + a[j..k]
    {
    }

    static lemma Dropped(a: seq<byte>, b: seq<byte>, n: nat)
      requires n <= |a|
      ensures (a + b)[n..] == a[n..] + b
    {
    }

    static lemma Regroup(a: seq<byte>, b: seq<byte>, c: seq<byte>)
      ensures a + b + c == a + (b + c)
    {
    }

    /** The first half of GetRecordFromStream: call the reader; anything but Ok
      * is the result of the whole call. */
    method ReadMore(r: Reader) returns (bytesRead: nat, record: seq<byte>, err: Err)
      requires Valid() && needData && !reachedEOF
      modifies this, buf, r
      ensures buf == old(buf) || fresh(buf)
      ensures scanPos <= readPos <= buf.Length && 0 < buf.Length
      ensures reported + (readPos - scanPos) == taken
      ensures taken - old(taken) == |old(r.Rest())| - |r.Rest()|
      ensures old(Bounded()) ==> Bounded()
      ensures r.Work() <= old(r.Work()) && (reachedEOF ==> r.chunks == [])
      ensures (err == ShortBuffer) == BufferPlan(old(buf.Length), old(scanPos), old(readPos), maxRecord).Full?
      ensures err != ShortBuffer ==> Pending() + r.Rest() == old(Pending()) + old(r.Rest())
      ensures err == Ok ==> record == [] && reported == old(reported)
      ensures err == Ok && old(Bounded()) ==>
                r.Work() < old(r.Work()) && (old(r.Packed()) && !reachedEOF ==> |r.Rest()| < |old(r.Rest())|)
      ensures !r.eofWithLast ==> !reachedEOF
      ensures |r.Rest()| <= |old(r.Rest())|
      ensures splitter.HekaSplitter? ==> heka.maxMessage == splitter.maxMessage
      ensures heka.header == old(heka.header)
      ensures err != Ok ==> Valid() && needData && !reachedEOF && reported == old(reported) + bytesRead
      ensures err == EOF ==> record == [] && bytesRead == 0 && r.chunks == [] && Pending() == old(Pending())
      ensures err == ShortBuffer ==> Pending() == [] && |old(Pending())| > 0 && r.Work() == old(r.Work())
      ensures err == ShortBuffer ==>
                && bytesRead == |old(Pending())| == maxRecord && r.Rest() == old(r.Rest())
                && record == if keepTruncated then old(Pending()) else []
    {
      hide BufferPlan, Reader.Rest, Reader.Work, Reader.Packed;
      record := [];
      bytesRead, err := Fill(r);
      if err == ShortBuffer {
        if keepTruncated {
          record := buf[..];
        }
        return;
      }
      err := Accept(bytesRead, err, r.Rest());
    }

    /** What the reader left behind the pending bytes becomes pending; an EOF that came
      * with it is kept for later. */
    method Accept(n: nat, result: Err, ghost rest: seq<byte>) returns (err: Err)
      requires scanPos <= readPos && readPos + n <= buf.Length && result != ShortBuffer
      modifies this`readPos, this`reachedEOF
      ensures err == if result == EOF && n == 0 then EOF else Ok
      ensures reachedEOF == (old(reachedEOF) || (result == EOF && n > 0))
      ensures readPos == old(readPos) + n && (n == 0 ==> Pending() == old(Pending()))
      ensures Pending() + rest == old(Pending()) + (old(buf[readPos..readPos + n]) + rest)
    {
      Joined(buf, scanPos, readPos, readPos + n);
      Regroup(Pending(), buf[readPos..readPos + n], rest);
      if result == EOF {
        if n == 0 {
          return EOF;
        }
        reachedEOF := true;
      }
      readPos := readPos + n;
      return Ok;
    }

    /** The second half of GetRecordFromStream: look for a record in what is there. */
    method Scan(ghost rest: seq<byte>) returns (bytesRead: nat, record: seq<byte>, err: Err)
      requires Valid()
      requires reachedEOF ==> rest == []
      modifies this`readPos, this`scanPos, this`needData, this`reachedEOF, this`reported, heka
      ensures Valid()
      ensures reported == old(reported) + bytesRead
      ensures reachedEOF ==> old(reachedEOF)
      ensures err == EOF <==> record == [] && old(reachedEOF)
      ensures err != ShortBuffer
      ensures err == Ok && record == [] ==> needData && !reachedEOF
      ensures |Pending()| < |old(Pending())| || (record == [] && |Pending()| == |old(Pending())|)
      ensures bytesRead <= |old(Pending())| && Pending() + rest == (old(Pending()) + rest)[bytesRead..]
      ensures splitter.NullSplitter? ==> Pending() == [] && record == (old(Pending()) + rest)[..bytesRead]
      ensures old(Fresh(splitter, heka.header, Pending() + rest)) ==>
                && Calm(rest)
                && (!splitter.NullSplitter? ==> NextOf(old(Pending()) + rest, bytesRead, record, err, Pending(), rest))
    {
      hide Find, Records, Tail, SearchBy, Fresh;
      ghost var view, cached := Pending(), heka.header;
      NullTakes(splitter, cached, view, rest);
      bytesRead, record := FindRecord(buf[scanPos..readPos]);
      scanPos := scanPos + bytesRead;
      reported := reported + bytesRead;
      ghost var left := Pending();
      Dropped(view, rest, bytesRead);
      err := Settle(|record| == 0);
      if Fresh(splitter, cached, view + rest) {
        ScanStep(splitter, cached, view, rest, left);
        EmptyHasNone(splitter);
      }
    }

    /** What a search leaves in the flags; an emptied buffer starts over. */
    method Settle(none: bool) returns (err: Err)
      requires scanPos <= readPos <= buf.Length
      modifies this`readPos, this`scanPos, this`needData, this`reachedEOF
      ensures scanPos <= readPos <= buf.Length && readPos - scanPos == old(readPos) - old(scanPos)
      ensures Pending() == old(Pending())
      ensures err == if none && old(reachedEOF) then EOF else Ok
      ensures reachedEOF == (old(reachedEOF) && !none)
      ensures none && !old(reachedEOF) ==> needData
      ensures none && old(reachedEOF) ==> needData == old(needData)
      ensures !none ==> needData == (Pending() == [])
    {
      err := Ok;
      if none {
        if reachedEOF {
          err := EOF;
          reachedEOF := false;
        } else {
          needData := true;
        }
      } else if readPos == scanPos {
        readPos, scanPos := 0, 0;
        needData := true;
      } else {
        needData := false;
      }
    }

    /** SplitStream: every chunking of a stream delivers the same records and returns EOF,
      * unless the splitter has a header cached that is stale: those of the whole stream
      * when they fit, and in any case what a sieve of the size of the buffer lets
      * through.  Without a splitter, everything comes out. */
    method SplitStream(r: Reader) returns (out: seq<seq<byte>>, err: Err)
      requires Valid() && Bounded() && Pending() == [] && !reachedEOF
      modifies this, buf, r, heka
      ensures Valid() && Bounded()
      ensures err == EOF
      ensures old(Orderly(r.Rest())) && Fresh(splitter, old(heka.header), old(r.Rest())) ==>
                out == Delivered(splitter, incompleteFinal, old(r.Rest()))
      ensures Siftable(old(r.Rest())) && Fresh(splitter, old(heka.header), old(r.Rest())) ==>
                out == Sifted(old(r.Rest()), true) || out == Sifted(old(r.Rest()), false)
      ensures splitter.NullSplitter? ==> Flatten(out) == old(r.Rest())
    {
      hide Find, Fresh, Sifted, Sifting, Orderly, NextOf, Delivered, FreshThrough;
      out := [];
      ghost var whole, cut := r.Rest(), false;
      Joins(Pending(), whole);
      if Orderly(whole) {
        OrderlySifted(whole);
      }
      ghost var sound := Siftable(whole) && Fresh(splitter, heka.header, whole);
      EmptyHasNone(splitter);
      if sound {
        SiftStart(whole);
      }
      while true
        invariant Valid() && Bounded() && (reachedEOF ==> r.chunks == [])
        invariant buf == old(buf) || fresh(buf)
        invariant sound ==> !splitter.NullSplitter? && Calm(r.Rest()) && Sifting(whole, out, Pending() + r.Rest(), cut)
        invariant splitter.NullSplitter? ==> Pending() == [] && Flatten(out) + r.Rest() == whole
        decreases r.Work(), |Pending()|, !needData
      {
        var record;
        record, err, cut := SplitNext(r, whole, out, cut, sound);
        if |record| == 0 {
          if err == Ok && needData && !reachedEOF {
            continue;
          }
          assert Pending() + r.Rest() == Pending();
          if sound {
            SiftEnd(whole, out, cut, Pending());
          }
          assert Flatten(out) + [] == Flatten(out) && out + [] == out;
          if incompleteFinal && err == EOF {
            record := GetRemainingData();
            if |record| > 0 {
              out := out + [record];
            }
          }
          return;
        }
        out := out + [record];
      }
      assert false;
    }

    /** One round of SplitStream: a full buffer is not an error there. */
    method SplitNext(r: Reader, ghost whole: seq<byte>, ghost out: seq<seq<byte>>, ghost cut: bool, ghost sound: bool)
      returns (record: seq<byte>, err: Err, ghost cut': bool)
      requires Valid() && Bounded() && (reachedEOF ==> r.chunks == [])
      requires sound ==> !splitter.NullSplitter? && Calm(r.Rest()) && Sifting(whole, out, Pending() + r.Rest(), cut)
      requires splitter.NullSplitter? ==> Pending() == [] && Flatten(out) + r.Rest() == whole
      modifies this, buf, r, heka
      ensures Valid() && Bounded() && (reachedEOF ==> r.chunks == []) && (buf == old(buf) || fresh(buf))
      ensures err != ShortBuffer && (err == EOF ==> record == [] && r.Rest() == [])
      ensures err == Ok && record == [] ==> needData && !reachedEOF
      ensures err == Ok ==>
                || r.Work() < old(r.Work())
                || (r.Work() == old(r.Work()) && |Pending()| < |old(Pending())|)
                || (r.Work() == old(r.Work()) && |Pending()| == |old(Pending())| && needData && !old(needData))
      ensures sound ==> && Calm(r.Rest()) && (err == EOF ==> Find(splitter, Pending()) == (0, []))
                        && Sifting(whole, if record == [] then out else out + [record], Pending() + r.Rest(), cut')
      ensures splitter.NullSplitter? ==>
                Pending() == [] && Flatten(if record == [] then out else out + [record]) + r.Rest() == whole
    {
      hide Find, Fresh, Sifting, Orderly, Flatten, Records, Tail, Reader.Rest, Reader.Work;
      ghost var pending, rest := Pending(), r.Rest();
      var n;
      n, record, err := GetRecordFromStream(r);
      cut' := cut;
      r.Ended();
      if err == ShortBuffer {
        if sound {
          SiftCut(whole, out, cut, pending, rest, heka.header);
          cut' := rest == [];
          Joins(Pending(), rest);
          EmptyHasNone(splitter);
        }
        err := Ok;
      } else if sound {
        SiftNext(whole, out, cut, n, record, pending + rest);
      } else if splitter.NullSplitter? {
        Joins(Pending(), r.Rest());
        Joins(pending, rest);
        NullNext(out, rest, n, record);
      }
    }

    static lemma Joins(a: seq<byte>, b: seq<byte>)
      ensures a == [] ==> a + b == b
    {
    }

    /** SplitBytes: the records of the data, cut or dropped when over the limit.
      * It fails exactly when there is nothing to deliver. */
    method SplitBytes(data: seq<byte>) returns (out: seq<seq<byte>>, seekPos: nat, ok: bool)
      requires |data| < TWO32 && Valid()
      modifies heka
      ensures out == ClipAll(DeliveredFrom(splitter, old(heka.header), incompleteFinal, data), maxRecord, keepTruncated)
      ensures ok <==> DeliveredFrom(splitter, old(heka.header), incompleteFinal, data) != []
      ensures heka.header == HeaderAfter(splitter, old(heka.header), data)
      ensures seekPos == if incompleteFinal && TailFrom(splitter, old(heka.header), data) != [] then |data|
                         else UsedFrom(splitter, old(heka.header), data)
      ensures Fresh(splitter, old(heka.header), data) ==>
                out == ClipAll(Delivered(splitter, incompleteFinal, data), maxRecord, keepTruncated)
      ensures Fresh(splitter, old(heka.header), data) && Manageable(splitter, data, maxRecord) ==>
                out == Delivered(splitter, incompleteFinal, data)
    {
      hide SearchBy, Delivered, DeliveredFrom, ClipAll, Manageable, Fresh, HeaderAfter, TailFrom, UsedFrom;
      ClipNone(maxRecord, keepTruncated);
      ghost var whole, acc: seq<seq<byte>> := DeliveredFrom(splitter, heka.header, incompleteFinal, data), [];
      ghost var last := HeaderAfter(splitter, heka.header, data);
      ghost var used, tail := UsedFrom(splitter, heka.header, data), TailFrom(splitter, heka.header, data);
      seekPos, out, ok := 0, [], true;
      if Fresh(splitter, heka.header, data) {
        FreshDelivers(splitter, heka.header, incompleteFinal, data);
      }
      ManageableUnclipped(splitter, incompleteFinal, data, maxRecord, keepTruncated);
      assert data[0..] == data && [] + whole == whole;
      while true
        invariant seekPos <= |data| && ok
        invariant out == ClipAll(acc, maxRecord, keepTruncated)
        invariant whole == acc + DeliveredFrom(splitter, heka.header, incompleteFinal, data[seekPos..])
        invariant last == HeaderAfter(splitter, heka.header, data[seekPos..])
        invariant used == seekPos + UsedFrom(splitter, heka.header, data[seekPos..])
        invariant tail == TailFrom(splitter, heka.header, data[seekPos..])
        invariant seekPos == 0 <==> acc == []
        invariant acc != [] ==> seekPos < |data|
        decreases |data| - seekPos
      {
        ghost var rest, was := data[seekPos..], heka.header;
        var n, record := FindRecord(data[seekPos..]);
        assert rest[n..] == data[seekPos + n..];
        if |record| == 0 {
          DeliveredEnd(splitter, was, incompleteFinal, rest);
          if incompleteFinal && |data[seekPos + n..]| > 0 {
            record := data[seekPos + n..];
            n := n + |record|;
            seekPos := seekPos + n;
            ClipSnoc(acc, record, maxRecord, keepTruncated);
            out := Keep(out, record);
            break;
          }
          if seekPos == 0 {
            return [], 0, false;
          }
          assert acc + [] == acc;
          break;
        }
        DeliveredNext(splitter, was, incompleteFinal, rest);
        Regroup2(acc, record, DeliveredFrom(splitter, heka.header, incompleteFinal, data[seekPos + n..]));
        seekPos := seekPos + n;
        ClipSnoc(acc, record, maxRecord, keepTruncated);
        acc := acc + [record];
        out := Keep(out, record);
        if seekPos >= |data| {
          assert data[seekPos..] == [] && acc + [] == acc;
          EmptyDelivers(splitter, heka.header, incompleteFinal);
          break;
        }
      }
    }

    /** Deliver a record, cut or dropped when it is over the limit. */
    method Keep(out: seq<seq<byte>>, record: seq<byte>) returns (more: seq<seq<byte>>)
      ensures more == out + Clip(record, maxRecord, keepTruncated)
    {
      more := out;
      if |record| > maxRecord {
        if keepTruncated {
          more := out + [record[..maxRecord]];
        }
      } else {
        more := out + [record];
      }
    }

    static lemma Regroup2(a: seq<seq<byte>>, x: seq<byte>, b: seq<seq<byte>>)
      ensures a + ([x] + b) == a + [x] + b
    {
    }

    /** A stream that can be followed through drops: there is a splitter, the buffer can
      * hold a header, and no cached length is applied behind a drop. */
    ghost predicate Siftable(stream: seq<byte>) {
      !splitter.NullSplitter? && maxRecord > 0 && maxRecord >= HeaderRoom(splitter) && FreshThrough(splitter, stream, maxRecord)
    }

    ghost function Sifted(stream: seq<byte>, late: bool): seq<seq<byte>>
      requires maxRecord > 0
    {
      var r := Sieved(splitter, stream, maxRecord, keepTruncated, late);
      r.0 + if incompleteFinal && r.1 != [] then [r.1] else []
    }

    ghost predicate SameSieve(whole: seq<byte>, out: seq<seq<byte>>, stream: seq<byte>, late: bool)
      requires maxRecord > 0
    {
      var more := Sieved(splitter, stream, maxRecord, keepTruncated, late);
      Sieved(splitter, whole, maxRecord, keepTruncated, late) == (out + more.0, more.1)
    }

    /** What came out so far, and what is to come of the rest of the stream, is what is to
      * come of the whole; once its very end has been cut off, only if noticed late. */
    ghost predicate Sifting(whole: seq<byte>, out: seq<seq<byte>>, stream: seq<byte>, cut: bool) {
      && Siftable(stream) && SameSieve(whole, out, stream, true)
      && if cut then stream == [] else SameSieve(whole, out, stream, false)
    }

    lemma SiftStart(whole: seq<byte>)
      requires Siftable(whole)
      ensures Sifting(whole, [], whole, false)
    {
      hide Sieved, FreshThrough;
      After([], [], Sieved(splitter, whole, maxRecord, keepTruncated, true).0);
      After([], [], Sieved(splitter, whole, maxRecord, keepTruncated, false).0);
    }

    static lemma After(a: seq<seq<byte>>, b: seq<seq<byte>>, c: seq<seq<byte>>)
      ensures a + (b + c) == a + b + c && [] + c == c && a + [] == a
    {
    }

    lemma SiftNext(whole: seq<byte>, out: seq<seq<byte>>, cut: bool, n: nat, record: seq<byte>, stream: seq<byte>)
      requires Sifting(whole, out, stream, cut) && n <= |stream| && n <= maxRecord && |record| <= n
      requires Find(splitter, stream)
               == if record != [] then (n, record) else var later := Find(splitter, stream[n..]); (n + later.0, later.1)
      ensures Sifting(whole, if record == [] then out else out + [record], stream[n..], cut)
    {
      hide Sieved, FreshThrough, Find;
      SieveNext(splitter, stream, n, record, maxRecord, keepTruncated, true);
      SieveNext(splitter, stream, n, record, maxRecord, keepTruncated, false);
      var found := if record == [] then [] else [record];
      After(out, found, Sieved(splitter, stream[n..], maxRecord, keepTruncated, true).0);
      After(out, found, Sieved(splitter, stream[n..], maxRecord, keepTruncated, false).0);
    }

    /** The same for a full buffer, cut off. */
    lemma SiftCut(whole: seq<byte>, out: seq<seq<byte>>, cut: bool, pending: seq<byte>, rest: seq<byte>, header: Header)
      requires Sifting(whole, out, pending + rest, cut) && |pending| == maxRecord && Find(splitter, pending) == (0, [])
      ensures Sifting(whole, if keepTruncated then out + [pending] else out, rest, rest == []) && Fresh(splitter, header, rest)
    {
      hide Sieved, FreshThrough, Find, NeverStale;
      SieveCut(splitter, pending, rest, keepTruncated, true);
      SieveCut(splitter, pending, rest, keepTruncated, false);
      var kept := if keepTruncated then [pending] else [];
      After(out, kept, Sieved(splitter, rest, maxRecord, keepTruncated, true).0);
      After(out, kept, Sieved(splitter, rest, maxRecord, keepTruncated, false).0);
      if rest == [] {
        NothingStale(splitter, header);
      } else if splitter.HekaSplitter? {
        FreshWith(splitter, header, rest);
      }
    }

    lemma SiftEnd(whole: seq<byte>, out: seq<seq<byte>>, cut: bool, tail: seq<byte>)
      requires Sifting(whole, out, tail, cut) && |tail| <= maxRecord && Find(splitter, tail) == (0, [])
      ensures var all := out + if incompleteFinal && tail != [] then [tail] else [];
              all == Sifted(whole, true) || all == Sifted(whole, false)
    {
      hide Sieved, FreshThrough, Find;
      SieveEnd(splitter, tail, maxRecord, keepTruncated, false);
      if |tail| < maxRecord {
        SieveEnd(splitter, tail, maxRecord, keepTruncated, true);
      }
    }

    /** On a stream whose records fit, that is all of them. */
    lemma OrderlySifted(stream: seq<byte>)
      requires Orderly(stream) && maxRecord > 0
      ensures Siftable(stream)
      ensures Sifted(stream, true) == Sifted(stream, false) == Delivered(splitter, incompleteFinal, stream)
    {
      hide Sieved, FreshThrough, Manageable;
      ManageableSieved(splitter, stream, maxRecord, keepTruncated, true);
      ManageableSieved(splitter, stream, maxRecord, keepTruncated, false);
    }

    static lemma NullNext(out: seq<seq<byte>>, stream: seq<byte>, n: nat, record: seq<byte>)
      requires n <= |stream| && record == stream[..n]
      ensures Flatten(if record == [] then out else out + [record]) + stream[n..] == Flatten(out) + stream
    {
      FlattenSnoc(out, record);
      assert stream == record + stream[n..];
      if record == [] {
        assert stream[n..] == stream;
      } else {
        assert Flatten(out) + record + stream[n..] == Flatten(out) + (record + stream[n..]);
      }
    }

    /** A stream on which no drop may happen. */
    ghost predicate Orderly(stream: seq<byte>)
      reads this
    {
      && !splitter.NullSplitter? && maxRecord >= HeaderRoom(splitter) && Bounded()
      && Manageable(splitter, stream, maxRecord)
    }

    /** The result of a call, in terms of the stream before and after it. */
    ghost predicate NextOf(stream: seq<byte>, n: nat, record: seq<byte>, err: Err, pending: seq<byte>, rest: seq<byte>) {
      && err != ShortBuffer
      && Records(splitter, stream) == (if record == [] then [] else [record]) + Records(splitter, pending + rest)
      && Tail(splitter, stream) == Tail(splitter, pending + rest)
      && Find(splitter, stream) == (if record != [] then (n, record)
                                    else var later := Find(splitter, pending + rest); (n + later.0, later.1))
      && (err == EOF ==> rest == [] && Find(splitter, pending) == (0, []))
    }

    lemma NothingTaken(pending: seq<byte>, rest: seq<byte>)
      ensures (pending + rest)[0..] == pending + rest
      ensures rest == [] && Find(splitter, pending) == (0, []) ==> NextOf(pending + rest, 0, [], EOF, pending, rest)
    {
      hide Find, Records, Tail;
    }

    lemma NoOverflow(s: seq<byte>, t: seq<byte>)
      requires Valid() && Orderly(s + t) && Calm(t) && needData && s == Pending()
      ensures !BufferPlan(buf.Length, scanPos, readPos, maxRecord).Full?
    {
      NeverFull(splitter, s, t, maxRecord);
    }
  }

  /** What SplitBytes makes of a record: cut it or drop it if it is too long. */
  function Clip(rec: seq<byte>, maxRecord: nat, keepTruncated: bool): seq<seq<byte>> {
    if |rec| <= maxRecord then [rec] else if keepTruncated then [rec[..maxRecord]] else []
  }

  function ClipAll(recs: seq<seq<byte>>, maxRecord: nat, keepTruncated: bool): seq<seq<byte>> {
    if recs == [] then []
    else ClipAll(recs[..|recs| - 1], maxRecord, keepTruncated) + Clip(recs[|recs| - 1], maxRecord, keepTruncated)
  }

  lemma ClipSnoc(recs: seq<seq<byte>>, rec: seq<byte>, maxRecord: nat, keepTruncated: bool)
    ensures ClipAll(recs + [rec], maxRecord, keepTruncated)
            == ClipAll(recs, maxRecord, keepTruncated) + Clip(rec, maxRecord, keepTruncated)
  {
    assert (recs + [rec])[..|recs|] == recs;
  }

  /** Kept, every record comes out, as much of it as the limit allows; dropped, exactly
    * those within the limit do, in their order. */
  lemma {:induction false} ClipLaws(recs: seq<seq<byte>>, maxRecord: nat)
    ensures |ClipAll(recs, maxRecord, true)| == |recs|
    ensures forall i :: 0 <= i < |recs| ==>
              && ClipAll(recs, maxRecord, true)[i] <= recs[i]
              && |ClipAll(recs, maxRecord, true)[i]| == if |recs[i]| <= maxRecord then |recs[i]| else maxRecord
    ensures ClipAll(recs, maxRecord, false) == Fitting(recs, maxRecord)
  {
    if recs != [] {
      var front, last := recs[..|recs| - 1], recs[|recs| - 1];
      ClipLaws(front, maxRecord);
      FittingSnoc(front, last, maxRecord);
      assert recs == front + [last];
    }
  }

  function Fitting(recs: seq<seq<byte>>, maxRecord: nat): seq<seq<byte>> {
    if recs == [] then []
    else if |recs[0]| <= maxRecord then [recs[0]] + Fitting(recs[1..], maxRecord)
    else Fitting(recs[1..], maxRecord)
  }

  lemma {:induction false} FittingSnoc(recs: seq<seq<byte>>, rec: seq<byte>, maxRecord: nat)
    ensures Fitting(recs + [rec], maxRecord) == Fitting(recs, maxRecord) + if |rec| <= maxRecord then [rec] else []
  {
    if recs == [] {
      assert recs + [rec] == [rec];
    } else {
      assert (recs + [rec])[1..] == recs[1..] + [rec];
      FittingSnoc(recs[1..], rec, maxRecord);
    }
  }

  /** An unterminated end is delivered exactly if that was asked for. */
  lemma TailExample()
    ensures Delivered(TokenSplitter(10, 1), true, [97, 10, 98]) == [[97, 10], [98]]
    ensures Delivered(TokenSplitter(10, 1), false, [97, 10, 98]) == [[97, 10]]
  {
    hide Records, Tail;
    var sp := TokenSplitter(10, 1);
    assert Find(sp, [97, 10, 98]) == (2, [97, 10]) by {
      IndexByteAt([97, 10, 98], 10, 1);
      assert [97, 10, 98][..2] == [97, 10];
    }
    assert Find(sp, [98]) == (0, []) by {
      IndexByteNone([98], 10);
    }
    EndOf(sp, [98]);
    assert [97, 10, 98] + [] == [97, 10, 98] && [97, 10, 98][2..] + [] == [98];
    TakeRecord(sp, [97, 10, 98], []);
  }

  lemma {:induction false} Unclipped(recs: seq<seq<byte>>, maxRecord: nat, keepTruncated: bool)
    requires forall i :: 0 <= i < |recs| ==> |recs[i]| <= maxRecord
    ensures ClipAll(recs, maxRecord, keepTruncated) == recs
  {
    if recs != [] {
      var front := recs[..|recs| - 1];
      Unclipped(front, maxRecord, keepTruncated);
      assert recs == front + [recs[|recs| - 1]];
    }
  }

  lemma ManageableUnclipped(sp: Splitter, incompleteFinal: bool, s: seq<byte>, maxRecord: nat, keepTruncated: bool)
    ensures Manageable(sp, s, maxRecord) ==>
              ClipAll(Delivered(sp, incompleteFinal, s), maxRecord, keepTruncated) == Delivered(sp, incompleteFinal, s)
  {
    if Manageable(sp, s, maxRecord) {
      Unclipped(Delivered(sp, incompleteFinal, s), maxRecord, keepTruncated);
    }
  }

  /** The bytes up to the end of the last record. */
  function UsedFrom(sp: Splitter, header: Header, s: seq<byte>): (n: nat)
    ensures n <= |s|
    decreases |s|
  {
    var r := SearchBy(sp, header, s);
    if r.1 == [] then 0 else r.0 + UsedFrom(sp, r.2, s[r.0..])
  }

  /** Behind them there is no record any more, and the same tail. */
  lemma {:induction false} UsedRest(sp: Splitter, header: Header, s: seq<byte>)
    requires !sp.NullSplitter? && Fresh(sp, header, s)
    ensures var n := UsedFrom(sp, header, s);
            && Records(sp, s[n..]) == [] && Tail(sp, s[n..]) == Tail(sp, s) && (Records(sp, s) == [] <==> n == 0)
    decreases |s|
  {
    hide Find, SearchBy, Fresh;
    SearchAgrees(sp, header, s);
    var r := SearchBy(sp, header, s);
    if r.1 != [] {
      StaysFreshBehind(sp, header, s);
      UsedRest(sp, r.2, s[r.0..]);
      assert s[r.0..][UsedFrom(sp, r.2, s[r.0..])..] == s[UsedFrom(sp, header, s)..];
    } else {
      assert s[0..] == s;
    }
  }

  /** They end with the last record. */
  lemma {:induction false} UsedLast(sp: Splitter, header: Header, s: seq<byte>)
    requires !sp.NullSplitter? && Fresh(sp, header, s) && Records(sp, s) != []
    ensures var n := UsedFrom(sp, header, s); var rec := Records(sp, s)[|Records(sp, s)| - 1];
            |rec| <= n && s[n - |rec|..n] == rec
    decreases |s|
  {
    hide Find, SearchBy, Fresh;
    SearchAgrees(sp, header, s);
    var r := SearchBy(sp, header, s);
    var more := Records(sp, s[r.0..]);
    assert Records(sp, s) == [r.1] + more;
    StaysFreshBehind(sp, header, s);
    UsedRest(sp, r.2, s[r.0..]);
    if more == [] {
      FoundSlice(sp, s);
    } else {
      UsedLast(sp, r.2, s[r.0..]);
      SliceBehind(s, r.0, UsedFrom(sp, r.2, s[r.0..]), |more[|more| - 1]|);
    }
  }

  lemma StaysFreshBehind(sp: Splitter, header: Header, s: seq<byte>)
    requires Fresh(sp, header, s)
    ensures var r := SearchBy(sp, header, s); Fresh(sp, r.2, s[r.0..])
  {
    hide Fresh, SearchBy;
    assert s + [] == s && s[SearchBy(sp, header, s).0..] + [] == s[SearchBy(sp, header, s).0..];
    KeepsFresh(sp, header, s, []);
  }

  lemma SliceBehind(s: seq<byte>, i: nat, n: nat, k: nat)
    requires k <= n && i + n <= |s|
    ensures s[i..][n - k..n] == s[i + n - k..i + n]
  {
  }

  lemma FoundSlice(sp: Splitter, s: seq<byte>)
    ensures var r := Find(sp, s); r.1 == s[r.0 - |r.1|..r.0]
  {
    if sp.HekaSplitter? {
      FrameBounds(s, sp.maxMessage);
    }
  }

  lemma DeliveredNext(sp: Splitter, header: Header, incompleteFinal: bool, s: seq<byte>)
    requires SearchBy(sp, header, s).1 != []
    ensures var r := SearchBy(sp, header, s);
            && DeliveredFrom(sp, header, incompleteFinal, s)
               == [r.1] + DeliveredFrom(sp, r.2, incompleteFinal, s[r.0..])
            && HeaderAfter(sp, header, s) == HeaderAfter(sp, r.2, s[r.0..])
            && UsedFrom(sp, header, s) == r.0 + UsedFrom(sp, r.2, s[r.0..])
            && TailFrom(sp, header, s) == TailFrom(sp, r.2, s[r.0..])
  {
    hide SearchBy;
  }

  lemma DeliveredEnd(sp: Splitter, header: Header, incompleteFinal: bool, s: seq<byte>)
    requires SearchBy(sp, header, s).1 == []
    ensures var r := SearchBy(sp, header, s);
            && DeliveredFrom(sp, header, incompleteFinal, s)
               == (if incompleteFinal && s[r.0..] != [] then [s[r.0..]] else [])
            && HeaderAfter(sp, header, s) == r.2 && UsedFrom(sp, header, s) == 0 && TailFrom(sp, header, s) == s[r.0..]
  {
    hide SearchBy;
  }

  lemma FreshDelivers(sp: Splitter, header: Header, incompleteFinal: bool, s: seq<byte>)
    requires Fresh(sp, header, s)
    ensures DeliveredFrom(sp, header, incompleteFinal, s) == Delivered(sp, incompleteFinal, s)
  {
    hide Fresh, RecordsFrom, TailFrom, Records, Tail;
    FreshRecords(sp, header, s);
  }

  lemma ClipNone(maxRecord: nat, keepTruncated: bool)
    ensures ClipAll([], maxRecord, keepTruncated) == []
  {
  }

  lemma EmptyDelivers(sp: Splitter, header: Header, incompleteFinal: bool)
    ensures DeliveredFrom(sp, header, incompleteFinal, []) == [] && HeaderAfter(sp, header, []) == header
  {
    if sp.HekaSplitter? {
      SearchNone(header, [], sp.maxMessage);
    }
  }

  /** Frames never exceed the record limit, and no header cached from before spoils
    * them: a stream of them is delivered as it is. */
  lemma FramedManageable(ps: seq<Piece>, last: seq<byte>, header: Header, mac: Mac, maxMessage: nat)
    requires forall p :: p in ps ==> Sendable(p, mac, maxMessage)
    requires IndexByte(last, RECORD_SEPARATOR) == -1
    ensures Manageable(HekaSplitter(maxMessage), Wired(ps, last, mac, maxMessage), MaxRecord(maxMessage))
    ensures Fresh(HekaSplitter(maxMessage), header, Wired(ps, last, mac, maxMessage))
    ensures Delivered(HekaSplitter(maxMessage), true, Wired(ps, last, mac, maxMessage)) == FramesOf(ps, mac, maxMessage)
  {
    hide Find;
    hide Wired;
    FramesComeBack(ps, last, mac, maxMessage);
    FramesFresh(ps, last, header, mac, maxMessage);
    FrameSizes(ps, mac, maxMessage);
  }

  lemma {:induction false} FrameSizes(ps: seq<Piece>, mac: Mac, maxMessage: nat)
    requires forall p :: p in ps ==> Sendable(p, mac, maxMessage)
    ensures forall f :: f in FramesOf(ps, mac, maxMessage) ==> |f| <= MaxRecord(maxMessage)
  {
    hide EncodeHeader;
    hide IndexByte;
    if ps != [] {
      var p := ps[0];
      assert p in ps;
      FrameShape(HeaderFor(p.msg, p.msc, mac), p.msg);
      ModSmall(|p.msg|, TWO32);
      FrameSizes(ps[1..], mac, maxMessage);
      var more := FramesOf(ps[1..], mac, maxMessage);
      assert FramesOf(ps, mac, maxMessage) == [FrameOf(p, mac, maxMessage)] + more;
    }
  }

  lemma EndOf(sp: Splitter, s: seq<byte>)
    requires Find(sp, s) == (0, [])
    ensures Records(sp, s) == [] && Tail(sp, s) == s
  {
  }

  /** One search in what is pending: its record, if any, is the next of the stream,
    * and the header it leaves is fresh for what remains. */
  lemma ScanStep(sp: Splitter, header: Header, view: seq<byte>, rest: seq<byte>, left: seq<byte>)
    requires Fresh(sp, header, view + rest) && left == view[SearchBy(sp, header, view).0..]
    ensures var r := SearchBy(sp, header, view);
            && Fresh(sp, r.2, left + rest)
            && (!sp.NullSplitter? ==>
                  && Records(sp, view + rest) == (if r.1 == [] then [] else [r.1]) + Records(sp, left + rest)
                  && Tail(sp, view + rest) == Tail(sp, left + rest)
                  && Find(sp, view + rest) == (if r.1 != [] then (r.0, r.1)
                                               else var later := Find(sp, left + rest); (r.0 + later.0, later.1))
                  && (r.1 == [] ==> Find(sp, left) == (0, [])))
  {
    hide Find, Records, Tail, SearchBy, Fresh;
    KeepsFresh(sp, header, view, rest);
    SearchAgrees(sp, header, view);
    if !sp.NullSplitter? {
      if Find(sp, view).1 == [] {
        FindSettled(sp, view);
        FindResumes(sp, view, rest);
        StepOver(sp, view, rest);
      } else {
        FindStays(sp, view, rest);
        TakeRecord(sp, view, rest);
      }
    }
  }

  lemma NothingStale(sp: Splitter, header: Header)
    ensures Fresh(sp, header, [])
  {
  }

  lemma NullTakes(sp: Splitter, header: Header, view: seq<byte>, rest: seq<byte>)
    ensures var r := SearchBy(sp, header, view);
            sp.NullSplitter? ==> r.1 == (view + rest)[..r.0] && view[r.0..] == []
  {
  }

  lemma EmptyHasNone(sp: Splitter)
    ensures !sp.NullSplitter? ==> Find(sp, []) == (0, [])
  {
  }

  lemma RoomPositive(cap: nat, scanPos: nat, readPos: nat, maxRecord: nat)
    requires scanPos <= readPos <= cap && 0 < cap
    requires !BufferPlan(cap, scanPos, readPos, maxRecord).Full?
    ensures cap <= maxRecord ==> RoomAfter(cap, scanPos, readPos, maxRecord) > 0
  {
  }
}
