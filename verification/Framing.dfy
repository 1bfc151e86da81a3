/** Heka stream framing: a record separator, the header length, a protobuf header
  * and a unit separator in front of the message bytes. */
module Framing {
  import opened Bytes
  import opened Wire
  import opened WireDecoder

  const HEADER_DELIMITER_SIZE := 2
  const HEADER_FRAMING_SIZE := 3
  const MAX_HEADER_SIZE := 255
  const RECORD_SEPARATOR: byte := 0x1e
  const UNIT_SEPARATOR: byte := 0x1f
  const UUID_SIZE := 16

  /** MAX_RECORD_SIZE for a given MAX_MESSAGE_SIZE. */
  function MaxRecord(maxMessage: nat): nat {
    HEADER_FRAMING_SIZE + MAX_HEADER_SIZE + maxMessage
  }

  function LengthOf(h: Header): nat {
    if h.messageLength.Some? then h.messageLength.value else 0
  }

  /** DecodeHeader: whether the bytes decode, and the header object afterwards.
    * Without a closing unit separator the object is left as it was. */
  function DecodeInto(buf: seq<byte>, header: Header, maxMessage: nat): (bool, Header)
    requires buf != []
  {
    if buf[|buf| - 1] != UNIT_SEPARATOR then (false, header)
    else
      var o := DecodeHeaderFrom(buf[..|buf| - 1], EmptyHeader);
      if !o.ok then (false, o.value)
      else if LengthOf(o.value) > maxMessage then (false, EmptyHeader)
      else (true, o.value)
  }

  /** The message length FindRecord takes from a header, None if it skips it. */
  function Announced(buf: seq<byte>, maxMessage: nat): Option<nat>
    requires buf != []
  {
    var d := DecodeInto(buf, EmptyHeader, maxMessage);
    if d.1.messageLength.Some? || d.0 then Some(LengthOf(d.1)) else None
  }

  /** Where the header of a frame ends, its unit separator included. */
  function HeaderEnd(s: seq<byte>): (end: nat)
    requires |s| >= 2
    ensures HEADER_FRAMING_SIZE <= end <= HEADER_FRAMING_SIZE + MAX_HEADER_SIZE
  {
    var n: int := s[1];
    n + HEADER_FRAMING_SIZE
  }

  /** What the bytes from a record separator on turn out to be. */
  datatype Probe = NeedMore | Whole(end: nat) | Skip

  function ProbeAt(s: seq<byte>, maxMessage: nat): (p: Probe)
    ensures p.Whole? ==> HEADER_FRAMING_SIZE <= p.end <= |s|
  {
    if |s| < HEADER_DELIMITER_SIZE || |s| < HeaderEnd(s) then NeedMore
    else
      match Announced(s[2..HeaderEnd(s)], maxMessage)
      case None => Skip
      case Some(length) => if |s| < HeaderEnd(s) + length then NeedMore else Whole(HeaderEnd(s) + length)
  }

  /** What FindRecord finds in `buf`: how far it got, and the record if there is a
    * whole one. */
  function FindFrame(buf: seq<byte>, maxMessage: nat): (r: (nat, seq<byte>))
  {
    var i := IndexByte(buf, RECORD_SEPARATOR);
    if i == -1 then (|buf|, [])
    else
      match ProbeAt(buf[i..], maxMessage)
      case NeedMore => (i, [])
      case Whole(end) => (i + end, buf[i..i + end])
      case Skip =>
        var r := FindFrame(buf[i + 1..], maxMessage);
        (i + 1 + r.0, r.1)
  }

  /** A record found ends where FindRecord says it got to. */
  lemma {:induction false} FrameBounds(buf: seq<byte>, maxMessage: nat)
    ensures var r := FindFrame(buf, maxMessage);
            && r.0 <= |buf| && |r.1| <= r.0 && r.1 == buf[r.0 - |r.1|..r.0]
            && (r.1 != [] ==> |r.1| >= HEADER_FRAMING_SIZE)
  {
    hide ProbeAt;
    hide IndexByte;
    var i := IndexByte(buf, RECORD_SEPARATOR);
    if i != -1 && ProbeAt(buf[i..], maxMessage).Skip? {
      FrameBounds(buf[i + 1..], maxMessage);
      var r := FindFrame(buf[i + 1..], maxMessage);
      assert buf[i + 1..][r.0 - |r.1|..r.0] == buf[i + 1 + r.0 - |r.1|..i + 1 + r.0];
    }
  }

  // ------------------------------------------------------ the cached header

  /** What FindRecord makes of the bytes from a record separator on, with the header
    * object as the last call left it, and the header object afterwards. */
  function ProbeBy(header: Header, s: seq<byte>, maxMessage: nat): (r: (Probe, Header))
    ensures r.0.Whole? ==> HEADER_FRAMING_SIZE <= r.0.end <= |s|
  {
    if |s| < HEADER_DELIMITER_SIZE || |s| < HeaderEnd(s) then (NeedMore, header)
    else
      var d := DecodeInto(s[2..HeaderEnd(s)], header, maxMessage);
      if d.1.messageLength.Some? || d.0 then
        var end := HeaderEnd(s) + LengthOf(d.1);
        if |s| < end then (NeedMore, d.1) else (Whole(end), EmptyHeader)
      else (Skip, d.1)
  }

  /** FindRecord with its cached header: how far it got, the record, and the header
    * it leaves for the next call. */
  function Search(header: Header, buf: seq<byte>, maxMessage: nat): (r: (nat, seq<byte>, Header))
    decreases |buf|
  {
    var i := IndexByte(buf, RECORD_SEPARATOR);
    if i == -1 then (|buf|, [], header)
    else
      var p := ProbeBy(header, buf[i..], maxMessage);
      match p.0
      case NeedMore => (i, [], p.1)
      case Whole(end) => (i + end, buf[i..i + end], p.1)
      case Skip =>
        var r := Search(p.1, buf[i + 1..], maxMessage);
        (i + 1 + r.0, r.1, r.2)
  }

  class HekaFramingSplitter {
    var header: Header
    const maxMessage: nat

    constructor (maxMessage: nat)
      ensures header == EmptyHeader && this.maxMessage == maxMessage
    {
      header := EmptyHeader;
      this.maxMessage := maxMessage;
    }

    /** message.DecodeHeader on the splitter's own header object. */
    method DecodeHeader(buf: seq<byte>) returns (decoded: bool)
      requires buf != []
      modifies this
      ensures (decoded, header) == DecodeInto(buf, old(header), maxMessage)
    {
      if buf[|buf| - 1] != UNIT_SEPARATOR {
        return false;
      }
      var o := UnmarshalHeader(buf[..|buf| - 1]);
      header := o.value;
      if !o.ok {
        return false;
      }
      if LengthOf(header) > maxMessage {
        header := EmptyHeader;
        return false;
      }
      return true;
    }

    /** The middle of FindRecord: judge the bytes from a record separator on. */
    method ProbeHeader(here: seq<byte>) returns (p: Probe)
      modifies this
      ensures (p, header) == ProbeBy(old(header), here, maxMessage)
    {
      hide DecodeInto;
      if |here| < HEADER_DELIMITER_SIZE {
        return NeedMore;
      }
      var headerEnd := HeaderEnd(here);
      if |here| < headerEnd {
        return NeedMore;
      }
      var decoded := DecodeHeader(here[HEADER_DELIMITER_SIZE..headerEnd]);
      if header.messageLength.Some? || decoded {
        var messageEnd := headerEnd + LengthOf(header);
        if |here| < messageEnd {
          return NeedMore;
        }
        header := EmptyHeader;
        return Whole(messageEnd);
      }
      return Skip;
    }

    /** FindRecord, on any buffer and whatever header an earlier call has left. */
    method FindRecord(buf: seq<byte>) returns (bytesRead: nat, record: seq<byte>)
      modifies this
      ensures (bytesRead, record, header) == Search(old(header), buf, maxMessage)
      decreases |buf|
    {
      hide ProbeBy;
      hide IndexByte;
      var i := IndexByte(buf, RECORD_SEPARATOR);
      if i == -1 {
        return |buf|, [];
      }
      var p := ProbeHeader(buf[i..]);
      match p {
        case NeedMore =>
          return i, [];
        case Whole(end) =>
          return i + end, buf[i..i + end];
        case Skip =>
          var n;
          n, record := FindRecord(buf[i + 1..]);
          bytesRead := i + 1 + n;
      }
    }
  }

  /** A record ends where FindRecord says it got to, and leaves no header behind. */
  lemma {:induction false} SearchBounds(header: Header, buf: seq<byte>, maxMessage: nat)
    ensures var r := Search(header, buf, maxMessage);
            && r.0 <= |buf| && |r.1| <= r.0 && r.1 == buf[r.0 - |r.1|..r.0]
            && (r.1 != [] ==> r.2 == EmptyHeader)
    decreases |buf|
  {
    hide IndexByte;
    hide DecodeInto;
    var i := IndexByte(buf, RECORD_SEPARATOR);
    if i != -1 {
      var p := ProbeBy(header, buf[i..], maxMessage);
      if p.0.Skip? {
        SearchBounds(p.1, buf[i + 1..], maxMessage);
        var r := Search(p.1, buf[i + 1..], maxMessage);
        assert buf[i + 1..][r.0 - |r.1|..r.0] == buf[i + 1 + r.0 - |r.1|..i + 1 + r.0];
      }
    }
  }

  /** The whole header block of the bytes from a record separator on is there, and is
    * not closed by a unit separator. */
  predicate Unclosed(s: seq<byte>) {
    |s| >= HEADER_DELIMITER_SIZE && |s| >= HeaderEnd(s) && s[HeaderEnd(s) - 1] != UNIT_SEPARATOR
  }

  /** A length cached from other data is about to be applied: the block at the first
    * record separator is not a header at all. */
  predicate Stale(header: Header, buf: seq<byte>) {
    && header.messageLength.Some?
    && var i := IndexByte(buf, RECORD_SEPARATOR);
       i != -1 && Unclosed(buf[i..])
  }

  /** A block that is closed, or is not all there, is judged afresh; so is any block
    * when no length is cached. */
  lemma ProbeAgrees(header: Header, s: seq<byte>, maxMessage: nat)
    requires header.messageLength.None? || !Unclosed(s)
    ensures ProbeBy(header, s, maxMessage).0 == ProbeAt(s, maxMessage)
    ensures ProbeAt(s, maxMessage).Skip? ==> ProbeBy(header, s, maxMessage).1.messageLength.None?
  {
    if |s| >= HEADER_DELIMITER_SIZE && |s| >= HeaderEnd(s) {
      SameHeader(header, s[2..HeaderEnd(s)], maxMessage);
    }
  }

  /** An unclosed block is skipped by a fresh header, and never by a cached length. */
  lemma ProbeDiffers(header: Header, s: seq<byte>, maxMessage: nat)
    requires header.messageLength.Some? && Unclosed(s)
    ensures !ProbeBy(header, s, maxMessage).0.Skip? && ProbeAt(s, maxMessage).Skip?
  {
    SameHeader(header, s[2..HeaderEnd(s)], maxMessage);
  }

  /** Decoding over an old header gives what decoding afresh gives, or leaves it. */
  lemma SameHeader(header: Header, bytes: seq<byte>, maxMessage: nat)
    requires bytes != []
    ensures bytes[|bytes| - 1] == UNIT_SEPARATOR ==>
              DecodeInto(bytes, header, maxMessage) == DecodeInto(bytes, EmptyHeader, maxMessage)
    ensures bytes[|bytes| - 1] != UNIT_SEPARATOR ==> DecodeInto(bytes, header, maxMessage) == (false, header)
    ensures bytes[|bytes| - 1] != UNIT_SEPARATOR ==> Announced(bytes, maxMessage) == None
  {
  }

  /** One unfolding of the search with a cached header. */
  lemma SearchAt(header: Header, buf: seq<byte>, i: nat, maxMessage: nat)
    requires i == IndexByte(buf, RECORD_SEPARATOR)
    ensures var p := ProbeBy(header, buf[i..], maxMessage);
            && (p.0.NeedMore? ==> Search(header, buf, maxMessage) == (i, [], p.1))
            && (p.0.Whole? ==> i + p.0.end <= |buf|
                               && Search(header, buf, maxMessage) == (i + p.0.end, buf[i..i + p.0.end], p.1))
            && (p.0.Skip? ==>
                  var r := Search(p.1, buf[i + 1..], maxMessage);
                  Search(header, buf, maxMessage) == (i + 1 + r.0, r.1, r.2))
  {
    hide ProbeBy;
  }

  lemma SearchNone(header: Header, buf: seq<byte>, maxMessage: nat)
    requires IndexByte(buf, RECORD_SEPARATOR) == -1
    ensures Search(header, buf, maxMessage) == (|buf|, [], header)
  {
  }

  predicate Agrees(header: Header, buf: seq<byte>, maxMessage: nat) {
    var r := Search(header, buf, maxMessage);
    (r.0, r.1) == FindFrame(buf, maxMessage)
  }

  /** The cached header changes nothing, exactly when it is not stale. */
  lemma {:induction false} AgreesIffFresh(header: Header, buf: seq<byte>, maxMessage: nat)
    ensures Agrees(header, buf, maxMessage) <==> !Stale(header, buf)
    decreases |buf|
  {
    hide IndexByte, ProbeBy, ProbeAt, FindFrame, Search, Unclosed;
    var i := IndexByte(buf, RECORD_SEPARATOR);
    if i == -1 {
      SearchNone(header, buf, maxMessage);
      FindNone(buf, maxMessage);
    } else {
      SearchAt(header, buf, i, maxMessage);
      FindAt(buf, i, maxMessage);
      if Stale(header, buf) {
        ProbeDiffers(header, buf[i..], maxMessage);
        FrameBounds(buf[i + 1..], maxMessage);
      } else {
        ProbeAgrees(header, buf[i..], maxMessage);
        var p := ProbeBy(header, buf[i..], maxMessage);
        if p.0.Skip? {
          AgreesIffFresh(p.1, buf[i + 1..], maxMessage);
        }
      }
    }
  }

  /** A header that is fresh for a stream is fresh for any part of it that has
    * arrived, and what a search of that part leaves is fresh for what remains. */
  lemma {:induction false} StaysFresh(header: Header, s: seq<byte>, t: seq<byte>, maxMessage: nat)
    requires !Stale(header, s + t)
    ensures !Stale(header, s)
    ensures var r := Search(header, s, maxMessage); r.0 <= |s| && !Stale(r.2, s[r.0..] + t)
    decreases |s|
  {
    hide IndexByte, ProbeBy, Search, Unclosed;
    SearchBounds(header, s, maxMessage);
    var i := IndexByte(s, RECORD_SEPARATOR);
    if i == -1 {
      SearchNone(header, s, maxMessage);
      FreshNone(header, s, t);
    } else {
      hide Stale;
      SearchAt(header, s, i, maxMessage);
      FreshAt(header, s, t, i, maxMessage);
      var p := ProbeBy(header, s[i..], maxMessage);
      if p.0.Skip? {
        FreshWithout(p.1, s[i + 1..] + t);
        StaysFresh(p.1, s[i + 1..], t, maxMessage);
        DropTwice(s, i + 1, Search(p.1, s[i + 1..], maxMessage).0);
      }
    }
  }

  lemma DropTwice(s: seq<byte>, i: nat, n: nat)
    requires i <= |s| && n <= |s| - i
    ensures s[i..][n..] == s[i + n..]
  {
  }

  lemma FreshWithout(header: Header, s: seq<byte>)
    requires header.messageLength.None?
    ensures !Stale(header, s)
  {
  }

  lemma FreshNone(header: Header, s: seq<byte>, t: seq<byte>)
    requires IndexByte(s, RECORD_SEPARATOR) == -1 && !Stale(header, s + t)
    ensures !Stale(header, s) && !Stale(header, s[|s|..] + t)
  {
    hide IndexByte, Unclosed;
    IndexGrows(s, t, RECORD_SEPARATOR);
    var j := IndexByte(t, RECORD_SEPARATOR);
    assert s[|s|..] + t == t;
    assert j != -1 ==> (s + t)[|s| + j..] == t[j..];
  }

  /** The same at the first separator: neither what has arrived nor what the block
    * there leaves cached is stale. */
  lemma FreshAt(header: Header, s: seq<byte>, t: seq<byte>, i: nat, maxMessage: nat)
    requires i == IndexByte(s, RECORD_SEPARATOR) && !Stale(header, s + t)
    ensures !Stale(header, s)
    ensures var p := ProbeBy(header, s[i..], maxMessage);
            && (p.0.NeedMore? ==> !Stale(p.1, s[i..] + t))
            && (p.0.Whole? ==> !Stale(p.1, s[i + p.0.end..] + t))
            && (p.0.Skip? ==> p.1.messageLength.None?)
  {
    hide IndexByte, ProbeBy, Unclosed;
    IndexGrows(s, t, RECORD_SEPARATOR);
    assert (s + t)[i..] == s[i..] + t;
    StartsThere(s[i..], t, s, i);
    UnclosedGrows(s[i..], t);
    ProbeLeaves(header, s[i..], t, maxMessage);
  }

  lemma StartsThere(here: seq<byte>, t: seq<byte>, s: seq<byte>, i: nat)
    requires i == IndexByte(s, RECORD_SEPARATOR) && here == s[i..]
    ensures IndexByte(here + t, RECORD_SEPARATOR) == 0 && (here + t)[0..] == here + t
  {
    IndexByteFirst(s, RECORD_SEPARATOR);
    IndexByteAt(here + t, RECORD_SEPARATOR, 0);
  }

  lemma UnclosedGrows(s: seq<byte>, t: seq<byte>)
    ensures Unclosed(s) ==> Unclosed(s + t)
    ensures Unclosed(s + t) && |s| >= HEADER_DELIMITER_SIZE && |s| >= HeaderEnd(s) ==> Unclosed(s)
  {
  }

  /** What a judged block leaves cached fits the block itself. */
  lemma ProbeLeaves(header: Header, s: seq<byte>, t: seq<byte>, maxMessage: nat)
    requires header.messageLength.None? || !Unclosed(s + t)
    ensures var p := ProbeBy(header, s, maxMessage);
            && (p.0.NeedMore? ==> p.1.messageLength.None? || !Unclosed(s + t))
            && (p.0.Whole? || p.0.Skip? ==> p.1.messageLength.None?)
  {
    if |s| >= HEADER_DELIMITER_SIZE && |s| >= HeaderEnd(s) {
      UnclosedGrows(s, t);
      SameHeader(header, s[2..HeaderEnd(s)], maxMessage);
    }
  }

  /** Data that ends inside a frame leaves its length cached, and the next buffer,
    * though it holds no frame at all, is cut by that length. */
  lemma StaleExample(maxMessage: nat)
    requires maxMessage >= 5
    ensures var cached := EmptyHeader.(messageLength := Some(5));
            var junk := [RECORD_SEPARATOR, 0, 97, 1, 2, 3, 4, 5];
            && Search(EmptyHeader, [RECORD_SEPARATOR, 2, 8, 5, UNIT_SEPARATOR], maxMessage) == (0, [], cached)
            && Search(cached, junk, maxMessage) == (8, junk, EmptyHeader)
            && FindFrame(junk, maxMessage) == (8, [])
  {
    CutFrame(maxMessage);
    var junk := [RECORD_SEPARATOR, 0, 97, 1, 2, 3, 4, 5];
    assert junk[0..] == junk && junk[0..8] == junk;
    IndexByteAt(junk, RECORD_SEPARATOR, 0);
    assert junk[2..3] == [97];
    IndexByteNone(junk[1..], RECORD_SEPARATOR);
  }

  lemma CutFrame(maxMessage: nat)
    requires maxMessage >= 5
    ensures Search(EmptyHeader, [RECORD_SEPARATOR, 2, 8, 5, UNIT_SEPARATOR], maxMessage)
            == (0, [], EmptyHeader.(messageLength := Some(5)))
  {
    var cached := EmptyHeader.(messageLength := Some(5));
    var cut := [RECORD_SEPARATOR, 2, 8, 5, UNIT_SEPARATOR];
    IndexByteAt(cut, RECORD_SEPARATOR, 0);
    assert cut[0..] == cut && cut[2..5] == [8, 5, UNIT_SEPARATOR];
    assert [8, 5, UNIT_SEPARATOR][..2] == [8, 5];
    assert EncodeHeader(cached) == [8, 5];
    HeaderRoundTrip(cached);
  }

  // ------------------------------------------------ independence of chunking

  lemma ProbeGrows(s: seq<byte>, t: seq<byte>, maxMessage: nat)
    requires !ProbeAt(s, maxMessage).NeedMore?
    ensures ProbeAt(s + t, maxMessage) == ProbeAt(s, maxMessage)
  {
    hide Announced;
    assert HeaderEnd(s + t) == HeaderEnd(s);
    assert (s + t)[2..HeaderEnd(s)] == s[2..HeaderEnd(s)];
  }

  lemma IndexGrows(s: seq<byte>, t: seq<byte>, b: byte)
    ensures IndexByte(s, b) != -1 ==> IndexByte(s + t, b) == IndexByte(s, b)
    ensures IndexByte(s, b) == -1 ==>
              IndexByte(s + t, b) == if IndexByte(t, b) == -1 then -1 else |s| + IndexByte(t, b)
  {
    IndexByteFirst(s, b);
    IndexByteFirst(t, b);
    var i, j := IndexByte(s, b), IndexByte(t, b);
    if i != -1 {
      IndexByteAt(s + t, b, i);
    } else if j != -1 {
      IndexByteAt(s + t, b, |s| + j);
    } else {
      IndexByteNone(s + t, b);
    }
  }

  /** A record found stays found when more data arrives. */
  lemma {:induction false} FoundStays(s: seq<byte>, t: seq<byte>, maxMessage: nat)
    requires FindFrame(s, maxMessage).1 != []
    ensures FindFrame(s + t, maxMessage) == FindFrame(s, maxMessage)
  {
    hide ProbeAt, IndexByte, FindFrame;
    var i := IndexByte(s, RECORD_SEPARATOR);
    if i == -1 {
      FindNone(s, maxMessage);
      assert false;
    }
    IndexGrows(s, t, RECORD_SEPARATOR);
    FindAt(s, i, maxMessage);
    FindAt(s + t, i, maxMessage);
    assert (s + t)[i..] == s[i..] + t && (s + t)[i + 1..] == s[i + 1..] + t;
    ProbeGrows(s[i..], t, maxMessage);
    var p := ProbeAt(s[i..], maxMessage);
    if p.Whole? {
      assert (s + t)[i..i + p.end] == s[i..i + p.end];
    } else {
      FoundStays(s[i + 1..], t, maxMessage);
    }
  }

  /** One unfolding of the search, by what stands at the first separator. */
  lemma FindAt(buf: seq<byte>, i: nat, maxMessage: nat)
    requires i == IndexByte(buf, RECORD_SEPARATOR)
    ensures var p := ProbeAt(buf[i..], maxMessage);
            && (p.NeedMore? ==> FindFrame(buf, maxMessage) == (i, []))
            && (p.Whole? ==> i + p.end <= |buf| && FindFrame(buf, maxMessage) == (i + p.end, buf[i..i + p.end]))
            && (p.Skip? ==>
                  var r := FindFrame(buf[i + 1..], maxMessage);
                  FindFrame(buf, maxMessage) == (i + 1 + r.0, r.1))
  {
    hide ProbeAt;
  }

  lemma FindNone(buf: seq<byte>, maxMessage: nat)
    requires IndexByte(buf, RECORD_SEPARATOR) == -1
    ensures FindFrame(buf, maxMessage) == (|buf|, [])
  {
  }

  /** Bytes without a record separator are skipped. */
  lemma SkipPrefix(s: seq<byte>, t: seq<byte>, maxMessage: nat)
    requires IndexByte(s, RECORD_SEPARATOR) == -1
    ensures var r := FindFrame(t, maxMessage); FindFrame(s + t, maxMessage) == (|s| + r.0, r.1)
  {
    hide ProbeAt, FindFrame, IndexByte;
    IndexGrows(s, t, RECORD_SEPARATOR);
    var j := IndexByte(t, RECORD_SEPARATOR);
    if j == -1 {
      FindNone(t, maxMessage);
      FindNone(s + t, maxMessage);
    } else {
      FindAt(t, j, maxMessage);
      FindAt(s + t, |s| + j, maxMessage);
      SameBehind(s, t, j);
      var p := ProbeAt(t[j..], maxMessage);
      if p.Whole? {
        SameSlice(s, t, j, j + p.end);
      }
    }
  }

  lemma SameBehind(s: seq<byte>, t: seq<byte>, j: nat)
    requires j < |t|
    ensures (s + t)[|s| + j..] == t[j..] && (s + t)[|s| + j + 1..] == t[j + 1..]
  {
  }

  lemma SameSlice(s: seq<byte>, t: seq<byte>, i: nat, j: nat)
    requires i <= j <= |t|
    ensures (s + t)[|s| + i..|s| + j] == t[i..j]
  {
  }

  /** A search that found nothing may be resumed where it stopped. */
  lemma {:induction false} SearchResumes(s: seq<byte>, t: seq<byte>, maxMessage: nat)
    requires FindFrame(s, maxMessage).1 == []
    ensures FindFrame(s, maxMessage).0 <= |s|
    ensures var n := FindFrame(s, maxMessage).0; var r := FindFrame(s[n..] + t, maxMessage);
            FindFrame(s + t, maxMessage) == (n + r.0, r.1)
    decreases |s|, 1
  {
    hide ProbeAt, FindFrame, IndexByte;
    var i := IndexByte(s, RECORD_SEPARATOR);
    if i == -1 {
      FindNone(s, maxMessage);
      SkipPrefix(s, t, maxMessage);
      assert s[|s|..] + t == t;
    } else {
      SearchResumesAt(s, t, i, maxMessage);
    }
  }

  lemma {:induction false} SearchResumesAt(s: seq<byte>, t: seq<byte>, i: nat, maxMessage: nat)
    requires FindFrame(s, maxMessage).1 == [] && i == IndexByte(s, RECORD_SEPARATOR)
    ensures FindFrame(s, maxMessage).0 <= |s|
    ensures var n := FindFrame(s, maxMessage).0; var r := FindFrame(s[n..] + t, maxMessage);
            FindFrame(s + t, maxMessage) == (n + r.0, r.1)
    decreases |s|, 0
  {
    hide ProbeAt, FindFrame, IndexByte;
    FrameBounds(s, maxMessage);
    FindAt(s, i, maxMessage);
    if ProbeAt(s[i..], maxMessage).NeedMore? {
      ResumesAtSeparator(s, t, i, maxMessage);
    } else {
      SkipsBoth(s, t, i, maxMessage);
      SearchResumes(s[i + 1..], t, maxMessage);
      assert s[i + 1..][FindFrame(s[i + 1..], maxMessage).0..] == s[FindFrame(s, maxMessage).0..];
    }
  }

  /** Nothing in front of the separator matters. */
  lemma ResumesAtSeparator(s: seq<byte>, t: seq<byte>, i: nat, maxMessage: nat)
    requires i == IndexByte(s, RECORD_SEPARATOR)
    ensures var r := FindFrame(s[i..] + t, maxMessage); FindFrame(s + t, maxMessage) == (i + r.0, r.1)
  {
    hide FindFrame, IndexByte;
    IndexByteFirst(s, RECORD_SEPARATOR);
    IndexByteNone(s[..i], RECORD_SEPARATOR);
    SkipPrefix(s[..i], s[i..] + t, maxMessage);
    assert s[..i] + (s[i..] + t) == s + t;
  }

  /** A separator that is stepped over stays so with more data behind it. */
  lemma SkipsBoth(s: seq<byte>, t: seq<byte>, i: nat, maxMessage: nat)
    requires i == IndexByte(s, RECORD_SEPARATOR) && ProbeAt(s[i..], maxMessage).Skip?
    ensures var r := FindFrame(s[i + 1..] + t, maxMessage); FindFrame(s + t, maxMessage) == (i + 1 + r.0, r.1)
  {
    hide ProbeAt, FindFrame, IndexByte;
    IndexGrows(s, t, RECORD_SEPARATOR);
    assert (s + t)[i..] == s[i..] + t;
    ProbeGrows(s[i..], t, maxMessage);
    FindAt(s + t, i, maxMessage);
    assert (s + t)[i + 1..] == s[i + 1..] + t;
  }

  /** A search that cannot even step over its first byte, with a whole header in
    * view, is waiting for one long message. */
  lemma StallMeansLong(s: seq<byte>, t: seq<byte>, maxMessage: nat)
    requires |s| >= HEADER_FRAMING_SIZE + MAX_HEADER_SIZE
    requires FindFrame(s, maxMessage) == (0, [])
    ensures var r := FindFrame(s + t, maxMessage); r == (0, []) || |r.1| == r.0 > |s|
  {
    hide Announced;
    IndexGrows(s, t, RECORD_SEPARATOR);
    assert IndexByte(s, RECORD_SEPARATOR) == 0;
    assert s[0..] == s && (s + t)[0..] == s + t;
    assert (s + t)[2..HeaderEnd(s)] == s[2..HeaderEnd(s)];
  }
}
