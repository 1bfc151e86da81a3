/** The splitters: how each finds the next record in a buffer, and what a whole
  * stream splits into.  Null, token and Heka framing. */
module Splitters {
  import opened Bytes
  import opened Varint
  import opened Wire
  import opened Framing
  import opened HekaStream

  datatype Splitter =
    | NullSplitter
    | TokenSplitter(delimiter: byte, count: nat)
    | HekaSplitter(maxMessage: nat)

  /** The end of the `count`-th delimiter in `s` (0 asks for one, as 1 does). */
  function TokenEnd(s: seq<byte>, d: byte, count: nat): (r: Option<nat>)
    ensures r.Some? ==> 1 <= r.value <= |s|
  {
    var i := IndexByte(s, d);
    if i == -1 then None
    else if count <= 1 then Some(i + 1)
    else
      var r := TokenEnd(s[i + 1..], d, count - 1);
      if r.None? then None else Some(i + 1 + r.value)
  }

  function CountOf(s: seq<byte>, d: byte): nat {
    if s == [] then 0 else (if s[0] == d then 1 else 0) + CountOf(s[1..], d)
  }

  /** A record ends with a delimiter, and is the shortest with as many as asked for. */
  lemma {:induction false} TokenEndIff(s: seq<byte>, d: byte, count: nat, n: nat)
    ensures TokenEnd(s, d, count) == Some(n) <==>
              1 <= n <= |s| && s[n - 1] == d && CountOf(s[..n], d) == if count == 0 then 1 else count
    decreases |s|
  {
    hide IndexByte, TokenEnd, CountOf;
    IndexByteFirst(s, d);
    var i := IndexByte(s, d);
    if i == -1 {
      TokenNone(s, d, count);
      if 1 <= n <= |s| {
        CountNone(s[..n], d);
      }
    } else {
      assert s[0..] == s;
      TokenNext(s, d, 0, count, i);
      if n <= i {
        CountNone(s[..n], d);
      } else if n <= |s| {
        CountFrom(s[..n], d, i);
        assert s[..n][i + 1..] == s[i + 1..][..n - i - 1];
        CountEnds(s[i + 1..][..n - i - 1], d);
        if count > 1 {
          TokenEndIff(s[i + 1..], d, count - 1, n - i - 1);
        }
      }
    }
  }

  lemma {:induction false} CountNone(s: seq<byte>, d: byte)
    requires forall k :: 0 <= k < |s| ==> s[k] != d
    ensures CountOf(s, d) == 0
  {
    if s != [] {
      CountNone(s[1..], d);
    }
  }

  lemma {:induction false} CountFrom(s: seq<byte>, d: byte, i: nat)
    requires i < |s| && s[i] == d && forall k :: 0 <= k < i ==> s[k] != d
    ensures CountOf(s, d) == 1 + CountOf(s[i + 1..], d)
  {
    if i > 0 {
      CountFrom(s[1..], d, i - 1);
      assert s[1..][i..] == s[i + 1..];
    }
  }

  lemma {:induction false} CountEnds(s: seq<byte>, d: byte)
    ensures if s == [] then CountOf(s, d) == 0 else s[|s| - 1] == d ==> CountOf(s, d) > 0
  {
    if |s| > 1 {
      CountEnds(s[1..], d);
    }
  }

  lemma TokenNext(buf: seq<byte>, d: byte, at: nat, count: nat, n: nat)
    requires at <= |buf| && n == IndexByte(buf[at..], d)
    ensures at + n + 1 <= |buf|
    ensures TokenEnd(buf[at..], d, count)
            == if count <= 1 then Some(n + 1)
               else var r := TokenEnd(buf[at + n + 1..], d, count - 1);
                    if r.None? then None else Some(n + 1 + r.value)
  {
    hide IndexByte;
    assert buf[at..][n + 1..] == buf[at + n + 1..];
  }

  lemma TokenNone(s: seq<byte>, d: byte, count: nat)
    requires IndexByte(s, d) == -1
    ensures TokenEnd(s, d, count) == None
  {
  }

  /** TokenSplitter.FindRecord. */
  method FindTokens(buf: seq<byte>, delimiter: byte, count: nat) returns (bytesRead: nat, record: seq<byte>)
    ensures (bytesRead, record) == Find(TokenSplitter(delimiter, count), buf)
  {
    hide IndexByte, FindFrame, TokenEnd;
    var n := IndexByte(buf, delimiter);
    if n == -1 {
      TokenNone(buf, delimiter, count);
      return 0, [];
    }
    assert buf[0..] == buf;
    TokenNext(buf, delimiter, 0, count, n);
    bytesRead := n + 1;
    if count > 1 {
      for i := 1 to count
        invariant 1 <= bytesRead <= |buf|
        invariant TokenEnd(buf, delimiter, count)
                  == if i == count then Some(bytesRead)
                     else var r := TokenEnd(buf[bytesRead..], delimiter, count - i);
                          if r.None? then None else Some(bytesRead + r.value)
      {
        n := IndexByte(buf[bytesRead..], delimiter);
        if n == -1 {
          TokenNone(buf[bytesRead..], delimiter, count - i);
          return 0, [];
        }
        TokenNext(buf, delimiter, bytesRead, count - i, n);
        bytesRead := bytesRead + n + 1;
      }
    }
    return bytesRead, buf[..bytesRead];
  }

  /** FindRecord: the bytes consumed and the record, empty when there is none. */
  function Find(sp: Splitter, buf: seq<byte>): (r: (nat, seq<byte>))
    ensures r.0 <= |buf| && |r.1| <= r.0
  {
    match sp
    case NullSplitter => (|buf|, buf)
    case TokenSplitter(d, count) =>
      var end := TokenEnd(buf, d, count);
      if end.None? then (0, []) else (end.value, buf[..end.value])
    case HekaSplitter(maxMessage) =>
      FrameBounds(buf, maxMessage);
      FindFrame(buf, maxMessage)
  }

  /** What a whole stream splits into, and what is left at its end. */
  function Records(sp: Splitter, s: seq<byte>): seq<seq<byte>>
    decreases |s|
  {
    var r := Find(sp, s);
    if r.1 == [] then [] else [r.1] + Records(sp, s[r.0..])
  }

  function Tail(sp: Splitter, s: seq<byte>): seq<byte>
    decreases |s|
  {
    var r := Find(sp, s);
    if r.1 == [] then s[r.0..] else Tail(sp, s[r.0..])
  }

  // ------------------------------------------------ independence of chunking

  lemma {:induction false} TokenStays(s: seq<byte>, t: seq<byte>, d: byte, count: nat)
    requires TokenEnd(s, d, count).Some?
    ensures TokenEnd(s + t, d, count) == TokenEnd(s, d, count)
  {
    IndexGrows(s, t, d);
    if count > 1 {
      var i := IndexByte(s, d);
      assert (s + t)[i + 1..] == s[i + 1..] + t;
      TokenStays(s[i + 1..], t, d, count - 1);
    }
  }

  /** A record found in a buffer is the record of any longer buffer. */
  lemma FindStays(sp: Splitter, s: seq<byte>, t: seq<byte>)
    requires !sp.NullSplitter? && Find(sp, s).1 != []
    ensures Find(sp, s + t) == Find(sp, s)
  {
    hide FindFrame;
    hide TokenEnd;
    match sp
    case TokenSplitter(d, count) =>
      TokenStays(s, t, d, count);
      var end := TokenEnd(s, d, count).value;
      assert (s + t)[..end] == s[..end];
    case HekaSplitter(maxMessage) =>
      FoundStays(s, t, maxMessage);
  }

  /** A search that found nothing can go on from where it stopped. */
  lemma FindResumes(sp: Splitter, s: seq<byte>, t: seq<byte>)
    requires !sp.NullSplitter? && Find(sp, s).1 == []
    ensures var n := Find(sp, s).0; var r := Find(sp, s[n..] + t);
            Find(sp, s + t) == (n + r.0, r.1)
  {
    hide FindFrame;
    hide TokenEnd;
    match sp
    case TokenSplitter(d, count) =>
      assert Find(sp, s).0 == 0 && s[0..] == s;
    case HekaSplitter(maxMessage) =>
      SearchResumes(s, t, maxMessage);
  }

  /** What has been searched in vain holds nothing at its new start either. */
  lemma FindSettled(sp: Splitter, s: seq<byte>)
    requires !sp.NullSplitter? && Find(sp, s).1 == []
    ensures Find(sp, s[Find(sp, s).0..]) == (0, [])
  {
    FindResumes(sp, s, []);
    var n := Find(sp, s).0;
    assert s + [] == s && s[n..] + [] == s[n..];
  }

  /** The smallest buffer in which a header is sure to be whole. */
  function HeaderRoom(sp: Splitter): nat {
    if sp.HekaSplitter? then HEADER_FRAMING_SIZE + MAX_HEADER_SIZE else 0
  }

  /** A search stuck at its first byte over `s` waits for a record longer than `s`
    * or for the rest of an endless tail. */
  lemma StallIsLong(sp: Splitter, s: seq<byte>, t: seq<byte>)
    requires !sp.NullSplitter? && Find(sp, s) == (0, []) && |s| >= HeaderRoom(sp)
    ensures Find(sp, s + t) == (0, []) || |Find(sp, s + t).1| == Find(sp, s + t).0 > |s|
  {
    match sp
    case TokenSplitter(d, count) =>
      var end := TokenEnd(s + t, d, count);
      if end.Some? && end.value <= |s| {
        TokenShort(s, t, d, count);
      }
    case HekaSplitter(maxMessage) =>
      StallMeansLong(s, t, maxMessage);
  }

  lemma {:induction false} TokenShort(s: seq<byte>, t: seq<byte>, d: byte, count: nat)
    requires TokenEnd(s + t, d, count).Some? && TokenEnd(s + t, d, count).value <= |s|
    ensures TokenEnd(s, d, count) == TokenEnd(s + t, d, count)
  {
    IndexGrows(s, t, d);
    var i := IndexByte(s + t, d);
    if count > 1 {
      assert (s + t)[i + 1..] == s[i + 1..] + t;
      TokenShort(s[i + 1..], t, d, count - 1);
    }
  }

  /** Taking a record off the front of a stream, of which only `s` is in view. */
  lemma TakeRecord(sp: Splitter, s: seq<byte>, t: seq<byte>)
    requires !sp.NullSplitter? && Find(sp, s).1 != []
    ensures var r := Find(sp, s);
            && Records(sp, s + t) == [r.1] + Records(sp, s[r.0..] + t)
            && Tail(sp, s + t) == Tail(sp, s[r.0..] + t)
  {
    hide Find;
    FindStays(sp, s, t);
    var n := Find(sp, s).0;
    assert (s + t)[n..] == s[n..] + t;
  }

  /** Dropping what a vain search stepped over changes nothing. */
  lemma StepOver(sp: Splitter, s: seq<byte>, t: seq<byte>)
    requires !sp.NullSplitter? && Find(sp, s).1 == []
    ensures var n := Find(sp, s).0;
            && Records(sp, s + t) == Records(sp, s[n..] + t)
            && Tail(sp, s + t) == Tail(sp, s[n..] + t)
  {
    hide Find;
    FindResumes(sp, s, t);
    var n := Find(sp, s).0;
    var m := Find(sp, s[n..] + t).0;
    assert (s + t)[n + m..] == (s[n..] + t)[m..];
  }

  // ------------------------------------------------------ the cached header

  /** FindRecord of any splitter, with the header the framing splitter has cached. */
  function SearchBy(sp: Splitter, header: Header, buf: seq<byte>): (r: (nat, seq<byte>, Header))
    ensures r.0 <= |buf| && |r.1| <= r.0
  {
    if sp.HekaSplitter? then
      SearchBounds(header, buf, sp.maxMessage);
      Search(header, buf, sp.maxMessage)
    else
      var r := Find(sp, buf);
      (r.0, r.1, header)
  }

  /** No cached length is about to be applied to something that is not a header. */
  predicate Fresh(sp: Splitter, header: Header, s: seq<byte>) {
    sp.HekaSplitter? ==> !Stale(header, s)
  }

  lemma SearchAgrees(sp: Splitter, header: Header, s: seq<byte>)
    ensures var r := SearchBy(sp, header, s); (r.0, r.1) == Find(sp, s) <==> Fresh(sp, header, s)
  {
    hide Search, FindFrame, Stale, TokenEnd;
    if sp.HekaSplitter? {
      AgreesIffFresh(header, s, sp.maxMessage);
    }
  }

  lemma KeepsFresh(sp: Splitter, header: Header, s: seq<byte>, t: seq<byte>)
    requires Fresh(sp, header, s + t)
    ensures Fresh(sp, header, s)
    ensures var r := SearchBy(sp, header, s); Fresh(sp, r.2, s[r.0..] + t)
  {
    hide Search, Stale, Find;
    if sp.HekaSplitter? {
      StaysFresh(header, s, t, sp.maxMessage);
    }
  }

  /** What repeated calls make of a stream from a given cached header on: the records,
    * what is left at the end, and the header cached then. */
  function RecordsFrom(sp: Splitter, header: Header, s: seq<byte>): seq<seq<byte>>
    decreases |s|
  {
    var r := SearchBy(sp, header, s);
    if r.1 == [] then [] else [r.1] + RecordsFrom(sp, r.2, s[r.0..])
  }

  function TailFrom(sp: Splitter, header: Header, s: seq<byte>): seq<byte>
    decreases |s|
  {
    var r := SearchBy(sp, header, s);
    if r.1 == [] then s[r.0..] else TailFrom(sp, r.2, s[r.0..])
  }

  function HeaderAfter(sp: Splitter, header: Header, s: seq<byte>): Header
    decreases |s|
  {
    var r := SearchBy(sp, header, s);
    if r.1 == [] then r.2 else HeaderAfter(sp, r.2, s[r.0..])
  }

  /** With a fresh header they are those of the stream itself. */
  lemma {:induction false} FreshRecords(sp: Splitter, header: Header, s: seq<byte>)
    requires Fresh(sp, header, s)
    ensures RecordsFrom(sp, header, s) == Records(sp, s) && TailFrom(sp, header, s) == Tail(sp, s)
    decreases |s|
  {
    hide Find, SearchBy, Fresh;
    SearchAgrees(sp, header, s);
    var r := SearchBy(sp, header, s);
    if r.1 != [] {
      assert s + [] == s && s[r.0..] + [] == s[r.0..];
      KeepsFresh(sp, header, s, []);
      FreshRecords(sp, r.2, s[r.0..]);
    }
  }

  // ------------------------------------------------------ a stream of frames

  /** One message on the wire: garbage without a record separator, then a frame. */
  datatype Piece = Piece(garbage: seq<byte>, msg: Blob, msc: Option<Signing>)

  predicate Sendable(p: Piece, mac: Mac, maxMessage: nat) {
    && IndexByte(p.garbage, RECORD_SEPARATOR) == -1
    && |p.msg| < TWO32 && Fits(p.msg, p.msc, mac, maxMessage)
  }

  function FrameOf(p: Piece, mac: Mac, maxMessage: nat): seq<byte>
    requires Sendable(p, mac, maxMessage)
  {
    Frame(HeaderFor(p.msg, p.msc, mac), p.msg)
  }

  function Wired(ps: seq<Piece>, last: seq<byte>, mac: Mac, maxMessage: nat): seq<byte>
    requires forall p :: p in ps ==> Sendable(p, mac, maxMessage)
  {
    if ps == [] then last
    else ps[0].garbage + (FrameOf(ps[0], mac, maxMessage) + Wired(ps[1..], last, mac, maxMessage))
  }

  function FramesOf(ps: seq<Piece>, mac: Mac, maxMessage: nat): seq<seq<byte>>
    requires forall p :: p in ps ==> Sendable(p, mac, maxMessage)
  {
    if ps == [] then [] else [FrameOf(ps[0], mac, maxMessage)] + FramesOf(ps[1..], mac, maxMessage)
  }

  /** Every list of messages, signed or not, with any separator-free garbage
    * before, between and after the frames, splits into exactly those frames. */
  lemma {:induction false} FramesComeBack(ps: seq<Piece>, last: seq<byte>, mac: Mac, maxMessage: nat)
    requires forall p :: p in ps ==> Sendable(p, mac, maxMessage)
    requires IndexByte(last, RECORD_SEPARATOR) == -1
    ensures Records(HekaSplitter(maxMessage), Wired(ps, last, mac, maxMessage)) == FramesOf(ps, mac, maxMessage)
    ensures Tail(HekaSplitter(maxMessage), Wired(ps, last, mac, maxMessage)) == []
  {
    hide IndexByte;
    hide TokenEnd;
    hide FindFrame;
    var sp := HekaSplitter(maxMessage);
    var s := Wired(ps, last, mac, maxMessage);
    if ps == [] {
      FindNone(last, maxMessage);
    } else {
      hide Frame;
      var p := ps[0];
      var h := HeaderFor(p.msg, p.msc, mac);
      var f := FrameOf(p, mac, maxMessage);
      var rest := Wired(ps[1..], last, mac, maxMessage);
      ModSmall(|p.msg|, TWO32);
      assert Fits(p.msg, p.msc, mac, maxMessage);
      FrameFound(p.garbage, h, p.msg, rest, maxMessage);
      FrameShape(h, p.msg);
      hide Records, Tail, Find;
      FoundFirst(maxMessage, s, |p.garbage| + |f|, f);
      Behind(p.garbage, f, rest);
      FramesComeBack(ps[1..], last, mac, maxMessage);
    }
  }

  lemma FoundFirst(maxMessage: nat, s: seq<byte>, n: nat, f: seq<byte>)
    requires FindFrame(s, maxMessage) == (n, f) && f != [] && n <= |s|
    ensures var sp := HekaSplitter(maxMessage);
            Records(sp, s) == [f] + Records(sp, s[n..]) && Tail(sp, s) == Tail(sp, s[n..])
  {
    hide FindFrame, TokenEnd;
  }

  lemma Behind(a: seq<byte>, b: seq<byte>, c: seq<byte>)
    ensures (a + (b + c))[|a| + |b|..] == c
  {
  }

  /** Such a stream is fresh for any cached header. */
  lemma FramesFresh(ps: seq<Piece>, last: seq<byte>, header: Header, mac: Mac, maxMessage: nat)
    requires forall p :: p in ps ==> Sendable(p, mac, maxMessage)
    requires IndexByte(last, RECORD_SEPARATOR) == -1
    ensures Fresh(HekaSplitter(maxMessage), header, Wired(ps, last, mac, maxMessage))
  {
    hide IndexByte;
    if ps != [] {
      var p := ps[0];
      assert p in ps;
      FrameFresh(header, p.garbage, HeaderFor(p.msg, p.msc, mac), p.msg, Wired(ps[1..], last, mac, maxMessage));
    }
  }
}
