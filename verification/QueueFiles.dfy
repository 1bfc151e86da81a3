/** The contents of queue files: whole frames, one after the other, and the byte
  * offsets between them. */
module QueueFiles {
  import opened Bytes
  import opened Varint
  import opened Wire
  import opened Framing
  import opened HekaStream

  /** No signer is configured for a queue, so no digest is ever computed. */
  const NoMac: Mac := (_, _, _) => []

  function FrameFor(msg: Blob): (f: seq<byte>)
    ensures |msg| + 3 <= |f| <= |msg| + 9
  {
    UnsignedOverhead(msg, NoMac);
    FrameShape(HeaderFor(msg, None, NoMac), msg);
    Frame(HeaderFor(msg, None, NoMac), msg)
  }

  /** A file that holds these messages. */
  function FileOf(ms: seq<Blob>): (s: seq<byte>) {
    if ms == [] then [] else FileOf(ms[..|ms| - 1]) + FrameFor(ms[|ms| - 1])
  }

  lemma FileOfSnoc(ms: seq<Blob>, m: Blob)
    ensures FileOf(ms + [m]) == FileOf(ms) + FrameFor(m)
  {
    assert (ms + [m])[..|ms|] == ms;
  }

  lemma {:induction false} FileOfConcat(a: seq<Blob>, b: seq<Blob>)
    ensures FileOf(a + b) == FileOf(a) + FileOf(b)
    decreases |b|
  {
    hide FrameFor;
    if b == [] {
      assert a + b == a;
    } else {
      var front, last := b[..|b| - 1], b[|b| - 1];
      FileOfConcat(a, front);
      FileOfSnoc(a + front, last);
      assert a + b == a + front + [last];
    }
  }

  /** The offset behind the first `k` messages. */
  function Boundary(ms: seq<Blob>, k: nat): nat
    requires k <= |ms|
  {
    |FileOf(ms[..k])|
  }

  /** What a reader sees from a boundary on: the frames still to come. */
  lemma FromBoundary(ms: seq<Blob>, k: nat)
    requires k <= |ms|
    ensures Boundary(ms, k) <= |FileOf(ms)|
    ensures FileOf(ms)[Boundary(ms, k)..] == FileOf(ms[k..])
  {
    hide FileOf;
    FileOfConcat(ms[..k], ms[k..]);
    assert ms[..k] + ms[k..] == ms;
    Drops(FileOf(ms[..k]), FileOf(ms[k..]));
  }

  lemma Drops(a: seq<byte>, b: seq<byte>)
    ensures |a| <= |a + b| && (a + b)[|a|..] == b
  {
  }

  lemma BoundaryNext(ms: seq<Blob>, k: nat)
    requires k < |ms|
    ensures Boundary(ms, k + 1) == Boundary(ms, k) + |FrameFor(ms[k])|
  {
    hide FrameFor;
    assert ms[..k + 1] == ms[..k] + [ms[k]];
    FileOfSnoc(ms[..k], ms[k]);
  }

  lemma {:induction false} BoundaryOrder(ms: seq<Blob>, j: nat, k: nat)
    requires j < k <= |ms|
    ensures Boundary(ms, j) < Boundary(ms, k)
    decreases k
  {
    hide Boundary;
    BoundaryNext(ms, k - 1);
    if j < k - 1 {
      BoundaryOrder(ms, j, k - 1);
    }
  }

  /** Appending to the file does not move its boundaries. */
  lemma BoundaryStable(ms: seq<Blob>, more: seq<Blob>, k: nat)
    requires k <= |ms|
    ensures Boundary(ms + more, k) == Boundary(ms, k)
  {
    assert (ms + more)[..k] == ms[..k];
  }

  /** The next frame in a file is found, whole, and unframes to its message, whatever
    * header the splitter has cached. */
  lemma NextFrame(ms: seq<Blob>, header: Header, maxMessage: nat)
    requires ms != [] && |ms[0]| <= maxMessage < TWO32
    ensures Agrees(header, FileOf(ms), maxMessage)
    ensures FindFrame(FileOf(ms), maxMessage) == (|FrameFor(ms[0])|, FrameFor(ms[0]))
    ensures |FrameFor(ms[0])| >= 2 && HeaderEnd(FrameFor(ms[0])) <= |FrameFor(ms[0])|
    ensures FrameFor(ms[0])[HeaderEnd(FrameFor(ms[0]))..] == ms[0]
  {
    hide Frame, FindFrame, Stale, Agrees;
    var m := ms[0];
    var h := HeaderFor(m, None, NoMac);
    HeaderUpper(m, NoMac);
    FrameShape(h, m);
    ModSmall(|m|, TWO32);
    FileOfConcat([m], ms[1..]);
    assert [m] + ms[1..] == ms;
    FileOfSnoc([], m);
    assert [] + [m] == [m];
    var rest := FileOf(ms[1..]);
    NoSeparator();
    FrameFound([], h, m, rest, maxMessage);
    assert [] + (FrameFor(m) + rest) == FileOf(ms);
    FrameFresh(header, [], h, m, rest);
    AgreesIffFresh(header, FileOf(ms), maxMessage);
  }

  lemma NoSeparator()
    ensures IndexByte([], RECORD_SEPARATOR) == -1
  {
  }
}
