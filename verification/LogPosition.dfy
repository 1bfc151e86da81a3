/** Where a log stream has got to: a seek position, a ring with the bytes before
  * it, and a hash of that ring by which the place is recognised again.
  *
  * The ring is kept here as its contents; RingBuffer.Ringbuf.Write shows that
  * writing `b` to a ring holding `r` leaves LastN(r + b, capacity).  SHA-1 is a
  * parameter, injective where that is needed. */
module LogPosition {
  import opened Bytes
  import opened RingBuffer

  const LINEBUFFERLEN: nat := 500

  type Name = string
  type Hash = seq<byte>
  type Sha1 = seq<byte> -> Hash

  datatype Position = Position(seek: nat, filename: Name, hash: Option<Hash>, ring: seq<byte>)

  /** LogstreamLocation.Reset. */
  const Start := Position(0, "", None, [])

  function Zeros(n: nat): (s: seq<byte>)
    ensures |s| == n
  {
    seq(n, _ => 0)
  }

  /** The ring as GenerateHash pads it. */
  function Padded(ring: seq<byte>): (s: seq<byte>)
    requires |ring| <= LINEBUFFERLEN
    ensures |s| == LINEBUFFERLEN
  {
    Zeros(LINEBUFFERLEN - |ring|) + ring
  }

  /** The 500 bytes before `seek`, taken as preceded by zeros. */
  function Window(file: seq<byte>, seek: nat): (s: seq<byte>)
    requires seek <= |file|
    ensures |s| == LINEBUFFERLEN
  {
    LastN(Zeros(LINEBUFFERLEN) + file[..seek], LINEBUFFERLEN)
  }

  function GenerateHash(p: Position, sha1: Sha1): Position
    requires |p.ring| <= LINEBUFFERLEN
  {
    p.(hash := Some(sha1(Padded(p.ring))))
  }

  lemma PaddedWrite(ring: seq<byte>, b: seq<byte>)
    requires |ring| <= LINEBUFFERLEN
    ensures Padded(LastN(ring + b, LINEBUFFERLEN)) == LastN(Padded(ring) + b, LINEBUFFERLEN)
  {
  }

  lemma WindowGrows(file: seq<byte>, seek: nat, n: nat)
    requires seek + n <= |file|
    ensures LastN(Window(file, seek) + file[seek..seek + n], LINEBUFFERLEN) == Window(file, seek + n)
  {
    LastOfLast(Zeros(LINEBUFFERLEN) + file[..seek], file[seek..seek + n], LINEBUFFERLEN);
    assert Zeros(LINEBUFFERLEN) + file[..seek] + file[seek..seek + n] == Zeros(LINEBUFFERLEN) + file[..seek + n];
  }

  /** The ring and the file agree: the invariant of an open stream. */
  predicate RingMatches(ring: seq<byte>, file: seq<byte>, seek: nat) {
    |ring| <= LINEBUFFERLEN && seek <= |file| && Padded(ring) == Window(file, seek)
  }

  /** Flushing the next `n` bytes of the file into the ring keeps them agreeing. */
  lemma FlushKeeps(ring: seq<byte>, file: seq<byte>, seek: nat, n: nat)
    requires RingMatches(ring, file, seek) && seek + n <= |file|
    ensures RingMatches(LastN(ring + file[seek..seek + n], LINEBUFFERLEN), file, seek + n)
  {
    PaddedWrite(ring, file[seek..seek + n]);
    WindowGrows(file, seek, n);
  }

  /** The file growing behind the position makes no difference. */
  lemma GrowthKeeps(ring: seq<byte>, file: seq<byte>, longer: seq<byte>, seek: nat)
    requires file <= longer && seek <= |file|
    ensures RingMatches(ring, file, seek) <==> RingMatches(ring, longer, seek)
  {
    SameWindow(file, longer, seek);
  }

  lemma SameWindow(file: seq<byte>, longer: seq<byte>, seek: nat)
    requires file <= longer && seek <= |file|
    ensures Window(file, seek) == Window(longer, seek)
  {
    assert file[..seek] == longer[..seek];
  }

  // ---------------------------------------------------------------- seeking

  /** The buffer SeekInFile fills and hashes, and how many bytes it read into it. */
  function SeekBuffer(file: seq<byte>, seek: nat): (r: (seq<byte>, nat)) {
    if seek >= LINEBUFFERLEN then
      var from := if seek - LINEBUFFERLEN <= |file| then seek - LINEBUFFERLEN else |file|;
      var n := if |file| - from <= LINEBUFFERLEN then |file| - from else LINEBUFFERLEN;
      (file[from..from + n] + Zeros(LINEBUFFERLEN - n), n)
    else
      var n := if |file| <= seek then |file| else seek;
      (Zeros(LINEBUFFERLEN - seek) + file[..n] + Zeros(seek - n), n)
  }

  /** SeekInFile: the position afterwards, its file then being read from `seek`;
    * None for ErrorCantSeekPosition. */
  function SeekInFile(file: seq<byte>, p: Position, sha1: Sha1): Option<Position> {
    if p.seek == 0 then Some(p)
    else
      var buf := SeekBuffer(file, p.seek);
      var expected := if p.seek >= LINEBUFFERLEN then LINEBUFFERLEN else p.seek;
      if buf.1 == expected && p.hash == Some(sha1(buf.0)) then
        Some(p.(ring := LastN(p.ring + buf.0, LINEBUFFERLEN)))
      else None
  }

  lemma SeekReadsWindow(file: seq<byte>, seek: nat)
    requires seek <= |file|
    ensures SeekBuffer(file, seek) == (Window(file, seek), if seek >= LINEBUFFERLEN then LINEBUFFERLEN else seek)
  {
    if seek >= LINEBUFFERLEN {
      assert Window(file, seek) == file[seek - LINEBUFFERLEN..seek] + Zeros(0);
    } else {
      assert Window(file, seek) == Zeros(LINEBUFFERLEN - seek) + file[..seek] + Zeros(0);
    }
  }

  lemma SeekShort(file: seq<byte>, seek: nat)
    requires seek > |file|
    ensures SeekBuffer(file, seek).1 < if seek >= LINEBUFFERLEN then LINEBUFFERLEN else seek
  {
  }

  ghost predicate Injective(sha1: Sha1) {
    forall a, b :: sha1(a) == sha1(b) ==> a == b
  }

  /** A place saved in one file is found again in another exactly when that file
    * reaches as far and has the same 500 bytes before it; the ring then matches
    * the file the place was found in. */
  lemma FoundAgain(saved: seq<byte>, p: Position, file: seq<byte>, ring: seq<byte>, sha1: Sha1)
    requires Injective(sha1) && |ring| <= LINEBUFFERLEN
    requires RingMatches(p.ring, saved, p.seek)
    ensures var r := SeekInFile(file, GenerateHash(p, sha1).(ring := ring), sha1);
            && (r.Some? <==> p.seek == 0 || (p.seek <= |file| && Window(file, p.seek) == Window(saved, p.seek)))
            && (r.Some? && p.seek > 0 ==> r.value.seek == p.seek && RingMatches(r.value.ring, file, p.seek))
  {
    if p.seek > |file| {
      SeekShort(file, p.seek);
    } else if p.seek > 0 {
      SeekReadsWindow(file, p.seek);
      LastOfWhole(ring, Window(file, p.seek));
    }
  }

  lemma LastOfWhole(ring: seq<byte>, w: seq<byte>)
    requires |w| == LINEBUFFERLEN
    ensures LastN(ring + w, LINEBUFFERLEN) == w && Padded(w) == w
  {
  }

  /** A file whose bytes up to the saved place are unchanged is accepted. */
  lemma UnchangedPrefixAccepted(saved: seq<byte>, p: Position, file: seq<byte>, ring: seq<byte>, sha1: Sha1)
    requires |ring| <= LINEBUFFERLEN && RingMatches(p.ring, saved, p.seek)
    requires p.seek <= |file| && file[..p.seek] == saved[..p.seek]
    requires p.seek == 0 ==> Padded(ring) == Zeros(LINEBUFFERLEN)
    ensures var r := SeekInFile(file, GenerateHash(p, sha1).(ring := ring), sha1);
            r.Some? && r.value.seek == p.seek && r.value.filename == p.filename
            && r.value.hash == GenerateHash(p, sha1).hash && RingMatches(r.value.ring, file, p.seek)
  {
    if p.seek == 0 {
      WindowAtStart(file);
    } else {
      SeekReadsWindow(file, p.seek);
      LastOfWhole(ring, Window(file, p.seek));
    }
  }

  lemma WindowAtStart(file: seq<byte>)
    ensures Window(file, 0) == Zeros(LINEBUFFERLEN)
  {
    assert Zeros(LINEBUFFERLEN) + file[..0] == Zeros(LINEBUFFERLEN);
  }

  /** SetToTail on a fresh location. */
  function SetToTail(filename: Name, file: seq<byte>, sha1: Sha1): Position {
    var from := if |file| < LINEBUFFERLEN then 0 else |file| - LINEBUFFERLEN;
    GenerateHash(Position(|file|, filename, None, LastN(file[from..], LINEBUFFERLEN)), sha1)
  }

  /** It stands at the end of the file, recognisable there later on. */
  lemma TailMatches(filename: Name, file: seq<byte>, sha1: Sha1)
    ensures var p := SetToTail(filename, file, sha1);
            p.seek == |file| && RingMatches(p.ring, file, |file|) && p == GenerateHash(p, sha1)
  {
    assert file[..|file|] == file;
  }
}
