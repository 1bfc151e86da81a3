/** Framing a message (client/encoders.go) and taking it out of its frame again
  * (HekaFramingSplitter.UnframeRecord), signed or not.  HMAC is a parameter:
  * any function of the hash choice, the key and the message. */
module HekaStream {
  import opened Bytes
  import opened Varint
  import opened Wire
  import opened WireCodec
  import opened Framing
  import Decimal

  /** MessageSigningConfig; `sha1` says whether its Hash is "sha1". */
  datatype Signing = Signing(name: Blob, sha1: bool, key: Blob, version: uint32)

  /** hmac.New(sha1.New or md5.New, key) over the message. */
  type Mac = (bool, Blob, Blob) -> Blob

  const MD5: int32 := 0
  const SHA1: int32 := 1

  /** The header CreateHekaStream builds; the length is cast to uint32. */
  function HeaderFor(msg: Blob, msc: Option<Signing>, mac: Mac): Header {
    var length := Some(|msg| % TWO32);
    match msc
    case None => EmptyHeader.(messageLength := length)
    case Some(sc) =>
      Header(length, if sc.sha1 then Some(SHA1) else None, Some(sc.name), Some(sc.version),
             Some(mac(sc.sha1, sc.key, msg)))
  }

  predicate Fits(msg: Blob, msc: Option<Signing>, mac: Mac, maxMessage: nat) {
    |msg| % TWO32 <= maxMessage && |EncodeHeader(HeaderFor(msg, msc, mac))| <= MAX_HEADER_SIZE
  }

  function Frame(h: Header, msg: Blob): seq<byte>
    requires |EncodeHeader(h)| <= MAX_HEADER_SIZE
  {
    [RECORD_SEPARATOR, |EncodeHeader(h)|] + EncodeHeader(h) + [UNIT_SEPARATOR] + msg
  }

  method HeaderSize(h: Header) returns (n: nat)
    requires |EncodeHeader(h)| < TWO63
    ensures n == |EncodeHeader(h)|
  {
    hide EncodeHeader;
    HeaderLength(h);
    var length := OptWordSize(h.messageLength, TWO64);
    var hash := OptWordSize(h.hashFunction, TWO64);
    var signer := OptBlobSize(h.signer);
    var version := OptWordSize(h.keyVersion, TWO64);
    var hmac := OptBlobSize(h.hmac);
    n := length + hash + signer + version + hmac;
  }

  lemma HeaderLength(h: Header)
    ensures var p := HeaderParts(h); |EncodeHeader(h)| == |p[0]| + |p[1]| + |p[2]| + |p[3]| + |p[4]|
  {
    var ps := HeaderParts(h);
    forall k: nat | k < 5 ensures Flatten(ps[k..]) == ps[k] + Flatten(ps[k + 1..]) {
      FlattenTail(ps, k);
    }
    assert ps[0..] == ps && ps[5..] == [];
  }

  /** CreateHekaStream, writing over `outBytes` when it is large enough.  It
    * refuses a message or a header over its limit and otherwise leaves the frame. */
  method CreateHekaStream(msgBytes: Blob, outBytes: array<byte>, msc: Option<Signing>, mac: Mac, maxMessage: nat)
    returns (ok: bool, out: array<byte>, n: nat)
    requires |EncodeHeader(HeaderFor(msgBytes, msc, mac))| < TWO63
    modifies outBytes
    ensures ok <==> Fits(msgBytes, msc, mac, maxMessage)
    ensures ok ==> n <= out.Length && out[..n] == Frame(HeaderFor(msgBytes, msc, mac), msgBytes)
    ensures out == outBytes || fresh(out)
    ensures !ok ==> outBytes[..] == old(outBytes[..])
  {
    hide EncodeHeader;
    var msgSize := |msgBytes| % TWO32;
    if msgSize > maxMessage {
      return false, outBytes, 0;
    }
    var h := HeaderFor(msgBytes, msc, mac);
    var headerSize := HeaderSize(h);
    if headerSize > MAX_HEADER_SIZE {
      return false, outBytes, 0;
    }
    n := HEADER_FRAMING_SIZE + headerSize + |msgBytes|;
    out := outBytes;
    if outBytes.Length < n {
      out := new byte[n];
    }
    WriteFrame(out, h, headerSize, msgBytes);
    ok := true;
  }

  /** The stores at the end of CreateHekaStream. */
  method WriteFrame(out: array<byte>, h: Header, headerSize: nat, msgBytes: Blob)
    requires headerSize == |EncodeHeader(h)| <= MAX_HEADER_SIZE
    requires HEADER_FRAMING_SIZE + headerSize + |msgBytes| <= out.Length
    modifies out
    ensures out[..HEADER_FRAMING_SIZE + headerSize + |msgBytes|] == Frame(h, msgBytes)
  {
    hide EncodeHeader;
    var i := PutByte(out, 0, RECORD_SEPARATOR);
    i := PutByte(out, i, headerSize);
    ghost var head := out[..i];
    assert head == [RECORD_SEPARATOR, headerSize];
    i := MarshalHeaderTo(out, i, h);
    i := PutByte(out, i, UNIT_SEPARATOR);
    i := Copy(out, i, msgBytes);
  }

  // ---------------------------------------------------------------- unframing

  /** The key under which a signer is registered: Sprintf("%s_%d"). */
  function SignerKey(name: Blob, version: nat): Blob {
    name + [95] + Decimal.Digits(version)
  }

  /** Every version of a signer has a key of its own. */
  lemma KeysDiffer(name: Blob, version: nat, version': nat)
    ensures SignerKey(name, version) == SignerKey(name, version') <==> version == version'
  {
    var s, s' := SignerKey(name, version), SignerKey(name, version');
    if s == s' {
      Decimal.ValueOfDigits(version);
      Decimal.ValueOfDigits(version');
      assert s[|name| + 1..] == Decimal.Digits(version) && s'[|name| + 1..] == Decimal.Digits(version');
    }
  }

  /** authenticateMessage: unsigned, or signed by a registered signer.  A hash function
    * that is neither MD5 nor SHA-1 leaves no hash to write to, which is a panic. */
  datatype Verdict = Authentic | Forged | Panic

  function Authenticate(signers: map<Blob, Blob>, header: Header, msg: Blob, mac: Mac): Verdict {
    if header.hmac.None? then Authentic
    else
      var name := if header.signer.Some? then header.signer.value else [];
      var version := if header.keyVersion.Some? then header.keyVersion.value else 0;
      var hash := if header.hashFunction.Some? then header.hashFunction.value else MD5;
      var key := SignerKey(name, version);
      if key !in signers then Forged
      else if hash != MD5 && hash != SHA1 then Panic
      else if header.hmac.value == mac(hash == SHA1, signers[key], msg) then Authentic
      else Forged
  }

  datatype Unframed = Rejected | Crashed | Accepted(message: Blob, signer: Option<Blob>)

  /** UnframeRecord: the message and, when a header was checked, its signer. */
  function Unframe(framed: seq<byte>, signers: map<Blob, Blob>, skipAuth: bool, mac: Mac, maxMessage: nat): Unframed
    requires |framed| >= 2 && HeaderEnd(framed) <= |framed|
  {
    var headerLen := HeaderEnd(framed);
    var unframed := framed[headerLen..];
    if skipAuth || headerLen <= UUID_SIZE then Accepted(unframed, None)
    else
      var d := DecodeInto(framed[2..headerLen], EmptyHeader, maxMessage);
      if !d.0 then Rejected
      else
        match Authenticate(signers, d.1, unframed, mac)
        case Authentic => Accepted(unframed, Some(if d.1.signer.Some? then d.1.signer.value else []))
        case Forged => Rejected
        case Panic => Crashed
  }

  /** Only a header with another hash function, and a registered signer, panics; those
    * CreateHekaStream writes have none. */
  lemma PanicIffOddHash(signers: map<Blob, Blob>, header: Header, msg: Blob, mac: Mac)
    ensures Authenticate(signers, header, msg, mac) == Panic <==>
              && header.hmac.Some? && header.hashFunction.Some? && header.hashFunction.value !in {MD5, SHA1}
              && SignerKey(if header.signer.Some? then header.signer.value else [],
                           if header.keyVersion.Some? then header.keyVersion.value else 0) in signers
    ensures forall msc: Option<Signing> :: Authenticate(signers, HeaderFor(msg, msc, mac), msg, mac) != Panic
  {
  }

  lemma FrameShape(h: Header, msg: Blob)
    requires |EncodeHeader(h)| <= MAX_HEADER_SIZE
    ensures var f := Frame(h, msg);
            && |f| == HEADER_FRAMING_SIZE + |EncodeHeader(h)| + |msg|
            && HeaderEnd(f) == HEADER_FRAMING_SIZE + |EncodeHeader(h)|
            && f[0] == RECORD_SEPARATOR
            && f[2..HeaderEnd(f)] == EncodeHeader(h) + [UNIT_SEPARATOR]
            && f[HeaderEnd(f)..] == msg
  {
    hide EncodeHeader;
  }

  /** A header that does not decode, but whose length came before what is wrong with it,
    * announces that length all the same, and past the limit too. */
  lemma BrokenHeader(n: uint32, maxMessage: nat)
    ensures var block := [0x08] + Encode(n) + [0x1d, UNIT_SEPARATOR];
            && DecodeInto(block, EmptyHeader, maxMessage) == (false, EmptyHeader.(messageLength := Some(n)))
            && Announced(block, maxMessage) == Some(n)
  {
    hide DecodeHeaderFrom, Encode;
    var block := [0x08] + Encode(n) + [0x1d, UNIT_SEPARATOR];
    var h := EmptyHeader.(messageLength := Some(n));
    ModSmall(n, TWO64);
    ModSmall(n, TWO32);
    HeaderWord(1, Some(n), [0x1d], EmptyHeader);
    assert block[..|block| - 1] == OptWord(1, Some(n), TWO64) + [0x1d];
    WrongType(h);
  }

  lemma WrongType(h: Header)
    ensures DecodeHeaderFrom([0x1d], h) == Outcome(h, false)
  {
    ReadTag(3, 5);
    assert Decode([0x1d]) == Some((0x1d, 1));
  }

  /** A header that announces more than the limit is stepped over, whatever length is
    * cached: the search goes on behind its separator. */
  lemma OversizeSteppedOver(cached: Header, h: Header, msg: Blob, rest: seq<byte>, maxMessage: nat)
    requires |EncodeHeader(h)| <= MAX_HEADER_SIZE && LengthOf(h) > maxMessage
    ensures var s := Frame(h, msg) + rest;
            && (var r := FindFrame(s[1..], maxMessage); FindFrame(s, maxMessage) == (1 + r.0, r.1))
            && (var r := Search(EmptyHeader, s[1..], maxMessage);
                Search(cached, s, maxMessage) == (1 + r.0, r.1, r.2))
  {
    hide EncodeHeader, FindFrame, Frame, Search, ProbeAt, ProbeBy;
    var f := Frame(h, msg);
    var s := f + rest;
    FrameShape(h, msg);
    OversizeProbed(cached, h, msg, rest, maxMessage);
    IndexByteAt(s, RECORD_SEPARATOR, 0);
    assert s[0..] == s;
    FindAt(s, 0, maxMessage);
    SearchAt(cached, s, 0, maxMessage);
  }

  lemma OversizeProbed(cached: Header, h: Header, msg: Blob, rest: seq<byte>, maxMessage: nat)
    requires |EncodeHeader(h)| <= MAX_HEADER_SIZE && LengthOf(h) > maxMessage
    ensures ProbeAt(Frame(h, msg) + rest, maxMessage) == Skip
    ensures ProbeBy(cached, Frame(h, msg) + rest, maxMessage) == (Skip, EmptyHeader)
  {
    hide EncodeHeader, DecodeHeaderFrom, Frame;
    var s := Frame(h, msg) + rest;
    FrameShape(h, msg);
    HeaderRoundTrip(h);
    var block := EncodeHeader(h) + [UNIT_SEPARATOR];
    assert block[..|block| - 1] == EncodeHeader(h);
    assert HeaderEnd(s) == HeaderEnd(Frame(h, msg)) && s[2..HeaderEnd(s)] == block;
  }

  /** Without authentication every record gives its message, signed or not, and no
    * signer. */
  lemma SkipAuthUnframes(h: Header, msg: Blob, signers: map<Blob, Blob>, mac: Mac, maxMessage: nat)
    requires |EncodeHeader(h)| <= MAX_HEADER_SIZE
    ensures |Frame(h, msg)| >= 2 && HeaderEnd(Frame(h, msg)) <= |Frame(h, msg)|
    ensures Unframe(Frame(h, msg), signers, true, mac, maxMessage) == Accepted(msg, None)
  {
    FrameShape(h, msg);
  }

  lemma DecodeFrameHeader(h: Header, maxMessage: nat)
    requires |EncodeHeader(h)| <= MAX_HEADER_SIZE
    requires LengthOf(h) <= maxMessage
    ensures DecodeInto(EncodeHeader(h) + [UNIT_SEPARATOR], EmptyHeader, maxMessage) == (true, h)
    ensures Announced(EncodeHeader(h) + [UNIT_SEPARATOR], maxMessage) == Some(LengthOf(h))
  {
    hide EncodeHeader;
    hide DecodeHeaderFrom;
    HeaderRoundTrip(h);
    var s := EncodeHeader(h) + [UNIT_SEPARATOR];
    assert s[..|s| - 1] == EncodeHeader(h);
  }

  /** A frame is found behind any garbage that holds no record separator, and
    * whatever follows it. */
  lemma FrameFound(garbage: seq<byte>, h: Header, msg: Blob, rest: seq<byte>, maxMessage: nat)
    requires IndexByte(garbage, RECORD_SEPARATOR) == -1
    requires |EncodeHeader(h)| <= MAX_HEADER_SIZE
    requires h.messageLength == Some(|msg|) && |msg| <= maxMessage
    ensures FindFrame(garbage + (Frame(h, msg) + rest), maxMessage)
            == (|garbage| + |Frame(h, msg)|, Frame(h, msg))
  {
    hide EncodeHeader;
    hide Frame;
    hide FindFrame;
    var f := Frame(h, msg);
    FrameShape(h, msg);
    DecodeFrameHeader(h, maxMessage);
    assert ProbeAt(f, maxMessage) == Whole(|f|) by { hide Announced; }
    ProbeGrows(f, rest, maxMessage);
    IndexByteAt(f + rest, RECORD_SEPARATOR, 0);
    assert (f + rest)[0..] == f + rest && (f + rest)[0..|f|] == f;
    FindAt(f + rest, 0, maxMessage);
    SkipPrefix(garbage, f + rest, maxMessage);
  }

  /** A frame behind such garbage is judged afresh, whatever length is cached. */
  lemma FrameFresh(header: Header, garbage: seq<byte>, h: Header, msg: Blob, rest: seq<byte>)
    requires IndexByte(garbage, RECORD_SEPARATOR) == -1
    requires |EncodeHeader(h)| <= MAX_HEADER_SIZE
    ensures !Stale(header, garbage + (Frame(h, msg) + rest))
  {
    hide EncodeHeader, Frame, IndexByte;
    var f := Frame(h, msg);
    FrameShape(h, msg);
    assert f[HeaderEnd(f) - 1] == f[2..HeaderEnd(f)][HeaderEnd(f) - 3] == UNIT_SEPARATOR;
    IndexByteAt(f + rest, RECORD_SEPARATOR, 0);
    IndexGrows(garbage, f + rest, RECORD_SEPARATOR);
    assert (garbage + (f + rest))[|garbage|..] == f + rest;
  }

  lemma HeaderLower(msg: Blob, sc: Signing, mac: Mac)
    ensures |EncodeHeader(HeaderFor(msg, Some(sc), mac))| > |mac(sc.sha1, sc.key, msg)|
  {
    var h := HeaderFor(msg, Some(sc), mac);
    HeaderLength(h);
    assert HeaderParts(h)[4] == BlobRecord(6, mac(sc.sha1, sc.key, msg));
  }

  lemma HeaderUpper(msg: Blob, mac: Mac)
    ensures |EncodeHeader(HeaderFor(msg, None, mac))| <= 6
  {
    var h := HeaderFor(msg, None, mac);
    HeaderLength(h);
    ModSmall(|msg| % TWO32, TWO64);
    EncodeLength32(|msg| % TWO32);
  }

  /** The frame of an unsigned message adds at most nine bytes. */
  lemma UnsignedOverhead(msg: Blob, mac: Mac)
    ensures |EncodeHeader(HeaderFor(msg, None, mac))| <= MAX_HEADER_SIZE
    ensures |Frame(HeaderFor(msg, None, mac), msg)| <= |msg| + 9
  {
    HeaderUpper(msg, mac);
    FrameShape(HeaderFor(msg, None, mac), msg);
  }

  /** An unsigned message comes back as it went in, whoever is registered. */
  lemma UnframeUnsigned(msg: Blob, signers: map<Blob, Blob>, skipAuth: bool, mac: Mac, maxMessage: nat)
    requires Fits(msg, None, mac, maxMessage)
    ensures var f := Frame(HeaderFor(msg, None, mac), msg);
            Unframe(f, signers, skipAuth, mac, maxMessage) == Accepted(msg, None)
  {
    HeaderUpper(msg, mac);
    FrameShape(HeaderFor(msg, None, mac), msg);
  }

  /** A signed message comes back, with its signer's name, exactly when the key
    * registered under that name and version gives the same digest.  MD5 and SHA-1
    * digests have 16 and 20 bytes. */
  lemma UnframeSigned(msg: Blob, sc: Signing, signers: map<Blob, Blob>, mac: Mac, maxMessage: nat)
    requires Fits(msg, Some(sc), mac, maxMessage)
    requires |mac(sc.sha1, sc.key, msg)| >= 16
    ensures var f := Frame(HeaderFor(msg, Some(sc), mac), msg);
            var key := SignerKey(sc.name, sc.version);
            Unframe(f, signers, false, mac, maxMessage)
            == if key in signers && mac(sc.sha1, signers[key], msg) == mac(sc.sha1, sc.key, msg)
               then Accepted(msg, Some(sc.name)) else Rejected
  {
    hide EncodeHeader;
    hide DecodeInto;
    hide Frame;
    var h := HeaderFor(msg, Some(sc), mac);
    HeaderLower(msg, sc, mac);
    FrameShape(h, msg);
    DecodeFrameHeader(h, maxMessage);
  }
}
