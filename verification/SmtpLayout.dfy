/** The body of a mail: base64 in lines of at most 76 characters, written behind the
  * header into a reused buffer (section 6.8 of RFC 2045). */
module SmtpLayout {
  import opened Bytes

  const LINE_LENGTH: nat := 76
  const SOURCE_PER_LINE: nat := 57
  const CR: byte := 13
  const LF: byte := 10

  /** The base64 alphabet: A-Z, a-z, 0-9, + and /. */
  function Symbol(i: nat): (b: byte)
    requires i < 64
    ensures b != CR && b != LF
  {
    if i < 26 then 65 + i else if i < 52 then 97 + (i - 26) else if i < 62 then 48 + (i - 52)
    else if i == 62 then 43 else 47
  }

  /** Three bytes as four symbols. */
  function Quad(a: int, b: int, c: int): (q: seq<byte>)
    requires 0 <= a < 256 && 0 <= b < 256 && 0 <= c < 256
    ensures |q| == 4
  {
    [Symbol(a / 4), Symbol(a % 4 * 16 + b / 16), Symbol(b % 16 * 4 + c / 64), Symbol(c % 64)]
  }

  const PAD: byte := 61

  /** base64.StdEncoding. */
  function Encode64(s: seq<byte>): (r: seq<byte>)
    ensures |r| == EncodedLen(|s|)
  {
    if |s| == 0 then []
    else if |s| == 1 then Quad(s[0], 0, 0)[..2] + [PAD, PAD]
    else if |s| == 2 then Quad(s[0], s[1], 0)[..3] + [PAD]
    else Quad(s[0], s[1], s[2]) + Encode64(s[3..])
  }

  function EncodedLen(n: nat): nat { (n + 2) / 3 * 4 }

  /** The alphabet of table 1 of RFC 2045. */
  lemma SymbolsAre(i: nat)
    requires i < 64
    ensures i < 26 ==> Symbol(i) == 'A' as int + i
    ensures 26 <= i < 52 ==> Symbol(i) == 'a' as int + (i - 26)
    ensures 52 <= i < 62 ==> Symbol(i) == '0' as int + (i - 52)
    ensures Symbol(62) == '+' as int && Symbol(63) == '/' as int && PAD == '=' as int
  {
  }

  /** The number a symbol stands for. */
  function ValueOf(b: byte): (v: nat)
    ensures v < 64
  {
    var c: int := b;
    if 65 <= c <= 90 then c - 65 else if 97 <= c <= 122 then c - 71 else if 48 <= c <= 57 then c + 4
    else if c == 43 then 62 else 63
  }

  /** Four symbols are one number of 24 bits, and that is three bytes. */
  function Bits(a: byte, b: byte, c: byte, d: byte): (n: nat)
    ensures n < 0x100_0000
  {
    ((ValueOf(a) * 64 + ValueOf(b)) * 64 + ValueOf(c)) * 64 + ValueOf(d)
  }

  function Triple(n: nat): seq<byte>
    requires n < 0x100_0000
  {
    [n / 0x1_0000, n / 0x100 % 256, n % 256]
  }

  /** A base64 decoder; padding says how many bytes of the last group count. */
  function Decode64(r: seq<byte>): seq<byte> {
    if |r| < 4 then []
    else if r[2] == PAD then Triple(Bits(r[0], r[1], Symbol(0), Symbol(0)))[..1]
    else if r[3] == PAD then Triple(Bits(r[0], r[1], r[2], Symbol(0)))[..2]
    else Triple(Bits(r[0], r[1], r[2], r[3])) + Decode64(r[4..])
  }

  lemma ValueBack(i: nat)
    requires i < 64
    ensures ValueOf(Symbol(i)) == i && Symbol(i) != PAD
  {
  }

  lemma QuadBack(a: byte, b: byte, c: byte)
    ensures var q := Quad(a, b, c);
            && Triple(Bits(q[0], q[1], q[2], q[3])) == [a, b, c] && q[2] != PAD && q[3] != PAD
            && (c == 0 ==> q[3] == Symbol(0)) && (b == 0 && c == 0 ==> q[2] == Symbol(0))
  {
    hide Symbol, ValueOf, Triple;
    var x: int, y: int, z: int := a, b, c;
    ValueBack(x / 4);
    ValueBack(x % 4 * 16 + y / 16);
    ValueBack(y % 16 * 4 + z / 64);
    ValueBack(z % 64);
    SameBits(x, y, z, x / 4, x % 4, y / 16, y % 16, z / 64, z % 64);
    TripleOf(a, b, c);
  }

  lemma SameBits(x: int, y: int, z: int, x1: int, x0: int, y1: int, y0: int, z1: int, z0: int)
    requires x == 4 * x1 + x0 && y == 16 * y1 + y0 && z == 64 * z1 + z0
    ensures ((x1 * 64 + (x0 * 16 + y1)) * 64 + (y0 * 4 + z1)) * 64 + z0 == x * 0x1_0000 + y * 0x100 + z
  {
  }

  lemma TripleOf(a: byte, b: byte, c: byte)
    ensures var x: int, y: int, z: int := a, b, c; Triple(x * 0x1_0000 + y * 0x100 + z) == [a, b, c]
  {
    var x: int, y: int, z: int := a, b, c;
    var n := x * 0x1_0000 + y * 0x100 + z;
    assert n / 0x100 == x * 0x100 + y;
    assert n / 0x1_0000 == x;
  }

  /** Decoding undoes the encoding of any bytes. */
  lemma {:induction false} Decoded(s: seq<byte>)
    ensures Decode64(Encode64(s)) == s
  {
    hide Symbol, Quad, Triple, Bits;
    if |s| == 1 {
      QuadBack(s[0], 0, 0);
    } else if |s| == 2 {
      QuadBack(s[0], s[1], 0);
    } else if |s| > 2 {
      QuadBack(s[0], s[1], s[2]);
      Decoded(s[3..]);
      assert Encode64(s)[4..] == Encode64(s[3..]);
      assert s == [s[0], s[1], s[2]] + s[3..];
    }
  }

  /** Whole groups of three bytes encode on their own. */
  lemma {:induction false} EncodeConcat(a: seq<byte>, b: seq<byte>)
    requires |a| % 3 == 0
    ensures Encode64(a + b) == Encode64(a) + Encode64(b)
  {
    if a == [] {
      assert a + b == b;
    } else {
      assert (a + b)[3..] == a[3..] + b;
      EncodeConcat(a[3..], b);
    }
  }

  /** The lines of the body. */
  function Lines(s: seq<byte>): (ls: seq<seq<byte>>)
    ensures |ls| >= 1
  {
    if |s| <= SOURCE_PER_LINE then [Encode64(s)]
    else [Encode64(s[..SOURCE_PER_LINE])] + Lines(s[SOURCE_PER_LINE..])
  }

  function Join(ls: seq<seq<byte>>): seq<byte> {
    if ls == [] then [] else if |ls| == 1 then ls[0] else ls[0] + [CR, LF] + Join(ls[1..])
  }

  function Body(s: seq<byte>): seq<byte> { Join(Lines(s)) }

  /** The line breaks taken out. */
  function Strip(s: seq<byte>): seq<byte> {
    if s == [] then []
    else (if s[0] == CR || s[0] == LF then [] else [s[0]]) + Strip(s[1..])
  }

  lemma {:induction false} StripConcat(a: seq<byte>, b: seq<byte>)
    ensures Strip(a + b) == Strip(a) + Strip(b)
  {
    if a == [] {
      assert a + b == b;
    } else {
      assert (a + b)[1..] == a[1..] + b;
      StripConcat(a[1..], b);
    }
  }

  lemma {:induction false} NoBreaks(s: seq<byte>)
    ensures forall i :: 0 <= i < |Encode64(s)| ==> Encode64(s)[i] != CR && Encode64(s)[i] != LF
  {
    if |s| > 2 {
      NoBreaks(s[3..]);
    }
  }

  lemma {:induction false} StripPlain(s: seq<byte>)
    requires forall i :: 0 <= i < |s| ==> s[i] != CR && s[i] != LF
    ensures Strip(s) == s
  {
    if s != [] {
      StripPlain(s[1..]);
    }
  }

  lemma StripBreak()
    ensures Strip([CR, LF]) == []
  {
    assert [CR, LF][1..] == [LF] && [LF][1..] == [];
    assert Strip([LF]) == [];
  }

  lemma BodyNext(s: seq<byte>)
    requires |s| > SOURCE_PER_LINE
    ensures Body(s) == Encode64(s[..SOURCE_PER_LINE]) + [CR, LF] + Body(s[SOURCE_PER_LINE..])
  {
    assert Lines(s)[1..] == Lines(s[SOURCE_PER_LINE..]);
  }

  /** Without its line breaks the body is the base64 encoding of the contents. */
  lemma {:induction false} StrippedBody(s: seq<byte>)
    ensures Strip(Body(s)) == Encode64(s)
  {
    hide Encode64;
    if |s| <= SOURCE_PER_LINE {
      NoBreaks(s);
      StripPlain(Encode64(s));
    } else {
      var head, rest := s[..SOURCE_PER_LINE], s[SOURCE_PER_LINE..];
      BodyNext(s);
      hide Body;
      NoBreaks(head);
      StripPlain(Encode64(head));
      StripConcat(Encode64(head) + [CR, LF], Body(rest));
      StripConcat(Encode64(head), [CR, LF]);
      StripBreak();
      StrippedBody(rest);
      EncodeConcat(head, rest);
      assert head + rest == s;
    }
  }

  /** Every line is at most 76 characters long, all but the last exactly. */
  lemma {:induction false} LineLengths(s: seq<byte>)
    ensures forall i :: 0 <= i < |Lines(s)| ==> |Lines(s)[i]| <= LINE_LENGTH
    ensures forall i :: 0 <= i < |Lines(s)| - 1 ==> |Lines(s)[i]| == LINE_LENGTH
  {
    if |s| > SOURCE_PER_LINE {
      LineLengths(s[SOURCE_PER_LINE..]);
    }
  }

  // -------------------------------------------------------- the computed sizes

  /** encodedLen as encodeFullMsg computes it. */
  function ComputedLen(n: nat): nat {
    var encoded := EncodedLen(n);
    if encoded > LINE_LENGTH then encoded + (encoded - 1) / LINE_LENGTH * 2 else encoded
  }

  function LineCount(n: nat): nat {
    if n == 0 then 0 else 1 + (n - 1) / SOURCE_PER_LINE
  }

  lemma LengthStep(n: nat)
    requires n > SOURCE_PER_LINE
    ensures ComputedLen(n) == LINE_LENGTH + 2 + ComputedLen(n - SOURCE_PER_LINE)
    ensures LineCount(n) == 1 + LineCount(n - SOURCE_PER_LINE)
    ensures EncodedLen(n) == LINE_LENGTH + EncodedLen(n - SOURCE_PER_LINE)
  {
    var m := n - SOURCE_PER_LINE;
    assert (n + 2) / 3 == 19 + (m + 2) / 3;
    assert EncodedLen(n) == 76 + EncodedLen(m) && EncodedLen(m) >= 4;
    assert (EncodedLen(n) - 1) / 76 == 1 + (EncodedLen(m) - 1) / 76;
    assert EncodedLen(m) <= 76 ==> (EncodedLen(m) - 1) / 76 == 0;
    assert (n - 1) / 57 == 1 + (m - 1) / 57;
  }

  /** The computed length is the length of the body. */
  lemma {:induction false} BodyLength(s: seq<byte>)
    ensures |Body(s)| == ComputedLen(|s|)
  {
    hide Encode64;
    if |s| > SOURCE_PER_LINE {
      BodyNext(s);
      LengthStep(|s|);
      BodyLength(s[SOURCE_PER_LINE..]);
    }
  }

  // ------------------------------------------------------------- the buffer

  class SmtpOutput {
    var fullMsg: array<byte>
    var fullLen: nat
    const headerLen: nat

    ghost predicate Valid()
      reads this
    {
      headerLen <= fullLen <= fullMsg.Length
    }

    constructor (header: seq<byte>)
      ensures Valid() && headerLen == |header| && fresh(fullMsg) && fullMsg[..headerLen] == header
    {
      var msg := new byte[|header|];
      forall k | 0 <= k < |header| {
        msg[k] := header[k];
      }
      fullMsg, fullLen, headerLen := msg, |header|, |header|;
    }

    /** base64.StdEncoding.Encode(fullMsg[offset:], src), and a line break after it. */
    method PutLine(offset: nat, src: seq<byte>, last: bool)
      requires |src| <= SOURCE_PER_LINE && headerLen <= offset
      requires offset + |Encode64(src)| + (if last then 0 else 2) <= fullMsg.Length
      modifies fullMsg
      ensures fullMsg[..offset] == old(fullMsg[..offset])
      ensures var line := Encode64(src) + if last then [] else [CR, LF];
              fullMsg[offset..offset + |line|] == line
    {
      hide Encode64;
      var line := Encode64(src);
      forall k | 0 <= k < |line| {
        fullMsg[offset + k] := line[k];
      }
      if !last {
        var at := offset + |line|;
        fullMsg[at] := CR;
        fullMsg[at + 1] := LF;
      }
    }

    /** encodeFullMsg: the header untouched, then exactly the body. */
    method EncodeFullMsg(contents: seq<byte>)
      requires Valid()
      modifies this`fullMsg, this`fullLen, fullMsg
      ensures Valid() && (fullMsg == old(fullMsg) || fresh(fullMsg))
      ensures fullMsg[..headerLen] == old(fullMsg[..headerLen])
      ensures fullMsg[headerLen..fullLen] == Body(contents)
    {
      hide Body, Encode64;
      var contentLen := |contents|;
      var encodedLen := ComputedLen(contentLen);
      BodyLength(contents);
      ghost var header := fullMsg[..headerLen];
      Resize(headerLen + encodedLen);
      var encodedLines := 0;
      var contentLines := LineCount(contentLen);
      EmptyBody();
      assert contents[0..] == contents && fullMsg[headerLen..headerLen] + Body(contents) == Body(contents);
      while encodedLines < contentLines
        invariant 0 <= encodedLines <= contentLines
        invariant Valid() && fullLen == headerLen + |Body(contents)|
        invariant fullMsg == old(fullMsg) || fresh(fullMsg)
        invariant fullMsg[..headerLen] == header
        invariant encodedLines < contentLines ==>
                    && encodedLines * SOURCE_PER_LINE < contentLen
                    && LineCount(contentLen - encodedLines * SOURCE_PER_LINE) == contentLines - encodedLines
                    && headerLen + encodedLines * (LINE_LENGTH + 2) <= fullLen
                    && fullMsg[headerLen..headerLen + encodedLines * (LINE_LENGTH + 2)]
                       + Body(contents[encodedLines * SOURCE_PER_LINE..]) == Body(contents)
        invariant encodedLines == contentLines ==> fullMsg[headerLen..fullLen] == Body(contents)
      {
        encodedLines := OneLine(contents, encodedLines, contentLines);
      }
    }

    method Resize(size: nat)
      requires Valid() && headerLen <= size
      modifies this`fullMsg, this`fullLen
      ensures fullMsg == old(fullMsg) || fresh(fullMsg)
      ensures Valid() && fullLen == size && fullMsg[..headerLen] == old(fullMsg[..headerLen])
    {
      if fullMsg.Length < size {
        var newFullMsg := new byte[size];
        var was := fullMsg;
        forall k | 0 <= k < headerLen {
          newFullMsg[k] := was[k];
        }
        fullMsg := newFullMsg;
      }
      fullLen := size;
    }

    /** One turn of the loop. */
    method OneLine(contents: seq<byte>, done: nat, contentLines: nat) returns (next: nat)
      requires Valid() && fullLen == headerLen + |Body(contents)| && done < contentLines
      requires done * SOURCE_PER_LINE < |contents|
      requires LineCount(|contents| - done * SOURCE_PER_LINE) == contentLines - done
      requires headerLen + done * (LINE_LENGTH + 2) <= fullLen
      requires fullMsg[headerLen..headerLen + done * (LINE_LENGTH + 2)]
               + Body(contents[done * SOURCE_PER_LINE..]) == Body(contents)
      modifies fullMsg
      ensures next == done + 1 && fullMsg[..headerLen] == old(fullMsg[..headerLen])
      ensures next < contentLines ==>
                && next * SOURCE_PER_LINE < |contents|
                && LineCount(|contents| - next * SOURCE_PER_LINE) == contentLines - next
                && headerLen + next * (LINE_LENGTH + 2) <= fullLen
                && fullMsg[headerLen..headerLen + next * (LINE_LENGTH + 2)]
                   + Body(contents[next * SOURCE_PER_LINE..]) == Body(contents)
      ensures next == contentLines ==> fullMsg[headerLen..fullLen] == Body(contents)
    {
      hide Body, Encode64, LineCount;
      var offset := headerLen + done * (LINE_LENGTH + 2);
      var begin := done * SOURCE_PER_LINE;
      var end := begin + SOURCE_PER_LINE;
      if end > |contents| {
        end := |contents|;
      }
      ghost var rest := contents[begin..];
      next := done + 1;
      if next < contentLines {
        MoreLines(|rest|);
        LengthStep(|rest|);
        PutMiddle(offset, contents[begin..end], rest, Body(contents));
        assert rest[SOURCE_PER_LINE..] == contents[next * SOURCE_PER_LINE..];
      } else {
        LastLine(rest);
        PutLast(offset, contents[begin..end], rest, Body(contents));
      }
    }

    /** A line that is not the last, with its line break. */
    method PutMiddle(offset: nat, src: seq<byte>, ghost rest: seq<byte>, ghost goal: seq<byte>)
      requires Valid() && headerLen <= offset <= fullLen == headerLen + |goal|
      requires |rest| > SOURCE_PER_LINE && src == rest[..SOURCE_PER_LINE]
      requires fullMsg[headerLen..offset] + Body(rest) == goal
      modifies fullMsg
      ensures fullMsg[..headerLen] == old(fullMsg[..headerLen])
      ensures offset + LINE_LENGTH + 2 <= fullLen
      ensures fullMsg[headerLen..offset + LINE_LENGTH + 2] + Body(rest[SOURCE_PER_LINE..]) == goal
    {
      hide Body, Encode64;
      BodyNext(rest);
      ghost var written, tail := fullMsg[headerLen..offset], Body(rest[SOURCE_PER_LINE..]);
      ghost var line := Encode64(src) + [CR, LF];
      assert |line| == LINE_LENGTH + 2;
      PutLine(offset, src, false);
      assert fullMsg[headerLen..offset] == written;
      assert fullMsg[headerLen..offset + |line|] == written + line;
      assert written + line + tail == written + (line + tail);
      assert fullMsg[..headerLen] == fullMsg[..offset][..headerLen];
    }

    method PutLast(offset: nat, src: seq<byte>, ghost rest: seq<byte>, ghost goal: seq<byte>)
      requires Valid() && headerLen <= offset <= fullLen == headerLen + |goal|
      requires src == rest && |rest| <= SOURCE_PER_LINE && Body(rest) == Encode64(rest)
      requires fullMsg[headerLen..offset] + Body(rest) == goal
      modifies fullMsg
      ensures fullMsg[..headerLen] == old(fullMsg[..headerLen])
      ensures fullMsg[headerLen..fullLen] == goal
    {
      hide Body, Encode64;
      ghost var written := fullMsg[headerLen..offset];
      PutLine(offset, src, true);
      assert Encode64(src) + [] == Encode64(src);
      assert fullMsg[headerLen..offset] == written;
      assert fullMsg[headerLen..fullLen] == written + Encode64(src);
      assert fullMsg[..headerLen] == fullMsg[..offset][..headerLen];
    }
  }

  lemma EmptyBody()
    ensures Body([]) == []
  {
  }

  lemma MoreLines(n: nat)
    requires LineCount(n) > 1
    ensures n > SOURCE_PER_LINE
  {
  }

  lemma LastLine(s: seq<byte>)
    requires LineCount(|s|) == 1
    ensures |s| <= SOURCE_PER_LINE && Body(s) == Encode64(s)
  {
  }
}
