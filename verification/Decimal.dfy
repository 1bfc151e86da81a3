/** Decimal text as fmt.Sprintf("%d") prints it and strconv reads it back. */
module Decimal {
  import opened Bytes
  import opened Radix

  function Digits(n: nat): (s: seq<byte>)
    ensures |s| >= 1
  {
    if n < 10 then [48 + n] else Digits(n / 10) + [48 + n % 10]
  }

  predicate AllDigits(s: seq<byte>) {
    forall i :: 0 <= i < |s| ==> 48 <= s[i] <= 57
  }

  function ValueOf(s: seq<byte>): (v: nat)
    requires AllDigits(s)
  {
    if s == [] then 0 else 10 * ValueOf(s[..|s| - 1]) + (s[|s| - 1] - 48)
  }

  lemma {:induction false} ValueOfDigits(n: nat)
    ensures AllDigits(Digits(n)) && ValueOf(Digits(n)) == n
  {
    var s := Digits(n);
    if n < 10 {
      assert s[..|s| - 1] == [];
    } else {
      ValueOfDigits(n / 10);
      assert s[..|s| - 1] == Digits(n / 10);
    }
  }

  /** The digits to base 10, the highest first, and none of them an idle zero. */
  lemma {:induction false} DecimalDigits(n: nat, i: nat)
    requires i < |Digits(n)|
    ensures Digits(n)[|Digits(n)| - 1 - i] == '0' as int + Digit(n, 10, i)
    ensures |Digits(n)| > 1 ==> Digits(n)[0] != '0' as int
  {
    hide Digit;
    if n >= 10 {
      DecimalDigits(n / 10, if i == 0 then 0 else i - 1);
      if i > 0 {
        DigitDown(n, 10, i);
      }
    }
    DigitLast(n, 10);
  }

  /** strconv.ParseUint(s, 10, bits), with `limit` standing for 2^bits. */
  function ParseUint(s: seq<byte>, limit: nat): Option<nat> {
    if s != [] && AllDigits(s) && ValueOf(s) < limit then Some(ValueOf(s)) else None
  }

  /** strconv.ParseInt(s, 10, 64): an optional sign, then digits in range. */
  function ParseInt64(s: seq<byte>): Option<int> {
    var half := 0x8000_0000_0000_0000;
    if s != [] && s[0] == 45 then
      var r := ParseUint(s[1..], half + 1);
      if r.Some? then Some(0 - r.value) else None
    else if s != [] && s[0] == 43 then ParseUint(s[1..], half)
    else ParseUint(s, half)
  }

  /** A number with or without a sign reads as itself, within 64 bits. */
  lemma SignedText(n: nat)
    ensures var half := 0x8000_0000_0000_0000;
            && ParseInt64(Digits(n)) == (if n < half then Some(n) else None)
            && ParseInt64([43] + Digits(n)) == (if n < half then Some(n) else None)
            && ParseInt64([45] + Digits(n)) == (if n <= half then Some(0 - n) else None)
  {
    hide Digits, ValueOf;
    ValueOfDigits(n);
    assert ([43] + Digits(n))[1..] == Digits(n) && ([45] + Digits(n))[1..] == Digits(n);
  }

  /** A queue position as NextRecord prints it: file id, a space, byte offset. */
  function CursorText(id: nat, offset: nat): seq<byte> {
    Digits(id) + [32] + Digits(offset)
  }

  /** parseQueueCursor; None stands for its three error returns. */
  function ParseCursor(s: seq<byte>): Option<(nat, int)> {
    var idx := IndexByte(s, 32);
    if idx == -1 then None
    else
      var id := ParseUint(s[..idx], 0x1_0000_0000);
      var offset := ParseInt64(s[idx + 1..]);
      if id.Some? && offset.Some? then Some((id.value, offset.value)) else None
  }

  /** A printed cursor reads back exactly when the id fits in 32 bits: it is
    * printed from a 64-bit uint but parsed as a 32-bit one.  Offsets are int64. */
  lemma CursorRoundTrip(id: nat, offset: nat)
    requires offset < 0x8000_0000_0000_0000
    ensures ParseCursor(CursorText(id, offset))
            == if id < 0x1_0000_0000 then Some((id, offset)) else None
  {
    hide Digits;
    hide ValueOf;
    hide IndexByte;
    var s := CursorText(id, offset);
    var n := |Digits(id)|;
    ValueOfDigits(id);
    ValueOfDigits(offset);
    assert s[..n] == Digits(id);
    assert forall k :: 0 <= k < n ==> s[k] == Digits(id)[k];
    IndexByteAt(s, 32, n);
    assert s[n + 1..] == Digits(offset);
  }

  /** The 2^32nd queue file is the first whose cursors cannot be read back. */
  lemma CursorOverflow()
    ensures ParseCursor(CursorText(0x1_0000_0000, 0)) == None
  {
    CursorRoundTrip(0x1_0000_0000, 0);
  }
}
