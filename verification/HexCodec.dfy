/** Bytes as pairs of hexadecimal digits, in the two directions the debugger stub needs. */
module HexCodec {
  import opened Options

  type Byte = b: int | 0 <= b < 256

  /** A digit's value, or -1 for any other character. */
  function DigitToInt(c: Byte): int {
    if '0' as int <= c <= '9' as int then c - '0' as int
    else if 'a' as int <= c <= 'f' as int then c - 'a' as int + 10
    else if 'A' as int <= c <= 'F' as int then c - 'A' as int + 10
    else -1
  }

  /** The digit for the low four bits. */
  function IntToDigit(n: int): Byte {
    var d := n % 16;
    if d < 10 then '0' as int + d else 'a' as int + (d - 10)
  }

  function Lower(c: Byte): Byte {
    if 'A' as int <= c <= 'F' as int then c + 32 else c
  }

  /** Writing a digit and reading it gives the low four bits; reading and writing gives the digit
      in lower case. */
  lemma DigitRoundTrip(n: int, c: Byte)
    ensures DigitToInt(IntToDigit(n)) == n % 16
    ensures DigitToInt(c) >= 0 ==> DigitToInt(c) < 16 && IntToDigit(DigitToInt(c)) == Lower(c)
    ensures DigitToInt(c) < 0 ==> forall m :: IntToDigit(m) != c
  {
  }

  function LowerDigit(d: nat): Byte
    requires d < 16
  {
    "0123456789abcdef"[d] as int
  }

  function UpperDigit(d: nat): Byte
    requires d < 16
  {
    "0123456789ABCDEF"[d] as int
  }

  lemma TableValues(d: nat)
    requires d < 16
    ensures LowerDigit(d) == if d < 10 then 48 + d else 87 + d
    ensures UpperDigit(d) == if d < 10 then 48 + d else 55 + d
  {
  }

  /** The digits are those of the table, in this order. */
  lemma DigitTable(n: int)
    ensures IntToDigit(n) == LowerDigit(n % 16)
  {
    TableValues(n % 16);
    hide LowerDigit, UpperDigit;
  }

  /** A character has value `d` if and only if it is digit `d` in lower or in upper case. */
  lemma ValueTable(c: Byte, d: nat)
    requires d < 16
    ensures DigitToInt(c) == d <==> c == LowerDigit(d) || c == UpperDigit(d)
  {
    TableValues(d);
    hide LowerDigit, UpperDigit;
  }

  /** Any other character has the value -1. */
  lemma NoDigit(c: Byte)
    ensures DigitToInt(c) == -1 <==> forall d :: 0 <= d < 16 ==> c != LowerDigit(d) && c != UpperDigit(d)
  {
    hide LowerDigit, UpperDigit;
    if DigitToInt(c) == -1 {
      forall d | 0 <= d < 16
        ensures c != LowerDigit(d) && c != UpperDigit(d)
      {
        ValueTable(c, d);
      }
    } else {
      ValueTable(c, DigitToInt(c));
    }
  }

  // ---------- the two directions on values ----------

  function Hex(bytes: seq<Byte>): (text: seq<Byte>)
    ensures |text| == 2 * |bytes|
    ensures forall i :: 0 <= i < |bytes| ==> text[2 * i] == IntToDigit(bytes[i] / 16) && text[2 * i + 1] == IntToDigit(bytes[i])
  {
    if bytes == [] then []
    else Hex(bytes[..|bytes| - 1]) + [IntToDigit(bytes[|bytes| - 1] / 16), IntToDigit(bytes[|bytes| - 1])]
  }

  predicate IsHexDigit(c: Byte) { DigitToInt(c) >= 0 }

  function ByteAt(text: seq<Byte>, i: nat): Byte
    requires 2 * i + 1 < |text| && IsHexDigit(text[2 * i]) && IsHexDigit(text[2 * i + 1])
  {
    16 * DigitToInt(text[2 * i]) + DigitToInt(text[2 * i + 1])
  }

  /** The first `n` bytes of the text are written out in digits. */
  ghost predicate Digits(text: seq<Byte>, n: nat) {
    2 * n <= |text| && forall k :: 0 <= k < 2 * n ==> IsHexDigit(text[k])
  }

  // ---------- the loops ----------

  method Mem2Hex(dst: array<Byte>, src: seq<Byte>)
    requires dst.Length > 2 * |src|
    modifies dst
    ensures dst[..2 * |src|] == Hex(src) && dst[2 * |src|] == 0
    ensures forall k :: 2 * |src| < k < dst.Length ==> dst[k] == old(dst[k])
  {
    var i := 0;
    while i < |src|
      invariant 0 <= i <= |src|
      invariant dst[..2 * i] == Hex(src[..i])
      invariant forall k :: 2 * i <= k < dst.Length ==> dst[k] == old(dst[k])
    {
      dst[2 * i] := IntToDigit(src[i] / 16);
      dst[2 * i + 1] := IntToDigit(src[i]);
      assert src[..i + 1][..i] == src[..i];
      assert dst[..2 * i + 2] == dst[..2 * i] + [dst[2 * i], dst[2 * i + 1]];
      i := i + 1;
    }
    assert src[..i] == src;
    dst[2 * i] := 0;
  }

  /** Reads digit pairs from a zero-terminated text; the end position is missing when the text ends or
      breaks off in the middle of a byte. */
  method Hex2Mem(dst: array<Byte>, src: seq<Byte>, maxlen: nat) returns (end: Option<nat>, n: nat)
    requires 0 in src && dst.Length >= maxlen
    modifies dst
    ensures n <= maxlen && Digits(src, n)
    ensures forall i :: 0 <= i < n ==> dst[i] == ByteAt(src, i)
    ensures forall i :: n <= i < dst.Length ==> dst[i] == old(dst[i])
    ensures n < maxlen ==> 2 * n < |src| && (!IsHexDigit(src[2 * n]) || (2 * n + 1 < |src| && !IsHexDigit(src[2 * n + 1])))
    ensures end == if n < maxlen && IsHexDigit(src[2 * n]) then None else Some(2 * n)
  {
    n := 0;
    ghost var stop: nat :| stop < |src| && src[stop] == 0;
    while src[2 * n] != 0 && n < maxlen
      invariant n <= maxlen && Digits(src, n) && 2 * n <= stop
      invariant forall i :: 0 <= i < n ==> dst[i] == ByteAt(src, i)
      invariant forall i :: n <= i < dst.Length ==> dst[i] == old(dst[i])
      decreases maxlen - n
    {
      var msb := DigitToInt(src[2 * n]);
      if msb < 0 {
        return Some(2 * n), n;
      }
      var lsb := DigitToInt(src[2 * n + 1]);
      if lsb < 0 {
        return None, n;
      }
      dst[n] := 16 * msb + lsb;
      n := n + 1;
    }
    end := Some(2 * n);
  }

  lemma ByteDigits(b: Byte)
    ensures IntToDigit(b / 16) == LowerDigit(b / 16) && IntToDigit(b) == LowerDigit(b % 16)
  {
    DigitTable(b / 16);
    DigitTable(b);
    hide LowerDigit, IntToDigit;
    assert (b / 16) % 16 == b / 16;
  }

  /** Each byte is written as its high and its low digit. */
  lemma HexTable(bytes: seq<Byte>, i: nat)
    requires i < |bytes|
    ensures Hex(bytes)[2 * i] == LowerDigit(bytes[i] / 16) && Hex(bytes)[2 * i + 1] == LowerDigit(bytes[i] % 16)
  {
    hide Hex, LowerDigit, IntToDigit;
    ByteDigits(bytes[i]);
  }

  // ---------- they undo each other ----------

  lemma HexIsDigits(bytes: seq<Byte>)
    ensures forall k :: 0 <= k < |Hex(bytes)| ==> IsHexDigit(Hex(bytes)[k])
    ensures Digits(Hex(bytes), |bytes|)
    ensures forall i :: 0 <= i < |bytes| ==> ByteAt(Hex(bytes), i) == bytes[i]
  {
    var text := Hex(bytes);
    forall k | 0 <= k < |text| ensures IsHexDigit(text[k]) {
      var i := k / 2;
      assert k == 2 * i || k == 2 * i + 1;
      DigitRoundTrip(bytes[i] / 16, 0);
      DigitRoundTrip(bytes[i], 0);
    }
    forall i | 0 <= i < |bytes| ensures ByteAt(text, i) == bytes[i] {
      DigitRoundTrip(bytes[i] / 16, 0);
      DigitRoundTrip(bytes[i], 0);
    }
  }

  /** Every byte string survives the way out and back. */
  method ThereAndBack(bytes: seq<Byte>, maxlen: nat) returns (back: seq<Byte>, end: Option<nat>)
    requires |bytes| <= maxlen
    ensures back == bytes && end == Some(2 * |bytes|)
  {
    var text := new Byte[2 * |bytes| + 1];
    Mem2Hex(text, bytes);
    var mem := new Byte[maxlen];
    HexIsDigits(bytes);
    assert text[..][..2 * |bytes|] == Hex(bytes) && text[..][2 * |bytes|] == 0;
    var n;
    end, n := Hex2Mem(mem, text[..], maxlen);
    assert forall k :: 0 <= k < 2 * |bytes| ==> text[..][k] == Hex(bytes)[k];
    assert n == |bytes|;
    back := mem[..n];
    assert forall i :: 0 <= i < n ==> back[i] == ByteAt(text[..], i) == ByteAt(Hex(bytes), i);
  }

  lemma PairBack(hi: Byte, lo: Byte)
    requires IsHexDigit(hi) && IsHexDigit(lo)
    ensures var b := 16 * DigitToInt(hi) + DigitToInt(lo);
            IntToDigit(b / 16) == Lower(hi) && IntToDigit(b) == Lower(lo)
  {
    var b := 16 * DigitToInt(hi) + DigitToInt(lo);
    DigitRoundTrip(0, hi);
    DigitRoundTrip(0, lo);
    assert b / 16 == DigitToInt(hi) && b % 16 == DigitToInt(lo);
  }

  lemma CharBack(text: seq<Byte>, bytes: seq<Byte>, i: nat)
    requires |text| == 2 * |bytes| && i < |bytes| && IsHexDigit(text[2 * i]) && IsHexDigit(text[2 * i + 1])
    requires bytes[i] == ByteAt(text, i)
    ensures Hex(bytes)[2 * i] == Lower(text[2 * i]) && Hex(bytes)[2 * i + 1] == Lower(text[2 * i + 1])
  {
    hide Hex, Lower, IntToDigit;
    PairBack(text[2 * i], text[2 * i + 1]);
  }

  /** Every string of hex digits comes back in lower case. */
  lemma BackAndThere(text: seq<Byte>, bytes: seq<Byte>)
    requires |text| == 2 * |bytes| && Digits(text, |bytes|)
    requires forall i :: 0 <= i < |bytes| ==> bytes[i] == ByteAt(text, i)
    ensures forall k :: 0 <= k < |text| ==> Hex(bytes)[k] == Lower(text[k])
  {
    hide Hex, Lower, DigitToInt;
    forall k | 0 <= k < |text| ensures Hex(bytes)[k] == Lower(text[k]) {
      CharBack(text, bytes, k / 2);
      assert k == 2 * (k / 2) || k == 2 * (k / 2) + 1;
    }
  }
}
