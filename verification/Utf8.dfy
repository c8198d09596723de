/**
 XMLUtil::ConvertUTF32ToUTF8 against the table of section 3 of RFC 3629. The marks that the
 code sets with `|` and `&` occupy bits that are clear, so they are written as sums here.
 */
module Utf8 {
  import opened Bytes

  predicate Continuation(c: byte) {
    0x80 <= c < 0xC0
  }

  /** The character number with the payload of one more continuation byte appended. */
  function Append(prefix: int, c: byte): int {
    prefix * 64 + (c as int - 0x80)
  }

  /** The character number that a sequence of the table stands for. */
  function CodePoint(s: Bytes): int
    requires 1 <= |s| <= 4
  {
    if |s| == 1 then s[0]
    else if |s| == 2 then Append(s[0] as int - 0xC0, s[1])
    else if |s| == 3 then Append(Append(s[0] as int - 0xE0, s[1]), s[2])
    else Append(Append(Append(s[0] as int - 0xF0, s[1]), s[2]), s[3])
  }

  /** A row of the table in its shortest form; the last row is taken to its full 21 bits. */
  predicate WellFormed(s: Bytes) {
    && 1 <= |s| <= 4
    && (forall i | 1 <= i < |s| :: Continuation(s[i]))
    && if |s| == 1 then s[0] < 0x80
       else if |s| == 2 then 0xC0 <= s[0] < 0xE0 && CodePoint(s) >= 0x80
       else if |s| == 3 then 0xE0 <= s[0] < 0xF0 && CodePoint(s) >= 0x800
       else 0xF0 <= s[0] < 0xF8 && CodePoint(s) >= 0x10000
  }

  function EncodedLength(input: nat): nat {
    if input < 0x80 then 1 else if input < 0x800 then 2
    else if input < 0x10000 then 3 else if input < 0x200000 then 4 else 0
  }

  function FirstByteMark(length: nat): nat {
    if length == 2 then 0xC0 else if length == 3 then 0xE0 else if length == 4 then 0xF0 else 0
  }

  function Encode(input: nat): Bytes {
    if input < 0x80 then [input]
    else if input < 0x800 then [0xC0 + input / 64, 0x80 + input % 64]
    else if input < 0x10000 then
      [0xE0 + input / 64 / 64, 0x80 + input / 64 % 64, 0x80 + input % 64]
    else if input < 0x200000 then
      [0xF0 + input / 64 / 64 / 64, 0x80 + input / 64 / 64 % 64, 0x80 + input / 64 % 64, 0x80 + input % 64]
    else []
  }

  /** Up to 21 bits, the encoder yields the well-formed sequence that stands for its input. */
  lemma {:induction false} EncodeCorrect(input: nat)
    requires input < 0x200000
    ensures WellFormed(Encode(input)) && CodePoint(Encode(input)) == input
  {
    var m := input / 64;
    var l := m / 64;
    assert Append(m, 0x80 + input % 64) == input;
    assert Append(l, 0x80 + m % 64) == m;
    assert Append(l / 64, 0x80 + l % 64) == l;
  }

  lemma {:induction false} AppendInverse(p: nat, c: byte)
    requires Continuation(c)
    ensures Append(p, c) >= 0 && Append(p, c) / 64 == p && 0x80 + Append(p, c) % 64 == c
  {
  }

  /** It is the only one: every well-formed sequence is the encoding of its character number. */
  lemma {:induction false} DecodeEncode(s: Bytes)
    requires WellFormed(s)
    ensures CodePoint(s) >= 0 && Encode(CodePoint(s)) == s
  {
    if |s| == 2 {
      AppendInverse(s[0] as int - 0xC0, s[1]);
    } else if |s| == 3 {
      var p := s[0] as int - 0xE0;
      AppendInverse(p, s[1]);
      AppendInverse(Append(p, s[1]), s[2]);
      assert CodePoint(s) < 0x10000;
    } else if |s| == 4 {
      FourBytes(s);
    }
  }

  lemma {:induction false} FourBytes(s: Bytes)
    requires WellFormed(s) && |s| == 4
    ensures CodePoint(s) >= 0 && Encode(CodePoint(s)) == s
  {
    var p := s[0] as int - 0xF0;
    var q := Append(p, s[1]);
    AppendInverse(p, s[1]);
    AppendInverse(q, s[2]);
    AppendInverse(Append(q, s[2]), s[3]);
    assert CodePoint(s) < 0x200000;
  }

  /** The encoder as it runs: the output pointer moves backwards while bits are shifted out. */
  method ConvertUTF32ToUTF8(input: nat) returns (output: Bytes)
    ensures output == Encode(input)
  {
    var length := EncodedLength(input);
    if length == 0 {
      return [];
    }
    var n := input;
    output := [];
    if length == 4 {
      output, n := [0x80 + n % 64] + output, n / 64;
    }
    if length >= 3 {
      output, n := [0x80 + n % 64] + output, n / 64;
    }
    if length >= 2 {
      output, n := [0x80 + n % 64] + output, n / 64;
    }
    output := [FirstByteMark(length) + n] + output;
  }
}
