/** The base 64 encoding of section 4 of RFC 4648 with `=` padding, as
    `Base64.getEncoder().encodeToString` produces it, and its decoder. */
module Base64 {
  import opened Wrappers
  import opened Utf8

  /** The character for a 6-bit value: A-Z, a-z, 0-9, '+', '/'. */
  function Symbol(v: int): (c: char)
    requires 0 <= v < 64
    ensures IsAlphabet(c)
  {
    if v < 26 then ('A' as int + v) as char
    else if v < 52 then ('a' as int + (v - 26)) as char
    else if v < 62 then ('0' as int + (v - 52)) as char
    else if v == 62 then '+'
    else '/'
  }

  predicate IsAlphabet(c: char)
  {
    'A' <= c <= 'Z' || 'a' <= c <= 'z' || '0' <= c <= '9' || c == '+' || c == '/'
  }

  /** The 6-bit value of an alphabet character; `None` for anything else, the
      pad character included. */
  function Value(c: char): (r: Option<int>)
    ensures r.Some? <==> IsAlphabet(c)
    ensures r.Some? ==> 0 <= r.value < 64 && Symbol(r.value) == c
  {
    if 'A' <= c <= 'Z' then Some(c as int - 'A' as int)
    else if 'a' <= c <= 'z' then Some(c as int - 'a' as int + 26)
    else if '0' <= c <= '9' then Some(c as int - '0' as int + 52)
    else if c == '+' then Some(62)
    else if c == '/' then Some(63)
    else None
  }

  lemma ValueOfSymbol(v: int)
    requires 0 <= v < 64
    ensures Value(Symbol(v)) == Some(v)
  {
  }

  /** The four symbols that three leading bytes become. */
  function Group(b0: Byte, b1: Byte, b2: Byte): string
  {
    [Symbol(b0 / 4), Symbol(b0 % 4 * 16 + b1 / 16), Symbol(b1 % 16 * 4 + b2 / 64), Symbol(b2 % 64)]
  }

  /** Three bytes make four symbols; a final group of one or two bytes makes
      two or three symbols followed by padding to four. */
  function Encode(b: seq<Byte>): (r: string)
  {
    if |b| == 0 then ""
    else if |b| == 1 then
      [Symbol(b[0] / 4), Symbol(b[0] % 4 * 16)] + "=="
    else if |b| == 2 then
      [Symbol(b[0] / 4), Symbol(b[0] % 4 * 16 + b[1] / 16), Symbol(b[1] % 16 * 4)] + "="
    else
      Group(b[0], b[1], b[2]) + Encode(b[3..])
  }

  /** The bytes carried by four, three or two 6-bit values. */
  function Join3(v0: int, v1: int, v2: int, v3: int): seq<Byte>
    requires 0 <= v0 < 64 && 0 <= v1 < 64 && 0 <= v2 < 64 && 0 <= v3 < 64
  {
    [v0 * 4 + v1 / 16, v1 % 16 * 16 + v2 / 4, v2 % 4 * 64 + v3]
  }

  function Join2(v0: int, v1: int, v2: int): seq<Byte>
    requires 0 <= v0 < 64 && 0 <= v1 < 64 && 0 <= v2 < 64
  {
    [v0 * 4 + v1 / 16, v1 % 16 * 16 + v2 / 4]
  }

  function Join1(v0: int, v1: int): seq<Byte>
    requires 0 <= v0 < 64 && 0 <= v1 < 64
  {
    [v0 * 4 + v1 / 16]
  }

  /** The bytes of a padded base 64 text; `None` when the text is not groups
      of four alphabet symbols with padding only at the very end. */
  function Decode(s: string): (r: Option<seq<Byte>>)
    decreases |s|
  {
    if |s| == 0 then Some([])
    else if |s| < 4 then None
    else
      match (Value(s[0]), Value(s[1]), Value(s[2]), Value(s[3]))
      case (Some(v0), Some(v1), None, None) =>
        if |s| == 4 && s[2] == '=' && s[3] == '=' then Some(Join1(v0, v1)) else None
      case (Some(v0), Some(v1), Some(v2), None) =>
        if |s| == 4 && s[3] == '=' then Some(Join2(v0, v1, v2)) else None
      case (Some(v0), Some(v1), Some(v2), Some(v3)) =>
        (match Decode(s[4..])
         case None => None
         case Some(rest) => Some(Join3(v0, v1, v2, v3) + rest))
      case _ => None
  }

  /** Splitting bytes into 6-bit values and joining them back. */
  lemma Regroup(b0: Byte, b1: Byte, b2: Byte)
    ensures Join3(b0 / 4, b0 % 4 * 16 + b1 / 16, b1 % 16 * 4 + b2 / 64, b2 % 64) == [b0, b1, b2]
    ensures Join2(b0 / 4, b0 % 4 * 16 + b1 / 16, b1 % 16 * 4) == [b0, b1]
    ensures Join1(b0 / 4, b0 % 4 * 16) == [b0]
  {
    var v1, v2 := b0 % 4 * 16 + b1 / 16, b1 % 16 * 4 + b2 / 64;
    assert v1 / 16 == b0 % 4 && v1 % 16 == b1 / 16;
    assert v2 / 4 == b1 % 16 && v2 % 4 == b2 / 64;
  }

  lemma DecodeLastOne(b: seq<Byte>)
    requires |b| == 1
    ensures Decode(Encode(b)) == Some(b)
  {
    var v0, v1 := b[0] / 4, b[0] % 4 * 16;
    assert Encode(b) == [Symbol(v0), Symbol(v1), '=', '='];
    ValueOfSymbol(v0);
    ValueOfSymbol(v1);
    Regroup(b[0], 0, 0);
    assert [b[0]] == b;
  }

  lemma DecodeLastTwo(b: seq<Byte>)
    requires |b| == 2
    ensures Decode(Encode(b)) == Some(b)
  {
    var v0, v1, v2 := b[0] / 4, b[0] % 4 * 16 + b[1] / 16, b[1] % 16 * 4;
    assert Encode(b) == [Symbol(v0), Symbol(v1), Symbol(v2), '='];
    ValueOfSymbol(v0);
    ValueOfSymbol(v1);
    ValueOfSymbol(v2);
    Regroup(b[0], b[1], 0);
    assert [b[0], b[1]] == b;
  }

  /** Four symbols ahead of more text decode to their three bytes, followed
      by whatever the rest decodes to. */
  lemma DecodeFourSymbols(v0: int, v1: int, v2: int, v3: int, tail: string)
    requires 0 <= v0 < 64 && 0 <= v1 < 64 && 0 <= v2 < 64 && 0 <= v3 < 64
    ensures Decode([Symbol(v0), Symbol(v1), Symbol(v2), Symbol(v3)] + tail) ==
      (match Decode(tail)
       case None => None
       case Some(rest) => Some(Join3(v0, v1, v2, v3) + rest))
  {
    var s := [Symbol(v0), Symbol(v1), Symbol(v2), Symbol(v3)] + tail;
    assert s[4..] == tail;
    ValueOfSymbol(v0);
    ValueOfSymbol(v1);
    ValueOfSymbol(v2);
    ValueOfSymbol(v3);
  }

  /** The symbols of three bytes decode to those bytes, followed by whatever
      the rest decodes to. */
  lemma DecodeGroup(b0: Byte, b1: Byte, b2: Byte, tail: string)
    ensures Decode(Group(b0, b1, b2) + tail) ==
      (match Decode(tail)
       case None => None
       case Some(rest) => Some([b0, b1, b2] + rest))
  {
    DecodeFourSymbols(b0 / 4, b0 % 4 * 16 + b1 / 16, b1 % 16 * 4 + b2 / 64, b2 % 64, tail);
    Regroup(b0, b1, b2);
  }

  /** Decoding undoes encoding. */
  lemma {:induction false} DecodeEncode(b: seq<Byte>)
    ensures Decode(Encode(b)) == Some(b)
    decreases |b|
  {
    if |b| == 1 {
      DecodeLastOne(b);
    } else if |b| == 2 {
      DecodeLastTwo(b);
    } else if |b| >= 3 {
      DecodeGroup(b[0], b[1], b[2], Encode(b[3..]));
      DecodeEncode(b[3..]);
      assert b == [b[0], b[1], b[2]] + b[3..];
    }
  }

  /** Every started group of three bytes takes four characters. */
  lemma {:induction false} EncodedLength(b: seq<Byte>)
    ensures |Encode(b)| == 4 * ((|b| + 2) / 3)
    decreases |b|
  {
    if |b| >= 3 {
      EncodedLength(b[3..]);
      assert |Encode(b)| == 4 + |Encode(b[3..])|;
      assert (|b| + 2) / 3 == (|b[3..]| + 2) / 3 + 1;
    }
  }

  /** The text is alphabet symbols and pad characters only. */
  lemma {:induction false} EncodedAlphabet(b: seq<Byte>)
    ensures forall i :: 0 <= i < |Encode(b)| ==> IsAlphabet(Encode(b)[i]) || Encode(b)[i] == '='
    decreases |b|
  {
    if |b| >= 3 {
      EncodedAlphabet(b[3..]);
      var head := Encode(b)[..4];
      assert Encode(b) == head + Encode(b[3..]);
    }
  }

  /** An encoded name never holds a '.'. */
  lemma NoDot(b: seq<Byte>)
    ensures '.' !in Encode(b)
  {
    EncodedAlphabet(b);
  }
}
