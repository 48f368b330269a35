/**
 * UTF-8 as section 4 of RFC 3629 and Table 3-7 of the Unicode Standard define it, and the
 * whole-input decode that drops every maximal ill-formed subpart (section 3.9 of the Standard).
 */
module Utf8 {

  type Byte = b: int | 0 <= b < 256

  /** The bytes of one character. */
  function Encode(c: char): (bs: seq<Byte>)
    ensures 1 <= |bs| <= 4
  {
    var v := c as int;
    if v < 0x80 then [v]
    else if v < 0x800 then [0xC0 + v / 0x40, 0x80 + v % 0x40]
    else if v < 0x10000 then [0xE0 + v / 0x40 / 0x40, 0x80 + v / 0x40 % 0x40, 0x80 + v % 0x40]
    else [0xF0 + v / 0x40 / 0x40 / 0x40, 0x80 + v / 0x40 / 0x40 % 0x40, 0x80 + v / 0x40 % 0x40, 0x80 + v % 0x40]
  }

  function EncodeAll(text: string): seq<Byte> {
    if text == "" then [] else Encode(text[0]) + EncodeAll(text[1..])
  }

  predicate Continuation(b: Byte) { 0x80 <= b < 0xC0 }

  /** How many bytes a sequence led by `b` has; 0 if `b` leads none. */
  function Width(b: Byte): nat {
    if b < 0x80 then 1
    else if 0xC2 <= b < 0xE0 then 2
    else if 0xE0 <= b < 0xF0 then 3
    else if 0xF0 <= b < 0xF5 then 4
    else 0
  }

  predicate SecondFits(lead: Byte, b: Byte) {
    && Continuation(b)
    && (lead == 0xE0 ==> 0xA0 <= b)
    && (lead == 0xED ==> b < 0xA0)
    && (lead == 0xF0 ==> 0x90 <= b)
    && (lead == 0xF4 ==> b < 0x90)
  }

  /** `s` obeys the table as far as it goes. */
  predicate Fits(s: seq<Byte>) {
    && 0 < |s| <= Width(s[0])
    && (1 < |s| ==> SecondFits(s[0], s[1]))
    && (2 < |s| ==> Continuation(s[2]))
    && (3 < |s| ==> Continuation(s[3]))
  }

  /** One whole well-formed sequence. */
  predicate Minimal(s: seq<Byte>) { Fits(s) && |s| == Width(s[0]) }

  /** The start of a well-formed sequence whose end is missing. */
  predicate Incomplete(s: seq<Byte>) { Fits(s) && |s| < Width(s[0]) }

  /** The bits that byte `i` of `s` carries, as a number. */
  function Bits(s: seq<Byte>, i: nat): int
    requires Minimal(s) && i < |s|
  {
    if i > 0 then s[i] - 0x80
    else match |s| case 1 => s[0] case 2 => s[0] - 0xC0 case 3 => s[0] - 0xE0 case _ => s[0] - 0xF0
  }

  function Decode(s: seq<Byte>): (c: char)
    requires Minimal(s)
  {
    match |s|
    case 1 => Bits(s, 0) as char
    case 2 => (Bits(s, 0) * 0x40 + Bits(s, 1)) as char
    case 3 => ((Bits(s, 0) * 0x40 + Bits(s, 1)) * 0x40 + Bits(s, 2)) as char
    case _ => (((Bits(s, 0) * 0x40 + Bits(s, 1)) * 0x40 + Bits(s, 2)) * 0x40 + Bits(s, 3)) as char
  }

  /** Length of the longest prefix of `s` that obeys the table. */
  function Longest(s: seq<Byte>): (n: nat)
    ensures n <= |s| && n <= 4
    ensures n > 0 ==> Fits(s[..n])
    ensures forall m | n < m <= |s| :: !Fits(s[..m])
  {
    if |s| < 1 || !Fits(s[..1]) then 0
    else if |s| < 2 || !Fits(s[..2]) then 1
    else if |s| < 3 || !Fits(s[..3]) then 2
    else if |s| < 4 || !Fits(s[..4]) then 3
    else 4
  }

  /** Decode all of `s`; an ill-formed stretch loses one maximal subpart at a time. */
  function Lossy(s: seq<Byte>): string
    decreases |s|
  {
    if s == [] then ""
    else
      var n := Longest(s);
      if n > 0 && n == Width(s[0]) then [Decode(s[..n])] + Lossy(s[n..])
      else if n > 0 then Lossy(s[n..])
      else Lossy(s[1..])
  }

  datatype Validity = Valid | Unfinished | Malformed

  /**
   * `str::from_utf8`: `Unfinished` is an error without `error_len` (the input just stops too
   * early), `Malformed` an error with one.
   */
  function FromUtf8(s: seq<Byte>): Validity
    decreases |s|
  {
    if s == [] then Valid
    else
      var n := Longest(s);
      if n > 0 && n == Width(s[0]) then FromUtf8(s[n..])
      else if n == |s| then Unfinished
      else Malformed
  }

  lemma EncodeMinimal(c: char)
    ensures Minimal(Encode(c))
    ensures Decode(Encode(c)) == c
  {
    var v := c as int;
    if v < 0x80 {
    } else if v < 0x800 {
      EncodeTwo(c);
    } else if v < 0x10000 {
      EncodeThree(c);
    } else {
      EncodeFour(c);
    }
  }

  lemma EncodeTwo(c: char)
    requires 0x80 <= c as int < 0x800
    ensures Minimal(Encode(c)) && Decode(Encode(c)) == c
  {
    var s := Encode(c);
    assert Bits(s, 0) * 0x40 + Bits(s, 1) == c as int;
  }

  lemma EncodeThree(c: char)
    requires 0x800 <= c as int < 0x10000
    ensures Minimal(Encode(c)) && Decode(Encode(c)) == c
  {
    var s, q := Encode(c), c as int / 0x40;
    assert Minimal(s);
    assert Bits(s, 0) * 0x40 + Bits(s, 1) == q;
    assert q * 0x40 + Bits(s, 2) == c as int;
  }

  lemma EncodeFour(c: char)
    requires 0x10000 <= c as int
    ensures Minimal(Encode(c)) && Decode(Encode(c)) == c
  {
    var s, q := Encode(c), c as int / 0x40;
    var q' := q / 0x40;
    assert Minimal(s);
    assert Bits(s, 0) * 0x40 + Bits(s, 1) == q';
    assert q' * 0x40 + Bits(s, 2) == q;
    assert q * 0x40 + Bits(s, 3) == c as int;
  }

  lemma Digits(hi: nat, lo: nat)
    requires lo < 0x40
    ensures (hi * 0x40 + lo) / 0x40 == hi && (hi * 0x40 + lo) % 0x40 == lo
  {
  }

  lemma DecodeThenEncode(s: seq<Byte>)
    requires Minimal(s)
    ensures Encode(Decode(s)) == s
  {
    match |s|
    case 1 =>
    case 2 => Digits(Bits(s, 0), Bits(s, 1));
    case 3 => DecodeThree(s);
    case 4 => DecodeFour(s);
  }

  lemma DecodeThree(s: seq<Byte>)
    requires Minimal(s) && |s| == 3
    ensures Encode(Decode(s)) == s
  {
    var q := Bits(s, 0) * 0x40 + Bits(s, 1);
    Digits(Bits(s, 0), Bits(s, 1));
    Digits(q, Bits(s, 2));
    var v := Decode(s) as int;
    assert v / 0x40 == q && v % 0x40 == Bits(s, 2);
  }

  lemma DecodeFour(s: seq<Byte>)
    requires Minimal(s) && |s| == 4
    ensures Encode(Decode(s)) == s
  {
    var q' := Bits(s, 0) * 0x40 + Bits(s, 1);
    var q := q' * 0x40 + Bits(s, 2);
    Digits(Bits(s, 0), Bits(s, 1));
    Digits(q', Bits(s, 2));
    Digits(q, Bits(s, 3));
    var v := Decode(s) as int;
    assert v / 0x40 == q && v % 0x40 == Bits(s, 3);
    assert q / 0x40 == q' && q % 0x40 == Bits(s, 2);
  }

  /** The table accepts exactly the encodings of characters. */
  lemma MinimalIffEncoding(s: seq<Byte>)
    ensures Minimal(s) <==> exists c: char :: Encode(c) == s
  {
    if Minimal(s) {
      DecodeThenEncode(s);
    }
    forall c: char | Encode(c) == s
      ensures Minimal(s)
    {
      EncodeMinimal(c);
    }
  }

  /** `Incomplete` is what the Standard calls the initial part of a well-formed sequence. */
  lemma IncompleteIffProperPrefix(s: seq<Byte>)
    ensures Incomplete(s) <==> s != [] && exists t: seq<Byte> :: t != [] && Minimal(s + t)
  {
    if Incomplete(s) {
      CompletePrefix(s);
    }
  }

  lemma CompletePrefix(s: seq<Byte>)
    requires Incomplete(s)
    ensures exists t: seq<Byte> :: t != [] && Minimal(s + t)
  {
    var n := Width(s[0]) - |s|;
    var second: Byte := if s[0] == 0xE0 then 0xA0 else if s[0] == 0xF0 then 0x90 else 0x80;
    var t: seq<Byte> := seq(n, i => if i == 0 && |s| == 1 then second else 0x80);
    var m := s + t;
    assert |m| == Width(s[0]) && m[0] == s[0];
    assert forall i | |s| <= i < |m| :: m[i] == t[i - |s|];
    assert |s| > 1 ==> m[1] == s[1];
    assert |s| > 2 ==> m[2] == s[2];
    assert SecondFits(m[0], m[1]);
  }

  lemma LongestIs(s: seq<Byte>, n: nat)
    requires 0 < n <= |s| && Fits(s[..n])
    requires n == |s| || n == Width(s[0]) || !Fits(s[..n + 1])
    ensures Longest(s) == n
  {
    assert forall m | 0 < m <= n :: Fits(s[..m]);
  }

  /** A whole sequence in front is decoded and what follows is decoded as if alone. */
  lemma LossyMinimal(m: seq<Byte>, rest: seq<Byte>)
    requires Minimal(m)
    ensures Lossy(m + rest) == [Decode(m)] + Lossy(rest)
  {
    assert (m + rest)[..|m|] == m && (m + rest)[|m|..] == rest;
    LongestIs(m + rest, |m|);
  }

  /** An unfinished sequence is dropped whole when the next byte cannot go on with it. */
  lemma LossyBroken(p: seq<Byte>, rest: seq<Byte>)
    requires Incomplete(p)
    requires rest != [] ==> !Fits(p + [rest[0]])
    ensures Lossy(p + rest) == Lossy(rest)
  {
    assert (p + rest)[..|p|] == p && (p + rest)[|p|..] == rest;
    if rest != [] {
      assert (p + rest)[..|p| + 1] == p + [rest[0]];
    }
    LongestIs(p + rest, |p|);
  }

  lemma LossyBadByte(b: Byte, rest: seq<Byte>)
    requires !Fits([b])
    ensures Lossy([b] + rest) == Lossy(rest)
  {
    assert ([b] + rest)[..1] == [b] && ([b] + rest)[1..] == rest;
  }

  lemma LossyChar(c: char, rest: seq<Byte>)
    ensures Lossy(Encode(c) + rest) == [c] + Lossy(rest)
  {
    EncodeMinimal(c);
    LossyMinimal(Encode(c), rest);
  }

  /** Regrouping, for any decoder `f`. */
  lemma Regroup(f: seq<Byte> -> string, c: char, head: seq<Byte>, tail: seq<Byte>, text: string, rest: seq<Byte>)
    requires f(tail + rest) == text + f(rest)
    requires f(head + (tail + rest)) == [c] + f(tail + rest)
    ensures f(head + tail + rest) == [c] + text + f(rest)
  {
    assert head + tail + rest == head + (tail + rest);
    assert [c] + (text + f(rest)) == [c] + text + f(rest);
  }

  /** Text in front survives. With `rest` empty: decoding undoes encoding. */
  lemma {:induction false} LossyText(text: string, rest: seq<Byte>)
    ensures Lossy(EncodeAll(text) + rest) == text + Lossy(rest)
  {
    if text == "" {
      assert EncodeAll(text) + rest == rest;
    } else {
      LossyText(text[1..], rest);
      LossyChar(text[0], EncodeAll(text[1..]) + rest);
      Regroup(Lossy, text[0], Encode(text[0]), EncodeAll(text[1..]), text[1..], rest);
      assert [text[0]] + text[1..] == text;
    }
  }

  /** What `from_utf8` says of an unfinished sequence that got one more byte. */
  lemma FromUtf8OneMore(p: seq<Byte>, b: Byte)
    requires p == [] || Incomplete(p)
    ensures FromUtf8(p + [b]) == (if Minimal(p + [b]) then Valid else if Incomplete(p + [b]) then Unfinished
              else Malformed)
  {
    var s := p + [b];
    assert s[..|s|] == s;
    if Fits(s) {
      LongestIs(s, |s|);
      assert s[|s|..] == [];
    } else if p != [] {
      assert s[..|p|] == p;
      LongestIs(s, |p|);
    }
  }
}
