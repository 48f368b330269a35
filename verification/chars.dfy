/** Character classes and the string operations the filename code is built from. */
module Chars {
  import opened Utf8

  const REPLACEMENT: char := '\U{FFFD}'

  predicate IsAscii(c: char) { c as int < 0x80 }

  predicate IsAsciiAlphanumeric(c: char) { '0' <= c <= '9' || 'a' <= c <= 'z' || 'A' <= c <= 'Z' }

  /** ASCII, but neither a letter nor a digit. */
  predicate IsAsciiOther(c: char) { IsAscii(c) && !IsAsciiAlphanumeric(c) }

  /** General category Cc. */
  predicate IsControl(c: char) { c as int < 0x20 || 0x7F <= c as int < 0xA0 }

  /** The White_Space property. */
  predicate IsWhitespace(c: char) {
    var v := c as int;
    || 0x9 <= v <= 0xD || v == 0x20 || v == 0x85 || v == 0xA0 || v == 0x1680
    || 0x2000 <= v <= 0x200A || v == 0x2028 || v == 0x2029 || v == 0x202F || v == 0x205F || v == 0x3000
  }

  /** The Bidi_Control property. */
  predicate IsBidiControl(c: char) {
    var v := c as int;
    v == 0x61C || v == 0x200E || v == 0x200F || 0x202A <= v <= 0x202E || 0x2066 <= v <= 0x2069
  }

  /** A character no file name may hold literally. */
  predicate IsUnsafe(c: char) { IsBidiControl(c) || c == REPLACEMENT }

  /** What the ends of a name are trimmed of; `ignorable` is the Default_Ignorable table. */
  predicate IsTrimmed(ignorable: char -> bool, c: char) {
    IsAsciiOther(c) || IsControl(c) || IsWhitespace(c) || ignorable(c)
  }

  /** The classes by code point: 25 with White_Space, 12 with Bidi_Control, the C0 and C1 controls and DEL. */
  lemma ClassesAre(ignorable: char -> bool, c: char)
    ensures IsWhitespace(c) <==>
              c as int in {
                0x9, 0xA, 0xB, 0xC, 0xD, 0x20, 0x85, 0xA0, 0x1680, 0x2000, 0x2001, 0x2002, 0x2003, 0x2004, 0x2005,
                0x2006, 0x2007, 0x2008, 0x2009, 0x200A, 0x2028, 0x2029, 0x202F, 0x205F, 0x3000}
    ensures IsBidiControl(c) <==>
              c as int in {
                0x61C, 0x200E, 0x200F, 0x202A, 0x202B, 0x202C, 0x202D, 0x202E, 0x2066, 0x2067, 0x2068, 0x2069}
    ensures ignorable(c) || c as int <= 0x1F || 0x7F <= c as int <= 0x9F ==> IsTrimmed(ignorable, c)
    ensures IsTrimmed(ignorable, c) && c as int >= 0xA0 ==> ignorable(c) || IsWhitespace(c)
  {
  }

  function TrimStart(ignorable: char -> bool, s: string): (r: string)
    ensures exists k | 0 <= k <= |s| :: r == s[k..] && forall i | 0 <= i < k :: IsTrimmed(ignorable, s[i])
    ensures r != "" ==> !IsTrimmed(ignorable, r[0])
  {
    if s != "" && IsTrimmed(ignorable, s[0]) then
      var r := TrimStart(ignorable, s[1..]);
      assert forall k | 0 <= k <= |s[1..]| :: s[1..][k..] == s[k + 1..];
      r
    else assert s == s[0..]; s
  }

  function TrimEnd(ignorable: char -> bool, s: string): (r: string)
    ensures r <= s && forall i | |r| <= i < |s| :: IsTrimmed(ignorable, s[i])
    ensures r != "" ==> !IsTrimmed(ignorable, r[|r| - 1])
  {
    if s != "" && IsTrimmed(ignorable, s[|s| - 1]) then TrimEnd(ignorable, s[..|s| - 1]) else s
  }

  /** Length in bytes. */
  function ByteLen(s: string): nat { |EncodeAll(s)| }

  lemma {:induction false} ByteLenConcat(a: string, b: string)
    ensures ByteLen(a + b) == ByteLen(a) + ByteLen(b)
  {
    if a == "" {
      assert a + b == b;
    } else {
      assert (a + b)[1..] == a[1..] + b;
      ByteLenConcat(a[1..], b);
    }
  }

  lemma {:induction false} ByteLenAscii(s: string)
    requires forall c | c in s :: IsAscii(c)
    ensures ByteLen(s) == |s|
  {
    if s != "" {
      assert forall c | c in s[1..] :: c in s;
      assert IsAscii(s[0]);
      ByteLenAscii(s[1..]);
    }
  }

  lemma ByteLenPrefix(r: string, s: string)
    requires r <= s
    ensures ByteLen(r) <= ByteLen(s)
  {
    ByteLenConcat(r, s[|r|..]);
    assert r + s[|r|..] == s;
  }

  /** `&s[..s.floor_char_boundary(limit)]`: the longest whole-character prefix within `limit` bytes. */
  function FloorBytes(s: string, limit: nat): (r: string)
    ensures r <= s && ByteLen(r) <= limit
    ensures |r| < |s| ==> limit < ByteLen(s[..|r| + 1])
  {
    if s == "" || limit < |Encode(s[0])| then
      assert s != "" ==> s[..1][0] == s[0];
      ""
    else
      var r := FloorBytes(s[1..], limit - |Encode(s[0])|);
      assert |r| < |s[1..]| ==> s[..|r| + 2][1..] == s[1..][..|r| + 1];
      [s[0]] + r
  }

  /** What is trimmed, as a set of characters. */
  function Trims(ignorable: char -> bool): char -> bool { (c: char) => IsTrimmed(ignorable, c) }

  /** Everything in `s` before `i` and from `j` on is to be cut. */
  predicate CutOutside(cut: char -> bool, s: string, i: nat, j: nat)
    requires i <= j <= |s|
  {
    forall k | 0 <= k < |s| && (k < i || j <= k) :: cut(s[k])
  }

  /** `t` is `s` less what is to be cut at its ends. */
  ghost predicate IsTrimOf(cut: char -> bool, s: string, t: string) {
    && (exists i: nat, j: nat | i <= j <= |s| :: t == s[i..j] && CutOutside(cut, s, i, j))
    && (t != "" ==> !cut(t[0]) && !cut(t[|t| - 1]))
  }

  lemma TrimOf(cut: char -> bool, s: string, i: nat, t: string)
    requires i <= |s| && (forall k | 0 <= k < i :: cut(s[k])) && t <= s[i..]
    requires forall k | |t| <= k < |s| - i :: cut(s[i..][k])
    requires t != "" ==> !cut(t[0]) && !cut(t[|t| - 1])
    ensures IsTrimOf(cut, s, t)
  {
    var j := i + |t|;
    assert t == s[i..j];
    forall k | 0 <= k < |s| && (k < i || j <= k)
      ensures cut(s[k])
    {
      if j <= k {
        assert s[k] == s[i..][k - i];
      }
    }
    assert CutOutside(cut, s, i, j);
  }

  lemma TrimEnds(ignorable: char -> bool, a: string)
    requires a != "" ==> !IsTrimmed(ignorable, a[0])
    ensures var t := TrimEnd(ignorable, a);
            && t <= a && (forall k | |t| <= k < |a| :: Trims(ignorable)(a[k]))
            && (t != "" ==> !Trims(ignorable)(t[0]) && !Trims(ignorable)(t[|t| - 1]))
  {
    var t := TrimEnd(ignorable, a);
    assert t != "" ==> t[0] == a[0];
  }

  lemma TrimStarts(ignorable: char -> bool, s: string) returns (i: nat)
    ensures i <= |s| && TrimStart(ignorable, s) == s[i..]
    ensures forall k | 0 <= k < i :: Trims(ignorable)(s[k])
  {
    i :| 0 <= i <= |s| && TrimStart(ignorable, s) == s[i..] && forall k | 0 <= k < i :: IsTrimmed(ignorable, s[k]);
  }

  lemma TrimBoth(cut: char -> bool, s: string, a: string, t: string, i: nat)
    requires i <= |s| && a == s[i..] && t <= a
    requires forall k | 0 <= k < i :: cut(s[k])
    requires forall k | |t| <= k < |a| :: cut(a[k])
    requires t != "" ==> !cut(t[0]) && !cut(t[|t| - 1])
    ensures IsTrimOf(cut, s, t)
  {
    TrimOf(cut, s, i, t);
  }

  lemma TrimIs(ignorable: char -> bool, s: string)
    ensures IsTrimOf(Trims(ignorable), s, TrimEnd(ignorable, TrimStart(ignorable, s)))
  {
    var a := TrimStart(ignorable, s);
    var i := TrimStarts(ignorable, s);
    TrimEnds(ignorable, a);
    TrimBoth(Trims(ignorable), s, a, TrimEnd(ignorable, a), i);
  }

  /** The first `n` characters of `t` are what fits into `limit` bytes, and all of them after `r` are trimmed. */
  predicate CutAt(ignorable: char -> bool, t: string, limit: nat, r: string, n: nat) {
    && |r| <= n <= |t| && ByteLen(t[..n]) <= limit && (n < |t| ==> limit < ByteLen(t[..n + 1]))
    && forall i | |r| <= i < n :: IsTrimmed(ignorable, t[i])
  }

  /** `r` is `t` cut to whole characters within `limit` bytes, and then trimmed at the end. */
  ghost predicate IsCut(ignorable: char -> bool, t: string, limit: nat, r: string) {
    && r <= t && (r != "" ==> !IsTrimmed(ignorable, r[|r| - 1]))
    && exists n: nat :: CutAt(ignorable, t, limit, r, n)
  }

  lemma CutIs(ignorable: char -> bool, t: string, limit: nat)
    ensures IsCut(ignorable, t, limit, TrimEnd(ignorable, FloorBytes(t, limit)))
  {
    var cut := FloorBytes(t, limit);
    assert t[..|cut|] == cut;
    assert forall i | 0 <= i < |cut| :: t[i] == cut[i];
    assert CutAt(ignorable, t, limit, TrimEnd(ignorable, cut), |cut|);
  }

  predicate EndsWith(s: string, c: char) { s != "" && s[|s| - 1] == c }

  /** The characters of `s` that satisfy `p`, in order. */
  function Filter(p: char -> bool, s: string): string {
    if s == "" then "" else Filter(p, s[..|s| - 1]) + (if p(s[|s| - 1]) then [s[|s| - 1]] else "")
  }

  lemma {:induction false} FilterConcat(p: char -> bool, a: string, b: string)
    ensures Filter(p, a + b) == Filter(p, a) + Filter(p, b)
  {
    if b == "" {
      assert a + b == a;
    } else {
      assert (a + b)[..|a + b| - 1] == a + b[..|b| - 1];
      FilterConcat(p, a, b[..|b| - 1]);
    }
  }

  lemma {:induction false} FilterNone(p: char -> bool, s: string)
    requires forall i | 0 <= i < |s| :: !p(s[i])
    ensures Filter(p, s) == ""
  {
    if s != "" {
      FilterNone(p, s[..|s| - 1]);
    }
  }

  lemma FilterMiddle(p: char -> bool, a: string, t: string, b: string)
    requires Filter(p, a) == "" && Filter(p, b) == ""
    ensures Filter(p, a + t + b) == Filter(p, t)
  {
    FilterConcat(p, a + t, b);
    FilterConcat(p, a, t);
    assert Filter(p, t) + "" == Filter(p, t);
    assert "" + Filter(p, t) == Filter(p, t);
  }

  lemma FilterCut(p: char -> bool, cut: char -> bool, s: string, i: nat, j: nat)
    requires i <= j <= |s| && CutOutside(cut, s, i, j) && forall c | p(c) :: !cut(c)
    ensures Filter(p, s[..i]) == "" && Filter(p, s[j..]) == ""
  {
    FilterNone(p, s[..i]);
    FilterNone(p, s[j..]);
  }

  lemma ThreeParts(s: string, i: nat, j: nat)
    requires i <= j <= |s|
    ensures s == s[..i] + s[i..j] + s[j..]
  {
  }

  lemma FilterTrimAt(p: char -> bool, cut: char -> bool, s: string, i: nat, j: nat)
    requires i <= j <= |s| && CutOutside(cut, s, i, j) && forall c | p(c) :: !cut(c)
    ensures Filter(p, s[i..j]) == Filter(p, s)
  {
    FilterCut(p, cut, s, i, j);
    FilterMiddle(p, s[..i], s[i..j], s[j..]);
    ThreeParts(s, i, j);
  }

  /** Trimming drops nothing that `p` holds of, if it holds of nothing that is cut. */
  lemma FilterTrim(p: char -> bool, cut: char -> bool, s: string, t: string)
    requires IsTrimOf(cut, s, t) && forall c | p(c) :: !cut(c)
    ensures Filter(p, t) == Filter(p, s)
  {
    var i: nat, j: nat :| i <= j <= |s| && t == s[i..j] && CutOutside(cut, s, i, j);
    FilterTrimAt(p, cut, s, i, j);
  }
}
