/** The sanitiser loop of `iri_to_filename_part` in core/src/iri_normalize.rs. */
module Sanitizer {
  import opened Chars

  /** `out` without its trailing ASCII non-alphanumerics. */
  function Pop(out: string): (r: string)
    ensures |r| <= |out|
  {
    if out != "" && IsAsciiOther(out[|out| - 1]) then Pop(out[..|out| - 1]) else out
  }

  lemma {:induction false} PopIs(out: string)
    ensures Pop(out) == out[..|Pop(out)|]
    ensures forall i | |Pop(out)| <= i < |out| :: IsAsciiOther(out[i])
    ensures Pop(out) == "" || !IsAsciiOther(Pop(out)[|Pop(out)| - 1])
  {
    if out != "" && IsAsciiOther(out[|out| - 1]) {
      PopIs(out[..|out| - 1]);
    }
  }

  /** `rest` without its leading ASCII non-alphanumerics. */
  function Skip(rest: string): (r: string)
    ensures |r| <= |rest|
  {
    if rest != "" && IsAsciiOther(rest[0]) then Skip(rest[1..]) else rest
  }

  predicate IsSlash(c: char) { c == '/' || c == ':' }

  predicate IsSeparator(c: char) { c == '-' || c == '.' || c == '_' }

  /** The branch a character takes. */
  datatype Class = White | Slash | Other | Kept | Unsafe

  function ClassOf(c: char): Class {
    if IsWhitespace(c) then White
    else if IsSlash(c) then Slash
    else if IsAsciiOther(c) then Other
    else if !IsUnsafe(c) then Kept
    else Unsafe
  }

  /** What each branch writes and leaves; `popped` and `skipped` are `out` and `more` with their runs discarded. */
  function Branch(k: Class, out: string, popped: string, c: char, more: string, skipped: string): (string, string) {
    match k
    case White => (popped + "_", skipped)
    case Slash => (out + ".", more)
    case Other =>
      var discarded := |out| - |popped| + |more| - |skipped|;
      (popped + [if discarded == 0 && IsSeparator(c) then c else '-'], skipped)
    case Kept => (out + [c], more)
    case Unsafe => (if !EndsWith(out, '.') && !EndsWith(out, '-') then out + "-" else out, more)
  }

  /** One turn of the loop: what is written and what is left to read. */
  function Turn(out: string, rest: string): (r: (string, string))
    requires rest != ""
    ensures |r.1| < |rest|
  {
    Branch(ClassOf(rest[0]), out, Pop(out), rest[0], rest[1..], Skip(rest[1..]))
  }

  function Run(out: string, rest: string): string
    decreases |rest|
  {
    if rest == "" then out else Run(Turn(out, rest).0, Turn(out, rest).1)
  }

  function Sanitize(s: string): string { Run("", s) }

  /** The loop as it is written, against `Sanitize`. */
  method SanitizeLoop(result: string) returns (sanitized: string)
    ensures sanitized == Sanitize(result)
  {
    sanitized := "";
    var pos := 0;
    assert result[0..] == result;
    while pos < |result|
      invariant pos <= |result|
      invariant Run(sanitized, result[pos..]) == Sanitize(result)
    {
      ghost var out0, rest0 := sanitized, result[pos..];
      var c := result[pos];
      pos := pos + 1;
      ghost var more := result[pos..];
      assert more == rest0[1..];
      if IsWhitespace(c) {
        sanitized := DiscardPrevious(sanitized);
        pos := DiscardSubsequent(result, pos);
        sanitized := sanitized + "_";
      } else if c == '/' || c == ':' {
        sanitized := sanitized + ".";
      } else if IsAsciiOther(c) {
        var before, from := |sanitized|, pos;
        sanitized := DiscardPrevious(sanitized);
        pos := DiscardSubsequent(result, pos);
        var discarded := before - |sanitized| + pos - from;
        if discarded == 0 && (c == '-' || c == '.' || c == '_') {
          sanitized := sanitized + [c];
        } else {
          sanitized := sanitized + "-";
        }
      } else if !IsBidiControl(c) && c != REPLACEMENT {
        sanitized := sanitized + [c];
      } else if !EndsWith(sanitized, '.') && !EndsWith(sanitized, '-') {
        sanitized := sanitized + "-";
      }
      assert (sanitized, result[pos..]) == Turn(out0, rest0);
    }
  }

  method DiscardPrevious(out: string) returns (r: string)
    ensures r == Pop(out)
  {
    r := out;
    while r != "" && IsAsciiOther(r[|r| - 1])
      invariant Pop(r) == Pop(out)
      decreases |r|
    {
      r := r[..|r| - 1];
    }
  }

  method DiscardSubsequent(s: string, from: nat) returns (pos: nat)
    requires from <= |s|
    ensures from <= pos <= |s| && s[pos..] == Skip(s[from..])
  {
    pos := from;
    while pos < |s| && IsAsciiOther(s[pos])
      invariant from <= pos <= |s|
      invariant Skip(s[pos..]) == Skip(s[from..])
    {
      assert s[pos..][1..] == s[pos + 1..];
      pos := pos + 1;
    }
  }

  // ---- what every run keeps ----

  /** A character the sanitiser copies. */
  predicate IsKept(c: char) { !IsWhitespace(c) && !IsUnsafe(c) && !IsAsciiOther(c) }

  predicate PairFits(a: char, b: char) {
    IsSeparator(a) && IsSeparator(b) ==> b == '.' || (a == '_' && b == '-')
  }

  /** Only copied characters and separators, and separators meet only as the loop allows. */
  predicate IsClean(out: string) {
    && (forall i | 0 <= i < |out| :: IsKept(out[i]) || IsSeparator(out[i]))
    && (forall i | 0 < i < |out| :: PairFits(out[i - 1], out[i]))
  }

  lemma CleanPop(out: string)
    requires IsClean(out)
    ensures IsClean(Pop(out)) && (Pop(out) != "" ==> !IsSeparator(Pop(out)[|Pop(out)| - 1]))
  {
    PopIs(out);
    var r := Pop(out);
    assert forall i | 0 <= i < |r| :: r[i] == out[i];
  }

  lemma CleanAppend(out: string, c: char)
    requires IsClean(out) && (IsKept(c) || IsSeparator(c))
    requires out != "" ==> PairFits(out[|out| - 1], c)
    ensures IsClean(out + [c])
  {
    var r := out + [c];
    forall i | 0 < i < |r|
      ensures PairFits(r[i - 1], r[i])
    {
      if i < |out| {
        assert PairFits(out[i - 1], out[i]);
      }
    }
  }

  lemma TurnKeepsClean(out: string, rest: string)
    requires rest != "" && IsClean(out)
    ensures IsClean(Turn(out, rest).0)
  {
    var c := rest[0];
    CleanPop(out);
    if IsWhitespace(c) {
      CleanAppend(Pop(out), '_');
    } else if IsSlash(c) {
      CleanAppend(out, '.');
    } else if IsAsciiOther(c) {
      CleanAppend(Pop(out), '-');
      if IsSeparator(c) {
        CleanAppend(Pop(out), c);
      }
    } else if !IsUnsafe(c) {
      CleanAppend(out, c);
    } else if !EndsWith(out, '.') && !EndsWith(out, '-') {
      CleanAppend(out, '-');
    }
  }

  lemma {:induction false} RunClean(out: string, rest: string)
    requires IsClean(out)
    ensures IsClean(Run(out, rest))
    decreases |rest|
  {
    if rest != "" {
      TurnKeepsClean(out, rest);
      RunClean(Turn(out, rest).0, Turn(out, rest).1);
    }
  }

  lemma {:induction false} RunLength(out: string, rest: string)
    ensures |Run(out, rest)| <= |out| + |rest|
    decreases |rest|
  {
    if rest != "" {
      RunLength(Turn(out, rest).0, Turn(out, rest).1);
    }
  }

  /** `p` holds of nothing the sanitiser drops or writes in its place. */
  ghost predicate OnlyKept(p: char -> bool) {
    forall c :: p(c) ==> !IsAsciiOther(c) && !IsWhitespace(c) && !IsUnsafe(c)
  }

  /** `[c]` or nothing. */
  function One(p: char -> bool, c: char): string { if p(c) then [c] else "" }

  lemma AppendFilter(p: char -> bool, base: string, c: char)
    ensures Filter(p, base + [c]) == Filter(p, base) + One(p, c)
  {
    assert (base + [c])[..|base|] == base;
  }

  lemma HeadFilter(p: char -> bool, rest: string)
    requires rest != ""
    ensures Filter(p, rest) == One(p, rest[0]) + Filter(p, rest[1..])
  {
    FilterConcat(p, [rest[0]], rest[1..]);
    AppendFilter(p, "", rest[0]);
    assert "" + [rest[0]] == [rest[0]] && [rest[0]] + rest[1..] == rest;
  }

  lemma {:induction false} PopFilter(p: char -> bool, out: string)
    requires OnlyKept(p)
    ensures Filter(p, Pop(out)) == Filter(p, out)
  {
    if out != "" && IsAsciiOther(out[|out| - 1]) {
      PopFilter(p, out[..|out| - 1]);
      assert Filter(p, out[..|out| - 1]) + "" == Filter(p, out[..|out| - 1]);
    }
  }

  lemma {:induction false} SkipFilter(p: char -> bool, rest: string)
    requires OnlyKept(p)
    ensures Filter(p, Skip(rest)) == Filter(p, rest)
  {
    if rest != "" && IsAsciiOther(rest[0]) {
      HeadFilter(p, rest);
      SkipFilter(p, rest[1..]);
      assert "" + Filter(p, rest[1..]) == Filter(p, rest[1..]);
    }
  }

  lemma DropFilter(p: char -> bool, base: string, c: char)
    requires !p(c)
    ensures Filter(p, base + [c]) == Filter(p, base)
  {
    AppendFilter(p, base, c);
    assert Filter(p, base) + "" == Filter(p, base);
  }

  lemma BranchFilter(p: char -> bool, k: Class, out: string, popped: string, c: char, more: string, skipped: string)
    requires !p('_') && !p('.') && !p('-') && (k != Kept ==> !p(c))
    requires Filter(p, popped) == Filter(p, out) && Filter(p, skipped) == Filter(p, more)
    ensures Filter(p, Branch(k, out, popped, c, more, skipped).0) == Filter(p, if p(c) then out + [c] else out)
    ensures Filter(p, Branch(k, out, popped, c, more, skipped).1) == Filter(p, more)
  {
    match k
    case White => DropFilter(p, popped, '_');
    case Slash => DropFilter(p, out, '.');
    case Other =>
      DropFilter(p, popped, '-');
      DropFilter(p, popped, c);
    case Kept =>
      if !p(c) {
        DropFilter(p, out, c);
      }
    case Unsafe => DropFilter(p, out, '-');
  }

  lemma TurnFilter(p: char -> bool, out: string, rest: string)
    requires rest != "" && OnlyKept(p)
    ensures Filter(p, Turn(out, rest).0) == Filter(p, out) + One(p, rest[0])
    ensures Filter(p, Turn(out, rest).1) == Filter(p, rest[1..])
  {
    SkipFilter(p, rest[1..]);
    PopFilter(p, out);
    BranchFilter(p, ClassOf(rest[0]), out, Pop(out), rest[0], rest[1..], Skip(rest[1..]));
    AppendFilter(p, out, rest[0]);
    assert Filter(p, out) + "" == Filter(p, out);
  }

  lemma Reassociate(a: string, b: string, c: string, bc: string)
    requires b + c == bc
    ensures (a + b) + c == a + bc
  {
  }

  lemma TurnConserves(p: char -> bool, out: string, rest: string)
    requires rest != "" && OnlyKept(p)
    ensures Filter(p, Turn(out, rest).0) + Filter(p, Turn(out, rest).1) == Filter(p, out) + Filter(p, rest)
  {
    TurnFilter(p, out, rest);
    HeadFilter(p, rest);
    Reassociate(Filter(p, out), One(p, rest[0]), Filter(p, rest[1..]), Filter(p, rest));
  }

  lemma {:induction false} RunFilter(p: char -> bool, out: string, rest: string)
    requires OnlyKept(p)
    ensures Filter(p, Run(out, rest)) == Filter(p, out) + Filter(p, rest)
    decreases |rest|
  {
    if rest == "" {
      assert Filter(p, out) + "" == Filter(p, out);
    } else {
      TurnConserves(p, out, rest);
      RunFilter(p, Turn(out, rest).0, Turn(out, rest).1);
    }
  }

  /**
   * Every output: no whitespace, bidi control or U+FFFD; `-`, `.`, `_` are its only ASCII
   * non-alphanumerics; it is no longer than the input; it holds exactly the input's other
   * characters in order; and two separators meet only if the second is `.` or they are `_-`.
   */
  lemma SanitizeOutput(s: string)
    ensures forall c | c in Sanitize(s) :: !IsWhitespace(c) && !IsBidiControl(c) && c != REPLACEMENT
    ensures forall c | c in Sanitize(s) :: IsAsciiOther(c) ==> IsSeparator(c)
    ensures |Sanitize(s)| <= |s|
    ensures Filter(IsKept, Sanitize(s)) == Filter(IsKept, s)
    ensures forall i | 0 < i < |Sanitize(s)| :: PairFits(Sanitize(s)[i - 1], Sanitize(s)[i])
  {
    RunClean("", s);
    RunLength("", s);
    RunFilter(IsKept, "", s);
    assert "" + Filter(IsKept, s) == Filter(IsKept, s);
  }

  // ---- what is written between two copied characters depends on that gap alone ----

  lemma {:induction false} SkipStops(more: string, k: char, b: string)
    requires !IsAsciiOther(k)
    ensures Skip(more + [k] + b) == Skip(more) + [k] + b
  {
    var whole := more + [k] + b;
    if more != "" && IsAsciiOther(more[0]) {
      assert whole[1..] == more[1..] + [k] + b;
      SkipStops(more[1..], k, b);
    }
  }

  /** A turn does not look past the next character that is not an ASCII non-alphanumeric. */
  lemma TurnStops(out: string, a: string, k: char, b: string)
    requires !IsAsciiOther(k) && a != ""
    ensures Turn(out, a + [k] + b) == (Turn(out, a).0, Turn(out, a).1 + [k] + b)
  {
    var whole := a + [k] + b;
    assert whole[0] == a[0] && whole[1..] == a[1..] + [k] + b;
    SkipStops(a[1..], k, b);
  }

  lemma {:induction false} PopStopsAtKept(x: string, k: char, o: string)
    requires IsKept(k)
    ensures Pop(x + [k] + o) == x + [k] + Pop(o)
  {
    var whole := x + [k] + o;
    if o != "" && IsAsciiOther(o[|o| - 1]) {
      assert whole[..|whole| - 1] == x + [k] + o[..|o| - 1];
      PopStopsAtKept(x, k, o[..|o| - 1]);
    }
  }

  lemma {:induction false} RunUpToKept(out: string, a: string, k: char, b: string)
    requires IsKept(k)
    ensures Run(out, a + [k] + b) == Run(Run(out, a) + [k], b)
    decreases |a|
  {
    var whole := a + [k] + b;
    if a == "" {
      assert whole[0] == k && whole[1..] == b;
    } else {
      TurnStops(out, a, k, b);
      RunUpToKept(Turn(out, a).0, Turn(out, a).1, k, b);
    }
  }

  /** Each branch leaves alone what is in front of a character that is no mark. */
  lemma BranchAfter(cls: Class, pre: string, out: string, popped: string, c: char, more: string, skipped: string)
    requires pre != "" && !EndsWith(pre, '.') && !EndsWith(pre, '-')
    ensures Branch(cls, pre + out, pre + popped, c, more, skipped)
         == (pre + Branch(cls, out, popped, c, more, skipped).0, Branch(cls, out, popped, c, more, skipped).1)
  {
    var whole := pre + out;
    assert EndsWith(whole, '.') == EndsWith(out, '.') && EndsWith(whole, '-') == EndsWith(out, '-');
    assert forall t: string {:trigger out + t} :: pre + out + t == pre + (out + t);
    assert forall t: string {:trigger popped + t} :: pre + popped + t == pre + (popped + t);
  }

  lemma TurnAfterKept(x: string, k: char, o: string, b: string)
    requires IsKept(k) && b != ""
    ensures Turn(x + [k] + o, b) == (x + [k] + Turn(o, b).0, Turn(o, b).1)
  {
    PopStopsAtKept(x, k, o);
    BranchAfter(ClassOf(b[0]), x + [k], o, Pop(o), b[0], b[1..], Skip(b[1..]));
  }

  lemma {:induction false} RunAfterKept(x: string, k: char, o: string, b: string)
    requires IsKept(k)
    ensures Run(x + [k] + o, b) == x + [k] + Run(o, b)
    decreases |b|
  {
    if b != "" {
      TurnAfterKept(x, k, o, b);
      RunAfterKept(x, k, Turn(o, b).0, Turn(o, b).1);
    }
  }

  /** The sanitiser works gap by gap: a copied character splits the work in two. */
  lemma SanitizeSplits(a: string, k: char, b: string)
    requires IsKept(k)
    ensures Sanitize(a + [k] + b) == Sanitize(a) + [k] + Sanitize(b)
  {
    RunUpToKept("", a, k, b);
    RunAfterKept(Sanitize(a), k, "", b);
    assert Sanitize(a) + [k] + "" == Sanitize(a) + [k];
  }

  /** How many `/` and `:` stand at the front. */
  function Slashes(g: string): (n: nat)
    ensures n <= |g| && forall i | 0 <= i < n :: g[i] == '/' || g[i] == ':'
    ensures n < |g| ==> g[n] != '/' && g[n] != ':'
  {
    if g != "" && IsSlash(g[0]) then 1 + Slashes(g[1..]) else 0
  }

  /** Only ASCII non-alphanumerics. */
  predicate IsBlock(g: string) { forall i | 0 <= i < |g| :: IsAsciiOther(g[i]) }

  /** Nothing the sanitiser copies. */
  predicate IsGap(g: string) { forall i | 0 <= i < |g| :: !IsKept(g[i]) }

  function Dots(n: nat): (r: string)
    ensures |r| == n && forall i | 0 <= i < n :: r[i] == '.'
  {
    if n == 0 then "" else "." + Dots(n - 1)
  }

  /** What `out` and a block after it become. */
  function BlockText(out: string, g: string): string {
    var n := Slashes(g);
    if n == |g| then out + Dots(n)
    else if IsWhitespace(g[n]) then "_"
    else if out == "" && |g| == 1 && IsSeparator(g[0]) then g
    else "-"
  }

  /** `out` with a `-` where it does not end in `.` or `-`. */
  function Marked(out: string): string { if EndsWith(out, '.') || EndsWith(out, '-') then out else out + "-" }

  /** Where the block at the end of `g` starts. */
  function LastBlock(g: string): (k: nat)
    ensures k <= |g| && IsBlock(g[k..]) && (k > 0 ==> !IsAsciiOther(g[k - 1]))
  {
    if g == "" || !IsAsciiOther(g[|g| - 1]) then |g| else LastBlock(g[..|g| - 1])
  }

  /** What `out`, a character outside ASCII that is not copied and a block after it become. */
  function WideText(out: string, x: char, b: string): string {
    if IsWhitespace(x) then "_" else BlockText(Marked(out), b)
  }

  /**
   * What a gap becomes. Whitespace outside ASCII replaces all before it and the block after it;
   * a bidi control or U+FFFD marks what came before it, and the block after it goes on from there.
   */
  function GapText(g: string): string
    decreases |g|
  {
    var k := LastBlock(g);
    if k == 0 then BlockText("", g)
    else WideText(GapText(g[..k - 1]), g[k - 1], g[k..])
  }

  lemma {:induction false} RunSlashes(out: string, g: string)
    ensures Run(out, g) == Run(out + Dots(Slashes(g)), g[Slashes(g)..])
    decreases |g|
  {
    if g != "" && IsSlash(g[0]) {
      var n := Slashes(g[1..]);
      assert Turn(out, g) == (out + ".", g[1..]);
      RunSlashes(out + ".", g[1..]);
      assert g[1..][n..] == g[n + 1..];
      assert out + "." + Dots(n) == out + Dots(n + 1);
    } else {
      assert out + "" == out && g[0..] == g;
    }
  }

  lemma {:induction false} AllPopped(g: string)
    requires IsBlock(g)
    ensures Pop(g) == ""
  {
    if g != "" {
      AllPopped(g[..|g| - 1]);
    }
  }

  lemma {:induction false} AllSkipped(g: string)
    requires IsBlock(g)
    ensures Skip(g) == ""
  {
    if g != "" {
      AllSkipped(g[1..]);
    }
  }

  /** A turn on a block that does not start with `/` or `:` reads all of it. */
  lemma TurnTakesBlock(out: string, g: string)
    requires IsBlock(out) && IsBlock(g) && g != "" && !IsSlash(g[0])
    ensures Turn(out, g).1 == ""
    ensures Turn(out, g).0 == if IsWhitespace(g[0]) then "_"
                              else if out == "" && |g| == 1 && IsSeparator(g[0]) then g
                              else "-"
  {
    AllPopped(out);
    AllSkipped(g[1..]);
  }

  lemma LastTurn(out: string, rest: string, last: string)
    requires rest != "" && Turn(out, rest) == (last, "")
    ensures Run(out, rest) == last
  {
  }

  lemma RestOfBlock(out: string, g: string)
    requires IsBlock(out) && IsBlock(g) && g != "" && !IsSlash(g[0])
    ensures Run(out, g) == if IsWhitespace(g[0]) then "_"
                           else if out == "" && |g| == 1 && IsSeparator(g[0]) then g
                           else "-"
  {
    TurnTakesBlock(out, g);
    LastTurn(out, g, Turn(out, g).0);
  }

  lemma BlockIs(out: string, g: string)
    requires IsBlock(out) && IsBlock(g)
    ensures Run(out, g) == BlockText(out, g)
  {
    var n := Slashes(g);
    RunSlashes(out, g);
    if n < |g| {
      RestOfBlock(out + Dots(n), g[n..]);
      assert n == 0 ==> out + Dots(n) == out && g[n..] == g;
    }
  }

  lemma TurnStaysBlock(out: string, rest: string)
    requires IsBlock(out) && rest != "" && !IsKept(rest[0])
    ensures IsBlock(Turn(out, rest).0)
  {
    AllPopped(out);
  }

  lemma SkipGap(rest: string)
    requires IsGap(rest)
    ensures IsGap(Skip(rest))
  {
    if rest != "" && IsAsciiOther(rest[0]) {
      SkipGap(rest[1..]);
    }
  }

  /** A gap is written with ASCII only. */
  lemma {:induction false} RunStaysBlock(out: string, g: string)
    requires IsBlock(out) && IsGap(g)
    ensures IsBlock(Run(out, g))
    decreases |g|
  {
    if g != "" {
      TurnStaysBlock(out, g);
      SkipGap(g[1..]);
      RunStaysBlock(Turn(out, g).0, Turn(out, g).1);
    }
  }

  /** The loop can be cut in front of any character that is not skipped. */
  lemma {:induction false} RunCuts(out: string, a: string, k: char, b: string)
    requires !IsAsciiOther(k)
    ensures Run(out, a + [k] + b) == Run(Run(out, a), [k] + b)
    decreases |a|
  {
    if a == "" {
      assert a + [k] + b == [k] + b;
    } else {
      TurnStops(out, a, k, b);
      RunCuts(Turn(out, a).0, Turn(out, a).1, k, b);
    }
  }

  /** What is outside ASCII in a gap, with the block after it. */
  lemma WideIs(out: string, k: char, b: string)
    requires IsBlock(out) && IsBlock(b) && !IsKept(k) && !IsAsciiOther(k)
    ensures Run(out, [k] + b) == WideText(out, k, b)
  {
    assert ([k] + b)[0] == k && ([k] + b)[1..] == b;
    if IsWhitespace(k) {
      AllPopped(out);
      AllSkipped(b);
      assert Turn(out, [k] + b) == ("" + "_", "") && "" + "_" == "_";
    } else {
      assert Turn(out, [k] + b) == (Marked(out), b);
      BlockIs(Marked(out), b);
    }
  }

  lemma GapEndsIn(a: string, x: char, b: string)
    requires IsGap(a) && !IsKept(x) && !IsAsciiOther(x) && IsBlock(b)
    ensures Sanitize(a + [x] + b) == WideText(Sanitize(a), x, b)
  {
    RunCuts("", a, x, b);
    RunStaysBlock("", a);
    WideIs(Sanitize(a), x, b);
  }

  lemma GapEndsAt(g: string, k: nat)
    requires IsGap(g) && 0 < k <= |g| && !IsAsciiOther(g[k - 1]) && IsBlock(g[k..])
    ensures IsGap(g[..k - 1]) && Sanitize(g) == WideText(Sanitize(g[..k - 1]), g[k - 1], g[k..])
  {
    GapEndsIn(g[..k - 1], g[k - 1], g[k..]);
    assert g == g[..k - 1] + [g[k - 1]] + g[k..];
  }

  lemma GapIsBlock(g: string)
    requires LastBlock(g) == 0
    ensures Sanitize(g) == GapText(g)
  {
    assert g[0..] == g;
    BlockIs("", g);
  }

  /** Every gap, exactly: with `SanitizeSplits`, every output. */
  lemma {:induction false} GapIs(g: string)
    requires IsGap(g)
    ensures Sanitize(g) == GapText(g)
    decreases |g|
  {
    var k := LastBlock(g);
    if k == 0 {
      GapIsBlock(g);
    } else {
      GapEndsAt(g, k);
      GapIs(g[..k - 1]);
    }
  }

  lemma EndsInMark(out: string, n: nat)
    requires out == "" || EndsWith(out, '.') || EndsWith(out, '-')
    ensures out + Dots(n) != "_"
  {
    var r := out + Dots(n);
    assert r != "" ==> r[|r| - 1] == '.' || r[|r| - 1] == '-';
  }

  lemma BlockUnderscoreIff(out: string, g: string)
    requires out == "" || EndsWith(out, '.') || EndsWith(out, '-')
    ensures BlockText(out, g) == "_" <==>
              (out == "" && g == "_") || (Slashes(g) < |g| && IsWhitespace(g[Slashes(g)]))
  {
    var n := Slashes(g);
    if n == |g| {
      EndsInMark(out, n);
    } else {
      assert "-"[0] != "_"[0];
    }
  }

  /** The last character of `g` outside ASCII is whitespace, or the first other than `/` and `:` after it is. */
  predicate EndsInWhitespace(g: string) {
    var k := LastBlock(g);
    var n := Slashes(g[k..]);
    (k > 0 && IsWhitespace(g[k - 1])) || (n < |g[k..]| && IsWhitespace(g[k..][n]))
  }

  lemma UnderscoreIff(g: string)
    ensures GapText(g) == "_" <==> g == "_" || EndsInWhitespace(g)
  {
    var k := LastBlock(g);
    if k == 0 {
      assert g[0..] == g;
      BlockUnderscoreIff("", g);
    } else {
      assert g != "_" by {
        assert "_"[0] == '_' && IsAsciiOther('_');
      }
      BlockUnderscoreIff(Marked(GapText(g[..k - 1])), g[k..]);
    }
  }

  /**
   * A gap becomes a single `_` exactly when it is one, or its last character outside ASCII is
   * whitespace, or the first character other than `/` and `:` after that is. The comment above
   * the loop promises it of every gap of ASCII and whitespace that has whitespace.
   */
  lemma WhitespaceGapIff(g: string)
    requires IsGap(g)
    ensures Sanitize(g) == "_" <==> g == "_" || EndsInWhitespace(g)
  {
    GapIs(g);
    UnderscoreIff(g);
  }

  lemma HyphenSpaceText(a: char, b: char)
    requires IsKept(a) && IsKept(b)
    ensures Sanitize([a, '-', ' ', b]) == [a, '-', b]
  {
    assert Sanitize("- ") == "-" by {
      BlockIs("", "- ");
    }
    assert Sanitize("- " + [b] + "") == ['-', b] by {
      SanitizeSplits("- ", b, "");
    }
    SanitizeSplits("", a, "- " + [b] + "");
    assert [a, '-', ' ', b] == "" + [a] + ("- " + [b] + "");
    assert [a, '-', b] == "" + [a] + ['-', b];
  }

  /** A hyphen and a space between copied characters: trimming leaves them, and they become `-`. */
  lemma HyphenSpaceKeepsHyphen(ignorable: char -> bool, a: char, b: char)
    requires IsKept(a) && IsKept(b) && !IsTrimmed(ignorable, a) && !IsTrimmed(ignorable, b)
    ensures TrimEnd(ignorable, TrimStart(ignorable, [a, '-', ' ', b])) == [a, '-', ' ', b]
    ensures Sanitize([a, '-', ' ', b]) == [a, '-', b]
  {
    HyphenSpaceText(a, b);
  }

  /** A bidi control or U+FFFD adds a `-` unless a `-` or `.` is already there. */
  lemma RunUnsafeLast(out: string, s: string, u: char)
    requires IsUnsafe(u)
    ensures Run(out, s + [u]) == Marked(Run(out, s))
  {
    RunCuts(out, s, u, "");
    assert s + [u] + "" == s + [u];
    LastTurn(Run(out, s), [u] + "", Marked(Run(out, s)));
  }
}
