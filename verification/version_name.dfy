/** `normalize_version` of core/src/iri_normalize.rs. */
module VersionName {
  import opened Chars

  const MAX_VERSION_LEN_BYTES: nat := 30

  /** Full case folding, NFC and the Default_Ignorable table: any functions at all. */
  datatype Unicode = Unicode(fold: string -> string, nfc: string -> string, ignorable: char -> bool)

  predicate IsMark(c: char) { c == '.' || c == '-' }

  /** What one character adds to the sanitised version. */
  function Push(out: string, c: char): string {
    var open := !EndsWith(out, '.') && !EndsWith(out, '-');
    if IsAscii(c) then
      if IsAsciiAlphanumeric(c) then out + [c]
      else if open then out + (if c == '.' then "." else "-")
      else out
    else if !IsUnsafe(c) then out + [c]
    else if open then out + "-"
    else out
  }

  function Clean(s: string): string {
    if s == "" then "" else Push(Clean(s[..|s| - 1]), s[|s| - 1])
  }

  function NormalizedVersion(u: Unicode, version: string): string {
    var trimmed := TrimEnd(u.ignorable, TrimStart(u.ignorable, version));
    TrimEnd(u.ignorable, FloorBytes(Clean(u.nfc(u.fold(trimmed))), MAX_VERSION_LEN_BYTES))
  }

  method NormalizeVersion(u: Unicode, version: string) returns (r: string)
    ensures r == NormalizedVersion(u, version)
  {
    var trimmed := TrimEnd(u.ignorable, TrimStart(u.ignorable, version));
    var nfc := u.nfc(u.fold(trimmed));
    var sanitized := "";
    for i := 0 to |nfc|
      invariant sanitized == Clean(nfc[..i])
    {
      assert nfc[..i + 1][..i] == nfc[..i];
      var c := nfc[i];
      if IsAscii(c) {
        if IsAsciiAlphanumeric(c) {
          sanitized := sanitized + [c];
        } else if !EndsWith(sanitized, '.') && !EndsWith(sanitized, '-') {
          if c == '.' {
            sanitized := sanitized + ".";
          } else {
            sanitized := sanitized + "-";
          }
        }
      } else if !IsBidiControl(c) && c != REPLACEMENT {
        sanitized := sanitized + [c];
      } else if !EndsWith(sanitized, '.') && !EndsWith(sanitized, '-') {
        sanitized := sanitized + "-";
      }
    }
    assert nfc[..|nfc|] == nfc;
    var truncated := FloorBytes(sanitized, MAX_VERSION_LEN_BYTES);
    r := TrimEnd(u.ignorable, truncated);
  }

  // ---- what holds of every version string ----

  /** A character that reaches the result. */
  predicate IsKept(c: char) { IsAsciiAlphanumeric(c) || (!IsAscii(c) && !IsUnsafe(c)) }

  predicate IsTidy(s: string) {
    && (forall i | 0 <= i < |s| :: IsKept(s[i]) || IsMark(s[i]))
    && (forall i | 0 < i < |s| :: !(IsMark(s[i - 1]) && IsMark(s[i])))
  }

  lemma {:induction false} CleanTidy(s: string)
    ensures IsTidy(Clean(s))
  {
    if s != "" {
      CleanTidy(s[..|s| - 1]);
    }
  }

  lemma CutTidy(ignorable: char -> bool, s: string)
    requires IsTidy(s)
    ensures IsTidy(TrimEnd(ignorable, FloorBytes(s, MAX_VERSION_LEN_BYTES)))
    ensures ByteLen(TrimEnd(ignorable, FloorBytes(s, MAX_VERSION_LEN_BYTES))) <= MAX_VERSION_LEN_BYTES
  {
    var truncated := FloorBytes(s, MAX_VERSION_LEN_BYTES);
    var r := TrimEnd(ignorable, truncated);
    ByteLenPrefix(r, truncated);
    assert forall i | 0 <= i < |r| :: r[i] == s[i];
  }

  lemma TidyChars(s: string)
    requires IsTidy(s)
    ensures forall c | c in s :: IsAscii(c) ==> IsAsciiAlphanumeric(c) || IsMark(c)
    ensures forall c | c in s :: !IsUnsafe(c)
  {
  }

  /**
   * Whatever folding and NFC return: at most 30 bytes of whole characters; ASCII is
   * alphanumeric, `.` or `-`; no two of `.` and `-` are adjacent; no bidi control or U+FFFD;
   * and nothing that is trimmed at the end.
   */
  lemma VersionOutput(u: Unicode, version: string)
    ensures var r := NormalizedVersion(u, version);
            && ByteLen(r) <= 30
            && (forall c | c in r :: IsAscii(c) ==> IsAsciiAlphanumeric(c) || IsMark(c))
            && (forall c | c in r :: !IsUnsafe(c))
            && (forall i | 0 < i < |r| :: !(IsMark(r[i - 1]) && IsMark(r[i])))
            && (r != "" ==> !IsTrimmed(u.ignorable, r[|r| - 1]))
  {
    var nfc := u.nfc(u.fold(TrimEnd(u.ignorable, TrimStart(u.ignorable, version))));
    CleanTidy(nfc);
    CutTidy(u.ignorable, Clean(nfc));
    TidyChars(NormalizedVersion(u, version));
  }

  lemma PushAfterKept(x: string, k: char, o: string, c: char)
    requires IsKept(k)
    ensures Push(x + [k] + o, c) == x + [k] + Push(o, c)
  {
    var whole := x + [k] + o;
    assert EndsWith(whole, '.') == EndsWith(o, '.') && EndsWith(whole, '-') == EndsWith(o, '-');
  }

  /** A kept character splits the work in two, so a run of other characters is replaced on its own. */
  lemma {:induction false} CleanSplits(a: string, k: char, b: string)
    requires IsKept(k)
    ensures Clean(a + [k] + b) == Clean(a) + [k] + Clean(b)
  {
    var whole := a + [k] + b;
    if b == "" {
      assert whole[..|whole| - 1] == a && whole[|whole| - 1] == k;
      assert Clean(a) + [k] + "" == Clean(a) + [k];
    } else {
      assert whole[..|whole| - 1] == a + [k] + b[..|b| - 1];
      CleanSplits(a, k, b[..|b| - 1]);
      PushAfterKept(Clean(a), k, Clean(b[..|b| - 1]), b[|b| - 1]);
    }
  }

  /** ... by one mark, which its first character decides. */
  lemma {:induction false} CleanGap(g: string)
    requires forall c | c in g :: !IsKept(c)
    ensures Clean(g) == if g == "" then "" else if g[0] == '.' then "." else "-"
  {
    if g != "" {
      var init := g[..|g| - 1];
      assert forall c | c in init :: c in g;
      assert g[|g| - 1] in g;
      CleanGap(init);
    }
  }

  /** A tidy string is its own sanitised form, so sanitising twice is sanitising once. */
  lemma {:induction false} CleanFixed(s: string)
    requires IsTidy(s)
    ensures Clean(s) == s
  {
    if s != "" {
      CleanFixed(s[..|s| - 1]);
    }
  }

  /** The whole of it: trimmed, folded, composed, cleaned, cut to 30 bytes and trimmed again. */
  lemma NormalizedVersionIs(u: Unicode, version: string) returns (trimmed: string)
    ensures IsTrimOf(Trims(u.ignorable), version, trimmed)
    ensures IsCut(u.ignorable, Clean(u.nfc(u.fold(trimmed))), 30, NormalizedVersion(u, version))
  {
    trimmed := TrimEnd(u.ignorable, TrimStart(u.ignorable, version));
    TrimIs(u.ignorable, version);
    CutIs(u.ignorable, Clean(u.nfc(u.fold(trimmed))), 30);
  }
}
