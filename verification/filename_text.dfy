/** What the name part of an IRI is made of (core/src/iri_normalize.rs, `iri_to_filename_part`). */
module FilenameText {
  import opened Common
  import opened Chars
  import opened Utf8
  import Decoder
  import Purl
  import Sanitizer
  import opened VersionName
  import opened Filename

  // ---- labels ----

  /** The labels with a `.` between them. */
  function Dotted(labels: seq<string>): string {
    if labels == [] then "" else if |labels| == 1 then labels[0] else labels[0] + "." + Dotted(labels[1..])
  }

  lemma {:induction false} SplitHead(a: string, rest: string, d: char)
    requires d !in a
    ensures Split(a + [d] + rest, d) == [a] + Split(rest, d)
  {
    var s := a + [d] + rest;
    if a == "" {
      assert s[0] == d && s[1..] == rest;
    } else {
      assert a[0] in a && a == [a[0]] + a[1..];
      assert s[0] == a[0] && s[1..] == a[1..] + [d] + rest;
      SplitHead(a[1..], rest, d);
    }
  }

  /** Splitting at `.` undoes joining with it. */
  lemma {:induction false} SplitDotted(labels: seq<string>)
    requires labels != [] && forall l | l in labels :: '.' !in l
    ensures Split(Dotted(labels), '.') == labels
  {
    assert labels[0] in labels && forall l | l in labels[1..] :: l in labels;
    if |labels| == 1 {
      SplitOne(labels[0], '.');
    } else {
      SplitDotted(labels[1..]);
      SplitHead(labels[0], Dotted(labels[1..]), '.');
      assert labels == [labels[0]] + labels[1..];
    }
  }

  lemma {:induction false} DottedAppend(labels: seq<string>, last: string)
    requires labels != []
    ensures Dotted(labels + [last]) == Dotted(labels) + "." + last
  {
    var all := labels + [last];
    assert all[1..] == labels[1..] + [last];
    if |labels| > 1 {
      DottedAppend(labels[1..], last);
      assert labels[0] + "." + (Dotted(labels[1..]) + "." + last) == labels[0] + "." + Dotted(labels[1..]) + "." + last;
    } else {
      assert all[1..] == [last];
    }
  }

  /** `text` is the label, decoded where it is Punycode that decodes. */
  predicate Decodes(punycode: string -> Option<string>, part: string, text: string) {
    if |part| >= 4 && part[..4] == "xn--" && punycode(part[4..]).Some? then punycode(part[4..]) == Some(text)
    else text == part
  }

  lemma DecodesIff(punycode: string -> Option<string>, part: string, text: string)
    ensures Decodes(punycode, part, text) <==> text == LabelText(punycode, part)
  {
    assert "xn--" <= part <==> |part| >= 4 && part[..4] == "xn--";
  }

  lemma {:induction false} HostTextIs(punycode: string -> Option<string>, labels: seq<string>, texts: seq<string>)
    requires labels != [] && |labels| == |texts|
    requires forall i | 0 <= i < |labels| :: Decodes(punycode, labels[i], texts[i])
    ensures HostText(punycode, labels) == Dotted(texts) + "."
  {
    var n := |labels| - 1;
    DecodesIff(punycode, labels[n], texts[n]);
    if n > 0 {
      HostTextIs(punycode, labels[..n], texts[..n]);
      DottedAppend(texts[..n], texts[n]);
      assert texts == texts[..n] + [texts[n]];
    } else {
      assert labels[..n] == [];
      assert "" + texts[0] == texts[0];
    }
  }

  /** `text` is what stands for the host: its labels, decoded, with dots between them, and a `-`. */
  ghost predicate HostIs(punycode: string -> Option<string>, host: Option<string>, text: string) {
    if host.None? || host.value == "" then text == ""
    else
      exists labels: seq<string>, texts: seq<string> ::
        HostSpelled(punycode, host.value, labels, texts) && text == Dotted(texts) + "-"
  }

  ghost predicate HostSpelled(punycode: string -> Option<string>, host: string, labels: seq<string>,
      texts: seq<string>)
  {
    && labels != [] && (forall l | l in labels :: '.' !in l) && host == Dotted(labels)
    && |labels| == |texts| && forall i | 0 <= i < |labels| :: Decodes(punycode, labels[i], texts[i])
  }

  lemma HostPartIs(punycode: string -> Option<string>, host: Option<string>, text: string)
    requires HostIs(punycode, host, text)
    ensures HostPart(punycode, host) == text
  {
    if host.Some? && host.value != "" {
      var labels: seq<string>, texts: seq<string> :|
        HostSpelled(punycode, host.value, labels, texts) && text == Dotted(texts) + "-";
      SplitDotted(labels);
      HostTextIs(punycode, labels, texts);
      var h := HostText(punycode, labels);
      assert h[..|h| - 1] == Dotted(texts);
    }
  }

  // ---- the text before trimming ----

  /** `short` is `path` less a final `.kpar`. */
  predicate LessKpar(path: string, short: string) {
    path == short + ".kpar" || (path == short && !(|path| >= 5 && path[|path| - 5..] == ".kpar"))
  }

  lemma SuffixBehindHyphen(h: string, path: string)
    ensures var s := h + "-" + path;
            |s| >= 5 && s[|s| - 5..] == ".kpar" <==> |path| >= 5 && path[|path| - 5..] == ".kpar"
  {
    var s := h + "-" + path;
    if |path| >= 5 {
      assert s[|s| - 5..] == path[|path| - 5..];
    } else if |s| >= 5 {
      var tail := s[|s| - 5..];
      assert tail[4 - |path|] == '-';
      assert ".kpar"[0] == '.' && ".kpar"[1] == 'k' && ".kpar"[2] == 'p' && ".kpar"[3] == 'a' && ".kpar"[4] == 'r';
    }
  }

  lemma WithoutKparIs(front: string, path: string, short: string)
    requires LessKpar(path, short) && (front == "" || front[|front| - 1] == '-')
    ensures WithoutKpar(front + path) == front + short
  {
    var s := front + path;
    if front == "" {
      assert s == path && front + short == short;
    } else {
      var h := front[..|front| - 1];
      assert front == h + "-";
      SuffixBehindHyphen(h, path);
    }
    if path == short + ".kpar" {
      assert path[|path| - 5..] == ".kpar";
      assert s[..|s| - 5] == front + short;
    }
  }

  /** What is behind the path. */
  predicate QueryIs(query: Option<seq<Decoder.Chunk>>, text: string) {
    if query.None? then text == "" else text == "-" + Lossy(Decoder.Bytes(query.value))
  }

  /** Host, path and query, in this order. */
  ghost predicate Spells(punycode: string -> Option<string>, iri: CanonicalIri, host: string, path: string,
      query: string)
  {
    && HostIs(punycode, iri.host, host)
    && LessKpar(Lossy(Decoder.Bytes(iri.path)), path)
    && QueryIs(iri.query, query)
  }

  /** The text before trimming: host labels and `-`, the path's decode less `.kpar`, `-` and the query's decode. */
  lemma RawTextIs(punycode: string -> Option<string>, iri: CanonicalIri, host: string, path: string, query: string)
    requires Spells(punycode, iri, host, path, query)
    ensures RawText(punycode, iri) == host + path + query
  {
    HostPartIs(punycode, iri.host, host);
    WithoutKparIs(host, Lossy(Decoder.Bytes(iri.path)), path);
    assert host + path + "" == host + path;
    if iri.query.Some? {
      var q := Lossy(Decoder.Bytes(iri.query.value));
      assert host + path + "-" + q == host + path + ("-" + q);
    }
  }

  // ---- the name part ----

  /** A character that neither trimming nor the sanitiser touches. */
  predicate Copied(ignorable: char -> bool, c: char) { Sanitizer.IsKept(c) && !IsTrimmed(ignorable, c) }

  /** The sanitised text keeps the copied characters of host, path and query in this order. */
  lemma CopiedKept(u: Unicode, host: string, path: string, query: string, trimmed: string)
    requires IsTrimOf(Trims(u.ignorable), host + path + query, trimmed)
    ensures var p := (c: char) => Copied(u.ignorable, c);
            Filter(p, Sanitizer.Sanitize(trimmed)) == Filter(p, host) + Filter(p, path) + Filter(p, query)
  {
    var p := (c: char) => Copied(u.ignorable, c);
    Sanitizer.RunFilter(p, "", trimmed);
    assert "" + Filter(p, trimmed) == Filter(p, trimmed);
    FilterTrim(p, Trims(u.ignorable), host + path + query, trimmed);
    FilterConcat(p, host, path);
    FilterConcat(p, host + path, query);
  }

  /**
   * The name part of an IRI that is not a package URL: host, path and query trimmed, sanitised,
   * folded, composed, cut to 120 bytes and trimmed; before folding it has their copied
   * characters in this order.
   */
  lemma FilenamePartIs(u: Unicode, punycode: string -> Option<string>, iri: CanonicalIri, host: string, path: string,
      query: string)
    returns (trimmed: string)
    requires Spells(punycode, iri, host, path, query) && !Purl.ParsePurl(iri.text).Purl?
    ensures IsTrimOf(Trims(u.ignorable), host + path + query, trimmed)
    ensures IsCut(u.ignorable, u.nfc(u.fold(Sanitizer.Sanitize(trimmed))), 120, FilenamePart(u, punycode, iri))
    ensures var p := (c: char) => Copied(u.ignorable, c);
            Filter(p, Sanitizer.Sanitize(trimmed)) == Filter(p, host) + Filter(p, path) + Filter(p, query)
  {
    var raw := host + path + query;
    RawTextIs(punycode, iri, host, path, query);
    trimmed := TrimEnd(u.ignorable, TrimStart(u.ignorable, raw));
    TrimIs(u.ignorable, raw);
    CutIs(u.ignorable, u.nfc(u.fold(Sanitizer.Sanitize(trimmed))), 120);
    CopiedKept(u, host, path, query, trimmed);
  }

  /** The name part of a package URL: publisher, `-`, name. */
  lemma PurlPartIs(u: Unicode, punycode: string -> Option<string>, iri: CanonicalIri, publisher: string, name: string)
    requires Purl.HasPrefix(iri.text) && iri.text[11..] == publisher + "/" + name
    requires Purl.IsValidPart(publisher, Purl.Publisher) && Purl.IsValidPart(name, Purl.Name)
    ensures FilenamePart(u, punycode, iri) == publisher + "-" + name
  {
    Purl.ParseIff(iri.text, publisher, name);
  }

  /** Every host can be spelled so, and every path and query: the description above is never empty. */
  lemma SomeSpelling(punycode: string -> Option<string>, iri: CanonicalIri)
    ensures exists host, path, query :: Spells(punycode, iri, host, path, query)
  {
    var decode := Lossy(Decoder.Bytes(iri.path));
    var path := WithoutKpar(decode);
    assert LessKpar(decode, path) by {
      if |decode| >= 5 && decode[|decode| - 5..] == ".kpar" {
        assert decode == decode[..|decode| - 5] + decode[|decode| - 5..];
      }
    }
    var query := if iri.query.None? then "" else "-" + Lossy(Decoder.Bytes(iri.query.value));
    var host := "";
    if iri.host.Some? && iri.host.value != "" {
      var labels := Split(iri.host.value, '.');
      var texts := Map((l: string) => LabelText(punycode, l), labels);
      SplitJoins(iri.host.value);
      forall i | 0 <= i < |labels|
        ensures Decodes(punycode, labels[i], texts[i])
      {
        DecodesIff(punycode, labels[i], texts[i]);
      }
      assert HostSpelled(punycode, iri.host.value, labels, texts);
      host := Dotted(texts) + "-";
    }
    assert Spells(punycode, iri, host, path, query);
  }

  lemma {:induction false} SplitJoins(s: string)
    ensures Dotted(Split(s, '.')) == s && forall l | l in Split(s, '.') :: '.' !in l
  {
    if s != "" {
      SplitJoins(s[1..]);
      var rest := Split(s[1..], '.');
      assert rest[0] in rest && forall l | l in rest[1..] :: l in rest;
      assert s == [s[0]] + s[1..];
      var all := Split(s, '.');
      if s[0] == '.' {
        assert all[1..] == rest;
        assert "" + "." + s[1..] == s;
      } else {
        assert all[1..] == rest[1..];
        if |rest| > 1 {
          assert [s[0]] + (rest[0] + "." + Dotted(rest[1..])) == ([s[0]] + rest[0]) + "." + Dotted(rest[1..]);
        }
      }
    }
  }

  // ---- numbers ----

  /** The number a string of digits stands for. */
  function Value(s: string): int {
    if s == "" then 0 else 10 * Value(s[..|s| - 1]) + (s[|s| - 1] as int - '0' as int)
  }

  /** The disambiguation number is written in decimal, without leading zeros. */
  lemma {:induction false} DecimalIs(n: nat)
    ensures Value(Decimal(n)) == n && (n > 0 ==> Decimal(n)[0] != '0')
  {
    var s := Decimal(n);
    if n >= 10 {
      DecimalIs(n / 10);
      assert s[..|s| - 1] == Decimal(n / 10);
    } else {
      assert s[..0] == "";
    }
  }

  /** The first candidate is stem and version, the others have their number between them. */
  lemma CandidateIs(stem: string, version: string, n: nat)
    ensures n == 0 ==> Candidate(stem, version, n) == stem + "_" + version
    ensures n > 0 ==> exists number ::
              Value(number) == n && Candidate(stem, version, n) == stem + "_" + number + "_" + version
  {
    DecimalIs(n);
    NumberedCandidate(stem, version, n);
  }
}
