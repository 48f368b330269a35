/**
 * Sysand package URLs (core/src/purl.rs) and the shorthand that stands for them
 * (core/src/commands/add.rs). A string is the sequence of its UTF-8 bytes.
 */
module Purl {
  import opened Common

  datatype FieldKind = Publisher | Name

  predicate IsLowerOrDigit(b: char) { 'a' <= b <= 'z' || '0' <= b <= '9' }

  predicate IsSeparator(kind: FieldKind, b: char) { b == '-' || (kind.Name? && b == '.') }

  /** First and last byte, then every two-byte window of all but the last byte. */
  predicate Scans(s: string, kind: FieldKind) {
    && s != "" && IsLowerOrDigit(s[0]) && IsLowerOrDigit(s[|s| - 1])
    && forall i | 1 <= i < |s| - 1 ::
         IsLowerOrDigit(s[i]) || (IsSeparator(kind, s[i]) && IsLowerOrDigit(s[i - 1]))
  }

  predicate IsValidPart(s: string, kind: FieldKind) { 3 <= |s| <= 50 && Scans(s, kind) }

  // ---- the grammar ----

  predicate IsWord(w: string) { w != "" && forall c | c in w :: IsLowerOrDigit(c) }

  function Join(words: seq<string>, separators: string): string
    requires |words| == |separators| + 1
  {
    if separators == "" then words[0]
    else words[0] + [separators[0]] + Join(words[1..], separators[1..])
  }

  ghost predicate Spells(words: seq<string>, separators: string, kind: FieldKind, s: string) {
    && |words| == |separators| + 1
    && (forall w | w in words :: IsWord(w))
    && (forall c | c in separators :: c == '-' || (kind.Name? && c == '.'))
    && s == Join(words, separators)
  }

  /** Words of lower-case letters and digits joined by single separators. */
  ghost predicate InGrammar(s: string, kind: FieldKind) {
    exists words: seq<string>, separators: string :: Spells(words, separators, kind, s)
  }

  lemma WordScans(w: string, c: char, tail: string, kind: FieldKind)
    requires IsWord(w) && IsSeparator(kind, c) && Scans(tail, kind)
    ensures Scans(w + [c] + tail, kind)
  {
    var s, n := w + [c] + tail, |w|;
    assert s[|s| - 1] == tail[|tail| - 1];
    forall i | 1 <= i < |s| - 1
      ensures IsLowerOrDigit(s[i]) || (IsSeparator(kind, s[i]) && IsLowerOrDigit(s[i - 1]))
    {
      if i < n {
        assert s[i] == w[i] && w[i] in w;
      } else if i == n {
        assert s[i - 1] == w[i - 1] && w[i - 1] in w;
      } else {
        assert s[i] == tail[i - n - 1] && (i > n + 1 ==> s[i - 1] == tail[i - n - 2]);
      }
    }
    assert s[0] == w[0] && w[0] in w;
  }

  lemma {:induction false} GrammarScans(words: seq<string>, separators: string, kind: FieldKind)
    requires |words| == |separators| + 1 && Spells(words, separators, kind, Join(words, separators))
    ensures Scans(Join(words, separators), kind)
    decreases |separators|
  {
    assert IsWord(words[0]);
    if separators == "" {
      assert forall i | 0 <= i < |words[0]| :: words[0][i] in words[0];
    } else {
      assert separators[0] in separators;
      assert forall v | v in words[1..] :: v in words;
      assert forall c | c in separators[1..] :: c in separators;
      GrammarScans(words[1..], separators[1..], kind);
      WordScans(words[0], separators[0], Join(words[1..], separators[1..]), kind);
    }
  }

  function FirstSeparator(s: string): (k: nat)
    ensures k <= |s| && (forall i | 0 <= i < k :: IsLowerOrDigit(s[i]))
    ensures k < |s| ==> !IsLowerOrDigit(s[k])
  {
    if s != "" && IsLowerOrDigit(s[0]) then 1 + FirstSeparator(s[1..]) else 0
  }

  lemma {:induction false} ScanInGrammar(s: string, kind: FieldKind) returns (words: seq<string>, separators: string)
    requires Scans(s, kind)
    ensures Spells(words, separators, kind, s)
    decreases |s|
  {
    var k := FirstSeparator(s);
    if k == |s| {
      words, separators := [s], "";
    } else {
      var tail := s[k + 1..];
      assert Scans(tail, kind);
      var ws, ss := ScanInGrammar(tail, kind);
      words, separators := [s[..k]] + ws, [s[k]] + ss;
      assert words[1..] == ws && separators[1..] == ss;
      assert s == s[..k] + [s[k]] + tail;
    }
  }

  /** The scan accepts exactly the 3 to 50 bytes long members of the grammar. */
  lemma ValidPartIffGrammar(s: string, kind: FieldKind)
    ensures IsValidPart(s, kind) <==> 3 <= |s| <= 50 && InGrammar(s, kind)
  {
    if IsValidPart(s, kind) {
      var words, separators := ScanInGrammar(s, kind);
    }
    if 3 <= |s| <= 50 && InGrammar(s, kind) {
      var words: seq<string>, separators: string :| Spells(words, separators, kind, s);
      GrammarScans(words, separators, kind);
    }
  }

  // ---- normalisation ----

  function NormalizeField(s: string): (r: string)
    ensures |r| == |s|
  {
    seq(|s|, i requires 0 <= i < |s| => if s[i] == ' ' then '-' else LowerChar(s[i]))
  }

  predicate IsValidUnnormalized(s: string, kind: FieldKind) { IsValidPart(NormalizeField(s), kind) }

  /** A valid part is already normalised; normalising twice is normalising once. */
  lemma NormalizeFixed(s: string, kind: FieldKind)
    ensures IsValidPart(s, kind) ==> NormalizeField(s) == s
    ensures NormalizeField(NormalizeField(s)) == NormalizeField(s)
  {
    if IsValidPart(s, kind) {
      assert forall i | 0 <= i < |s| :: IsLowerOrDigit(s[i]) || IsSeparator(kind, s[i]);
    }
  }

  // ---- parsing ----

  datatype PurlError =
    | WrongShape(segments: nat)
    | InvalidPublisher(publisher: string)
    | InvalidName(name: string)
    | NotNormalized(normPublisher: string, normName: string)

  datatype Parsed = NotPurl | Purl(publisher: string, name: string) | Malformed(error: PurlError)

  const PREFIX := "pkg:sysand/"

  /** The prefix, its scheme in any case. */
  predicate HasPrefix(iri: string) {
    |iri| >= 11 && LowerChar(iri[0]) == 'p' && LowerChar(iri[1]) == 'k' && LowerChar(iri[2]) == 'g' &&
        iri[3..11] == ":sysand/"
  }

  function ParsePurl(iri: string): Parsed {
    if !HasPrefix(iri) then NotPurl
    else
      var parts := Split(iri[11..], '/');
      if |parts| != 2 then Malformed(WrongShape(|parts|))
      else
        var publisher, name := parts[0], parts[1];
        var badPublisher, badName := !IsValidPart(publisher, Publisher), !IsValidPart(name, Name);
        if badPublisher || badName then
          if IsValidUnnormalized(name, Name) && IsValidUnnormalized(publisher, Publisher) then
            Malformed(NotNormalized(NormalizeField(publisher), NormalizeField(name)))
          else if badPublisher then Malformed(InvalidPublisher(publisher))
          else Malformed(InvalidName(name))
        else Purl(publisher, name)
  }

  function Print(publisher: string, name: string): string { PREFIX + publisher + "/" + name }

  lemma ValidPartHasNoSlash(s: string, kind: FieldKind)
    requires IsValidPart(s, kind)
    ensures '/' !in s && ':' !in s && '_' !in s
  {
  }

  /** Spaces become hyphens and capitals small letters; nothing else changes. */
  lemma NormalizeFieldIs(s: string, i: nat)
    requires i < |s|
    ensures var c := NormalizeField(s)[i];
            if s[i] == ' ' then c == '-'
            else if 'A' <= s[i] <= 'Z' then c as int == s[i] as int + 32
            else c == s[i]
  {
  }

  function Count(s: string, d: char): nat {
    if s == "" then 0 else (if s[0] == d then 1 else 0) + Count(s[1..], d)
  }

  lemma {:induction false} SplitCount(s: string, d: char)
    ensures |Split(s, d)| == 1 + Count(s, d)
  {
    if s != "" {
      SplitCount(s[1..], d);
    }
  }

  /** The prefix in any case of its three letters; without it a text is none of ours. */
  lemma PrefixIff(iri: string)
    ensures ParsePurl(iri) != NotPurl <==>
              && |iri| >= 11 && (iri[0] == 'p' || iri[0] == 'P') && (iri[1] == 'k' || iri[1] == 'K')
              && (iri[2] == 'g' || iri[2] == 'G') && iri[3..11] == ":sysand/"
  {
  }

  /** Any number of slashes but one is the wrong shape, and is counted. */
  lemma ShapeIff(iri: string, n: nat)
    ensures ParsePurl(iri) == Malformed(WrongShape(n)) <==>
              HasPrefix(iri) && Count(iri[11..], '/') != 1 && n == Count(iri[11..], '/') + 1
  {
    if HasPrefix(iri) {
      SplitCount(iri[11..], '/');
    }
  }

  /** What a pair parses to: itself, a suggestion where both parts normalise to valid ones, or its first bad part. */
  lemma PairIs(iri: string, publisher: string, name: string)
    requires HasPrefix(iri) && iri[11..] == publisher + "/" + name && '/' !in publisher && '/' !in name
    ensures var ok := IsValidPart(publisher, Publisher) && IsValidPart(name, Name);
            var near := IsValidPart(NormalizeField(publisher), Publisher) && IsValidPart(NormalizeField(name), Name);
            && (ok ==> ParsePurl(iri) == Purl(publisher, name))
            && (!ok && near ==>
                  ParsePurl(iri) == Malformed(NotNormalized(NormalizeField(publisher), NormalizeField(name))))
            && (!ok && !near && !IsValidPart(publisher, Publisher) ==>
                  ParsePurl(iri) == Malformed(InvalidPublisher(publisher)))
            && (!ok && !near && IsValidPart(publisher, Publisher) ==>
                  ParsePurl(iri) == Malformed(InvalidName(name)))
  {
    SplitPair(publisher, name, '/');
  }

  /** Exactly the prefix, a valid publisher, `/` and a valid name parse, and to those two. */
  lemma ParseIff(iri: string, publisher: string, name: string)
    ensures ParsePurl(iri) == Purl(publisher, name) <==>
              && HasPrefix(iri) && iri[11..] == publisher + "/" + name
              && IsValidPart(publisher, Publisher) && IsValidPart(name, Name)
  {
    if ParsePurl(iri) == Purl(publisher, name) {
      SplitSound(iri[11..], '/');
    }
    if IsValidPart(publisher, Publisher) && IsValidPart(name, Name) {
      ValidPartHasNoSlash(publisher, Publisher);
      ValidPartHasNoSlash(name, Name);
      SplitPair(publisher, name, '/');
    }
  }

  /** Printing a valid pair and parsing it returns the pair. */
  lemma PrintThenParse(publisher: string, name: string)
    requires IsValidPart(publisher, Publisher) && IsValidPart(name, Name)
    ensures ParsePurl(Print(publisher, name)) == Purl(publisher, name)
  {
    var iri := Print(publisher, name);
    assert iri[..11] == PREFIX;
    assert iri[0] == 'p' && iri[1] == 'k' && iri[2] == 'g' && iri[3..11] == PREFIX[3..11];
    assert iri[11..] == publisher + "/" + name;
    ParseIff(iri, publisher, name);
  }

  /** Whatever is suggested instead of a text that is not normalised itself parses, to that pair. */
  lemma SuggestionParses(iri: string)
    requires ParsePurl(iri).Malformed? && ParsePurl(iri).error.NotNormalized?
    ensures var e := ParsePurl(iri).error;
            ParsePurl(Print(e.normPublisher, e.normName)) == Purl(e.normPublisher, e.normName)
  {
    var e := ParsePurl(iri).error;
    PrintThenParse(e.normPublisher, e.normName);
  }

  // ---- shorthand ----

  /** `Unreachable` is the `unreachable!()` arm. */
  datatype Expansion = Expanded(purl: string) | NotShorthand | Rejected(error: PurlError) | Unreachable

  function ExpandShorthand(resource: string): Expansion {
    if ':' !in resource && |Split(resource, '/')| == 2 then
      var purl := PREFIX + resource;
      match ParsePurl(purl)
      case Purl(_, _) => Expanded(purl)
      case Malformed(WrongShape(_)) => Unreachable
      case NotPurl => Unreachable
      case Malformed(e) => Rejected(e)
    else NotShorthand
  }

  lemma PrefixedIs(resource: string)
    ensures HasPrefix(PREFIX + resource) && (PREFIX + resource)[11..] == resource
  {
    var whole := PREFIX + resource;
    assert whole[0] == 'p' && whole[1] == 'k' && whole[2] == 'g' && whole[3..11] == PREFIX[3..11];
  }

  lemma PrintIs(publisher: string, name: string)
    ensures Print(publisher, name) == PREFIX + (publisher + "/" + name)
  {
  }

  ghost predicate Names(resource: string, purl: string, publisher: string, name: string) {
    && IsValidPart(publisher, Publisher) && IsValidPart(name, Name)
    && resource == publisher + "/" + name && purl == Print(publisher, name)
  }

  lemma ExpandedIsPrinted(resource: string, purl: string)
    requires ExpandShorthand(resource) == Expanded(purl)
    ensures exists publisher, name :: Names(resource, purl, publisher, name)
  {
    PrefixedIs(resource);
    var p := ParsePurl(PREFIX + resource);
    ParseIff(PREFIX + resource, p.publisher, p.name);
    PrintIs(p.publisher, p.name);
    assert Names(resource, purl, p.publisher, p.name);
  }

  lemma PrintedIsExpanded(resource: string, purl: string, publisher: string, name: string)
    requires Names(resource, purl, publisher, name)
    ensures ExpandShorthand(resource) == Expanded(purl)
  {
    PrefixedIs(resource);
    PrintIs(publisher, name);
    ValidPartHasNoSlash(publisher, Publisher);
    ValidPartHasNoSlash(name, Name);
    SplitPair(publisher, name, '/');
    ParseIff(PREFIX + resource, publisher, name);
  }

  /** The `unreachable!()` arm is never taken, and what is expanded is what the pair prints as. */
  lemma ExpansionReachable(resource: string)
    ensures ExpandShorthand(resource) != Unreachable
    ensures forall purl :: ExpandShorthand(resource) == Expanded(purl) <==>
              exists publisher, name :: Names(resource, purl, publisher, name)
  {
    PrefixedIs(resource);
    forall purl | ExpandShorthand(resource) == Expanded(purl)
      ensures exists publisher, name :: Names(resource, purl, publisher, name)
    {
      ExpandedIsPrinted(resource, purl);
    }
    forall purl, publisher, name | Names(resource, purl, publisher, name)
      ensures ExpandShorthand(resource) == Expanded(purl)
    {
      PrintedIsExpanded(resource, purl, publisher, name);
    }
  }

  /** What is taken for shorthand: text without `:` and with one `/`; what is wrong with it is what parsing says. */
  lemma ShorthandIff(resource: string)
    ensures ExpandShorthand(resource) == NotShorthand <==> ':' in resource || Count(resource, '/') != 1
    ensures forall e :: ExpandShorthand(resource) == Rejected(e) ==> ParsePurl(PREFIX + resource) == Malformed(e)
    ensures ':' !in resource && Count(resource, '/') == 1 && ParsePurl(PREFIX + resource).Malformed? ==>
              ExpandShorthand(resource) == Rejected(ParsePurl(PREFIX + resource).error)
  {
    PrefixedIs(resource);
    SplitCount(resource, '/');
  }
}
