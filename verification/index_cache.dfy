/**
 * `fetch_versions_json` (core/src/env/index.rs) as a protocol: any number of callers check the
 * shared cache, fetch on their own and insert if the slot is still vacant, in any interleaving
 * and against a server that answers as it likes.
 */
module IndexCache {
  import opened Common
  import opened SemVer
  import opened IndexVersions

  type Outcome = Result<Option<seq<Advertised>>, IndexError>

  /** Where a caller is: before the first lock, waiting for the server, before the second lock, done. */
  datatype Phase = Start | Fetching | Inserting(validated: seq<Advertised>) | Done(outcome: Outcome)

  datatype Caller = Caller(iri: string, phase: Phase)

  datatype State = State(cache: map<string, seq<Advertised>>, callers: map<nat, Caller>)

  datatype Answer = Failed | NotFound | Document(entries: seq<VersionEntry>)

  datatype Event = Call(id: nat, iri: string) | Check(id: nat) | Answered(id: nat, answer: Answer) | Insert(id: nat)

  const INIT: State := State(map[], map[])

  predicate Enabled(s: State, e: Event) {
    match e
    case Call(id, _) => id !in s.callers
    case Check(id) => id in s.callers && s.callers[id].phase.Start?
    case Answered(id, _) => id in s.callers && s.callers[id].phase.Fetching?
    case Insert(id) => id in s.callers && s.callers[id].phase.Inserting?
  }

  function SetPhase(s: State, id: nat, phase: Phase): State
    requires id in s.callers
  {
    s.(callers := s.callers[id := Caller(s.callers[id].iri, phase)])
  }

  function OnAnswer(lib: Codec, answer: Answer): Phase {
    match answer
    case Failed => Done(Err(Fetch))
    case NotFound => Done(Ok(None))
    case Document(entries) =>
      match Validate(lib, entries)
      case Err(e) => Done(Err(e))
      case Ok(vs) => Inserting(vs)
  }

  function Step(lib: Codec, s: State, e: Event): State
    requires Enabled(s, e)
  {
    match e
    case Call(id, iri) => s.(callers := s.callers[id := Caller(iri, Start)])
    case Check(id) =>
      var iri := s.callers[id].iri;
      if iri in s.cache then SetPhase(s, id, Done(Ok(Some(s.cache[iri])))) else SetPhase(s, id, Fetching)
    case Answered(id, answer) => SetPhase(s, id, OnAnswer(lib, answer))
    case Insert(id) =>
      var iri := s.callers[id].iri;
      if iri in s.cache then SetPhase(s, id, Done(Ok(Some(s.cache[iri]))))
      else
        var vs := s.callers[id].phase.validated;
        SetPhase(s, id, Done(Ok(Some(vs)))).(cache := s.cache[iri := vs])
  }

  /** `states` is what `events` lead through from the empty cache. */
  ghost predicate IsRun(lib: Codec, states: seq<State>, events: seq<Event>) {
    && |states| == |events| + 1
    && states[0] == INIT
    && forall i | 0 <= i < |events| :: Enabled(states[i], events[i]) && states[i + 1] == Step(lib, states[i], events[i])
  }

  ghost predicate IsValidated(lib: Codec, vs: seq<Advertised>) {
    exists entries :: Validate(lib, entries) == Ok(vs)
  }

  predicate HasList(c: Caller, vs: seq<Advertised>) { c.phase == Done(Ok(Some(vs))) }

  ghost predicate CacheValidated(lib: Codec, s: State) {
    forall iri | iri in s.cache :: IsValidated(lib, s.cache[iri])
  }

  ghost predicate InsertsValidated(lib: Codec, s: State) {
    forall id | id in s.callers && s.callers[id].phase.Inserting? :: IsValidated(lib, s.callers[id].phase.validated)
  }

  /** Every list a caller was given is the cached one. */
  ghost predicate ListsCached(s: State) {
    forall id, vs | id in s.callers && HasList(s.callers[id], vs) ::
      s.callers[id].iri in s.cache && s.cache[s.callers[id].iri] == vs
  }

  predicate Owns(s: State, id: nat, iri: string) {
    id in s.callers && s.callers[id].iri == iri && iri in s.cache && HasList(s.callers[id], s.cache[iri])
  }

  /** Every cached list was given to some caller. */
  ghost predicate CacheOwned(s: State) {
    forall iri | iri in s.cache :: exists id :: Owns(s, id, iri)
  }

  /** What every reachable state satisfies. */
  ghost predicate Inv(lib: Codec, s: State) {
    CacheValidated(lib, s) && InsertsValidated(lib, s) && ListsCached(s) && CacheOwned(s)
  }

  /** A finished caller stays as it is and the cache only grows. */
  ghost predicate Extends(s: State, t: State) {
    && (forall iri | iri in s.cache :: iri in t.cache && t.cache[iri] == s.cache[iri])
    && (forall id | id in s.callers ::
          && id in t.callers && t.callers[id].iri == s.callers[id].iri
          && (s.callers[id].phase.Done? ==> t.callers[id] == s.callers[id]))
  }

  lemma StepExtends(lib: Codec, s: State, e: Event)
    requires Enabled(s, e)
    ensures Extends(s, Step(lib, s, e))
  {
  }

  lemma AnswerValidated(lib: Codec, answer: Answer)
    ensures OnAnswer(lib, answer).Inserting? ==> IsValidated(lib, OnAnswer(lib, answer).validated)
    ensures OnAnswer(lib, answer).Done? ==> forall vs :: OnAnswer(lib, answer).outcome != Ok(Some(vs))
  {
  }

  lemma StepValidated(lib: Codec, s: State, e: Event)
    requires CacheValidated(lib, s) && InsertsValidated(lib, s) && Enabled(s, e)
    ensures CacheValidated(lib, Step(lib, s, e)) && InsertsValidated(lib, Step(lib, s, e))
  {
    if e.Answered? {
      AnswerValidated(lib, e.answer);
    }
  }

  lemma StepListsCached(lib: Codec, s: State, e: Event)
    requires ListsCached(s) && Enabled(s, e)
    ensures ListsCached(Step(lib, s, e))
  {
    if e.Answered? {
      AnswerValidated(lib, e.answer);
    }
  }

  /** Entries keep the caller that put them there. */
  lemma StepKeepsOwners(lib: Codec, s: State, e: Event)
    requires CacheOwned(s) && Enabled(s, e)
    ensures CacheOwned(Step(lib, s, e))
  {
    var t := Step(lib, s, e);
    StepExtends(lib, s, e);
    forall iri | iri in t.cache
      ensures exists id :: Owns(t, id, iri)
    {
      if iri in s.cache {
        var id :| Owns(s, id, iri);
        assert Owns(t, id, iri);
      } else {
        assert Owns(t, e.id, iri);
      }
    }
  }

  lemma StepInv(lib: Codec, s: State, e: Event)
    requires Inv(lib, s) && Enabled(s, e)
    ensures Inv(lib, Step(lib, s, e))
  {
    StepValidated(lib, s, e);
    StepListsCached(lib, s, e);
    StepKeepsOwners(lib, s, e);
  }

  lemma {:induction false} RunInv(lib: Codec, states: seq<State>, events: seq<Event>, i: nat)
    requires IsRun(lib, states, events) && i < |states|
    ensures Inv(lib, states[i])
  {
    if i > 0 {
      RunInv(lib, states, events, i - 1);
      StepInv(lib, states[i - 1], events[i - 1]);
      assert states[i - 1 + 1] == Step(lib, states[i - 1], events[i - 1]);
    }
  }

  lemma ExtendsTransitive(s: State, t: State, u: State)
    requires Extends(s, t) && Extends(t, u)
    ensures Extends(s, u)
  {
  }

  lemma {:induction false} RunExtends(lib: Codec, states: seq<State>, events: seq<Event>, i: nat, j: nat)
    requires IsRun(lib, states, events) && i <= j < |states|
    ensures Extends(states[i], states[j])
  {
    if i < j {
      RunExtends(lib, states, events, i, j - 1);
      var s, e, t := states[j - 1], events[j - 1], states[j];
      assert Enabled(s, e) && t == Step(lib, s, e) by {
        assert states[j - 1 + 1] == Step(lib, s, e);
      }
      StepExtends(lib, s, e);
      ExtendsTransitive(states[i], s, t);
    }
  }

  /** In every run a cached list never changes and is a validated one. */
  lemma CacheNeverChanges(lib: Codec, states: seq<State>, events: seq<Event>, i: nat, j: nat, iri: string)
    requires IsRun(lib, states, events) && i <= j < |states| && iri in states[i].cache
    ensures iri in states[j].cache && states[j].cache[iri] == states[i].cache[iri]
    ensures IsValidated(lib, states[i].cache[iri])
  {
    RunInv(lib, states, events, i);
    RunExtends(lib, states, events, i, j);
  }

  /** Whoever gets a list for an IRI, whenever, gets the same one. */
  lemma CallersAgree(lib: Codec, states: seq<State>, events: seq<Event>, i: nat, j: nat, a: nat, b: nat,
      va: seq<Advertised>, vb: seq<Advertised>)
    requires IsRun(lib, states, events) && i < |states| && j < |states|
    requires a in states[i].callers && HasList(states[i].callers[a], va)
    requires b in states[j].callers && HasList(states[j].callers[b], vb)
    requires states[i].callers[a].iri == states[j].callers[b].iri
    ensures va == vb && IsValidated(lib, va)
  {
    var n := |states| - 1;
    RunInv(lib, states, events, i);
    RunExtends(lib, states, events, i, n);
    RunExtends(lib, states, events, j, n);
    RunInv(lib, states, events, j);
  }

  /** The cache holds exactly the lists callers were given: no 404 and no error ever fills a slot. */
  lemma OnlyListsPopulate(lib: Codec, states: seq<State>, events: seq<Event>, i: nat, iri: string)
    requires IsRun(lib, states, events) && i < |states|
    ensures iri in states[i].cache <==>
            exists id, vs :: id in states[i].callers && states[i].callers[id].iri == iri &&
                HasList(states[i].callers[id], vs)
  {
    RunInv(lib, states, events, i);
    var s := states[i];
    if iri in s.cache {
      var id :| Owns(s, id, iri);
    }
  }

  /** A caller that begins once the list is cached can only get that list. */
  lemma {:induction false} LateCallerGetsList(lib: Codec, states: seq<State>, events: seq<Event>, i: nat,
      j: nat, id: nat)
    requires IsRun(lib, states, events) && i <= j < |states|
    requires id in states[i].callers && states[i].callers[id].phase.Start?
    requires states[i].callers[id].iri in states[i].cache
    ensures id in states[j].callers
    ensures var c := states[j].callers[id]; c.phase.Start? || HasList(c, states[i].cache[states[i].callers[id].iri])
  {
    RunExtends(lib, states, events, i, j);
    if i < j {
      LateCallerGetsList(lib, states, events, i, j - 1, id);
      RunExtends(lib, states, events, i, j - 1);
      assert states[j - 1 + 1] == Step(lib, states[j - 1], events[j - 1]);
    }
  }

  /**
   * What the resolver stream lists is never refused later in the run: once caller `a` was given
   * a list, a caller `b` that begins then and asks for a version listed from it is given an
   * available entry with that version, whatever the server does meanwhile.
   */
  lemma ListedNeverRefusedInRun(lib: Codec, states: seq<State>, events: seq<Event>, i: nat, j: nat, a: nat, b: nat,
                                vs: seq<Advertised>, version: string)
    requires RoundTrips(lib) && IsRun(lib, states, events) && i <= j < |states|
    requires a in states[i].callers && HasList(states[i].callers[a], vs) && version in Listed(lib, vs)
    requires b in states[i].callers && states[i].callers[b] == Caller(states[i].callers[a].iri, Start)
    requires b in states[j].callers && states[j].callers[b].phase.Done?
    ensures var got := GetProject(lib, states[j].callers[b].phase.outcome, version);
            got.Ok? && got.value.status == Available && lib.show(got.value.version) == version
  {
    RunInv(lib, states, events, i);
    LateCallerGetsList(lib, states, events, i, j, b);
    var entries :| Validate(lib, entries) == Ok(vs);
    ListedNeverRefused(lib, entries, version);
  }

  // ---- what each caller gets ----

  /** What the server answered the caller, in order. */
  function Answers(events: seq<Event>, id: nat): seq<Answer> {
    if events == [] then []
    else
      var e := events[|events| - 1];
      Answers(events[..|events| - 1], id) + if e.Answered? && e.id == id then [e.answer] else []
  }

  lemma {:induction false} AnswersHas(events: seq<Event>, id: nat, answer: Answer)
    ensures answer in Answers(events, id) <==> Answered(id, answer) in events
  {
    if events != [] {
      AnswersHas(events[..|events| - 1], id, answer);
      assert events == events[..|events| - 1] + [events[|events| - 1]];
    }
  }

  /** The answer is an error for the caller: `e`. */
  predicate AnswersError(lib: Codec, answer: Answer, e: IndexError) {
    || (answer.Failed? && e == Fetch)
    || (answer.Document? && Validate(lib, answer.entries) == Err(e))
  }

  /** How where a caller is goes with what it was answered. */
  ghost predicate PhaseFits(lib: Codec, phase: Phase, answers: seq<Answer>) {
    match phase
    case Start => answers == []
    case Fetching => answers == []
    case Inserting(vs) => |answers| == 1 && answers[0].Document? && Validate(lib, answers[0].entries) == Ok(vs)
    case Done(Ok(None)) => answers == [NotFound]
    case Done(Err(e)) => |answers| == 1 && AnswersError(lib, answers[0], e)
    case Done(Ok(Some(_))) =>
      answers == [] || (|answers| == 1 && answers[0].Document? && Validate(lib, answers[0].entries).Ok?)
  }

  lemma AnswerFits(lib: Codec, answer: Answer)
    ensures PhaseFits(lib, OnAnswer(lib, answer), [answer])
  {
  }

  /** One event for one caller. */
  lemma StepFits(lib: Codec, s: State, e: Event, id: nat, before: seq<Answer>, after: seq<Answer>)
    requires Enabled(s, e) && id in Step(lib, s, e).callers
    requires if id in s.callers then PhaseFits(lib, s.callers[id].phase, before) else before == []
    requires after == before + if e.Answered? && e.id == id then [e.answer] else []
    ensures PhaseFits(lib, Step(lib, s, e).callers[id].phase, after)
  {
    if e.id == id {
      if e.Answered? {
        AnswerFits(lib, e.answer);
        assert after == [e.answer];
      } else {
        assert after == before;
      }
    } else {
      assert after == before;
    }
  }

  lemma {:induction false} RunFits(lib: Codec, states: seq<State>, events: seq<Event>, i: nat, id: nat)
    requires IsRun(lib, states, events) && i < |states|
    ensures if id in states[i].callers then PhaseFits(lib, states[i].callers[id].phase, Answers(events[..i], id))
            else Answers(events[..i], id) == []
  {
    if i > 0 {
      var s, e := states[i - 1], events[i - 1];
      RunFits(lib, states, events, i - 1, id);
      assert Enabled(s, e) && states[i - 1 + 1] == Step(lib, s, e);
      assert events[..i][..i - 1] == events[..i - 1] && events[..i][i - 1] == e;
      var before, after := Answers(events[..i - 1], id), Answers(events[..i], id);
      if id in states[i].callers {
        StepFits(lib, s, e, id, before, after);
      } else {
        assert after == before;
      }
    }
  }

  lemma FitsOutcome(lib: Codec, phase: Phase, answers: seq<Answer>, e: IndexError)
    requires PhaseFits(lib, phase, answers)
    ensures phase == Done(Ok(None)) <==> NotFound in answers
    ensures phase == Done(Err(e)) <==> exists answer :: answer in answers && AnswersError(lib, answer, e)
  {
    if phase == Done(Err(e)) {
      assert answers[0] in answers;
    }
    if answer :| answer in answers && AnswersError(lib, answer, e) {
      assert answers == [answer];
    }
  }

  /**
   * In every run a caller ends with "not in this index" exactly if it was answered 404, with an
   * error exactly if its fetch failed or its document was rejected with that error, and
   * otherwise with the list that is cached for its IRI.
   */
  lemma CallerOutcome(lib: Codec, states: seq<State>, events: seq<Event>, i: nat, id: nat, e: IndexError)
    requires IsRun(lib, states, events) && i < |states| && id in states[i].callers
    ensures states[i].callers[id].phase == Done(Ok(None)) <==> Answered(id, NotFound) in events[..i]
    ensures states[i].callers[id].phase == Done(Err(e)) <==>
              exists answer :: Answered(id, answer) in events[..i] && AnswersError(lib, answer, e)
    ensures forall vs | HasList(states[i].callers[id], vs) ::
              var iri := states[i].callers[id].iri;
              iri in states[i].cache && vs == states[i].cache[iri]
  {
    var phase, answers := states[i].callers[id].phase, Answers(events[..i], id);
    assert PhaseFits(lib, phase, answers) by {
      RunFits(lib, states, events, i, id);
    }
    FitsOutcome(lib, phase, answers, e);
    forall answer
      ensures answer in answers <==> Answered(id, answer) in events[..i]
    {
      AnswersHas(events[..i], id, answer);
    }
    assert ListsCached(states[i]) by {
      RunInv(lib, states, events, i);
    }
  }

  lemma {:induction false} CallerIri(lib: Codec, states: seq<State>, events: seq<Event>, i: nat, id: nat)
    requires IsRun(lib, states, events) && i < |states| && id in states[i].callers
    ensures Call(id, states[i].callers[id].iri) in events[..i]
  {
    var s, e := states[i - 1], events[i - 1];
    assert Enabled(s, e) && states[i - 1 + 1] == Step(lib, s, e);
    assert events[..i] == events[..i - 1] + [e];
    if id in s.callers {
      CallerIri(lib, states, events, i - 1, id);
    }
  }

  /** Whoever inserts into a vacant slot inserts what its own answer validates to, under the IRI it called with. */
  lemma VacantInsert(lib: Codec, states: seq<State>, events: seq<Event>, i: nat, id: nat, iri: string)
    requires IsRun(lib, states, events) && i < |events| && events[i] == Insert(id)
    requires id in states[i].callers && states[i].callers[id].iri == iri && iri !in states[i].cache
    ensures Call(id, iri) in events[..i] && iri in states[i + 1].cache
    ensures exists entries ::
              Answered(id, Document(entries)) in events[..i] && Validate(lib, entries) == Ok(states[i + 1].cache[iri])
    ensures forall other | other != iri ::
              (other in states[i + 1].cache <==> other in states[i].cache)
  {
    var answers := Answers(events[..i], id);
    CallerIri(lib, states, events, i, id);
    RunFits(lib, states, events, i, id);
    assert Enabled(states[i], events[i]) && states[i + 1] == Step(lib, states[i], events[i]);
    AnswersHas(events[..i], id, answers[0]);
    assert Answered(id, Document(answers[0].entries)) in events[..i];
  }
}
