/** Credential lookup and the request policy of core/src/auth.rs, against any server. */
module Auth {
  import opened Common

  // ---- lookup ----

  datatype GlobMap<T> = GlobMap(keys: seq<string>, values: seq<T>)

  datatype Lookup<T> = Found(key: string, value: T) | NotFound | Ambiguous(items: seq<(string, T)>)

  /** The glob set's answer: indices of matching patterns from `i` on, in order. */
  function Matching(glob: (string, string) -> bool, keys: seq<string>, key: string, i: nat): (r: seq<nat>)
    requires i <= |keys|
    ensures forall k | 0 <= k < |r| :: i <= r[k] < |keys|
    decreases |keys| - i
  {
    if i == |keys| then []
    else (if glob(keys[i], key) then [i] else []) + Matching(glob, keys, key, i + 1)
  }

  lemma {:induction false} MatchingHas(glob: (string, string) -> bool, keys: seq<string>, key: string, i: nat, n: nat)
    requires i <= |keys|
    ensures n in Matching(glob, keys, key, i) <==> i <= n < |keys| && glob(keys[n], key)
    decreases |keys| - i
  {
    if i < |keys| {
      MatchingHas(glob, keys, key, i + 1, n);
    }
  }

  lemma {:induction false} MatchingAscends(glob: (string, string) -> bool, keys: seq<string>, key: string, i: nat)
    requires i <= |keys|
    ensures forall j, k | 0 <= j < k < |Matching(glob, keys, key, i)| ::
              Matching(glob, keys, key, i)[j] < Matching(glob, keys, key, i)[k]
    decreases |keys| - i
  {
    if i < |keys| {
      MatchingAscends(glob, keys, key, i + 1);
    }
  }

  /** It lists exactly the matching patterns, each once. */
  lemma MatchingIff(glob: (string, string) -> bool, keys: seq<string>, key: string, i: nat)
    requires i <= |keys|
    ensures forall n :: n in Matching(glob, keys, key, i) <==> i <= n < |keys| && glob(keys[n], key)
    ensures forall j, k | 0 <= j < k < |Matching(glob, keys, key, i)| ::
              Matching(glob, keys, key, i)[j] < Matching(glob, keys, key, i)[k]
  {
    forall n: nat
      ensures n in Matching(glob, keys, key, i) <==> i <= n < |keys| && glob(keys[n], key)
    {
      MatchingHas(glob, keys, key, i, n);
    }
    MatchingAscends(glob, keys, key, i);
  }

  predicate InRange(indices: seq<nat>, n: nat) { forall k | 0 <= k < |indices| :: indices[k] < n }

  /** The pairs at `indices`. */
  function Pick<T>(m: GlobMap<T>, indices: seq<nat>): (r: seq<(string, T)>)
    requires |m.keys| == |m.values| && InRange(indices, |m.keys|)
    ensures |r| == |indices| && forall k | 0 <= k < |indices| :: r[k] == (m.keys[indices[k]], m.values[indices[k]])
  {
    seq(|indices|, k requires 0 <= k < |indices| => (m.keys[indices[k]], m.values[indices[k]]))
  }

  /** One pass of a value iterator picks every match: `nth` is never asked to go back or past the end. */
  method LookupUrl<T>(glob: (string, string) -> bool, m: GlobMap<T>, key: string) returns (r: Lookup<T>)
    requires |m.keys| == |m.values|
    ensures var outcome := Matching(glob, m.keys, key, 0);
            r == if outcome == [] then NotFound
                 else if |outcome| == 1 then Found(key, m.values[outcome[0]])
                 else Ambiguous(Pick(m, outcome))
  {
    var outcome := Matching(glob, m.keys, key, 0);
    MatchingIff(glob, m.keys, key, 0);
    if outcome == [] {
      return NotFound;
    }
    if |outcome| == 1 {
      return Found(key, m.values[outcome[0]]);
    }
    var result := PickInOnePass(m, outcome);
    r := Ambiguous(result);
  }

  method PickInOnePass<T>(m: GlobMap<T>, outcome: seq<nat>) returns (result: seq<(string, T)>)
    requires |m.keys| == |m.values| && InRange(outcome, |m.keys|)
    requires forall j, k | 0 <= j < k < |outcome| :: outcome[j] < outcome[k]
    ensures result == Pick(m, outcome)
  {
    result := [];
    var position: nat := 0;
    var base: nat := 0;
    for i := 0 to |outcome|
      invariant position == base == if i == 0 then 0 else outcome[i - 1] + 1
      invariant result == Pick(m, outcome)[..i]
    {
      var idx := outcome[i];
      var at := position + (idx - base);
      result := result + [(m.keys[idx], m.values[at])];
      position := at + 1;
      base := idx + 1;
    }
  }

  // ---- requests ----

  datatype Credential = Basic(username: string, password: string) | Bearer(token: string)

  /** A request to the URL at hand, with or without a credential. */
  datatype Request = Request(auth: Option<Credential>)

  datatype Reply = TransportError | Status(code: nat)

  /** Answers the last request of a trace; it may look at all of it. */
  type Server = seq<Request> -> Reply

  predicate IsClientError(r: Reply) { r.Status? && 400 <= r.code < 500 }

  /** Unauthenticated first, and the credential only in response to 4xx. */
  method SequenceRequest(server: Server, trace: seq<Request>, c: Credential)
    returns (reply: Reply, trace': seq<Request>)
    ensures var once := trace + [Request(None)];
            var twice := once + [Request(Some(c))];
            if IsClientError(server(once)) then trace' == twice && reply == server(twice)
            else trace' == once && reply == server(once)
  {
    trace' := trace + [Request(None)];
    reply := server(trace');
    if IsClientError(reply) {
      trace' := trace' + [Request(Some(c))];
      reply := server(trace');
    }
  }

  /** Every request that may ever be sent: for each match an unauthenticated one, then its credential. */
  function Plan(cs: seq<Credential>): seq<Request> {
    if cs == [] then []
    else Plan(cs[..|cs| - 1]) + [Request(None), Request(Some(cs[|cs| - 1]))]
  }

  /** How far the plan goes from `n` requests on: to the first reply that is not 4xx, or to its end. */
  function StopAfter(server: Server, plan: seq<Request>, n: nat): (k: nat)
    requires n <= |plan|
    ensures n <= k <= |plan|
    ensures forall j | n < j < k :: IsClientError(server(plan[..j]))
    ensures n < k < |plan| ==> !IsClientError(server(plan[..k]))
    decreases |plan| - n
  {
    if n == |plan| then n
    else if IsClientError(server(plan[..n + 1])) then StopAfter(server, plan, n + 1)
    else n + 1
  }

  lemma PlanUpTo(cs: seq<Credential>, i: nat)
    requires i < |cs|
    ensures Plan(cs[..i + 1]) == Plan(cs[..i]) + [Request(None), Request(Some(cs[i]))]
  {
    assert cs[..i + 1][..i] == cs[..i];
  }

  lemma {:induction false} PlanPrefix(cs: seq<Credential>, i: nat)
    requires i <= |cs|
    ensures |Plan(cs)| == 2 * |cs|
    ensures Plan(cs[..i]) == Plan(cs)[..2 * i]
    decreases |cs|
  {
    if i < |cs| {
      var init := cs[..|cs| - 1];
      PlanPrefix(init, i);
      assert init[..i] == cs[..i];
    } else {
      assert cs[..i] == cs;
      if cs != [] {
        PlanPrefix(cs[..|cs| - 1], 0);
      }
    }
  }

  /** The request at each place of the plan. */
  lemma PlanAt(cs: seq<Credential>, i: nat)
    requires i < |cs|
    ensures |Plan(cs)| == 2 * |cs|
    ensures Plan(cs)[2 * i] == Request(None) && Plan(cs)[2 * i + 1] == Request(Some(cs[i]))
    ensures Plan(cs)[..2 * i + 1] == Plan(cs)[..2 * i] + [Request(None)]
    ensures Plan(cs)[..2 * i + 2] == Plan(cs)[..2 * i + 1] + [Request(Some(cs[i]))]
  {
    PlanPrefix(cs, i);
    PlanPrefix(cs, i + 1);
    PlanUpTo(cs, i);
    var plan := Plan(cs);
    assert plan[..2 * i + 2][2 * i] == Request(None) && plan[..2 * i + 2][2 * i + 1] == Request(Some(cs[i]));
  }

  /** What a policy with the credentials `cs` sends and returns. */
  function PolicyTrace(server: Server, cs: seq<Credential>): seq<Request> {
    var plan := Plan(cs);
    plan[..StopAfter(server, plan, 0)]
  }

  function PolicyReply(server: Server, cs: seq<Credential>): Reply
    requires cs != []
  {
    PlanPrefix(cs, 0);
    var plan := Plan(cs);
    var last := server(plan[..StopAfter(server, plan, 0)]);
    if IsClientError(last) then server(plan[..2]) else last
  }

  /** A round that did not end in 4xx ends the plan there; one that did uses up its two requests. */
  lemma RoundStops(server: Server, cs: seq<Credential>, i: nat)
    requires i < |cs|
    requires |Plan(cs)| == 2 * |cs| && StopAfter(server, Plan(cs), 0) == StopAfter(server, Plan(cs), 2 * i)
    ensures var plan := Plan(cs);
            var once, twice := plan[..2 * i + 1], plan[..2 * i + 2];
            if !IsClientError(server(once)) then StopAfter(server, plan, 0) == 2 * i + 1
            else if !IsClientError(server(twice)) then StopAfter(server, plan, 0) == 2 * i + 2
            else StopAfter(server, plan, 0) == StopAfter(server, plan, 2 * i + 2)
  {
    var plan := Plan(cs);
    assert StopAfter(server, plan, 2 * i) ==
        if IsClientError(server(plan[..2 * i + 1])) then StopAfter(server, plan, 2 * i + 1) else 2 * i + 1;
    assert StopAfter(server, plan, 2 * i + 1) ==
        if IsClientError(server(plan[..2 * i + 2])) then StopAfter(server, plan, 2 * i + 2) else 2 * i + 2;
  }

  /** Several matches: rounds in order until one does not end in 4xx. */
  method TryInOrder(server: Server, cs: seq<Credential>) returns (reply: Reply, trace: seq<Request>)
    requires cs != []
    ensures trace == PolicyTrace(server, cs) && reply == PolicyReply(server, cs)
  {
    ghost var plan := Plan(cs);
    PlanAt(cs, 0);
    var first;
    first, trace := SequenceRequest(server, [], cs[0]);
    assert [] + [Request(None)] == plan[..1] && plan[..1] + [Request(Some(cs[0]))] == plan[..2];
    RoundStops(server, cs, 0);
    if !IsClientError(first) {
      return first, trace;
    }
    for i := 1 to |cs|
      invariant trace == plan[..2 * i]
      invariant StopAfter(server, plan, 0) == StopAfter(server, plan, 2 * i)
      invariant IsClientError(server(trace))
    {
      PlanAt(cs, i);
      RoundStops(server, cs, i);
      var other;
      other, trace := SequenceRequest(server, trace, cs[i]);
      if !IsClientError(other) {
        return other, trace;
      }
    }
    assert plan[..2 * |cs|] == plan;
    reply := first;
  }

  /** The whole policy for one URL: look up its credentials and try them. */
  method RequestWithAuthentication(server: Server,
      glob: (string, string) -> bool, restricted: GlobMap<Credential>, url: string)
    returns (reply: Reply, trace: seq<Request>)
    requires |restricted.keys| == |restricted.values|
    ensures var cs := Credentials(restricted, Matching(glob, restricted.keys, url, 0));
            if cs == [] then trace == [Request(None)] && reply == server(trace)
            else trace == PolicyTrace(server, cs) && reply == PolicyReply(server, cs)
  {
    var found := LookupUrl(glob, restricted, url);
    ghost var outcome := Matching(glob, restricted.keys, url, 0);
    match found
    case Found(_, c) =>
      reply, trace := TryInOrder(server, [c]);
      assert Credentials(restricted, outcome) == [c];
    case NotFound =>
      trace := [Request(None)];
      reply := server(trace);
    case Ambiguous(items) =>
      var cs := seq(|items|, i requires 0 <= i < |items| => items[i].1);
      assert cs == Credentials(restricted, outcome);
      reply, trace := TryInOrder(server, cs);
  }

  function Credentials(m: GlobMap<Credential>, indices: seq<nat>): (r: seq<Credential>)
    requires |m.keys| == |m.values| && InRange(indices, |m.keys|)
    ensures |r| == |indices| && forall k | 0 <= k < |indices| :: r[k] == m.values[indices[k]]
  {
    seq(|indices|, k requires 0 <= k < |indices| => m.values[indices[k]])
  }

  /**
   * For any server: `k` credentials mean at most `2k` requests; a request after the first is
   * sent only if every earlier one was answered 4xx; the odd ones carry the credentials in
   * order and the even ones none, so each credential follows its own unauthenticated try; and
   * the run stops early only on a reply that is not 4xx.
   */
  lemma PolicyRequests(server: Server, cs: seq<Credential>, i: nat)
    requires cs != [] && i < |PolicyTrace(server, cs)|
    ensures 1 <= |PolicyTrace(server, cs)| <= 2 * |cs|
    ensures forall j | 0 < j <= i ::
              var r := server(PolicyTrace(server, cs)[..j]);
              r.Status? && 400 <= r.code <= 499
    ensures PolicyTrace(server, cs)[i] == Request(if i % 2 == 0 then None else Some(cs[i / 2]))
    ensures |PolicyTrace(server, cs)| < 2 * |cs| ==>
              var r := server(PolicyTrace(server, cs));
              !(r.Status? && 400 <= r.code <= 499)
  {
    PlanPrefix(cs, 0);
    PlanAt(cs, i / 2);
    var plan, trace := Plan(cs), PolicyTrace(server, cs);
    assert i == 2 * (i / 2) + i % 2;
    assert trace[i] == plan[i];
    forall j | 0 < j <= i
      ensures IsClientError(server(trace[..j]))
    {
      assert trace[..j] == plan[..j];
    }
  }

  /** The reply is the first one that is not 4xx at the end of a round, or else the first round's. */
  lemma PolicyReplyIs(server: Server, cs: seq<Credential>)
    requires cs != []
    ensures |PolicyTrace(server, cs)| >= 1
    ensures var r, reply := server(PolicyTrace(server, cs)), PolicyReply(server, cs);
            if r.Status? && 400 <= r.code <= 499 then
              && |PolicyTrace(server, cs)| == 2 * |cs|
              && reply == server(PolicyTrace(server, cs)[..2]) && reply.Status? && 400 <= reply.code <= 499
            else reply == r
  {
    PlanPrefix(cs, 0);
    var plan, trace := Plan(cs), PolicyTrace(server, cs);
    if IsClientError(server(trace)) {
      assert trace == plan[..|trace|] && plan[..|plan|] == plan;
      assert trace[..2] == plan[..2];
      if |cs| > 1 {
        assert IsClientError(server(plan[..2]));
      }
    }
  }
}
