/** The shim server in front of the proxy: many sessions share one proxy, which knows lookups only
    by internal IDs. Each step is what one goroutine does without being interleaved: a session
    registers a waiter, passes its lookup on, and ends; the resolver empties the lookup channel into
    batches; dispatched batches answer in any order; responses are demultiplexed. */
module Shim {
  import opened Common
  import opened ResolveBatch

  const BATCH_BARRIER_ITEMS := 100

  /** A get that a session issued: its own ID for it, and the action it asked for. */
  datatype Issue = Issue(session: nat, originalID: int, actionID: string)

  datatype Pending = Pending(session: nat, originalID: int)

  /** A response as written to a session, and the internal ID it came under. */
  datatype Written = Written(id: nat, session: nat, originalID: int, about: string)

  datatype State = State(
    nextID: nat,
    waiters: map<nat, Pending>,
    gone: set<nat>,
    /** Registered by a session, not yet handed to the resolver or answered on the spot. */
    looking: multiset<Request>,
    lookup: seq<Request>,
    batch: seq<Request>,
    /** Dispatched to the upstream and not answered yet, over all batches in flight. */
    inFlight: multiset<Request>,
    resps: seq<Request>,
    closed: bool,
    // What has happened.
    issued: map<nat, Issue>,
    written: seq<Written>,
    orphans: multiset<Request>,
    dropped: multiset<Request>)

  /** A response in the queue is described by what it answers. */
  datatype Step =
    | IssueGet(session: nat, originalID: int, actionID: string)
    | IssuePut(session: nat)
    | AnswerDirectly(req: Request)
    | Enqueue(req: Request)
    | ResolveHit
    | ResolveMiss
    | Tick
    | Reply(req: Request)
    | Deliver
    | DropSession(session: nat)
    | ResolverStops

  function Initial(): State {
    State(0, map[], {}, multiset{}, [], [], multiset{}, [], false, map[], [], multiset{}, multiset{})
  }

  ghost predicate Enabled(s: State, step: Step) {
    match step
    case IssueGet(session, _, _) => session !in s.gone
    case IssuePut(session) => session !in s.gone
    case AnswerDirectly(req) => req in s.looking
    case Enqueue(req) => req in s.looking && !s.closed
    case ResolveHit => s.lookup != [] && !s.closed
    case ResolveMiss => s.lookup != [] && !s.closed
    case Tick => s.batch != [] && !s.closed
    case Reply(req) => req in s.inFlight
    case Deliver => s.resps != []
    case DropSession(_) => true
    // The lookup channel delivers what it holds before it reports that it is closed.
    case ResolverStops => s.lookup == [] && !s.closed
  }

  /** Adds a local miss to the batch, dispatching the batch when it is full. */
  function Batched(s: State, req: Request): State {
    if |s.batch| + 1 >= BATCH_BARRIER_ITEMS then
      s.(batch := [], inFlight := s.inFlight + multiset(s.batch) + multiset{req})
    else s.(batch := s.batch + [req])
  }

  function Without(waiters: map<nat, Pending>, session: nat): map<nat, Pending> {
    map id | id in waiters && waiters[id].session != session :: waiters[id]
  }

  /** The head of the response queue goes to whoever waits for its ID. */
  function Demultiplexed(s: State): State
    requires s.resps != []
  {
    var resp, rest := s.resps[0], s.resps[1..];
    if resp.id in s.waiters then
      var pending := s.waiters[resp.id];
      s.(resps := rest, waiters := s.waiters - {resp.id},
         written := s.written + [Written(resp.id, pending.session, pending.originalID, resp.actionID)])
    else
      s.(resps := rest, orphans := s.orphans + multiset{resp})
  }

  function Apply(s: State, step: Step): State
    requires Enabled(s, step)
  {
    match step
    case IssueGet(session, originalID, actionID) =>
      var id := s.nextID + 1;
      s.(nextID := id, waiters := s.waiters[id := Pending(session, originalID)],
         looking := s.looking + multiset{Request(id, actionID)},
         issued := s.issued[id := Issue(session, originalID, actionID)])
    case IssuePut(_) => s.(nextID := s.nextID + 1)
    case AnswerDirectly(req) => s.(looking := s.looking - multiset{req}, resps := s.resps + [req])
    case Enqueue(req) => s.(looking := s.looking - multiset{req}, lookup := s.lookup + [req])
    case ResolveHit => s.(lookup := s.lookup[1..], resps := s.resps + [s.lookup[0]])
    case ResolveMiss => Batched(s.(lookup := s.lookup[1..]), s.lookup[0])
    case Tick => s.(batch := [], inFlight := s.inFlight + multiset(s.batch))
    case Reply(req) => s.(inFlight := s.inFlight - multiset{req}, resps := s.resps + [req])
    case Deliver => Demultiplexed(s)
    case DropSession(session) => s.(waiters := Without(s.waiters, session), gone := s.gone + {session})
    case ResolverStops => s.(closed := true, batch := [], dropped := multiset(s.batch))
  }

  // ----- Invariant -----

  /** The lookups on their way: in the lookup channel, the batch, flight or the response queue. */
  function Tokens(s: State): multiset<Request> {
    s.looking + multiset(s.lookup) + multiset(s.batch) + s.inFlight + multiset(s.resps)
  }

  function Ids(written: seq<Written>): multiset<nat> {
    if written == [] then multiset{} else Ids(written[..|written| - 1]) + multiset{written[|written| - 1].id}
  }

  /** The token of an issued get. */
  function TokenOf(s: State, id: nat): Request
    requires id in s.issued
  {
    Request(id, s.issued[id].actionID)
  }

  /** Every token there is: on its way, orphaned, or dropped at close. */
  function Everywhere(s: State): multiset<Request> {
    Tokens(s) + s.orphans + s.dropped
  }

  /** Every issued get is in exactly one place: one of its tokens is somewhere, or it is answered. */
  ghost predicate Conserved(issued: map<nat, Issue>, tokens: multiset<Request>, answered: multiset<nat>) {
    && (forall id :: id in issued ==> tokens[Request(id, issued[id].actionID)] + answered[id] == 1)
    && (forall req :: req in tokens ==> req.id in issued && req.actionID == issued[req.id].actionID)
    && (forall id :: id in answered ==> id in issued)
  }

  /** What is written to a session answers a get it issued, under its own ID, about its own action. */
  ghost predicate WrittenToIssuer(issued: map<nat, Issue>, written: seq<Written>) {
    forall w :: w in written ==> w.id in issued && issued[w.id] == Issue(w.session, w.originalID, w.about)
  }

  /** A get is waited for exactly while its session is there and it has not been answered. */
  ghost predicate WaitersMatch(issued: map<nat, Issue>, waiters: map<nat, Pending>, gone: set<nat>,
                               answered: multiset<nat>)
  {
    && waiters.Keys <= issued.Keys
    && (forall id :: id in issued ==> (id in waiters <==> issued[id].session !in gone && answered[id] == 0))
    && (forall id :: id in waiters ==> waiters[id] == Pending(issued[id].session, issued[id].originalID))
  }

  /** Only a session that has gone leaves orphans, and only the resolver's stop drops anything. */
  ghost predicate Explained(s: State) {
    && (forall req :: req in s.orphans && req.id in s.issued ==> s.issued[req.id].session in s.gone)
    && (s.closed || s.dropped == multiset{})
  }

  ghost predicate Inv(s: State) {
    && Conserved(s.issued, Everywhere(s), Ids(s.written))
    && WrittenToIssuer(s.issued, s.written)
    && WaitersMatch(s.issued, s.waiters, s.gone, Ids(s.written))
    && Explained(s)
    && (forall id :: id in s.issued ==> 1 <= id <= s.nextID)
  }

  lemma {:induction false} IdsAreWritten(written: seq<Written>, id: nat)
    ensures id in Ids(written) <==> exists w :: w in written && w.id == id
  {
    if written != [] {
      var last := written[|written| - 1];
      assert written == written[..|written| - 1] + [last];
      IdsAreWritten(written[..|written| - 1], id);
      if id == last.id {
        assert last in written;
      }
    }
  }

  lemma IdsAppend(written: seq<Written>, w: Written)
    ensures Ids(written + [w]) == Ids(written) + multiset{w.id}
  {
    assert (written + [w])[..|written|] == written;
  }

  /** Nothing but where the tokens are has changed. */
  ghost predicate OnlyMoved(s: State, t: State) {
    && Tokens(t) == Tokens(s) && t.nextID >= s.nextID
    && t.waiters == s.waiters && t.gone == s.gone && t.issued == s.issued && t.written == s.written
    && t.orphans == s.orphans && t.dropped == s.dropped && t.closed == s.closed
  }

  lemma MovesKeepInv(s: State, t: State)
    requires Inv(s) && OnlyMoved(s, t)
    ensures Inv(t)
  {
    hide Tokens, Ids, Conserved, WrittenToIssuer, WaitersMatch;
  }

  lemma HeadAndTail<T>(q: seq<T>)
    requires q != []
    ensures multiset(q) == multiset{q[0]} + multiset(q[1..])
  {
    assert q == [q[0]] + q[1..];
  }

  lemma Snoc<T>(q: seq<T>, x: T)
    ensures multiset(q + [x]) == multiset(q) + multiset{x}
  {
  }

  lemma LookingMoves(s: State, step: Step)
    requires Enabled(s, step) && (step.AnswerDirectly? || step.Enqueue?)
    ensures OnlyMoved(s, Apply(s, step))
  {
    Snoc(s.resps, step.req);
    Snoc(s.lookup, step.req);
    assert s.looking == s.looking - multiset{step.req} + multiset{step.req};
  }

  lemma ResolveHitMoves(s: State)
    requires Enabled(s, ResolveHit)
    ensures OnlyMoved(s, Apply(s, ResolveHit))
  {
    HeadAndTail(s.lookup);
    Snoc(s.resps, s.lookup[0]);
  }

  lemma ResolveMissMoves(s: State)
    requires Enabled(s, ResolveMiss)
    ensures OnlyMoved(s, Apply(s, ResolveMiss))
  {
    hide Tokens;
    HeadPopped(s);
    BatchedTokens(s.(lookup := s.lookup[1..]), s.lookup[0]);
  }

  lemma HeadPopped(s: State)
    requires s.lookup != []
    ensures Tokens(s) == Tokens(s.(lookup := s.lookup[1..])) + multiset{s.lookup[0]}
  {
    HeadAndTail(s.lookup);
  }

  lemma BatchedTokens(s: State, req: Request)
    ensures Tokens(Batched(s, req)) == Tokens(s) + multiset{req}
  {
    Snoc(s.batch, req);
  }

  lemma ReplyMoves(s: State, req: Request)
    requires Enabled(s, Reply(req))
    ensures OnlyMoved(s, Apply(s, Reply(req)))
  {
    Snoc(s.resps, req);
    assert s.inFlight == s.inFlight - multiset{req} + multiset{req};
  }

  lemma ConservedIssue(issued: map<nat, Issue>, tokens: multiset<Request>, answered: multiset<nat>, id: nat,
                       issue: Issue)
    requires Conserved(issued, tokens, answered) && id !in issued
    ensures Conserved(issued[id := issue], tokens + multiset{Request(id, issue.actionID)}, answered)
    ensures id !in answered
  {
    assert Request(id, issue.actionID) !in tokens;
  }

  lemma WaitersIssue(issued: map<nat, Issue>, waiters: map<nat, Pending>, gone: set<nat>, answered: multiset<nat>,
                     id: nat, issue: Issue)
    requires WaitersMatch(issued, waiters, gone, answered) && id !in issued && id !in answered && issue.session !in gone
    ensures WaitersMatch(issued[id := issue], waiters[id := Pending(issue.session, issue.originalID)], gone, answered)
  {
  }

  lemma IssueKeepsInv(s: State, step: Step)
    requires Inv(s) && step.IssueGet? && Enabled(s, step)
    ensures Inv(Apply(s, step))
  {
    hide Everywhere, Ids, Conserved, WrittenToIssuer, WaitersMatch;
    var id, issue := s.nextID + 1, Issue(step.session, step.originalID, step.actionID);
    EverywhereIssue(s, step);
    ConservedIssue(s.issued, Everywhere(s), Ids(s.written), id, issue);
    WaitersIssue(s.issued, s.waiters, s.gone, Ids(s.written), id, issue);
    WrittenIssue(s.issued, s.written, id, issue);
    OrphansIssued(s);
  }

  lemma EverywhereIssue(s: State, step: Step)
    requires step.IssueGet? && Enabled(s, step)
    ensures Everywhere(Apply(s, step)) == Everywhere(s) + multiset{Request(s.nextID + 1, step.actionID)}
  {
  }

  lemma WrittenIssue(issued: map<nat, Issue>, written: seq<Written>, id: nat, issue: Issue)
    requires WrittenToIssuer(issued, written) && id !in issued
    ensures WrittenToIssuer(issued[id := issue], written)
  {
  }

  lemma OrphansIssued(s: State)
    requires Inv(s)
    ensures forall req :: req in s.orphans ==> req.id in s.issued
  {
    hide Ids, WrittenToIssuer, WaitersMatch, Tokens;
    forall req | req in s.orphans
      ensures req.id in s.issued
    {
      assert req in Everywhere(s);
    }
  }

  lemma ConservedAnswer(issued: map<nat, Issue>, tokens: multiset<Request>, answered: multiset<nat>, req: Request)
    requires Conserved(issued, tokens, answered) && req in tokens
    ensures Conserved(issued, tokens - multiset{req}, answered + multiset{req.id})
    ensures req.id in issued && req.actionID == issued[req.id].actionID && answered[req.id] == 0
  {
    assert req == Request(req.id, issued[req.id].actionID);
  }

  lemma WaitersAnswer(issued: map<nat, Issue>, waiters: map<nat, Pending>, gone: set<nat>, answered: multiset<nat>,
                      id: nat)
    requires WaitersMatch(issued, waiters, gone, answered) && id in issued
    ensures WaitersMatch(issued, waiters - {id}, gone, answered + multiset{id})
    ensures id in waiters ==> waiters[id] == Pending(issued[id].session, issued[id].originalID)
  {
  }

  lemma AnswerKeepsInv(s: State)
    requires Inv(s) && s.resps != [] && s.resps[0].id in s.waiters
    ensures Inv(Demultiplexed(s))
  {
    hide Everywhere, Ids, Conserved, WrittenToIssuer, WaitersMatch;
    var resp := s.resps[0];
    var w := Written(resp.id, s.waiters[resp.id].session, s.waiters[resp.id].originalID, resp.actionID);
    EverywhereAnswer(s);
    ConservedAnswer(s.issued, Everywhere(s), Ids(s.written), resp);
    WaitersAnswer(s.issued, s.waiters, s.gone, Ids(s.written), resp.id);
    IdsAppend(s.written, w);
    WrittenAnswer(s.issued, s.written, w);
  }

  lemma EverywhereAnswer(s: State)
    requires s.resps != [] && s.resps[0].id in s.waiters
    ensures s.resps[0] in Everywhere(s)
    ensures Everywhere(Demultiplexed(s)) == Everywhere(s) - multiset{s.resps[0]}
  {
    HeadAndTail(s.resps);
  }

  lemma WrittenAnswer(issued: map<nat, Issue>, written: seq<Written>, w: Written)
    requires WrittenToIssuer(issued, written) && w.id in issued
      && issued[w.id] == Issue(w.session, w.originalID, w.about)
    ensures WrittenToIssuer(issued, written + [w])
  {
  }

  lemma OrphanKeepsInv(s: State)
    requires Inv(s) && s.resps != [] && s.resps[0].id !in s.waiters
    ensures Inv(Demultiplexed(s))
  {
    hide Everywhere, Ids, Conserved, WrittenToIssuer, WaitersMatch;
    EverywhereOrphan(s);
    ConservedAnswer(s.issued, Everywhere(s), Ids(s.written), s.resps[0]);
    NotWaitedFor(s.issued, s.waiters, s.gone, Ids(s.written), s.resps[0].id);
  }

  lemma EverywhereOrphan(s: State)
    requires s.resps != [] && s.resps[0].id !in s.waiters
    ensures s.resps[0] in Everywhere(s)
    ensures Everywhere(Demultiplexed(s)) == Everywhere(s)
  {
    HeadAndTail(s.resps);
  }

  lemma NotWaitedFor(issued: map<nat, Issue>, waiters: map<nat, Pending>, gone: set<nat>, answered: multiset<nat>,
                     id: nat)
    requires WaitersMatch(issued, waiters, gone, answered) && id in issued && id !in waiters && answered[id] == 0
    ensures issued[id].session in gone
  {
  }

  lemma DropKeepsInv(s: State, session: nat)
    requires Inv(s)
    ensures Inv(Apply(s, DropSession(session)))
  {
    hide Ids, Conserved, WrittenToIssuer, WaitersMatch, Without;
    WaitersDrop(s.issued, s.waiters, s.gone, Ids(s.written), session);
  }

  lemma WaitersDrop(issued: map<nat, Issue>, waiters: map<nat, Pending>, gone: set<nat>, answered: multiset<nat>,
                    session: nat)
    requires WaitersMatch(issued, waiters, gone, answered)
    ensures WaitersMatch(issued, Without(waiters, session), gone + {session}, answered)
  {
  }

  lemma StopKeepsInv(s: State)
    requires Inv(s) && Enabled(s, ResolverStops)
    ensures Inv(Apply(s, ResolverStops))
  {
    hide Ids, Conserved, WrittenToIssuer, WaitersMatch;
    assert Everywhere(Apply(s, ResolverStops)) == Everywhere(s);
  }

  lemma StepKeepsInv(s: State, step: Step)
    requires Inv(s) && Enabled(s, step)
    ensures Inv(Apply(s, step))
  {
    hide Inv;
    match step
    case IssueGet(_, _, _) => IssueKeepsInv(s, step);
    case Deliver =>
      if s.resps[0].id in s.waiters {
        AnswerKeepsInv(s);
      } else {
        OrphanKeepsInv(s);
      }
    case DropSession(session) => DropKeepsInv(s, session);
    case ResolverStops => StopKeepsInv(s);
    case AnswerDirectly(_) => LookingMoves(s, step); MovesKeepInv(s, Apply(s, step));
    case Enqueue(_) => LookingMoves(s, step); MovesKeepInv(s, Apply(s, step));
    case ResolveHit => ResolveHitMoves(s); MovesKeepInv(s, Apply(s, step));
    case ResolveMiss => ResolveMissMoves(s); MovesKeepInv(s, Apply(s, step));
    case Reply(req) => ReplyMoves(s, req); MovesKeepInv(s, Apply(s, step));
    case IssuePut(_) => MovesKeepInv(s, Apply(s, step));
    case Tick => MovesKeepInv(s, Apply(s, step));
  }

  // ----- Runs -----

  /** `t` is where these steps lead from `s`. */
  ghost predicate Runs(s: State, steps: seq<Step>, t: State)
    decreases |steps|
  {
    if steps == [] then t == s
    else Enabled(s, steps[0]) && Runs(Apply(s, steps[0]), steps[1..], t)
  }

  lemma {:induction false} RunKeepsInv(s: State, steps: seq<Step>, t: State)
    requires Inv(s) && Runs(s, steps, t)
    ensures Inv(t)
    decreases |steps|
  {
    hide Inv;
    if steps != [] {
      StepKeepsInv(s, steps[0]);
      RunKeepsInv(Apply(s, steps[0]), steps[1..], t);
    }
  }

  lemma InitialInv()
    ensures Inv(Initial())
  {
  }

  /** Whatever the interleaving, a response written to a session carries an ID under which that
      session asked for that same action, and no get is answered twice. */
  lemma ResponsesAreNeverCrossed(steps: seq<Step>, t: State)
    requires Runs(Initial(), steps, t)
    ensures forall w :: w in t.written ==> w.id in t.issued && t.issued[w.id] == Issue(w.session, w.originalID, w.about)
    ensures forall i, j :: 0 <= i < j < |t.written| ==> t.written[i].id != t.written[j].id
  {
    hide Enabled, Apply, Everywhere, Ids, Conserved, WaitersMatch;
    InitialInv();
    RunKeepsInv(Initial(), steps, t);
    AnsweredOnce(t.issued, Everywhere(t), Ids(t.written));
    OnceEach(t.written);
  }

  lemma AnsweredOnce(issued: map<nat, Issue>, tokens: multiset<Request>, answered: multiset<nat>)
    requires Conserved(issued, tokens, answered)
    ensures forall id :: answered[id] <= 1
  {
    forall id
      ensures answered[id] <= 1
    {
      assert id !in answered ==> answered[id] == 0;
      if id in answered {
        assert id in issued;
      }
    }
  }

  lemma {:induction false} OnceEach(written: seq<Written>)
    requires forall id :: Ids(written)[id] <= 1
    ensures forall i, j :: 0 <= i < j < |written| ==> written[i].id != written[j].id
  {
    if written != [] {
      var rest, last := written[..|written| - 1], written[|written| - 1];
      forall id
        ensures Ids(rest)[id] <= 1
      {
        assert Ids(written)[id] >= Ids(rest)[id];
      }
      OnceEach(rest);
      forall i | 0 <= i < |rest|
        ensures written[i].id != last.id
      {
        IdsAreWritten(rest, rest[i].id);
        assert Ids(written)[rest[i].id] <= 1;
      }
    }
  }

  /** The resolver takes an ID of zero for the end of the channel; no lookup that reaches it has one. */
  lemma NoLookupLooksLikeTheEnd(steps: seq<Step>, t: State, i: nat)
    requires Runs(Initial(), steps, t) && i < |t.lookup|
    ensures t.lookup[i].id != 0
  {
    hide Enabled, Apply, Ids;
    InitialInv();
    RunKeepsInv(Initial(), steps, t);
    assert t.lookup[i] in multiset(t.lookup);
    assert t.lookup[i] in Everywhere(t);
  }

  /** Before the resolver stops, every waiter has exactly one lookup on its way. */
  lemma WaitersHaveOneToken(steps: seq<Step>, t: State, id: nat)
    requires Runs(Initial(), steps, t) && id in t.waiters && !t.closed
    ensures id in t.issued && t.waiters[id].session !in t.gone && Tokens(t)[TokenOf(t, id)] == 1
  {
    hide Enabled, Apply, Tokens, Ids;
    InitialInv();
    RunKeepsInv(Initial(), steps, t);
  }

  /** Once nothing is on its way any more, a session that is still there has been answered exactly
      once for every get it issued, except for the ones in the batch the resolver dropped. */
  lemma AnsweredUnlessDropped(steps: seq<Step>, t: State, id: nat)
    requires Runs(Initial(), steps, t) && Tokens(t) == multiset{}
    requires id in t.issued && t.issued[id].session !in t.gone
    ensures Ids(t.written)[id] == 1 <==> TokenOf(t, id) !in t.dropped
    ensures id in t.waiters <==> TokenOf(t, id) in t.dropped
  {
    hide Enabled, Apply, Tokens, Ids;
    InitialInv();
    RunKeepsInv(Initial(), steps, t);
  }

  /** What the resolver drops is the batch it had not dispatched: none, exactly if it was empty. */
  lemma StoppingDropsTheBatch(s: State)
    requires Inv(s) && Enabled(s, ResolverStops)
    ensures var t := Apply(s, ResolverStops);
            && t.dropped == Tokens(s) - Tokens(t)
            && (Tokens(t) == Tokens(s) <==> s.batch == [])
  {
    hide Inv;
    var t := Apply(s, ResolverStops);
    assert Tokens(s) == Tokens(t) + multiset(s.batch);
    hide Tokens;
    assert |multiset(s.batch)| == |s.batch|;
    assert |Tokens(s)| == |Tokens(t)| + |s.batch|;
  }

  lemma StepKeepsDropped(s: State, step: Step)
    requires Enabled(s, step) && s.closed
    ensures Apply(s, step).closed && Apply(s, step).dropped == s.dropped
  {
  }

  /** Nothing is dropped after the resolver has stopped. */
  lemma {:induction false} DroppedStays(s: State, steps: seq<Step>, t: State)
    requires Runs(s, steps, t) && s.closed
    ensures t.closed && t.dropped == s.dropped
    decreases |steps|
  {
    if steps != [] {
      StepKeepsDropped(s, steps[0]);
      hide Enabled, Apply;
      DroppedStays(Apply(s, steps[0]), steps[1..], t);
    }
  }

  /** A run in which the resolver stops in `s` and then nothing is left on its way: of the sessions that
      are still there, exactly those are left waiting whose gets were in the batch at the stop; every
      other get was answered once. */
  lemma StrandedByTheStop(before: seq<Step>, s: State, after: seq<Step>, t: State, id: nat)
    requires Runs(Initial(), before, s) && Enabled(s, ResolverStops) && Runs(Apply(s, ResolverStops), after, t)
    requires Tokens(t) == multiset{} && id in t.issued && t.issued[id].session !in t.gone
    ensures id in t.waiters <==> TokenOf(t, id) in s.batch
    ensures Ids(t.written)[id] == if TokenOf(t, id) in s.batch then 0 else 1
  {
    var stopped := Apply(s, ResolverStops);
    DroppedStays(stopped, after, t);
    assert t.dropped == multiset(s.batch);
    hide Enabled, Apply, Tokens, Ids;
    RunsStep(s, ResolverStops, after, t);
    var steps := before + ([ResolverStops] + after);
    RunsAfter(Initial(), before, s, [ResolverStops] + after, t);
    AnsweredUnlessDropped(steps, t, id);
    InitialInv();
    RunKeepsInv(Initial(), steps, t);
  }

  /** As long as the resolver has not stopped, every get of a session that is still there is answered
      once nothing is on its way any more. */
  lemma AnsweredWhileRunning(steps: seq<Step>, t: State, id: nat)
    requires Runs(Initial(), steps, t) && !t.closed && Tokens(t) == multiset{}
    requires id in t.issued && t.issued[id].session !in t.gone
    ensures Ids(t.written)[id] == 1 && id !in t.waiters
  {
    hide Enabled, Apply, Tokens, Ids;
    InitialInv();
    RunKeepsInv(Initial(), steps, t);
  }

  /** The state once one get has been issued, and its lookup is in one of these places. */
  function OneGet(looking: multiset<Request>, lookup: seq<Request>, batch: seq<Request>): State {
    Initial().(nextID := 1, waiters := map[1 := Pending(7, 0)], issued := map[1 := Issue(7, 0, "a")],
               looking := looking, lookup := lookup, batch := batch)
  }

  lemma OneGetIssued(req: Request)
    requires req == Request(1, "a")
    ensures var step := IssueGet(7, 0, "a");
            Enabled(Initial(), step) && Apply(Initial(), step) == OneGet(multiset{req}, [], [])
  {
  }

  lemma OneGetEnqueued(req: Request)
    ensures var s := OneGet(multiset{req}, [], []);
            Enabled(s, Enqueue(req)) && Apply(s, Enqueue(req)) == OneGet(multiset{}, [req], [])
  {
  }

  lemma OneGetMissed(req: Request)
    ensures var s := OneGet(multiset{}, [req], []);
            Enabled(s, ResolveMiss) && Apply(s, ResolveMiss) == OneGet(multiset{}, [], [req])
  {
  }

  lemma OneGetDropped(req: Request)
    ensures var s := OneGet(multiset{}, [], [req]);
            && Enabled(s, ResolverStops)
            && Apply(s, ResolverStops) == s.(closed := true, batch := [], dropped := multiset{req})
            && Tokens(Apply(s, ResolverStops)) == multiset{}
  {
    assert multiset([req]) == multiset{req};
  }

  /** One get, missed locally and still in the batch when the resolver stops: nothing is on its way
      any more, and its session waits for ever. */
  lemma StoppingCanStrandAWaiter()
    ensures var steps := [IssueGet(7, 0, "a"), Enqueue(Request(1, "a")), ResolveMiss, ResolverStops];
            exists t :: Runs(Initial(), steps, t) && 1 in t.waiters && Tokens(t) == multiset{}
  {
    var req := Request(1, "a");
    OneGetIssued(req);
    OneGetEnqueued(req);
    OneGetMissed(req);
    OneGetDropped(req);
    var s := OneGet(multiset{}, [], [req]);
    var t := Apply(s, ResolverStops);
    assert 1 in t.waiters;
    hide Enabled, Apply, Tokens, OneGet;
    RunsStep(s, ResolverStops, [], t);
    RunsStep(OneGet(multiset{}, [req], []), ResolveMiss, [ResolverStops], t);
    RunsStep(OneGet(multiset{req}, [], []), Enqueue(req), [ResolveMiss, ResolverStops], t);
    RunsStep(Initial(), IssueGet(7, 0, "a"), [Enqueue(req), ResolveMiss, ResolverStops], t);
    assert [ResolverStops] + [] == [ResolverStops] && [ResolveMiss] + [ResolverStops] == [ResolveMiss, ResolverStops];
    assert [Enqueue(req)] + [ResolveMiss, ResolverStops] == [Enqueue(req), ResolveMiss, ResolverStops];
    assert [IssueGet(7, 0, "a")] + [Enqueue(req), ResolveMiss, ResolverStops] ==
           [IssueGet(7, 0, "a"), Enqueue(req), ResolveMiss, ResolverStops];
  }

  lemma RunsStep(s: State, step: Step, rest: seq<Step>, t: State)
    requires Enabled(s, step) && Runs(Apply(s, step), rest, t)
    ensures Runs(s, [step] + rest, t)
  {
    hide Enabled, Apply;
    assert ([step] + rest)[1..] == rest;
  }

  lemma {:induction false} RunsAfter(s: State, steps: seq<Step>, m: State, more: seq<Step>, t: State)
    requires Runs(s, steps, m) && Runs(m, more, t)
    ensures Runs(s, steps + more, t)
    decreases |steps|
  {
    hide Enabled, Apply;
    if steps == [] {
      assert steps + more == more;
    } else {
      assert (steps + more)[1..] == steps[1..] + more;
      RunsAfter(Apply(s, steps[0]), steps[1..], m, more, t);
    }
  }

  // ----- A batch answered by `Resolve` is a run of replies -----

  function Replies(out: seq<Response>): (r: seq<Step>)
    ensures |r| == |out|
  {
    if out == [] then [] else [Reply(Asked(out[0]))] + Replies(out[1..])
  }

  lemma {:induction false} AllAskedHead(out: seq<Response>)
    requires out != []
    ensures AllAsked(out) == [Asked(out[0])] + AllAsked(out[1..])
  {
    if |out| > 1 {
      AllAskedHead(out[..|out| - 1]);
      assert out[..|out| - 1][1..] == out[1..][..|out| - 2];
    }
  }

  /** The state once some requests in flight are answered, in this order. */
  function AllReplied(s: State, reqs: seq<Request>): State {
    s.(inFlight := s.inFlight - multiset(reqs), resps := s.resps + reqs)
  }

  lemma {:induction false} BatchIsARun(s: State, out: seq<Response>)
    requires multiset(AllAsked(out)) <= s.inFlight
    ensures Runs(s, Replies(out), AllReplied(s, AllAsked(out)))
    decreases |out|
  {
    if out == [] {
      assert AllReplied(s, []) == s;
    } else {
      AllAskedHead(out);
      var req, rest := Asked(out[0]), AllAsked(out[1..]);
      HeadAndTail(AllAsked(out));
      RepliedStep(s, req, rest);
      hide AllReplied, Apply, Enabled;
      BatchIsARun(Apply(s, Reply(req)), out[1..]);
    }
  }

  lemma RepliedStep(s: State, req: Request, rest: seq<Request>)
    requires multiset{req} + multiset(rest) <= s.inFlight
    ensures Enabled(s, Reply(req)) && multiset(rest) <= Apply(s, Reply(req)).inFlight
    ensures AllReplied(Apply(s, Reply(req)), rest) == AllReplied(s, [req] + rest)
  {
    assert multiset([req] + rest) == multiset{req} + multiset(rest);
    LessOneThenRest(s.inFlight, req, multiset(rest));
    assert s.resps + [req] + rest == s.resps + ([req] + rest);
  }

  lemma LessOneThenRest(all: multiset<Request>, req: Request, rest: multiset<Request>)
    requires multiset{req} + rest <= all
    ensures req in all && rest <= all - multiset{req}
    ensures all - multiset{req} - rest == all - (multiset{req} + rest)
  {
    assert req in multiset{req} + rest;
  }
}
