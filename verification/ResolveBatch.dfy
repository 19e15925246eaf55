/** One batch of local misses put to the upstream: `resolveBatch` of the proxy. */
module ResolveBatch {
  import opened Common

  /** A lookup: the ID it must be answered under, and what it asks for. */
  datatype Request = Request(id: nat, actionID: string)

  /** What a lookup is told. A hit carries the outcome of the one local write made for its action. */
  datatype Result = Miss | ReadError | Found(outputID: string)

  /** A response, with the action it is about; the wire carries only its ID. */
  datatype Response = Response(id: nat, about: string, result: Result)

  /** What the upstream calls back with for one action. */
  datatype Item = Item(actionID: string, result: Result)

  function Answer(req: Request, result: Result): Response {
    Response(req.id, req.actionID, result)
  }

  function Asked(resp: Response): Request {
    Request(resp.id, resp.about)
  }

  function AllAsked(out: seq<Response>): (r: seq<Request>)
    ensures |r| == |out|
  {
    if out == [] then [] else AllAsked(out[..|out| - 1]) + [Asked(out[|out| - 1])]
  }

  lemma AllAskedAppend(a: seq<Response>, resp: Response)
    ensures AllAsked(a + [resp]) == AllAsked(a) + [Asked(resp)]
  {
    assert (a + [resp])[..|a|] == a;
  }

  /** The requests whose action is one of these, in batch order. */
  function About(batch: seq<Request>, actions: set<string>): seq<Request> {
    if batch == [] then []
    else
      var last := batch[|batch| - 1];
      About(batch[..|batch| - 1], actions) + if last.actionID in actions then [last] else []
  }

  lemma {:induction false} AboutIn(batch: seq<Request>, actions: set<string>)
    ensures forall req :: req in About(batch, actions) <==> req in batch && req.actionID in actions
  {
    if batch != [] {
      AboutIn(batch[..|batch| - 1], actions);
      assert batch == batch[..|batch| - 1] + [batch[|batch| - 1]];
    }
  }

  lemma {:induction false} AboutOneMore(batch: seq<Request>, actions: set<string>, a: string)
    requires a !in actions
    ensures multiset(About(batch, actions + {a})) == multiset(About(batch, actions)) + multiset(About(batch, {a}))
  {
    if batch != [] {
      AboutOneMore(batch[..|batch| - 1], actions, a);
    }
  }

  lemma {:induction false} AboutAll(batch: seq<Request>, actions: set<string>)
    requires forall req :: req in batch ==> req.actionID in actions
    ensures About(batch, actions) == batch
  {
    if batch != [] {
      assert batch == batch[..|batch| - 1] + [batch[|batch| - 1]];
      AboutAll(batch[..|batch| - 1], actions);
    }
  }

  lemma {:induction false} AboutNone(batch: seq<Request>, actions: set<string>)
    requires forall req :: req in batch ==> req.actionID !in actions
    ensures About(batch, actions) == []
  {
    if batch != [] {
      assert batch == batch[..|batch| - 1] + [batch[|batch| - 1]];
      AboutNone(batch[..|batch| - 1], actions);
    }
  }

  function ActionsOf(batch: seq<Request>): set<string> {
    set req | req in batch :: req.actionID
  }

  /** The upstream answers any subset of what it was asked for, each action at most once. */
  ghost predicate AnswersAtMostOnce(items: seq<Item>, batch: seq<Request>) {
    && (forall i :: 0 <= i < |items| ==> items[i].actionID in ActionsOf(batch))
    && (forall i, j :: 0 <= i < j < |items| ==> items[i].actionID != items[j].actionID)
  }

  function AnsweredBy(items: seq<Item>): set<string> {
    set item | item in items :: item.actionID
  }

  /** What every request for an action is told. */
  ghost predicate Tells(items: seq<Item>, a: string, result: Result) {
    if a in AnsweredBy(items) then Item(a, result) in items else result == Miss
  }

  /** The answers so far: exactly the requests about these actions, each told what it should be. */
  ghost predicate Answered(out: seq<Response>, batch: seq<Request>, actions: set<string>, items: seq<Item>) {
    && multiset(AllAsked(out)) == multiset(About(batch, actions))
    && forall resp :: resp in out ==> Tells(items, resp.about, resp.result)
  }

  method Group(batch: seq<Request>) returns (reqsByAction: map<string, seq<Request>>, actionIDs: seq<string>)
    ensures reqsByAction.Keys == ActionsOf(batch)
    ensures forall a :: a in reqsByAction ==> reqsByAction[a] == About(batch, {a})
    ensures NoDup(actionIDs) && forall a :: a in actionIDs <==> a in ActionsOf(batch)
  {
    reqsByAction, actionIDs := map[], [];
    hide About;
    for i := 0 to |batch|
      invariant reqsByAction.Keys == ActionsOf(batch[..i])
      invariant forall a :: a in reqsByAction ==> reqsByAction[a] == About(batch[..i], {a})
      invariant NoDup(actionIDs) && forall a :: a in actionIDs <==> a in ActionsOf(batch[..i])
    {
      GroupStep(batch, i);
      var req := batch[i];
      if req.actionID !in reqsByAction {
        actionIDs := actionIDs + [req.actionID];
        reqsByAction := reqsByAction[req.actionID := [req]];
      } else {
        reqsByAction := reqsByAction[req.actionID := reqsByAction[req.actionID] + [req]];
      }
    }
    assert batch[..|batch|] == batch;
  }

  lemma GroupStep(batch: seq<Request>, i: nat)
    requires i < |batch|
    ensures ActionsOf(batch[..i + 1]) == ActionsOf(batch[..i]) + {batch[i].actionID}
    ensures forall a :: About(batch[..i + 1], {a}) ==
                        About(batch[..i], {a}) + if batch[i].actionID == a then [batch[i]] else []
    ensures batch[i].actionID !in ActionsOf(batch[..i]) ==> About(batch[..i], {batch[i].actionID}) == []
  {
    assert batch[..i + 1] == batch[..i] + [batch[i]];
    assert batch[..i + 1][..i] == batch[..i];
    var a := batch[i].actionID;
    if a !in ActionsOf(batch[..i]) {
      AboutNone(batch[..i], {a});
    }
  }

  /** Answers every request of one action, each under its own ID. */
  method RespondAll(reqs: seq<Request>, result: Result, out: seq<Response>) returns (r: seq<Response>)
    ensures AllAsked(r) == AllAsked(out) + reqs
    ensures forall resp :: resp in r ==> resp in out || (Asked(resp) in reqs && resp.result == result)
  {
    r := out;
    assert reqs[..0] == [];
    for i := 0 to |reqs|
      invariant AllAsked(r) == AllAsked(out) + reqs[..i]
      invariant forall resp :: resp in r ==> resp in out || (Asked(resp) in reqs && resp.result == result)
    {
      AllAskedAppend(r, Answer(reqs[i], result));
      assert reqs[..i + 1] == reqs[..i] + [reqs[i]];
      r := r + [Answer(reqs[i], result)];
    }
    assert reqs[..|reqs|] == reqs;
  }

  lemma AnsweredOneMore(out: seq<Response>, r: seq<Response>, batch: seq<Request>, actions: set<string>,
                        items: seq<Item>, a: string, result: Result)
    requires Answered(out, batch, actions, items) && a !in actions && Tells(items, a, result)
    requires AllAsked(r) == AllAsked(out) + About(batch, {a})
    requires forall resp :: resp in r ==> resp in out || (Asked(resp) in About(batch, {a}) && resp.result == result)
    ensures Answered(r, batch, actions + {a}, items)
  {
    AboutOneMore(batch, actions, a);
    AboutIn(batch, {a});
  }

  /** With an upstream that answers `items` and then stops, or without one (`None`), every request
      of the batch gets exactly one response, under its own ID and about its own action. */
  method Resolve(batch: seq<Request>, upstream: Option<seq<Item>>) returns (out: seq<Response>)
    requires upstream.Some? ==> AnswersAtMostOnce(upstream.value, batch)
    ensures multiset(AllAsked(out)) == multiset(batch)
    ensures forall resp :: resp in out ==> Tells(if upstream.Some? then upstream.value else [], resp.about, resp.result)
  {
    if upstream.None? {
      out := RespondAll(batch, Miss, []);
      assert AllAsked([]) + batch == batch;
      return;
    }
    var items := upstream.value;
    var reqsByAction, _ := Group(batch);
    out := RespondItems(batch, reqsByAction, items);
    out := RespondRest(batch, reqsByAction, items, out);
    AboutAll(batch, ActionsOf(batch));
  }

  /** The upstream's callbacks. */
  method RespondItems(batch: seq<Request>, reqsByAction: map<string, seq<Request>>, items: seq<Item>)
    returns (out: seq<Response>)
    requires reqsByAction.Keys == ActionsOf(batch) && AnswersAtMostOnce(items, batch)
    requires forall a :: a in reqsByAction ==> reqsByAction[a] == About(batch, {a})
    ensures Answered(out, batch, AnsweredBy(items), items)
  {
    out := [];
    NothingAnswered(batch, items);
    for i := 0 to |items|
      invariant Answered(out, batch, AnsweredBy(items[..i]), items)
    {
      var a := items[i].actionID;
      ItemStep(items, batch, i);
      var r := RespondAll(reqsByAction[a], items[i].result, out);
      AnsweredOneMore(out, r, batch, AnsweredBy(items[..i]), items, a, items[i].result);
      out := r;
    }
    assert items[..|items|] == items;
  }

  lemma NothingAnswered(batch: seq<Request>, items: seq<Item>)
    ensures Answered([], batch, AnsweredBy(items[..0]), items)
  {
    AboutNone(batch, {});
    assert AnsweredBy(items[..0]) == {};
  }

  lemma ItemStep(items: seq<Item>, batch: seq<Request>, i: nat)
    requires AnswersAtMostOnce(items, batch) && i < |items|
    ensures items[i].actionID !in AnsweredBy(items[..i])
    ensures AnsweredBy(items[..i + 1]) == AnsweredBy(items[..i]) + {items[i].actionID}
    ensures Tells(items, items[i].actionID, items[i].result)
  {
    assert items[..i + 1] == items[..i] + [items[i]];
    assert items[i] in items;
  }

  /** Whatever the upstream never got to is a miss, whatever order the actions are visited in. */
  method RespondRest(batch: seq<Request>, reqsByAction: map<string, seq<Request>>, items: seq<Item>,
                     answered: seq<Response>)
    returns (out: seq<Response>)
    requires reqsByAction.Keys == ActionsOf(batch) && AnswersAtMostOnce(items, batch)
    requires forall a :: a in reqsByAction ==> reqsByAction[a] == About(batch, {a})
    requires Answered(answered, batch, AnsweredBy(items), items)
    ensures Answered(out, batch, ActionsOf(batch), items)
  {
    hide About, Answered, AnsweredBy, ActionsOf, Tells, AnswersAtMostOnce;
    out := answered;
    var todo := reqsByAction.Keys;
    RestStarts(batch, items);
    while todo != {}
      invariant todo <= ActionsOf(batch)
      invariant Answered(out, batch, Done(batch, items, todo), items)
      decreases |todo|
    {
      var a :| a in todo;
      RestStep(batch, items, todo, a);
      todo := todo - {a};
      if a !in AnsweredBy(items) {
        var r := RespondAll(reqsByAction[a], Miss, out);
        AnsweredOneMore(out, r, batch, Done(batch, items, todo + {a}), items, a, Miss);
        out := r;
      }
    }
  }

  /** The actions answered by the upstream, or visited since. */
  ghost function Done(batch: seq<Request>, items: seq<Item>, todo: set<string>): set<string> {
    AnsweredBy(items) + (ActionsOf(batch) - todo)
  }

  lemma RestStarts(batch: seq<Request>, items: seq<Item>)
    requires AnswersAtMostOnce(items, batch)
    ensures Done(batch, items, ActionsOf(batch)) == AnsweredBy(items)
    ensures Done(batch, items, {}) == ActionsOf(batch)
  {
  }

  lemma RestStep(batch: seq<Request>, items: seq<Item>, todo: set<string>, a: string)
    requires a in todo && todo <= ActionsOf(batch)
    ensures todo - {a} + {a} == todo
    ensures if a in AnsweredBy(items) then Done(batch, items, todo - {a}) == Done(batch, items, todo)
            else a !in Done(batch, items, todo) && Tells(items, a, Miss)
                 && Done(batch, items, todo - {a}) == Done(batch, items, todo) + {a}
  {
  }
}
