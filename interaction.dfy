/** Model of the self-healing action executor, `execute_smart_action` in
    Core/Intelligence/interaction_engine.py.

    The executor looks an element's selector up in the shared knowledge map, asks the discovery
    service to fill the map when the selector is missing, runs the caller's action with the
    selector, and on failure asks for a healing discovery and tries again, for at most
    `maxRetries + 1` attempts.

    The discovery service and the action are the environment. Each is a total function of the
    history of calls made to the environment so far, so the environment may answer differently on
    every call (an action that fails once and then succeeds, a discovery that rewrites the map).
    Both receive the whole knowledge map and leave a whole map behind, whether they answer or
    raise: discovery is there to rewrite the map, and the action is a callable of the caller's
    that can reach the same module-level map. */
module Interaction {
  import opened Wrappers

  /** The knowledge map: context -> element key -> selector. */
  type Knowledge = map<string, map<string, string>>

  /** `knowledge_db.get(context, {}).get(element)`, where a missing or empty selector reads as
      absent (the source tests `if not selector`). */
  function Lookup(k: Knowledge, context: string, element: string): Option<string>
  {
    if context in k && element in k[context] && k[context][element] != "" then Some(k[context][element])
    else None
  }

  /** Why discovery was called: the `info` text of the two calls in the source. */
  datatype Request<E> =
    | MissingSelector(element: string)
    | Healing(element: string, reason: Option<E>)

  /** A call of the action returns or raises; either way it leaves the shared map behind, which
      it may have written. */
  datatype ActionResult<V, E> =
    | Returned(value: V, knowledge: Knowledge)
    | Raised(error: E, knowledge: Knowledge)

  /** A discovery call answers with the new knowledge map, or raises; a call that raises may
      already have written part of the shared map, so it too leaves a map behind. */
  datatype DiscoveryResult<E> =
    | Refreshed(knowledge: Knowledge)
    | DiscoveryRaised(error: E, knowledge: Knowledge)

  /** One call into the environment, with its answer. */
  datatype Event<V, E> =
    | Discovery(context: string, request: Request<E>, response: DiscoveryResult<E>)
    | Action(selector: string, result: ActionResult<V, E>)

  /** The discovery service (`VisualAnalyzer.analyze_page_and_update_selectors`) and the
      caller's `action_fn`, each answering as a function of all earlier calls. */
  datatype Environment<!V, !E> = Environment(
    discover: (seq<Event<V, E>>, string, Request<E>, Knowledge) -> DiscoveryResult<E>,
    act: (seq<Event<V, E>>, string, Knowledge) -> ActionResult<V, E>)

  /** How a run that used up its attempts ends: re-raising the last action error, or the
      `RuntimeError` for a selector that was never found. */
  datatype Exhaustion<E> = LastError(error: E) | NoLocator

  /** The result of `execute_smart_action`. A discovery exception is not caught by the source,
      so it ends the run and propagates unchanged. */
  datatype Outcome<V, E> =
    | Succeeded(value: V)
    | Exhausted(reason: Exhaustion<E>)
    | DiscoveryFailed(error: E)

  /** A finished run: its outcome, the knowledge map afterwards and the calls it made. */
  datatype Run<V, E> = Run(outcome: Outcome<V, E>, knowledge: Knowledge, events: seq<Event<V, E>>)

  /** The state after one attempt: the run has ended, or the loop goes on. */
  datatype Step<V, E> =
    | Finished(run: Run<V, E>)
    | Next(knowledge: Knowledge, events: seq<Event<V, E>>, lastError: Option<E>)

  /** Lines 63-74: heal when this is not the last attempt. */
  function Heal<V, E>(env: Environment<V, E>, context: string, element: string, healing: bool,
                      history: seq<Event<V, E>>, k: Knowledge, acc: seq<Event<V, E>>,
                      lastError: Option<E>): Step<V, E>
  {
    if healing then
      var request := Healing(element, lastError);
      var response := env.discover(history + acc, context, request, k);
      var acc' := acc + [Discovery(context, request, response)];
      if response.DiscoveryRaised? then Finished(Run(DiscoveryFailed(response.error), response.knowledge, acc'))
      else Next(response.knowledge, acc', lastError)
    else Next(k, acc, lastError)
  }

  /** Lines 53-61: run the action when a selector was found. */
  function TryAction<V, E>(env: Environment<V, E>, context: string, element: string, healing: bool,
                           history: seq<Event<V, E>>, k: Knowledge, acc: seq<Event<V, E>>,
                           selector: Option<string>, lastError: Option<E>): Step<V, E>
  {
    if selector.Some? then
      var result := env.act(history + acc, selector.value, k);
      var acc' := acc + [Action(selector.value, result)];
      if result.Returned? then Finished(Run(Succeeded(result.value), result.knowledge, acc'))
      else Heal(env, context, element, healing, history, result.knowledge, acc', Some(result.error))
    else Heal(env, context, element, healing, history, k, acc, lastError)
  }

  /** One pass of the body of `for attempt in range(max_retries + 1)` (lines 38-74);
      `healing` is `attempt < max_retries`. */
  function Attempt<V, E>(env: Environment<V, E>, context: string, element: string, healing: bool,
                         history: seq<Event<V, E>>, k: Knowledge, acc: seq<Event<V, E>>,
                         lastError: Option<E>): Step<V, E>
  {
    var found := Lookup(k, context, element);
    if found.None? then
      var request := MissingSelector(element);
      var response := env.discover(history + acc, context, request, k);
      var acc' := acc + [Discovery(context, request, response)];
      if response.DiscoveryRaised? then Finished(Run(DiscoveryFailed(response.error), response.knowledge, acc'))
      else
        var k' := response.knowledge;
        TryAction(env, context, element, healing, history, k', acc', Lookup(k', context, element), lastError)
    else TryAction(env, context, element, healing, history, k, acc, found, lastError)
  }

  /** Lines 76-80: the outcome once every attempt has failed. */
  function ExhaustedWith<V, E>(lastError: Option<E>): Outcome<V, E>
  {
    Exhausted(if lastError.Some? then LastError(lastError.value) else NoLocator)
  }

  /** The attempts from `attempt` to `maxRetries`. */
  function Attempts<V, E>(env: Environment<V, E>, context: string, element: string, maxRetries: int,
                          attempt: int, history: seq<Event<V, E>>, k: Knowledge,
                          acc: seq<Event<V, E>>, lastError: Option<E>): Run<V, E>
    decreases maxRetries + 1 - attempt
  {
    if attempt > maxRetries then Run(ExhaustedWith(lastError), k, acc)
    else
      match Attempt(env, context, element, attempt < maxRetries, history, k, acc, lastError)
      case Finished(run) => run
      case Next(k', acc', lastError') => Attempts(env, context, element, maxRetries, attempt + 1, history, k', acc', lastError')
  }

  /** `execute_smart_action(page, context, element, action_fn, max_retries)` started with the
      knowledge map `k` after the environment has seen `history`. */
  function Execute<V, E>(env: Environment<V, E>, context: string, element: string, maxRetries: int,
                         history: seq<Event<V, E>>, k: Knowledge): Run<V, E>
  {
    Attempts(env, context, element, maxRetries, 0, history, k, [], None)
  }

  // ---------------------------------------------------------------------------------------------
  // Observations on a list of calls

  datatype Kind = ActionCall | MissingDiscovery | HealingDiscovery

  predicate IsKind<V, E>(e: Event<V, E>, kind: Kind)
  {
    match kind
    case ActionCall => e.Action?
    case MissingDiscovery => e.Discovery? && e.request.MissingSelector?
    case HealingDiscovery => e.Discovery? && e.request.Healing?
  }

  /** How many calls of a kind `t` holds. */
  function Count<V, E>(t: seq<Event<V, E>>, kind: Kind): nat
  {
    if t == [] then 0 else Count(t[..|t| - 1], kind) + (if IsKind(t[|t| - 1], kind) then 1 else 0)
  }

  /** The error of the most recent action call, if that call raised. */
  function LastActionError<V, E>(t: seq<Event<V, E>>): Option<E>
  {
    if t == [] then None
    else if t[|t| - 1].Action? then
      (if t[|t| - 1].result.Raised? then Some(t[|t| - 1].result.error) else None)
    else LastActionError(t[..|t| - 1])
  }

  /** The knowledge map a call leaves behind. */
  function Leaves<V, E>(e: Event<V, E>): Knowledge
  {
    match e
    case Discovery(_, _, response) => response.knowledge
    case Action(_, result) => result.knowledge
  }

  /** The knowledge map after the calls `t`, starting from `k`: each call, discovery or action,
      replaces it with the map it leaves, whether it answered or raised. */
  function Replay<V, E>(k: Knowledge, t: seq<Event<V, E>>): Knowledge
  {
    if t == [] then k else Leaves(t[|t| - 1])
  }

  /** Every action call in `t` raised. */
  ghost predicate AllRaised<V, E>(t: seq<Event<V, E>>)
  {
    forall i :: 0 <= i < |t| && t[i].Action? ==> t[i].result.Raised?
  }

  /** Every discovery call in `t` was answered. */
  ghost predicate AllRefreshed<V, E>(t: seq<Event<V, E>>)
  {
    forall i :: 0 <= i < |t| && t[i].Discovery? ==> t[i].response.Refreshed?
  }

  /** Every action call in `t` used the selector the map held for `element` right before it. */
  ghost predicate SelectorsFresh<V, E>(k0: Knowledge, t: seq<Event<V, E>>, context: string, element: string)
  {
    forall i :: 0 <= i < |t| && t[i].Action? ==> Lookup(Replay(k0, t[..i]), context, element) == Some(t[i].selector)
  }

  /** Every discovery call in `t` is about `context` and `element`. */
  ghost predicate AboutElement<V, E>(t: seq<Event<V, E>>, context: string, element: string)
  {
    forall i :: 0 <= i < |t| && t[i].Discovery? ==> t[i].context == context && t[i].request.element == element
  }

  /** What holds of the calls made so far, at the start of every attempt. */
  ghost predicate Inv<V, E>(k0: Knowledge, k: Knowledge, acc: seq<Event<V, E>>, lastError: Option<E>,
                            context: string, element: string)
  {
    && k == Replay(k0, acc)
    && SelectorsFresh(k0, acc, context, element)
    && AboutElement(acc, context, element)
    && AllRaised(acc)
    && AllRefreshed(acc)
    && lastError == LastActionError(acc)
  }

  // ---------------------------------------------------------------------------------------------
  // One call at a time

  lemma AppendOne<V, E>(k0: Knowledge, t: seq<Event<V, E>>, e: Event<V, E>, context: string, element: string)
    ensures forall kind :: Count(t + [e], kind) == Count(t, kind) + (if IsKind(e, kind) then 1 else 0)
    ensures Replay(k0, t + [e]) == Leaves(e)
    ensures LastActionError(t + [e]) == if e.Action? then (if e.result.Raised? then Some(e.result.error) else None) else LastActionError(t)
    ensures SelectorsFresh(k0, t, context, element) && (e.Action? ==> Lookup(Replay(k0, t), context, element) == Some(e.selector))
            ==> SelectorsFresh(k0, t + [e], context, element)
    ensures AllRaised(t) && (e.Action? ==> e.result.Raised?) ==> AllRaised(t + [e])
    ensures AllRefreshed(t) && (e.Discovery? ==> e.response.Refreshed?) ==> AllRefreshed(t + [e])
    ensures AboutElement(t, context, element) && (e.Discovery? ==> e.context == context && e.request.element == element)
            ==> AboutElement(t + [e], context, element)
  {
    var t' := t + [e];
    assert t'[..|t|] == t;
    assert forall i :: 0 <= i < |t| ==> t'[..i] == t[..i];
  }

  /** What one attempt (or the rest of one) contributes, measured from the calls `acc0` made
      before the attempt: at most one call of each kind, a healing call only when healing is
      allowed; a finished run ends on its successful action or its failed discovery, and every
      earlier call failed (action) or was answered (discovery); otherwise `Inv` holds for the
      next attempt. */
  ghost predicate StepOk<V, E>(s: Step<V, E>, k0: Knowledge, acc0: seq<Event<V, E>>, healing: bool,
                               context: string, element: string)
  {
    var t := if s.Next? then s.events else s.run.events;
    && acc0 <= t
    && Count(t, ActionCall) <= Count(acc0, ActionCall) + 1
    && Count(t, MissingDiscovery) <= Count(acc0, MissingDiscovery) + 1
    && Count(t, HealingDiscovery) <= Count(acc0, HealingDiscovery) + (if healing then 1 else 0)
    && (s.Next? ==> Inv(k0, s.knowledge, s.events, s.lastError, context, element))
    && (s.Finished? ==>
          && s.run.knowledge == Replay(k0, t)
          && SelectorsFresh(k0, t, context, element)
          && AboutElement(t, context, element)
          && |t| > |acc0|
          && AllRaised(t[..|t| - 1])
          && AllRefreshed(t[..|t| - 1])
          && !s.run.outcome.Exhausted?
          && (s.run.outcome.Succeeded? ==> t[|t| - 1].Action? && t[|t| - 1].result.Returned? && t[|t| - 1].result.value == s.run.outcome.value)
          && (s.run.outcome.DiscoveryFailed? ==>
                t[|t| - 1].Discovery? && t[|t| - 1].response == DiscoveryRaised(s.run.outcome.error, s.run.knowledge)))
  }

  lemma HealFacts<V, E>(env: Environment<V, E>, context: string, element: string, healing: bool,
                        history: seq<Event<V, E>>, k0: Knowledge, k: Knowledge,
                        acc0: seq<Event<V, E>>, acc: seq<Event<V, E>>, lastError: Option<E>)
    requires Inv(k0, k, acc, lastError, context, element)
    requires acc0 <= acc
    requires Count(acc, ActionCall) <= Count(acc0, ActionCall) + 1
    requires Count(acc, HealingDiscovery) == Count(acc0, HealingDiscovery)
    requires Count(acc, MissingDiscovery) <= Count(acc0, MissingDiscovery) + 1
    ensures StepOk(Heal(env, context, element, healing, history, k, acc, lastError), k0, acc0, healing, context, element)
  {
    if healing {
      var request := Healing(element, lastError);
      var response := env.discover(history + acc, context, request, k);
      var e := Discovery(context, request, response);
      var acc1 := acc + [e];
      AppendOne(k0, acc, e, context, element);
      assert acc1[..|acc1| - 1] == acc;
    }
  }

  lemma TryActionFacts<V, E>(env: Environment<V, E>, context: string, element: string, healing: bool,
                             history: seq<Event<V, E>>, k0: Knowledge, k: Knowledge,
                             acc0: seq<Event<V, E>>, acc: seq<Event<V, E>>,
                             selector: Option<string>, lastError: Option<E>)
    requires Inv(k0, k, acc, lastError, context, element)
    requires acc0 <= acc
    requires Count(acc, ActionCall) == Count(acc0, ActionCall)
    requires Count(acc, HealingDiscovery) == Count(acc0, HealingDiscovery)
    requires Count(acc, MissingDiscovery) <= Count(acc0, MissingDiscovery) + 1
    requires selector == Lookup(k, context, element)
    ensures StepOk(TryAction(env, context, element, healing, history, k, acc, selector, lastError), k0, acc0, healing, context, element)
  {
    if selector.Some? {
      var result := env.act(history + acc, selector.value, k);
      var e := Action(selector.value, result);
      var acc1 := acc + [e];
      AppendOne(k0, acc, e, context, element);
      if result.Returned? {
        assert acc1[..|acc1| - 1] == acc;
      } else {
        HealFacts(env, context, element, healing, history, k0, result.knowledge, acc0, acc1, Some(result.error));
      }
    } else {
      HealFacts(env, context, element, healing, history, k0, k, acc0, acc, lastError);
    }
  }

  lemma AttemptFacts<V, E>(env: Environment<V, E>, context: string, element: string, healing: bool,
                           history: seq<Event<V, E>>, k0: Knowledge, k: Knowledge,
                           acc: seq<Event<V, E>>, lastError: Option<E>)
    requires Inv(k0, k, acc, lastError, context, element)
    ensures StepOk(Attempt(env, context, element, healing, history, k, acc, lastError), k0, acc, healing, context, element)
  {
    var found := Lookup(k, context, element);
    if found.None? {
      var request := MissingSelector(element);
      var response := env.discover(history + acc, context, request, k);
      var e := Discovery(context, request, response);
      var acc1 := acc + [e];
      AppendOne(k0, acc, e, context, element);
      if response.DiscoveryRaised? {
        assert acc1[..|acc1| - 1] == acc;
      } else {
        var k1 := response.knowledge;
        TryActionFacts(env, context, element, healing, history, k0, k1, acc, acc1, Lookup(k1, context, element), lastError);
      }
    } else {
      TryActionFacts(env, context, element, healing, history, k0, k, acc, acc, found, lastError);
    }
  }

  /** What a finished run `r` did, measured from the calls `acc0` made before the attempts that
      `left` counts, `heals` of which may heal. */
  ghost predicate RunOk<V, E>(r: Run<V, E>, k0: Knowledge, acc0: seq<Event<V, E>>, left: nat, heals: nat,
                              context: string, element: string)
  {
    var t := r.events;
    && acc0 <= t
    && Count(t, ActionCall) <= Count(acc0, ActionCall) + left
    && Count(t, MissingDiscovery) <= Count(acc0, MissingDiscovery) + left
    && Count(t, HealingDiscovery) <= Count(acc0, HealingDiscovery) + heals
    && r.knowledge == Replay(k0, t)
    && SelectorsFresh(k0, t, context, element)
    && AboutElement(t, context, element)
    && (r.outcome.Exhausted? ==>
          AllRaised(t) && AllRefreshed(t) && r.outcome == ExhaustedWith(LastActionError(t)))
    && (!r.outcome.Exhausted? ==>
          |t| > 0 && AllRaised(t[..|t| - 1]) && AllRefreshed(t[..|t| - 1]))
    && (r.outcome.Succeeded? ==>
          t[|t| - 1].Action? && t[|t| - 1].result.Returned? && t[|t| - 1].result.value == r.outcome.value)
    && (r.outcome.DiscoveryFailed? ==>
          t[|t| - 1].Discovery? && t[|t| - 1].response == DiscoveryRaised(r.outcome.error, r.knowledge))
  }

  /** Attempts left from `attempt` to `maxRetries`. */
  function Left(maxRetries: int, attempt: int): nat
  {
    if maxRetries + 1 - attempt > 0 then maxRetries + 1 - attempt else 0
  }

  /** An attempt that finished the run. */
  lemma FinishedRunOk<V, E>(s: Step<V, E>, k0: Knowledge, acc: seq<Event<V, E>>, healing: bool,
                            left: nat, heals: nat, context: string, element: string)
    requires s.Finished? && StepOk(s, k0, acc, healing, context, element)
    requires left >= 1 && heals >= (if healing then 1 else 0)
    ensures RunOk(s.run, k0, acc, left, heals, context, element)
  {
    var t := s.run.events;
    assert Count(t, ActionCall) <= Count(acc, ActionCall) + left;
    assert Count(t, HealingDiscovery) <= Count(acc, HealingDiscovery) + heals;
  }

  /** An attempt that went on, followed by the rest of the run. */
  lemma NextRunOk<V, E>(s: Step<V, E>, r: Run<V, E>, k0: Knowledge, acc: seq<Event<V, E>>, healing: bool,
                        left: nat, heals: nat, left': nat, heals': nat, context: string, element: string)
    requires s.Next? && StepOk(s, k0, acc, healing, context, element)
    requires left == left' + 1 && heals == heals' + (if healing then 1 else 0)
    requires RunOk(r, k0, s.events, left', heals', context, element)
    ensures RunOk(r, k0, acc, left, heals, context, element)
  {
  }

  /** Everything the attempts from `attempt` on do, by induction over the attempts. */
  lemma {:induction false} AttemptsFacts<V, E>(env: Environment<V, E>, context: string, element: string,
                                               maxRetries: int, attempt: int, history: seq<Event<V, E>>,
                                               k0: Knowledge, k: Knowledge, acc: seq<Event<V, E>>,
                                               lastError: Option<E>)
    requires Inv(k0, k, acc, lastError, context, element)
    ensures RunOk(Attempts(env, context, element, maxRetries, attempt, history, k, acc, lastError),
                  k0, acc, Left(maxRetries, attempt), Left(maxRetries - 1, attempt), context, element)
    ensures attempt > maxRetries ==>
              Attempts(env, context, element, maxRetries, attempt, history, k, acc, lastError).events == acc
    decreases maxRetries + 1 - attempt, 1
  {
    if attempt <= maxRetries {
      var healing := attempt < maxRetries;
      AttemptFacts(env, context, element, healing, history, k0, k, acc, lastError);
      var s := Attempt(env, context, element, healing, history, k, acc, lastError);
      if s.Next? {
        LaterAttemptsFacts(env, context, element, maxRetries, attempt, history, k0, k, acc, lastError, s);
      } else {
        FinishedRunOk(s, k0, acc, healing, Left(maxRetries, attempt), Left(maxRetries - 1, attempt), context, element);
      }
    }
  }

  /** The case of `AttemptsFacts` where attempt `attempt` did not end the run. */
  lemma {:induction false} LaterAttemptsFacts<V, E>(env: Environment<V, E>, context: string, element: string,
                                                    maxRetries: int, attempt: int, history: seq<Event<V, E>>,
                                                    k0: Knowledge, k: Knowledge, acc: seq<Event<V, E>>,
                                                    lastError: Option<E>, s: Step<V, E>)
    requires attempt <= maxRetries
    requires s == Attempt(env, context, element, attempt < maxRetries, history, k, acc, lastError)
    requires s.Next? && StepOk(s, k0, acc, attempt < maxRetries, context, element)
    ensures RunOk(Attempts(env, context, element, maxRetries, attempt, history, k, acc, lastError),
                  k0, acc, Left(maxRetries, attempt), Left(maxRetries - 1, attempt), context, element)
    decreases maxRetries + 1 - attempt, 0
  {
    var r := Attempts(env, context, element, maxRetries, attempt + 1, history, s.knowledge, s.events, s.lastError);
    assert Attempts(env, context, element, maxRetries, attempt, history, k, acc, lastError) == r;
    AttemptsFacts(env, context, element, maxRetries, attempt + 1, history, k0, s.knowledge, s.events, s.lastError);
    NextRunOk(s, r, k0, acc, attempt < maxRetries, Left(maxRetries, attempt), Left(maxRetries - 1, attempt),
              Left(maxRetries, attempt + 1), Left(maxRetries - 1, attempt + 1), context, element);
  }

  lemma ExecuteFacts<V, E>(env: Environment<V, E>, context: string, element: string, maxRetries: int,
                           history: seq<Event<V, E>>, k: Knowledge)
    ensures RunOk(Execute(env, context, element, maxRetries, history, k), k, [], Left(maxRetries, 0),
                  Left(maxRetries - 1, 0), context, element)
    ensures maxRetries < 0 ==> Execute(env, context, element, maxRetries, history, k) == Run(Exhausted(NoLocator), k, [])
  {
    AttemptsFacts(env, context, element, maxRetries, 0, history, k, k, [], None);
  }

  // ---------------------------------------------------------------------------------------------
  // The properties of one call of execute_smart_action

  /** `action_fn` runs at most `max_retries + 1` times (once per attempt), the healing discovery
      at most `max_retries` times (not after the last attempt), the missing-selector discovery at
      most once per attempt: at most `2 * max_retries + 1` discovery calls in all. */
  lemma CallBounds<V, E>(env: Environment<V, E>, context: string, element: string, maxRetries: int,
                         history: seq<Event<V, E>>, k: Knowledge)
    requires maxRetries >= 0
    ensures var t := Execute(env, context, element, maxRetries, history, k).events;
      && Count(t, ActionCall) <= maxRetries + 1
      && Count(t, HealingDiscovery) <= maxRetries
      && Count(t, MissingDiscovery) <= maxRetries + 1
      && Count(t, MissingDiscovery) + Count(t, HealingDiscovery) <= 2 * maxRetries + 1
  {
    ExecuteFacts(env, context, element, maxRetries, history, k);
  }

  /** With `max_retries = 0` there is a single attempt: no healing discovery, at most one
      missing-selector discovery and at most one action call. A negative `max_retries` makes
      `range` empty: nothing is called and the selector-not-found error is raised. */
  lemma SingleAttempt<V, E>(env: Environment<V, E>, context: string, element: string, maxRetries: int,
                            history: seq<Event<V, E>>, k: Knowledge)
    requires maxRetries <= 0
    ensures var r := Execute(env, context, element, maxRetries, history, k);
      && Count(r.events, HealingDiscovery) == 0
      && Count(r.events, ActionCall) <= 1
      && Count(r.events, MissingDiscovery) <= 1
      && (maxRetries < 0 ==> r.events == [] && r.outcome == Exhausted(NoLocator))
  {
    ExecuteFacts(env, context, element, maxRetries, history, k);
  }

  /** The first successful action ends the run: its value is returned, it is the last call
      made, and every action call before it raised. */
  lemma SuccessIsFinal<V, E>(env: Environment<V, E>, context: string, element: string, maxRetries: int,
                             history: seq<Event<V, E>>, k: Knowledge)
    ensures var r := Execute(env, context, element, maxRetries, history, k); var t := r.events;
      r.outcome.Succeeded? ==>
        && |t| > 0
        && t[|t| - 1].Action?
        && t[|t| - 1].result.Returned?
        && t[|t| - 1].result.value == r.outcome.value
        && r.knowledge == t[|t| - 1].result.knowledge
        && (forall i :: 0 <= i < |t| - 1 && t[i].Action? ==> t[i].result.Raised?)
  {
    ExecuteFacts(env, context, element, maxRetries, history, k);
  }

  /** The error chosen on exhaustion: `LastActionError(t)` is the error of the most recent action
      call, and there is one exactly when some action was called. */
  lemma {:induction false} LastActionErrorIsLatest<V, E>(t: seq<Event<V, E>>)
    requires AllRaised(t)
    ensures LastActionError(t).Some? <==> Count(t, ActionCall) > 0
    ensures LastActionError(t).Some? ==>
      exists i :: 0 <= i < |t| && t[i].Action? && t[i].result.Raised? && t[i].result.error == LastActionError(t).value
                  && forall j :: i < j < |t| ==> !t[j].Action?
  {
    if t != [] {
      var p := t[..|t| - 1];
      assert AllRaised(p) by {
        forall i | 0 <= i < |p| && p[i].Action? ensures p[i].result.Raised? {
          assert p[i] == t[i];
        }
      }
      LastActionErrorIsLatest(p);
      if !t[|t| - 1].Action? && LastActionError(p).Some? {
        var i :| 0 <= i < |p| && p[i].Action? && p[i].result.Raised? && p[i].result.error == LastActionError(p).value
                 && forall j :: i < j < |p| ==> !p[j].Action?;
        assert t[i] == p[i];
        assert forall j :: i < j < |t| ==> !t[j].Action? by {
          forall j | i < j < |t| ensures !t[j].Action? {
            if j < |p| { assert t[j] == p[j]; }
          }
        }
      }
    }
  }

  /** When every attempt fails, every action call raised and no discovery call raised; the run
      re-raises the error of the most recent action call, unwrapped, or, when no action was ever
      called because no selector was found, the distinct not-found error. */
  lemma ExhaustionError<V, E>(env: Environment<V, E>, context: string, element: string, maxRetries: int,
                              history: seq<Event<V, E>>, k: Knowledge)
    ensures var r := Execute(env, context, element, maxRetries, history, k); var t := r.events;
      r.outcome.Exhausted? ==>
        && AllRaised(t)
        && AllRefreshed(t)
        && (r.outcome.reason == NoLocator <==> Count(t, ActionCall) == 0)
        && (r.outcome.reason.LastError? ==>
              exists i :: 0 <= i < |t| && t[i].Action? && t[i].result.Raised? && t[i].result.error == r.outcome.reason.error
                          && forall j :: i < j < |t| ==> !t[j].Action?)
  {
    var r := Execute(env, context, element, maxRetries, history, k);
    ExecuteFacts(env, context, element, maxRetries, history, k);
    if r.outcome.Exhausted? {
      LastActionErrorIsLatest(r.events);
    }
  }

  /** A discovery exception ends the run unchanged: the failed discovery is the last call,
      every discovery before it was answered, and the map afterwards is the one the failed call
      left. */
  lemma DiscoveryErrorPropagates<V, E>(env: Environment<V, E>, context: string, element: string, maxRetries: int,
                                       history: seq<Event<V, E>>, k: Knowledge)
    ensures var r := Execute(env, context, element, maxRetries, history, k); var t := r.events;
      r.outcome.DiscoveryFailed? ==>
        && |t| > 0
        && t[|t| - 1].Discovery?
        && t[|t| - 1].response == DiscoveryRaised(r.outcome.error, r.knowledge)
        && AllRefreshed(t[..|t| - 1])
        && r.knowledge == Replay(k, t)
  {
    var r := Execute(env, context, element, maxRetries, history, k);
    ExecuteFacts(env, context, element, maxRetries, history, k);
    if r.outcome.DiscoveryFailed? {
      var t := r.events;
      assert t == t[..|t| - 1] + [t[|t| - 1]];
    }
  }

  /** The selector is read from the knowledge map afresh before every action call: each call
      uses the non-empty selector the map held at that moment, so a selector written by a
      discovery, or by the action itself, is the one used next. The map at the end is the one
      the last call left, or the starting map when nothing was called. */
  lemma SelectorsComeFromMap<V, E>(env: Environment<V, E>, context: string, element: string, maxRetries: int,
                                   history: seq<Event<V, E>>, k: Knowledge)
    ensures var r := Execute(env, context, element, maxRetries, history, k); var t := r.events;
      && (t == [] ==> r.knowledge == k)
      && (t != [] ==> r.knowledge == Leaves(t[|t| - 1]))
      && forall i :: 0 <= i < |t| && t[i].Action? ==>
           t[i].selector != "" && Lookup(Replay(k, t[..i]), context, element) == Some(t[i].selector)
  {
    ExecuteFacts(env, context, element, maxRetries, history, k);
  }

  // ---------------------------------------------------------------------------------------------
  // Two concrete runs

  const Page := "fb_match_page"
  const Submit := "submit_button"

  /** A discovery that writes `#submit` for the submit button, and an action that raises
      "timeout" on its first call and returns 42 afterwards. */
  function FlakyButton(): Environment<int, string>
  {
    Environment(
      (h: seq<Event<int, string>>, c: string, q: Request<string>, k: Knowledge) => Refreshed(k[c := map[Submit := "#submit"]]),
      (h: seq<Event<int, string>>, sel: string, k: Knowledge) => if Count(h, ActionCall) == 0 then Raised("timeout", k) else Returned(42, k))
  }

  const Found: Knowledge := map[Page := map[Submit := "#submit"]]
  const FoundEvent: Event<int, string> := Discovery(Page, MissingSelector(Submit), Refreshed(Found))
  const TimeoutEvent: Event<int, string> := Action("#submit", Raised("timeout", Found))
  const HealEvent: Event<int, string> := Discovery(Page, Healing(Submit, Some("timeout")), Refreshed(Found))
  const SuccessEvent: Event<int, string> := Action("#submit", Returned(42, Found))

  /** Counting over three calls, one at a time. */
  lemma CountThree(e0: Event<int, string>, e1: Event<int, string>, e2: Event<int, string>)
    ensures forall kind :: (Count([e0, e1, e2], kind)
      == (if IsKind(e0, kind) then 1 else 0) + (if IsKind(e1, kind) then 1 else 0) + (if IsKind(e2, kind) then 1 else 0))
  {
    AppendOne(map[], [], e0, Page, Submit);
    AppendOne(map[], [e0], e1, Page, Submit);
    AppendOne(map[], [e0, e1], e2, Page, Submit);
    assert [] + [e0] == [e0] && [e0] + [e1] == [e0, e1] && [e0, e1] + [e2] == [e0, e1, e2];
  }

  /** The first attempt of the flaky-button run: discover, fail, heal. */
  lemma FlakyFirstAttempt()
    ensures Attempt(FlakyButton(), Page, Submit, true, [], map[], [], None)
         == Next(Found, [FoundEvent, TimeoutEvent, HealEvent], Some("timeout"))
  {
    var env := FlakyButton();
    assert Lookup(map[], Page, Submit) == None;
    assert env.discover([] + [], Page, MissingSelector(Submit), map[]) == Refreshed(Found);
    assert Lookup(Found, Page, Submit) == Some("#submit");
    assert [] + [FoundEvent] == [FoundEvent];
    assert Count([FoundEvent][..0], ActionCall) == 0;
    assert env.act([] + [FoundEvent], "#submit", Found) == Raised("timeout", Found);
    assert [FoundEvent] + [TimeoutEvent] == [FoundEvent, TimeoutEvent];
    assert Found[Page := map[Submit := "#submit"]] == Found;
    assert env.discover([] + [FoundEvent, TimeoutEvent], Page, Healing(Submit, Some("timeout")), Found) == Refreshed(Found);
    assert [FoundEvent, TimeoutEvent] + [HealEvent] == [FoundEvent, TimeoutEvent, HealEvent];
  }

  /** The second attempt of the flaky-button run: the action succeeds. */
  lemma FlakySecondAttempt()
    ensures Attempt(FlakyButton(), Page, Submit, true, [], Found, [FoundEvent, TimeoutEvent, HealEvent], Some("timeout"))
         == Finished(Run(Succeeded(42), Found, [FoundEvent, TimeoutEvent, HealEvent, SuccessEvent]))
  {
    var t := [FoundEvent, TimeoutEvent, HealEvent];
    assert [] + t == t;
    CountThree(FoundEvent, TimeoutEvent, HealEvent);
  }

  /** How many calls of each kind the flaky-button run made. */
  lemma FlakyCounts()
    ensures var t := [FoundEvent, TimeoutEvent, HealEvent, SuccessEvent];
      && Count(t, ActionCall) == 2 && Count(t, MissingDiscovery) == 1 && Count(t, HealingDiscovery) == 1
  {
    CountThree(FoundEvent, TimeoutEvent, HealEvent);
    AppendOne(map[], [FoundEvent, TimeoutEvent, HealEvent], SuccessEvent, Page, Submit);
    assert [FoundEvent, TimeoutEvent, HealEvent] + [SuccessEvent] == [FoundEvent, TimeoutEvent, HealEvent, SuccessEvent];
  }

  /** With two retries and an empty map, the first discovery fills the map, the action fails
      once, is healed, and succeeds: two discovery calls, two action calls, the action's value
      returned. */
  lemma FlakyButtonScenario()
    ensures var r := Execute(FlakyButton(), Page, Submit, 2, [], map[]);
      && r.outcome == Succeeded(42)
      && r.knowledge == Found
      && r.events == [FoundEvent, TimeoutEvent, HealEvent, SuccessEvent]
      && Count(r.events, ActionCall) == 2
      && Count(r.events, MissingDiscovery) + Count(r.events, HealingDiscovery) == 2
  {
    FlakyFirstAttempt();
    FlakySecondAttempt();
    FlakyCounts();
  }

  /** A discovery that never finds the element. */
  function NeverFound(): Environment<int, string>
  {
    Environment(
      (h: seq<Event<int, string>>, c: string, q: Request<string>, k: Knowledge) => Refreshed(k),
      (h: seq<Event<int, string>>, sel: string, k: Knowledge) => Returned(0, k))
  }

  const Empty: Knowledge := map[]
  const MissEvent: Event<int, string> := Discovery(Page, MissingSelector(Submit), Refreshed(Empty))
  const BlindHealEvent: Event<int, string> := Discovery(Page, Healing(Submit, None), Refreshed(Empty))

  /** Each attempt of a run whose element is never found asks for it, and all but the last
      also ask for a healing. */
  lemma NeverFoundAttempts(acc: seq<Event<int, string>>)
    ensures Attempt(NeverFound(), Page, Submit, true, [], Empty, acc, None) == Next(Empty, acc + [MissEvent, BlindHealEvent], None)
    ensures Attempt(NeverFound(), Page, Submit, false, [], Empty, acc, None) == Next(Empty, acc + [MissEvent], None)
  {
    assert acc + [MissEvent] + [BlindHealEvent] == acc + [MissEvent, BlindHealEvent];
  }

  /** The bound `2 * max_retries + 1` on discovery calls is reached: with one retry and an
      element that is never found there are three discovery calls (missing, healing, missing),
      no action call, and the not-found error. */
  lemma DiscoveryBoundReached()
    ensures var r := Execute(NeverFound(), Page, Submit, 1, [], Empty);
      && r.outcome == Exhausted(NoLocator)
      && r.events == [MissEvent, BlindHealEvent, MissEvent]
      && Count(r.events, ActionCall) == 0
      && Count(r.events, MissingDiscovery) + Count(r.events, HealingDiscovery) == 3
  {
    NeverFoundAttempts([]);
    NeverFoundAttempts([MissEvent, BlindHealEvent]);
    assert [] + [MissEvent, BlindHealEvent] == [MissEvent, BlindHealEvent];
    assert [MissEvent, BlindHealEvent] + [MissEvent] == [MissEvent, BlindHealEvent, MissEvent];
    CountThree(MissEvent, BlindHealEvent, MissEvent);
  }

  /** An action that wipes the knowledge map and raises, and a discovery that leaves the map
      as it is. */
  function Wiping(): Environment<int, string>
  {
    Environment(
      (h: seq<Event<int, string>>, c: string, q: Request<string>, k: Knowledge) => Refreshed(k),
      (h: seq<Event<int, string>>, sel: string, k: Knowledge) => Raised("stale", Empty))
  }

  const StaleEvent: Event<int, string> := Action("#submit", Raised("stale", Empty))
  const StaleHealEvent: Event<int, string> := Discovery(Page, Healing(Submit, Some("stale")), Refreshed(Empty))

  /** The selector is read again on the next attempt: with one retry and the selector known,
      the action wipes the map and raises, so the second attempt finds no selector, asks for it
      and never calls the action again; the run re-raises the action's error and ends with the
      map the action left. */
  lemma ActionWritesMap()
    ensures var r := Execute(Wiping(), Page, Submit, 1, [], Found);
      && r.outcome == Exhausted(LastError("stale"))
      && r.knowledge == Empty
      && r.events == [StaleEvent, StaleHealEvent, MissEvent]
      && Count(r.events, ActionCall) == 1
  {
    var env := Wiping();
    assert Lookup(Found, Page, Submit) == Some("#submit");
    assert Lookup(Empty, Page, Submit) == None;
    assert [] + [StaleEvent] == [StaleEvent];
    assert [StaleEvent] + [StaleHealEvent] == [StaleEvent, StaleHealEvent];
    assert Attempt(env, Page, Submit, true, [], Found, [], None) == Next(Empty, [StaleEvent, StaleHealEvent], Some("stale"));
    assert [StaleEvent, StaleHealEvent] + [MissEvent] == [StaleEvent, StaleHealEvent, MissEvent];
    assert Attempt(env, Page, Submit, false, [], Empty, [StaleEvent, StaleHealEvent], Some("stale"))
        == Next(Empty, [StaleEvent, StaleHealEvent, MissEvent], Some("stale"));
    CountThree(StaleEvent, StaleHealEvent, MissEvent);
  }

  // ---------------------------------------------------------------------------------------------
  // The executor as it runs: a session over the shared knowledge map

  /** The shared knowledge map and the environment, with the history of every call made to the
      environment (which decides its answers). */
  class Session<V, E> {
    const env: Environment<V, E>
    var knowledge: Knowledge
    var history: seq<Event<V, E>>

    constructor (env: Environment<V, E>, knowledge: Knowledge)
      ensures this.env == env && this.knowledge == knowledge && history == []
    {
      this.env := env;
      this.knowledge := knowledge;
      history := [];
    }

    /** `knowledge_db.get(context, {}).get(element)`, treating an empty selector as missing. */
    method Get(context: string, element: string) returns (selector: Option<string>)
      ensures selector.Some? <==>
                context in knowledge && element in knowledge[context] && knowledge[context][element] != ""
      ensures selector.Some? ==> selector.value == knowledge[context][element]
    {
      selector := Lookup(knowledge, context, element);
    }

    /** One call of the discovery service: it rewrites the knowledge map and may raise. */
    method Discover(context: string, request: Request<E>) returns (failure: Option<E>)
      modifies this
      ensures var response := env.discover(old(history), context, request, old(knowledge));
        && history == old(history) + [Discovery(context, request, response)]
        && knowledge == response.knowledge
        && failure == (if response.DiscoveryRaised? then Some(response.error) else None)
    {
      var response := env.discover(history, context, request, knowledge);
      history := history + [Discovery(context, request, response)];
      knowledge := response.knowledge;
      if response.Refreshed? {
        failure := None;
      } else {
        failure := Some(response.error);
      }
    }

    /** One call of the caller's action with a selector; the action may rewrite the knowledge
        map whether it returns or raises. */
    method Act(selector: string) returns (result: ActionResult<V, E>)
      modifies this
      ensures result == env.act(old(history), selector, old(knowledge))
      ensures history == old(history) + [Action(selector, result)]
      ensures knowledge == result.knowledge
    {
      result := env.act(history, selector, knowledge);
      history := history + [Action(selector, result)];
      knowledge := result.knowledge;
    }

    /** One pass of the loop body (lines 38-74): the outcome when the run ends in this attempt,
        or the error to carry into the next one. `acc` are the calls made by earlier attempts. */
    method AttemptOnce(context: string, element: string, healing: bool, ghost h0: seq<Event<V, E>>,
                       ghost acc: seq<Event<V, E>>, lastError: Option<E>)
      returns (done: Option<Outcome<V, E>>, nextError: Option<E>)
      requires history == h0 + acc
      modifies this
      ensures var s := Attempt(env, context, element, healing, h0, old(knowledge), acc, lastError);
        if s.Finished? then
          done == Some(s.run.outcome) && knowledge == s.run.knowledge && history == h0 + s.run.events
        else
          done == None && knowledge == s.knowledge && history == h0 + s.events && nextError == s.lastError
    {
      ghost var k1 := knowledge;
      nextError := lastError;
      var selector := Get(context, element);
      ghost var events := acc;
      if selector.None? {
        var failure := Discover(context, MissingSelector(element));
        ghost var response := env.discover(h0 + acc, context, MissingSelector(element), k1);
        events := events + [Discovery(context, MissingSelector(element), response)];
        assert history == h0 + events;
        if failure.Some? {
          return Some(DiscoveryFailed(failure.value)), nextError;
        }
        selector := Get(context, element);
      }
      assert Attempt(env, context, element, healing, h0, k1, acc, lastError)
          == TryAction(env, context, element, healing, h0, knowledge, events, selector, lastError);
      ghost var k2, acc2 := knowledge, events;
      if selector.Some? {
        var result := Act(selector.value);
        events := events + [Action(selector.value, result)];
        assert history == h0 + events;
        if result.Returned? {
          return Some(Succeeded(result.value)), nextError;
        }
        nextError := Some(result.error);
      }
      assert TryAction(env, context, element, healing, h0, k2, acc2, selector, lastError)
          == Heal(env, context, element, healing, h0, knowledge, events, nextError);
      ghost var k3, acc3 := knowledge, events;
      if healing {
        var failure := Discover(context, Healing(element, nextError));
        ghost var response := env.discover(h0 + acc3, context, Healing(element, nextError), k3);
        events := events + [Discovery(context, Healing(element, nextError), response)];
        assert history == h0 + events;
        if failure.Some? {
          return Some(DiscoveryFailed(failure.value)), nextError;
        }
      }
      done := None;
    }

    /** `execute_smart_action`: the retry loop of lines 37-80. */
    method ExecuteSmartAction(context: string, element: string, maxRetries: int) returns (outcome: Outcome<V, E>)
      modifies this
      ensures var r := Execute(env, context, element, maxRetries, old(history), old(knowledge));
        && outcome == r.outcome
        && knowledge == r.knowledge
        && history == old(history) + r.events
    {
      ghost var h0 := history;
      ghost var run := Execute(env, context, element, maxRetries, h0, knowledge);
      ghost var events: seq<Event<V, E>> := [];
      var lastError: Option<E> := None;
      var attempt := 0;
      while attempt <= maxRetries
        invariant history == h0 + events
        invariant run == Attempts(env, context, element, maxRetries, attempt, h0, knowledge, events, lastError)
        decreases maxRetries + 1 - attempt
      {
        var done;
        done, lastError := AttemptOnce(context, element, attempt < maxRetries, h0, events, lastError);
        if done.Some? {
          return done.value;
        }
        events := history[|h0|..];
        attempt := attempt + 1;
      }
      outcome := ExhaustedWith(lastError);
    }
  }
}
