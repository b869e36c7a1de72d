/**
 The process-wide cache of tunnel proxy addresses (`edge_tunnel_addr` and `EDGE_TUNNEL_ADDRS` in
 crates/clustershell-cli/src/tls.rs). A call looks its key up under the lock, releases the lock,
 starts a proxy, and takes the lock again to publish. Any number of calls run at the same time.
 */
module TunnelCache {

  /** Upstream server and token. */
  type Key = (string, string)

  type Addr = nat

  /** Where one call is. */
  datatype Call =
    | Looking(key: Key)
    | Starting(key: Key)
    | Publishing(key: Key, addr: Addr)
    | Returned(key: Key, addr: Addr)
    | Failed(key: Key)

  /** `proxies` lists the proxies started so far, each with the key it was started for. */
  datatype State = State(registry: map<Key, Addr>, calls: map<nat, Call>, proxies: seq<(Addr, Key)>)

  /** The atomic moves: everything between two lock or await points of one call. */
  datatype Action =
    | Arrive(id: nat, key: Key)
    | Look(id: nat)
    | Start(id: nat, addr: Addr)
    | StartFails(id: nat)
    | Publish(id: nat)

  const Init := State(map[], map[], [])

  /** The next state; an action that is not enabled changes nothing. */
  function Step(s: State, a: Action): State {
    match a
    case Arrive(id, key) =>
      if id in s.calls then s else s.(calls := s.calls[id := Looking(key)])
    case Look(id) =>
      if id in s.calls && s.calls[id].Looking? then
        var key := s.calls[id].key;
        s.(calls := s.calls[id := if key in s.registry then Returned(key, s.registry[key]) else Starting(key)])
      else s
    case Start(id, addr) =>
      if id in s.calls && s.calls[id].Starting? then
        var key := s.calls[id].key;
        s.(calls := s.calls[id := Publishing(key, addr)], proxies := s.proxies + [(addr, key)])
      else s
    case StartFails(id) =>
      if id in s.calls && s.calls[id].Starting? then
        s.(calls := s.calls[id := Failed(s.calls[id].key)])
      else s
    case Publish(id) =>
      if id in s.calls && s.calls[id].Publishing? then
        var key := s.calls[id].key;
        var registry := if key in s.registry then s.registry else s.registry[key := s.calls[id].addr];
        s.(registry := registry, calls := s.calls[id := Returned(key, registry[key])])
      else s
  }

  /** The state after any interleaving of calls. */
  function Run(actions: seq<Action>): State {
    if actions == [] then Init else Step(Run(actions[..|actions| - 1]), actions[|actions| - 1])
  }

  // ------------------------------------------------------------------------ agreement

  /** Whoever has returned has returned the published entry, and every entry belongs to a started proxy. */
  ghost predicate Inv(s: State) {
    && (forall id | id in s.calls && s.calls[id].Returned? ::
          s.calls[id].key in s.registry && s.registry[s.calls[id].key] == s.calls[id].addr)
    && (forall id | id in s.calls && s.calls[id].Publishing? :: (s.calls[id].addr, s.calls[id].key) in s.proxies)
    && (forall key | key in s.registry :: (s.registry[key], key) in s.proxies)
  }

  lemma {:induction false} RunKeepsInv(actions: seq<Action>)
    ensures Inv(Run(actions))
  {
    if actions == [] {
    } else {
      RunKeepsInv(actions[..|actions| - 1]);
      StepKeepsInv(Run(actions[..|actions| - 1]), actions[|actions| - 1]);
    }
  }

  lemma StepKeepsInv(s: State, a: Action)
    requires Inv(s)
    ensures Inv(Step(s, a))
  {
    if a.Start? && a.id in s.calls && s.calls[a.id].Starting? {
      var t, key := Step(s, a), s.calls[a.id].key;
      assert forall p | p in s.proxies :: p in t.proxies;
      assert t.proxies[|s.proxies|] == (a.addr, key);
    }
  }

  /** Two calls for one key that have returned have returned the same address. */
  lemma SameKeySameAddress(actions: seq<Action>, i: nat, j: nat)
    requires var calls := Run(actions).calls;
             && i in calls && j in calls && calls[i].Returned? && calls[j].Returned?
             && calls[i].key == calls[j].key
    ensures Run(actions).calls[i].addr == Run(actions).calls[j].addr
  {
    RunKeepsInv(actions);
  }

  /** A published entry never changes, whatever happens later. */
  lemma {:induction false} EntriesNeverChange(actions: seq<Action>, n: nat, key: Key)
    requires n <= |actions| && key in Run(actions[..n]).registry
    ensures key in Run(actions).registry && Run(actions).registry[key] == Run(actions[..n]).registry[key]
  {
    if n < |actions| {
      var front := actions[..|actions| - 1];
      assert front[..n] == actions[..n];
      EntriesNeverChange(front, n, key);
    } else {
      assert actions[..n] == actions;
    }
  }

  /** Nor does an answer: what a call has returned at some point it has returned for good. */
  lemma {:induction false} AnswersNeverChange(actions: seq<Action>, n: nat, id: nat)
    requires n <= |actions| && id in Run(actions[..n]).calls && Run(actions[..n]).calls[id].Returned?
    ensures id in Run(actions).calls && Run(actions).calls[id] == Run(actions[..n]).calls[id]
  {
    if n < |actions| {
      var front := actions[..|actions| - 1];
      assert front[..n] == actions[..n];
      AnswersNeverChange(front, n, id);
    } else {
      assert actions[..n] == actions;
    }
  }

  /** A call keeps the key it came with. */
  lemma {:induction false} KeysNeverChange(actions: seq<Action>, n: nat, id: nat)
    requires n <= |actions| && id in Run(actions[..n]).calls
    ensures id in Run(actions).calls && Run(actions).calls[id].key == Run(actions[..n]).calls[id].key
  {
    if n < |actions| {
      var front := actions[..|actions| - 1];
      assert front[..n] == actions[..n];
      KeysNeverChange(front, n, id);
    } else {
      assert actions[..n] == actions;
    }
  }

  /** A call that looks when its key has been published is answered from there, and starts no proxy. */
  lemma LateCallIsAnsweredFromCache(actions: seq<Action>, n: nat, id: nat, key: Key)
    requires n < |actions| && actions[n] == Look(id)
    requires var s := Run(actions[..n]);
             id in s.calls && s.calls[id] == Looking(key) && key in s.registry
    ensures id in Run(actions).calls && Run(actions).calls[id] == Returned(key, Run(actions[..n]).registry[key])
    ensures Run(actions[..n + 1]).proxies == Run(actions[..n]).proxies
  {
    var front := actions[..n];
    assert actions[..n + 1] == front + [Look(id)];
    RunSnoc(front, Look(id));
    LookAnswers(Run(front), id, key);
    AnswersNeverChange(actions, n + 1, id);
  }

  lemma LookAnswers(s: State, id: nat, key: Key)
    requires id in s.calls && s.calls[id] == Looking(key) && key in s.registry
    ensures var t := Step(s, Look(id));
            id in t.calls && t.calls[id] == Returned(key, s.registry[key]) && t.proxies == s.proxies
  {}

  // ------------------------------------------------------------------- distinct keys

  /** No two proxies were started on the same address. */
  ghost predicate FreshProxies(s: State) {
    forall i, j | 0 <= i < j < |s.proxies| :: s.proxies[i].0 != s.proxies[j].0
  }

  /** With fresh proxies, calls for different keys never share an address. */
  lemma DifferentKeysDifferentAddresses(actions: seq<Action>, i: nat, j: nat)
    requires FreshProxies(Run(actions))
    requires var calls := Run(actions).calls;
             && i in calls && j in calls && calls[i].Returned? && calls[j].Returned?
             && calls[i].key != calls[j].key
    ensures Run(actions).calls[i].addr != Run(actions).calls[j].addr
  {
    RunKeepsInv(actions);
    var s := Run(actions);
    var a, b := s.calls[i], s.calls[j];
    assert (s.registry[a.key], a.key) in s.proxies && (s.registry[b.key], b.key) in s.proxies;
  }

  // -------------------------------------------------------------- the race is possible

  lemma RunSnoc(actions: seq<Action>, a: Action)
    ensures Run(actions + [a]) == Step(Run(actions), a)
  {
    assert (actions + [a])[..|actions|] == actions;
  }

  /** Both calls can miss and start a proxy of their own; they still return one address. */
  lemma BothCallsStartAProxy(key: Key, a: Addr, b: Addr)
    ensures exists actions :: var s := Run(actions);
      s.proxies == [(a, key), (b, key)] && s.calls == map[0 := Returned(key, a), 1 := Returned(key, a)]
  {
    var as0: seq<Action> := [];
    var as1 := as0 + [Arrive(0, key)];
    var as2 := as1 + [Arrive(1, key)];
    var as3 := as2 + [Look(0)];
    var as4 := as3 + [Look(1)];
    var as5 := as4 + [Start(0, a)];
    var as6 := as5 + [Start(1, b)];
    var as7 := as6 + [Publish(0)];
    var as8 := as7 + [Publish(1)];
    RunSnoc(as0, Arrive(0, key));
    RunSnoc(as1, Arrive(1, key));
    RunSnoc(as2, Look(0));
    RunSnoc(as3, Look(1));
    RunSnoc(as4, Start(0, a));
    RunSnoc(as5, Start(1, b));
    RunSnoc(as6, Publish(0));
    RunSnoc(as7, Publish(1));
    assert Run(as8).calls == map[0 := Returned(key, a), 1 := Returned(key, a)];
  }
}
