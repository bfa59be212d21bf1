/** The Container object: the whole tree of containers held in one place,
    and the operations that read and update it in place. A container handle
    is the index of its scope; the root is scope 0. */
module Containers {
  import opened Types
  import opened Scopes
  import opened Registration
  import opened Shuffle

  /** The package-level cycle check run after a provider or decorator was
      added under a key (`verifyAcyclic(root, n, k)`): given the tree, the
      root, the new node, the parameter list the node is checked with and the
      key, it says whether the graph stayed acyclic. Its algorithm is not
      part of this model. */
  type CycleCheck = (seq<Scope>, ScopeId, Node, seq<Param>, Key) -> bool

  /** The `detectCycles` walk over every node of a container that
      `Container.verifyAcyclic` runs: true when no cycle is found. */
  type GraphCheck = (seq<Scope>, ScopeId) -> bool

  /** How far Invoke gets before it builds the function's arguments. */
  datatype InvokeOutcome =
    | MissingDependencies(keys: seq<Key>)
    | CycleDetected
    | ReadyToBuild(root: ScopeId)

  predicate Distinct(ks: seq<Key>)
  {
    forall i, j :: 0 <= i < j < |ks| ==> ks[i] != ks[j]
  }

  /** A loop over the keys of `all` in an arbitrary order has handled the
      keys of `done`, in that order, and has `remaining` left. */
  ghost predicate Progress(all: set<Key>, remaining: set<Key>, done: seq<Key>)
  {
    remaining <= all && Elems(done) == all - remaining && Distinct(done)
  }

  lemma ProgressStep(all: set<Key>, remaining: set<Key>, done: seq<Key>, k: Key)
    requires Progress(all, remaining, done) && k in remaining
    ensures Progress(all, remaining - {k}, done + [k])
    ensures Elems(done + [k]) == Elems(done) + {k} && k !in Elems(done)
    ensures (done + [k])[..|done|] == done
  {
    assert all - (remaining - {k}) == (all - remaining) + {k};
    assert Elems(done + [k]) == Elems(done) + {k};
  }

  /** The tree while provide's loop runs: `n` added under every key of
      `ks`, the verified flag set to `flag`. */
  function ProvState(s: seq<Scope>, c: ScopeId, n: Node, ks: seq<Key>, flag: bool): seq<Scope>
    requires c < |s|
  {
    s[c := s[c].(providers := AppendedUnder(s[c].providers, Elems(ks), n), isVerifiedAcyclic := flag)]
  }

  /** The tree while provide checks the key `ks[|ks| - 1]`: `n` added under
      every key of `ks`, the verified flag cleared. */
  function ProvideMid(s: seq<Scope>, c: ScopeId, n: Node, ks: seq<Key>): seq<Scope>
    requires c < |s|
  {
    ProvState(s, c, n, ks, false)
  }

  /** Each key of `ks` passed the cycle check run right after the node was
      added under it. */
  ghost predicate CheckedInOrder(acyclic: CycleCheck, s: seq<Scope>, c: ScopeId, root: ScopeId, n: Node, ks: seq<Key>)
    requires c < |s|
    decreases |ks|
  {
    ks == [] ||
      (CheckedInOrder(acyclic, s, c, root, n, ks[..|ks| - 1])
       && acyclic(ProvideMid(s, c, n, ks), root, n, n.params, ks[|ks| - 1]))
  }

  /** One round of provide's loop takes the tree from one intermediate state
      to the next. */
  lemma ProvideStep(s0: seq<Scope>, c: ScopeId, n: Node, done: seq<Key>, k: Key, flag: bool)
    requires c < |s0| && k !in Elems(done)
    ensures var s := ProvState(s0, c, n, done, flag);
            && Get(s[c].providers, k) == Get(s0[c].providers, k)
            && s[c := s[c].(providers := s[c].providers[k := Get(s[c].providers, k) + [n]], isVerifiedAcyclic := false)]
               == ProvideMid(s0, c, n, done + [k])
    ensures var m := ProvideMid(s0, c, n, done + [k]);
            m[c := m[c].(isVerifiedAcyclic := true)] == ProvState(s0, c, n, done + [k], true)
  {
    AppendedUnderStep(s0[c].providers, Elems(done), k, n);
    assert Elems(done + [k]) == Elems(done) + {k};
  }

  /** provide's rollback after a failed check of `k`: only `k` gets its old
      list back. */
  lemma ProvideRollback(s0: seq<Scope>, c: ScopeId, n: Node, before: seq<Key>, k: Key)
    requires c < |s0|
    ensures var s := ProvideMid(s0, c, n, before + [k]);
            var sc := s0[c];
            s[c := s[c].(providers := s[c].providers[k := Get(sc.providers, k)])]
            == s0[c := sc.(providers := AppendedUnder(sc.providers, Elems(before), n)[k := Get(sc.providers, k)],
                           isVerifiedAcyclic := false)]
  {
    assert Elems(before + [k]) == Elems(before) + {k};
    AppendedUnderOverwrite(s0[c].providers, Elems(before), k, n, Get(s0[c].providers, k));
  }

  /** The providers of `c` after decorate has handled the keys `ks`: when the
      decorator has parameters of its own, each handled key was spliced and
      restored, otherwise the map was not touched. */
  function DecoratedProviders(m: map<Key, seq<Node>>, touched: bool, ks: seq<Key>): map<Key, seq<Node>>
  {
    if touched then Restored(m, Elems(ks)) else m
  }

  /** The tree while decorate checks the key `k`: the keys of `before`
      handled, `n` spliced in front of `k`'s providers, the flag cleared. */
  function DecorateMid(s: seq<Scope>, c: ScopeId, n: Node, before: seq<Key>, k: Key): seq<Scope>
    requires c < |s|
  {
    var m := Restored(s[c].providers, Elems(before));
    s[c := s[c].(providers := m[k := [n] + Get(s[c].providers, k)],
                 decorators := AppendedUnder(s[c].decorators, Elems(before), n),
                 isVerifiedAcyclic := false)]
  }

  /** What provide's loop leaves behind, having handled the keys of `done`
      in that order: on success `n` is under every key and recorded in
      `nodes`, and the flag says whether the check ran; on a cycle the last
      key of `done` failed its check, its old list is back and the flag is
      false. Each key before the last passed its check. */
  ghost predicate ProvideOutcome(s0: seq<Scope>, s: seq<Scope>, c: ScopeId, n: Node, keys: set<Key>,
                                 root: ScopeId, acyclic: CycleCheck, r: Option<ProvideError>, done: seq<Key>)
    requires c < |s0|
  {
    var sc := s0[c];
    && (r.None? || r.value.ProvideCycle?)
    && |done| > 0 && Distinct(done) && Elems(done) <= keys
    && (!sc.deferAcyclicVerification ==> CheckedInOrder(acyclic, s0, c, root, n, done[..|done| - 1]))
    && (r.None? ==>
          && Elems(done) == keys
          && s == s0[c := sc.(providers := AppendedUnder(sc.providers, keys, n),
                              nodes := sc.nodes + [n],
                              isVerifiedAcyclic := !sc.deferAcyclicVerification)]
          && (!sc.deferAcyclicVerification ==> CheckedInOrder(acyclic, s0, c, root, n, done)))
    && (r.Some? ==>
          var k := r.value.key;
          && !sc.deferAcyclicVerification && k == done[|done| - 1]
          && !acyclic(ProvideMid(s0, c, n, done), root, n, n.params, k)
          && s == s0[c := sc.(providers := AppendedUnder(sc.providers, Elems(done[..|done| - 1]), n)[k := Get(sc.providers, k)],
                              isVerifiedAcyclic := false)])
  }

  /** provide's loop after the last key. */
  lemma ProvideFinished(s0: seq<Scope>, s: seq<Scope>, c: ScopeId, n: Node, keys: set<Key>,
                        root: ScopeId, acyclic: CycleCheck, done: seq<Key>)
    requires c < |s0| && keys != {} && Progress(keys, {}, done)
    requires s == ProvState(s0, c, n, done, !s0[c].deferAcyclicVerification)
    requires !s0[c].deferAcyclicVerification ==> CheckedInOrder(acyclic, s0, c, root, n, done)
    ensures OnlyDataOf(s0, s[c := s[c].(nodes := s[c].nodes + [n])], c)
    ensures ProvideOutcome(s0, s[c := s[c].(nodes := s[c].nodes + [n])], c, n, keys, root, acyclic, None, done)
  {
    assert Elems([]) == {};
  }

  /** provide's loop when the check of the last key of `before + [k]` fails
      and that key's old list is put back. */
  lemma ProvideFailed(s0: seq<Scope>, s: seq<Scope>, c: ScopeId, n: Node, keys: set<Key>, remaining: set<Key>,
                      root: ScopeId, acyclic: CycleCheck, before: seq<Key>, k: Key)
    requires c < |s0| && Progress(keys, remaining, before + [k]) && (before + [k])[..|before|] == before
    requires !s0[c].deferAcyclicVerification && CheckedInOrder(acyclic, s0, c, root, n, before)
    requires s == ProvideMid(s0, c, n, before + [k]) && !acyclic(s, root, n, n.params, k)
    ensures OnlyDataOf(s0, s[c := s[c].(providers := s[c].providers[k := Get(s0[c].providers, k)])], c)
    ensures ProvideOutcome(s0, s[c := s[c].(providers := s[c].providers[k := Get(s0[c].providers, k)])],
                           c, n, keys, root, acyclic, Some(ProvideCycle(k)), before + [k])
  {
    ProvideRollback(s0, c, n, before, k);
  }

  /** The loop of provide, on the tree as a value: adds `n` under each key
      of `keys` in turn (in an arbitrary order, as Go's map iteration),
      clearing the verified flag, then, unless verification is deferred,
      runs the cycle check; a failed check restores that key's old list and
      stops. On success the node is recorded in `nodes`. */
  method AddUnderKeys(s0: seq<Scope>, c: ScopeId, n: Node, keys: set<Key>, root: ScopeId, acyclic: CycleCheck)
    returns (s: seq<Scope>, r: Option<ProvideError>, ghost done: seq<Key>)
    requires c < |s0| && keys != {}
    ensures OnlyDataOf(s0, s, c)
    ensures ProvideOutcome(s0, s, c, n, keys, root, acyclic, r, done)
  {
    done := [];
    s := s0;
    var sc0 := s[c];
    var remaining := keys;
    assert AppendedUnder(sc0.providers, Elems(done), n) == sc0.providers;
    while remaining != {}
      invariant Progress(keys, remaining, done)
      invariant s == ProvState(s0, c, n, done, if done == [] then sc0.isVerifiedAcyclic
                                               else !sc0.deferAcyclicVerification)
      invariant !sc0.deferAcyclicVerification ==> CheckedInOrder(acyclic, s0, c, root, n, done)
      decreases remaining
    {
      var k :| k in remaining;
      ghost var before := done;
      ProgressStep(keys, remaining, done, k);
      ProvideStep(s0, c, n, done, k, if done == [] then sc0.isVerifiedAcyclic else !sc0.deferAcyclicVerification);
      var sc := s[c];
      var oldProviders := Get(sc.providers, k);
      s := s[c := sc.(providers := sc.providers[k := oldProviders + [n]], isVerifiedAcyclic := false)];
      remaining := remaining - {k};
      done := done + [k];
      if sc.deferAcyclicVerification {
        continue;
      }
      if !acyclic(s, root, n, n.params, k) {
        ProvideFailed(s0, s, c, n, keys, remaining, root, acyclic, before, k);
        s := s[c := s[c].(providers := s[c].providers[k := oldProviders])];
        return s, Some(ProvideCycle(k)), done;
      }
      s := s[c := s[c].(isVerifiedAcyclic := true)];
    }
    ProvideFinished(s0, s, c, n, keys, root, acyclic, done);
    s := s[c := s[c].(nodes := s[c].nodes + [n])];
    r := None;
  }

  /** The queue-based breadth-first search below `c` that getDecorators
      and decorate run: the first descendant in breadth-first order that has
      `k` present in its providers. */
  method SearchBelow(s: seq<Scope>, c: ScopeId, k: Key) returns (o: Option<ScopeId>)
    requires WellFormed(s) && c < |s|
    ensures InRange(s, s[c].children) && o == BfsFind(s, s[c].children, k)
    ensures o.Some? ==> c < o.value < |s| && AncestorOf(s, c, o.value) && k in s[o.value].providers
    ensures (k in s[c].providers || o.Some?) <==> PresentAtOrBelow(s, c, k)
  {
    ChildrenBelow(s, c);
    var cont := s[c].children;
    o := None;
    while cont != []
      invariant InRange(s, cont)
      invariant o.None?
      invariant BfsFind(s, cont, k) == BfsFind(s, s[c].children, k)
      decreases |Forest(s, cont)|
    {
      var v := cont[0];
      if k in s[v].providers {
        o := Some(v);
        break;
      }
      ForestStep(s, cont);
      cont := cont[1..] + s[v].children;
    }
    SearchBelowSpec(s, c, k);
  }

  /** The tree while decorate runs: the providers of the keys `ks` handled
      (see DecoratedProviders), `n` appended to the decorators of the keys
      `decs`, and the verified flag. */
  function DecState(s0: seq<Scope>, c: ScopeId, n: Node, touched: bool, ks: seq<Key>, decs: set<Key>, flag: bool): seq<Scope>
    requires c < |s0|
  {
    var sc := s0[c];
    s0[c := sc.(providers := DecoratedProviders(sc.providers, touched, ks),
                decorators := AppendedUnder(sc.decorators, decs, n),
                isVerifiedAcyclic := flag)]
  }

  lemma DecorateSplice(s0: seq<Scope>, c: ScopeId, n: Node, before: seq<Key>, k: Key, flag: bool)
    requires c < |s0| && k !in Elems(before)
    ensures var s := DecState(s0, c, n, true, before, Elems(before), flag);
            && Get(s[c].providers, k) == Get(s0[c].providers, k)
            && s[c := s[c].(isVerifiedAcyclic := false, providers := s[c].providers[k := [n] + Get(s[c].providers, k)])]
               == DecorateMid(s0, c, n, before, k)
  {
    RestoredStep(s0[c].providers, Elems(before), k);
  }

  lemma DecorateRestore(s0: seq<Scope>, c: ScopeId, n: Node, before: seq<Key>, k: Key, flag: bool)
    requires c < |s0|
    ensures var s := DecorateMid(s0, c, n, before, k);
            s[c := s[c].(providers := s[c].providers[k := Get(s0[c].providers, k)], isVerifiedAcyclic := flag)]
            == DecState(s0, c, n, true, before + [k], Elems(before), flag)
  {
    assert Elems(before + [k]) == Elems(before) + {k};
    RestoredStep(s0[c].providers, Elems(before), k);
    var m := Restored(s0[c].providers, Elems(before));
    assert m[k := [n] + Get(s0[c].providers, k)][k := Get(s0[c].providers, k)] == m[k := Get(s0[c].providers, k)];
  }

  lemma DecorateRecord(s0: seq<Scope>, c: ScopeId, n: Node, touched: bool, ks: seq<Key>, decs: set<Key>, k: Key, flag: bool)
    requires c < |s0| && k !in decs
    ensures var s := DecState(s0, c, n, touched, ks, decs, flag);
            s[c := s[c].(decorators := s[c].decorators[k := Get(s[c].decorators, k) + [n]])]
            == DecState(s0, c, n, touched, ks, decs + {k}, flag)
  {
    AppendedUnderStep(s0[c].decorators, decs, k, n);
  }

  lemma DecStateFrame(s0: seq<Scope>, c: ScopeId, n: Node, touched: bool, ks: seq<Key>, decs: set<Key>, flag: bool)
    requires WellFormed(s0) && c < |s0|
    ensures OnlyDataOf(s0, DecState(s0, c, n, touched, ks, decs, flag), c)
    ensures WellFormed(DecState(s0, c, n, touched, ks, decs, flag))
  {
    OnlyDataOfWellFormed(s0, DecState(s0, c, n, touched, ks, decs, flag), c);
  }

  lemma DecStateLists(s0: seq<Scope>, c: ScopeId, n: Node, touched: bool, ks: seq<Key>, decs: set<Key>, flag: bool, k: Key)
    requires c < |s0|
    ensures var s := DecState(s0, c, n, touched, ks, decs, flag);
            && Get(s[c].providers, k) == Get(s0[c].providers, k)
            && Get(s[c].decorators, k) == Get(s0[c].decorators, k) + (if k in decs then [n] else [])
            && s[c].providers.Keys == s0[c].providers.Keys + (if touched then Elems(ks) else {})
  {
  }

  /** Whatever decorate has done so far, every provider list in the tree is
      the one it started with, so no provider lookup changes. */
  lemma DecStateProviders(s0: seq<Scope>, c: ScopeId, n: Node, touched: bool, ks: seq<Key>, decs: set<Key>, flag: bool, x: ScopeId, k: Key)
    requires WellFormed(s0) && c < |s0| && x < |s0|
    ensures WellFormed(DecState(s0, c, n, touched, ks, decs, flag))
    ensures Providers(DecState(s0, c, n, touched, ks, decs, flag), x, k) == Providers(s0, x, k)
  {
    var s := DecState(s0, c, n, touched, ks, decs, flag);
    DecStateFrame(s0, c, n, touched, ks, decs, flag);
    DecStateLists(s0, c, n, touched, ks, decs, flag, k);
    assert SameLists(s0, s, k);
    SameListsProviders(s0, s, x, k);
  }

  lemma DecStateAll(s0: seq<Scope>, c: ScopeId, n: Node, touched: bool, ks: seq<Key>, decs: set<Key>, flag: bool)
    requires WellFormed(s0) && c < |s0|
    ensures var s := DecState(s0, c, n, touched, ks, decs, flag);
            && WellFormed(s) && OnlyDataOf(s0, s, c)
            && (forall x, k :: 0 <= x < |s| ==> Providers(s, x, k) == Providers(s0, x, k))
            && (forall k :: Get(s[c].providers, k) == Get(s0[c].providers, k))
  {
    var s := DecState(s0, c, n, touched, ks, decs, flag);
    DecStateFrame(s0, c, n, touched, ks, decs, flag);
    forall x, k | 0 <= x < |s|
      ensures Providers(s, x, k) == Providers(s0, x, k)
    {
      DecStateProviders(s0, c, n, touched, ks, decs, flag, x, k);
    }
    forall k
      ensures Get(s[c].providers, k) == Get(s0[c].providers, k)
    {
      DecStateLists(s0, c, n, touched, ks, decs, flag, k);
    }
  }

  /** One round of decorate's loop, for the output key `k`, from the state
      `s` reached after the keys `before`. */
  method DecorateOne(s0: seq<Scope>, c: ScopeId, n: Node, touched: bool, ghost before: seq<Key>, ghost flag: bool,
                     s: seq<Scope>, k: Key, params: seq<Param>, root: ScopeId, acyclic: CycleCheck)
    returns (s': seq<Scope>, err: Option<DecorateError>, params': seq<Param>)
    requires WellFormed(s0) && c < |s0| && k !in Elems(before)
    requires touched <==> |params| > 0
    requires s == DecState(s0, c, n, touched, before, Elems(before), flag)
    ensures err == None || err == Some(NotFound(k)) || err == Some(DecorateCycle(k))
    ensures err != Some(NotFound(k)) <==> PresentAtOrBelow(s0, c, k)
    ensures err.None? ==>
              && s' == DecState(s0, c, n, touched, before + [k], Elems(before) + {k}, if touched then true else flag)
              && params' == if touched then params + NodesParams(Get(s0[c].providers, k)) else params
    ensures err == Some(NotFound(k)) ==> s' == s
    ensures err == Some(DecorateCycle(k)) ==>
              && touched
              && !acyclic(DecorateMid(s0, c, n, before, k), root, n, params + NodesParams(Get(s0[c].providers, k)), k)
              && s' == DecState(s0, c, n, true, before + [k], Elems(before), false)
  {
    s' := s;
    params' := params;
    OnlyDataOfWellFormed(s0, s, c);
    RestoredStep(s0[c].providers, Elems(before), k);
    PresentAtOrBelowFrame(s0, s, c, k);
    var found := k in s[c].providers;
    if !found {
      var o := SearchBelow(s, c, k);
      found := o.Some?;
    }
    if !found {
      return s', Some(NotFound(k)), params';
    }
    if |params'| > 0 {
      var sc := s'[c];
      var oldProviders := Get(sc.providers, k);
      params' := params' + NodesParams(oldProviders);
      DecorateSplice(s0, c, n, before, k, flag);
      s' := s'[c := sc.(isVerifiedAcyclic := false, providers := sc.providers[k := [n] + oldProviders])];
      if !acyclic(s', root, n, params', k) {
        DecorateRestore(s0, c, n, before, k, false);
        s' := s'[c := s'[c].(providers := s'[c].providers[k := oldProviders], isVerifiedAcyclic := false)];
        return s', Some(DecorateCycle(k)), params';
      }
      DecorateRestore(s0, c, n, before, k, true);
      s' := s'[c := s'[c].(providers := s'[c].providers[k := oldProviders], isVerifiedAcyclic := true)];
    }
    DecorateRecord(s0, c, n, touched, before + [k], Elems(before), k, s'[c].isVerifiedAcyclic);
    var sc := s'[c];
    s' := s'[c := sc.(decorators := sc.decorators[k := Get(sc.decorators, k) + [n]])];
    err := None;
  }

  /** The parameters that decorate hands to the cycle check: one per input
      key that is not an output, grouped or single as the key says, in an
      arbitrary order (Go's map iteration). */
  method ParamsOf(keys: set<Key>) returns (params: seq<Param>, ghost order: seq<Key>)
    ensures Distinct(order) && Elems(order) == keys && params == ParamsFor(order)
    ensures |params| > 0 <==> keys != {}
  {
    params := [];
    order := [];
    var remaining := keys;
    while remaining != {}
      invariant Progress(keys, remaining, order) && |params| == |order|
      invariant forall i :: 0 <= i < |order| ==> params[i] == ParamOfKey(order[i])
      decreases remaining
    {
      var k :| k in remaining;
      ProgressStep(keys, remaining, order, k);
      remaining := remaining - {k};
      order := order + [k];
      params := params + [ParamOfKey(k)];
    }
    assert order == [] ==> Elems(order) == {};
    assert order != [] ==> order[0] in Elems(order);
    assert params == ParamsFor(order);
  }

  /** What decorate's loop leaves behind, having handled the output keys
      of `done` in that order: each handled key but a failing last one is
      present in `c` or below (possibly with an empty provider list). On
      success every output key was handled and recorded; when the last key
      is present nowhere in `c`'s subtree, or its cycle check
      failed, the keys before it were handled and recorded, and that key's
      providers are as they were. */
  ghost predicate DecorateKeysOutcome(s0: seq<Scope>, c: ScopeId, n: Node, outKeys: set<Key>, params0: seq<Param>,
                                      root: ScopeId, acyclic: CycleCheck, s: seq<Scope>, r: Option<DecorateError>, done: seq<Key>)
    requires WellFormed(s0) && c < |s0|
  {
    && Distinct(done) && Elems(done) <= outKeys && (outKeys != {} ==> |done| > 0)
    && (r.None? || r.value.NotFound? || r.value.DecorateCycle?)
    && (r.Some? ==> |done| > 0)
    && (forall j :: j in Elems(done) && (r.None? || j != done[|done| - 1]) ==> PresentAtOrBelow(s0, c, j))
    && (r.None? ==>
          && Elems(done) == outKeys
          && s == DecState(s0, c, n, |params0| > 0, done, outKeys,
                           if |params0| > 0 && done != [] then true else s0[c].isVerifiedAcyclic))
    && (r.Some? && r.value.NotFound? ==>
          var front := done[..|done| - 1];
          && r.value.key == done[|done| - 1]
          && !PresentAtOrBelow(s0, c, r.value.key)
          && s == DecState(s0, c, n, |params0| > 0, front, Elems(front),
                           if |params0| > 0 && front != [] then true else s0[c].isVerifiedAcyclic))
    && (r.Some? && r.value.DecorateCycle? ==>
          var front := done[..|done| - 1];
          && |params0| > 0 && r.value.key == done[|done| - 1]
          && PresentAtOrBelow(s0, c, r.value.key)
          && !acyclic(DecorateMid(s0, c, n, front, r.value.key), root, n,
                      params0 + ProvidersParams(s0[c].providers, done), r.value.key)
          && s == DecState(s0, c, n, true, done, Elems(front), false))
  }

  /** decorate's loop, having handled the output keys of `done` with
      `remaining` left: each handled key is present in `c` or below,
      `params` holds the parameters gathered so far and `s` the tree. */
  ghost predicate DecorateLoop(s0: seq<Scope>, c: ScopeId, n: Node, outKeys: set<Key>, params0: seq<Param>,
                               remaining: set<Key>, done: seq<Key>, params: seq<Param>, s: seq<Scope>)
    requires WellFormed(s0) && c < |s0|
  {
    && Progress(outKeys, remaining, done)
    && (forall j :: j in Elems(done) ==> PresentAtOrBelow(s0, c, j))
    && params == (if |params0| > 0 then params0 + ProvidersParams(s0[c].providers, done) else [])
    && s == DecState(s0, c, n, |params0| > 0, done, Elems(done),
                     if |params0| > 0 && done != [] then true else s0[c].isVerifiedAcyclic)
  }

  /** decorate's loop before any key is handled. */
  lemma DecorateKeysStart(s0: seq<Scope>, c: ScopeId, n: Node, outKeys: set<Key>, params0: seq<Param>)
    requires WellFormed(s0) && c < |s0|
    ensures DecorateLoop(s0, c, n, outKeys, params0, outKeys, [], params0, s0)
  {
    assert Elems([]) == {};
    assert Restored(s0[c].providers, {}) == s0[c].providers;
    assert AppendedUnder(s0[c].decorators, {}, n) == s0[c].decorators;
  }

  /** decorate's loop once every output key is handled. */
  lemma DecorateKeysFinished(s0: seq<Scope>, c: ScopeId, n: Node, outKeys: set<Key>, params0: seq<Param>,
                             root: ScopeId, acyclic: CycleCheck, done: seq<Key>, params: seq<Param>, s: seq<Scope>)
    requires WellFormed(s0) && c < |s0| && DecorateLoop(s0, c, n, outKeys, params0, {}, done, params, s)
    ensures DecorateKeysOutcome(s0, c, n, outKeys, params0, root, acyclic, s, None, done)
  {
    assert Elems([]) == {};
  }

  /** What one round of decorate's loop may assume about the key `k` it
      picked and the state it starts from. */
  lemma DecorateKeysPick(s0: seq<Scope>, c: ScopeId, n: Node, outKeys: set<Key>, params0: seq<Param>,
                         remaining: set<Key>, done: seq<Key>, params: seq<Param>, s: seq<Scope>, k: Key)
    requires WellFormed(s0) && c < |s0| && DecorateLoop(s0, c, n, outKeys, params0, remaining, done, params, s)
    requires k in remaining
    ensures k !in Elems(done) && (|params0| > 0 <==> |params| > 0)
    ensures s == DecState(s0, c, n, |params0| > 0, done, Elems(done),
                          if |params0| > 0 && done != [] then true else s0[c].isVerifiedAcyclic)
  {
  }

  /** decorate's loop when the key `k` succeeds. */
  lemma DecorateKeysAdvance(s0: seq<Scope>, c: ScopeId, n: Node, outKeys: set<Key>, params0: seq<Param>,
                            remaining: set<Key>, before: seq<Key>, params: seq<Param>, s: seq<Scope>, k: Key,
                            params': seq<Param>, s': seq<Scope>)
    requires WellFormed(s0) && c < |s0| && DecorateLoop(s0, c, n, outKeys, params0, remaining, before, params, s)
    requires k in remaining && PresentAtOrBelow(s0, c, k)
    requires params' == if |params0| > 0 then params + NodesParams(Get(s0[c].providers, k)) else params
    requires s' == DecState(s0, c, n, |params0| > 0, before + [k], Elems(before) + {k},
                            if |params0| > 0 then true else if |params0| > 0 && before != [] then true else s0[c].isVerifiedAcyclic)
    ensures DecorateLoop(s0, c, n, outKeys, params0, remaining - {k}, before + [k], params', s')
  {
    ProgressStep(outKeys, remaining, before, k);
    ProvidersParamsSnoc(s0[c].providers, before, k, params0);
  }

  /** decorate's loop when the key `k` fails. */
  lemma DecorateKeysFailed(s0: seq<Scope>, c: ScopeId, n: Node, outKeys: set<Key>, params0: seq<Param>,
                           remaining: set<Key>, before: seq<Key>, params: seq<Param>, s: seq<Scope>, k: Key,
                           root: ScopeId, acyclic: CycleCheck, err: Option<DecorateError>, s': seq<Scope>)
    requires WellFormed(s0) && c < |s0| && DecorateLoop(s0, c, n, outKeys, params0, remaining, before, params, s)
    requires k in remaining
    requires err == Some(NotFound(k)) || err == Some(DecorateCycle(k))
    requires err != Some(NotFound(k)) <==> PresentAtOrBelow(s0, c, k)
    requires err == Some(NotFound(k)) ==> s' == s
    requires err == Some(DecorateCycle(k)) ==>
               && |params0| > 0
               && !acyclic(DecorateMid(s0, c, n, before, k), root, n, params + NodesParams(Get(s0[c].providers, k)), k)
               && s' == DecState(s0, c, n, true, before + [k], Elems(before), false)
    ensures DecorateKeysOutcome(s0, c, n, outKeys, params0, root, acyclic, s', err, before + [k])
  {
    ProgressStep(outKeys, remaining, before, k);
    ProvidersParamsSnoc(s0[c].providers, before, k, params0);
  }

  /** The loop of decorate, on the tree as a value. For each output key in
      turn (in an arbitrary order, as Go's map iteration) it checks that the
      key is present (possibly with an empty list) in `c` or below; when the decorator has parameters
      of its own it splices the decorator in front of the key's providers,
      runs the cycle check with the accumulated parameter list, and restores
      the old list; then it records the decorator under the key. */
  method DecorateKeys(s0: seq<Scope>, c: ScopeId, n: Node, outKeys: set<Key>, params0: seq<Param>, root: ScopeId, acyclic: CycleCheck)
    returns (s: seq<Scope>, r: Option<DecorateError>, ghost done: seq<Key>)
    requires WellFormed(s0) && c < |s0|
    ensures DecorateKeysOutcome(s0, c, n, outKeys, params0, root, acyclic, s, r, done)
  {
    done := [];
    var touched := |params0| > 0;
    var params := params0;
    var remaining := outKeys;
    DecorateKeysStart(s0, c, n, outKeys, params0);
    s := s0;
    while remaining != {}
      invariant DecorateLoop(s0, c, n, outKeys, params0, remaining, done, params, s)
      decreases remaining
    {
      var k :| k in remaining;
      DecorateKeysPick(s0, c, n, outKeys, params0, remaining, done, params, s, k);
      var s', err, params' := DecorateOne(s0, c, n, touched, done, if touched && done != [] then true else s0[c].isVerifiedAcyclic,
                                          s, k, params, root, acyclic);
      if err.Some? {
        DecorateKeysFailed(s0, c, n, outKeys, params0, remaining, done, params, s, k, root, acyclic, err, s');
        return s', err, done + [k];
      }
      DecorateKeysAdvance(s0, c, n, outKeys, params0, remaining, done, params, s, k, params', s');
      remaining := remaining - {k};
      done := done + [k];
      s, params := s', params';
    }
    DecorateKeysFinished(s0, c, n, outKeys, params0, root, acyclic, done, params, s);
    r := None;
  }

  /** What decorate promises once its key sets are known: no provider list
      anywhere in the tree changes, nor the values, groups, nodes or
      deferral flag of `c`, and the new tree is the DecState each outcome
      names; every output key handled is present
      (possibly with an empty provider list) in `c` or below; `n` is recorded as a decorator of every output key
      handled before any failure; the extra parameters number one per input
      key that is not an output; and a failure names the output key at
      which it happened. `done` lists the output keys handled, in order,
      and `order` the order of the extra parameters. */
  ghost predicate DecorateOutcome(s0: seq<Scope>, s: seq<Scope>, c: ScopeId, n: Node, inKeys: set<Key>, outKeys: set<Key>,
                                  acyclic: CycleCheck, r: Option<DecorateError>, done: seq<Key>, order: seq<Key>)
    requires WellFormed(s0) && c < |s0|
  {
    var touched := inKeys - outKeys != {};
    var front := if done == [] then [] else done[..|done| - 1];
    && |s| == |s0|
    && s[c].values == s0[c].values && s[c].groups == s0[c].groups
    && s[c].nodes == s0[c].nodes && s[c].deferAcyclicVerification == s0[c].deferAcyclicVerification
    && Distinct(order) && Elems(order) == inKeys - outKeys
    && Distinct(done) && Elems(done) <= outKeys
    && (r.None? || r.value.NotFound? || r.value.DecorateCycle?)
    && (r.Some? ==> |done| > 0 && r.value.key == done[|done| - 1])
    && (forall k :: k in Elems(front) ==> PresentAtOrBelow(s0, c, k))
    && (r.None? ==>
          && Elems(done) == outKeys
          && (forall k :: k in outKeys ==> PresentAtOrBelow(s0, c, k))
          && s[c].decorators == AppendedUnder(s0[c].decorators, outKeys, n)
          && s[c].providers.Keys == s0[c].providers.Keys + (if touched then outKeys else {})
          && s[c].isVerifiedAcyclic == (if touched && outKeys != {} then true else s0[c].isVerifiedAcyclic)
          && s == DecState(s0, c, n, touched, done, outKeys, if touched && done != [] then true else s0[c].isVerifiedAcyclic))
    && (r.Some? && r.value.NotFound? ==>
          && !PresentAtOrBelow(s0, c, r.value.key)
          && s[c].decorators == AppendedUnder(s0[c].decorators, Elems(front), n)
          && s == DecState(s0, c, n, touched, front, Elems(front), if touched && front != [] then true else s0[c].isVerifiedAcyclic))
    && (r.Some? && r.value.DecorateCycle? ==>
          && touched
          && PresentAtOrBelow(s0, c, r.value.key)
          && !acyclic(DecorateMid(s0, c, n, front, r.value.key), Root(s0, c), n,
                      ParamsFor(order) + ProvidersParams(s0[c].providers, done), r.value.key)
          && s[c].decorators == AppendedUnder(s0[c].decorators, Elems(front), n)
          && !s[c].isVerifiedAcyclic
          && s == DecState(s0, c, n, true, done, Elems(front), false))
  }

  /** decorate once the key sets are known: the extra parameters are built,
      then DecorateKeys runs over the output keys. */
  method DecorateScope(s0: seq<Scope>, c: ScopeId, n: Node, inKeys: set<Key>, outKeys: set<Key>, acyclic: CycleCheck)
    returns (s: seq<Scope>, r: Option<DecorateError>, ghost done: seq<Key>, ghost order: seq<Key>)
    requires WellFormed(s0) && c < |s0|
    ensures WellFormed(s) && OnlyDataOf(s0, s, c)
    ensures forall x, k :: 0 <= x < |s| ==> Providers(s, x, k) == Providers(s0, x, k)
    ensures forall k :: Get(s[c].providers, k) == Get(s0[c].providers, k)
    ensures DecorateOutcome(s0, s, c, n, inKeys, outKeys, acyclic, r, done, order)
  {
    var params;
    params, order := ParamsOf(inKeys - outKeys);
    var root := Root(s0, c);
    s, r, done := DecorateKeys(s0, c, n, outKeys, params, root, acyclic);
    ghost var touched := |params| > 0;
    ghost var flag := s[c].isVerifiedAcyclic;
    ghost var ks, decs;
    if r.None? {
      ks, decs := done, outKeys;
      assert done == [] ==> Elems(done) == {};
      assert done != [] ==> done[0] in Elems(done);
      assert s == DecState(s0, c, n, touched, ks, decs, flag);
      DecStateLists(s0, c, n, touched, ks, decs, flag, Key(0, "", ""));
      assert s[c].providers.Keys == s0[c].providers.Keys + (if touched then outKeys else {});
    } else if r.value.NotFound? {
      ks := done[..|done| - 1];
      decs := Elems(ks);
      assert s == DecState(s0, c, n, touched, ks, decs,
                           if touched && ks != [] then true else s0[c].isVerifiedAcyclic);
      assert s[c].decorators == AppendedUnder(s0[c].decorators, decs, n);
    } else {
      ks, decs := done, Elems(done[..|done| - 1]);
      assert s == DecState(s0, c, n, true, ks, decs, false);
      assert s[c].decorators == AppendedUnder(s0[c].decorators, decs, n);
    }
    assert s == DecState(s0, c, n, touched, ks, decs, flag);
    DecStateAll(s0, c, n, touched, ks, decs, flag);
  }

  class Tree {
    var scopes: seq<Scope>

    ghost predicate Valid()
      reads this
    {
      WellFormed(scopes)
    }

    /** New: a tree holding only an empty root. */
    constructor (deferAcyclicVerification: bool)
      ensures Valid() && scopes == [EmptyScope(None, deferAcyclicVerification)]
    {
      scopes := [EmptyScope(None, deferAcyclicVerification)];
    }

    /** Child: a new empty container below `c`, last among its children. It
        changes no provider lookup anywhere in the tree. */
    method Child(c: ScopeId) returns (child: ScopeId)
      requires Valid() && c < |scopes|
      modifies this
      ensures Valid() && scopes == AddChild(old(scopes), c)
      ensures child == |old(scopes)| && scopes[child].parent == Some(c)
      ensures forall x, k :: 0 <= x < |old(scopes)| ==> Providers(scopes, x, k) == Providers(old(scopes), x, k)
    {
      child := |scopes|;
      var sc := scopes[c];
      scopes := scopes[c := sc.(children := sc.children + [child])] + [EmptyScope(Some(c), false)];
      AddChildWellFormed(old(scopes), c);
      forall x, k | 0 <= x < |old(scopes)|
        ensures Providers(scopes, x, k) == Providers(old(scopes), x, k)
      {
        AddChildProviders(old(scopes), c, x, k);
      }
    }

    /** getValue: the value stored under the plain key, if any. */
    function GetValue(c: ScopeId, name: string, t: TypeId): (r: Option<Value>)
      reads this
      requires Valid() && c < |scopes|
      ensures r.Some? <==> PlainKey(t, name) in scopes[c].values
      ensures r.Some? ==> r.value == scopes[c].values[PlainKey(t, name)]
    {
      var k := PlainKey(t, name);
      if k in scopes[c].values then Some(scopes[c].values[k]) else None
    }

    /** setValue: overwrites the value under the plain key; nothing else
        changes, and getValue then returns it. */
    method SetValue(c: ScopeId, name: string, t: TypeId, v: Value)
      requires Valid() && c < |scopes|
      modifies this
      ensures Valid()
      ensures scopes == old(scopes)[c := old(scopes)[c].(values := old(scopes)[c].values[PlainKey(t, name) := v])]
      ensures GetValue(c, name, t) == Some(v)
    {
      var sc := scopes[c];
      scopes := scopes[c := sc.(values := sc.values[PlainKey(t, name) := v])];
      OnlyDataOfWellFormed(old(scopes), scopes, c);
    }

    /** submitGroupedValue: appends `v` to the end of the group's list,
        creating the list when the group was absent; nothing else changes. */
    method SubmitGroupedValue(c: ScopeId, group: string, t: TypeId, v: Value)
      requires Valid() && c < |scopes|
      modifies this
      ensures Valid()
      ensures scopes == old(scopes)[c := old(scopes)[c].(groups := old(scopes)[c].groups[GroupKey(t, group) := Get(old(scopes)[c].groups, GroupKey(t, group)) + [v]])]
    {
      var sc := scopes[c];
      var k := GroupKey(t, group);
      scopes := scopes[c := sc.(groups := sc.groups[k := Get(sc.groups, k) + [v]])];
      OnlyDataOfWellFormed(old(scopes), scopes, c);
    }

    /** getValueGroup: an empty list and false when the group is absent;
        otherwise true and the stored list shuffled by `perm`, which stands
        for the container's `rand.Perm`. */
    method GetValueGroup(c: ScopeId, group: string, t: TypeId, perm: seq<nat>) returns (items: seq<Value>, ok: bool)
      requires Valid() && c < |scopes|
      requires GroupKey(t, group) in scopes[c].groups ==>
                 IsPermutation(perm, |scopes[c].groups[GroupKey(t, group)]|)
      ensures ok <==> GroupKey(t, group) in scopes[c].groups
      ensures !ok ==> items == []
      ensures ok ==> |items| == |scopes[c].groups[GroupKey(t, group)]|
                     && multiset(items) == multiset(scopes[c].groups[GroupKey(t, group)])
    {
      var k := GroupKey(t, group);
      if k !in scopes[c].groups {
        return [], false;
      }
      items := ShuffledCopy(scopes[c].groups[k], perm);
      ok := true;
    }

    /** The first half of getDecorators: `c` when it has `k` present,
        else what the search below `c` finds, else `c`. */
    method FindOwner(c: ScopeId, k: Key) returns (p: ScopeId)
      requires Valid() && c < |scopes|
      ensures p == Owner(scopes, c, k) && p < |scopes|
    {
      p := c;
      if k !in scopes[c].providers {
        var o := SearchBelow(scopes, c, k);
        if o.Some? {
          p := o.value;
        }
      }
    }

    /** The second half of getDecorators: the decorators of `k` in `p`,
        then in its parent, and so on up to the root. */
    method DecoratorsUpFrom(p: ScopeId, k: Key) returns (r: seq<Node>)
      requires Valid() && p < |scopes|
      ensures r == AncestorDecorators(scopes, p, k)
    {
      var s := scopes;
      r := [];
      var x: ScopeId := p;
      while true
        invariant x < |s|
        invariant r + AncestorDecorators(s, x, k) == AncestorDecorators(s, p, k)
        decreases x
      {
        AncestorDecoratorsStep(s, x, k, r);
        r := r + Get(s[x].decorators, k);
        if s[x].parent.None? {
          break;
        }
        x := s[x].parent.value;
      }
    }

    /** getDecorators: the decorators of `k` from the owner of `k` (see
        Owner) up the parent chain to the root. */
    method GetDecorators(c: ScopeId, k: Key) returns (r: seq<Node>)
      requires Valid() && c < |scopes|
      ensures r == AncestorDecorators(scopes, Owner(scopes, c, k), k)
    {
      var p := FindOwner(c, k);
      r := DecoratorsUpFrom(p, k);
    }

    /** shallowCheckDependencies: the keys of the required single parameters
        that have no provider in `c`'s subtree, in parameter order. */
    method ShallowCheckDependencies(c: ScopeId, ps: seq<Param>) returns (missing: seq<Key>)
      requires Valid() && c < |scopes|
      ensures missing == MissingKeys(scopes, c, ps)
      ensures missing == [] <==> forall i :: 0 <= i < |ps| ==> !IsMissing(scopes, c, ps[i])
    {
      missing := [];
      var i := 0;
      while i < |ps|
        invariant i <= |ps|
        invariant missing == MissingKeys(scopes, c, ps[..i])
      {
        var p := ps[i];
        if p.Single? && !p.optional && Providers(scopes, c, PlainKey(p.t, p.name)) == [] {
          missing := missing + [PlainKey(p.t, p.name)];
        }
        assert ps[..i + 1][..i] == ps[..i];
        i := i + 1;
      }
      assert ps[..|ps|] == ps;
      MissingKeysEmptyIff(scopes, c, ps);
    }

    /** Container.verifyAcyclic: on success the container is marked as
        verified; on failure nothing changes. */
    method VerifyAcyclic(c: ScopeId, graphAcyclic: GraphCheck) returns (ok: bool)
      requires Valid() && c < |scopes|
      modifies this
      ensures Valid()
      ensures ok == graphAcyclic(old(scopes), c)
      ensures scopes == if ok then old(scopes)[c := old(scopes)[c].(isVerifiedAcyclic := true)] else old(scopes)
    {
      ok := graphAcyclic(scopes, c);
      if ok {
        scopes := scopes[c := scopes[c].(isVerifiedAcyclic := true)];
        OnlyDataOfWellFormed(old(scopes), scopes, c);
      }
    }
 
    /** provide: checks the node's result keys from the root, then adds the
        node under each key in map order (modelled by an arbitrary choice),
        running the cycle check after each unless verification is deferred.
        A cycle rolls back only the key being checked; keys handled before
        keep the node and the node is not recorded in `nodes`. `done` lists
        the keys handled, in order. */
    method Provide(c: ScopeId, n: Node, acyclic: CycleCheck) returns (r: Option<ProvideError>, ghost done: seq<Key>)
      requires Valid() && c < |scopes|
      modifies this
      ensures Valid() && OnlyDataOf(old(scopes), scopes, c)
      ensures var res := FindAndValidateResults(old(scopes), Root(old(scopes), c), n.results);
              res.Failure? ==> r == Some(res.error) && scopes == old(scopes) && done == []
      ensures FindAndValidateResults(old(scopes), Root(old(scopes), c), n.results) == Success({}) ==>
                r == Some(NoResults) && scopes == old(scopes) && done == []
      ensures var res := FindAndValidateResults(old(scopes), Root(old(scopes), c), n.results);
              res.Success? && res.value != {} ==>
                && (r.None? || r.value.ProvideCycle?)
                && |done| > 0 && Distinct(done) && Elems(done) <= res.value
                && (!old(scopes)[c].deferAcyclicVerification ==>
                      CheckedInOrder(acyclic, old(scopes), c, Root(old(scopes), c), n, done[..|done| - 1]))
      ensures r.None? ==>
                var res := FindAndValidateResults(old(scopes), Root(old(scopes), c), n.results);
                var sc := old(scopes)[c];
                && res.Success? && Elems(done) == res.value
                && scopes == old(scopes)[c := sc.(providers := AppendedUnder(sc.providers, res.value, n),
                                                  nodes := sc.nodes + [n],
                                                  isVerifiedAcyclic := !sc.deferAcyclicVerification)]
                && (!sc.deferAcyclicVerification ==> CheckedInOrder(acyclic, old(scopes), c, Root(old(scopes), c), n, done))
      ensures r.Some? && r.value.ProvideCycle? ==>
                var sc := old(scopes)[c];
                var k := r.value.key;
                && !sc.deferAcyclicVerification && |done| > 0 && k == done[|done| - 1]
                && !acyclic(ProvideMid(old(scopes), c, n, done), Root(old(scopes), c), n, n.params, k)
                && scopes == old(scopes)[c := sc.(providers := AppendedUnder(sc.providers, Elems(done[..|done| - 1]), n)[k := Get(sc.providers, k)],
                                                  isVerifiedAcyclic := false)]
    {
      done := [];
      var root := Root(scopes, c);
      var res := FindAndValidateResults(scopes, root, n.results);
      if res.Failure? {
        return Some(res.error), [];
      }
      var keys := res.value;
      if keys == {} {
        return Some(NoResults), [];
      }
      ghost var s0 := scopes;
      var s;
      s, r, done := AddUnderKeys(scopes, c, n, keys, root, acyclic);
      scopes := s;
      OnlyDataOfWellFormed(s0, s, c);
    }

    /** decorate: the decorator's key sets are checked first (see
        DecoratorKeys), then the tree is updated as DecorateScope says. */
    method Decorate(c: ScopeId, n: Node, ins: seq<DecoratorParam>, outs: seq<DecoratorParam>, acyclic: CycleCheck)
      returns (r: Option<DecorateError>, ghost done: seq<Key>, ghost order: seq<Key>)
      requires Valid() && c < |scopes|
      modifies this
      ensures Valid() && OnlyDataOf(old(scopes), scopes, c)
      ensures forall x, k :: 0 <= x < |scopes| ==> Providers(scopes, x, k) == Providers(old(scopes), x, k)
      ensures forall k :: Get(scopes[c].providers, k) == Get(old(scopes)[c].providers, k)
      ensures DecoratorKeys(ins, outs).Failure? ==>
                r == Some(DecoratorKeys(ins, outs).error) && scopes == old(scopes) && done == []
      ensures DecoratorKeys(ins, outs).Success? ==>
                var (inKeys, outKeys) := DecoratorKeys(ins, outs).value;
                DecorateOutcome(old(scopes), scopes, c, n, inKeys, outKeys, acyclic, r, done, order)
    {
      done := [];
      order := [];
      var keys := DecoratorKeys(ins, outs);
      if keys.Failure? {
        return Some(keys.error), [], [];
      }
      var (inKeys, outKeys) := keys.value;
      var s;
      s, r, done, order := DecorateScope(scopes, c, n, inKeys, outKeys, acyclic);
      scopes := s;
    }

    /** Invoke, up to building the arguments: it works on the root; it stops
        when a required parameter has no provider anywhere in the tree, or
        when the root is not yet marked verified and the whole-graph check
        finds a cycle. */
    method Invoke(c: ScopeId, ps: seq<Param>, graphAcyclic: GraphCheck) returns (out: InvokeOutcome)
      requires Valid() && c < |scopes|
      modifies this
      ensures Valid()
      ensures var root := Root(old(scopes), c);
              var missing := MissingKeys(old(scopes), root, ps);
              && (missing != [] ==> out == MissingDependencies(missing) && scopes == old(scopes))
              && (missing == [] && old(scopes)[root].isVerifiedAcyclic ==>
                    out == ReadyToBuild(root) && scopes == old(scopes))
              && (missing == [] && !old(scopes)[root].isVerifiedAcyclic ==>
                    if graphAcyclic(old(scopes), root)
                    then out == ReadyToBuild(root)
                         && scopes == old(scopes)[root := old(scopes)[root].(isVerifiedAcyclic := true)]
                    else out == CycleDetected && scopes == old(scopes))
    {
      var root := Root(scopes, c);
      var missing := ShallowCheckDependencies(root, ps);
      if missing != [] {
        return MissingDependencies(missing);
      }
      if !scopes[root].isVerifiedAcyclic {
        var ok := VerifyAcyclic(root, graphAcyclic);
        if !ok {
          return CycleDetected;
        }
      }
      out := ReadyToBuild(root);
    }
  }
}
