/** The checks Provide and Decorate run on a constructor's plans before they
    touch the container: the result keys of a provider, and the input and
    output key sets of a decorator. */
module Registration {
  import opened Types
  import opened Scopes

  datatype ProvideError =
    | ProducedTwice(key: Key)
    | AlreadyProvided(key: Key)
    | NoResults
    | ProvideCycle(key: Key)

  /** One key a result plan produces, and whether it takes part in the
      conflict checks (plain and named keys do, group keys do not). */
  datatype Produced = Produced(key: Key, checked: bool)

  /** The keys of one result entry, in visiting order: a single value's own
      key, then one key per `As` type under the same name. */
  function EntryKeys(r: ResultEntry): seq<Produced>
  {
    match r
    case ResultSingle(name, t, asTypes) =>
      [Produced(PlainKey(t, name), true)]
        + seq(|asTypes|, i requires 0 <= i < |asTypes| => Produced(PlainKey(asTypes[i], name), true))
    case ResultGrouped(group, t) => [Produced(GroupKey(t, group), false)]
  }

  function ProducedKeys(results: seq<ResultEntry>): seq<Produced>
    decreases |results|
  {
    if results == [] then [] else EntryKeys(results[0]) + ProducedKeys(results[1..])
  }

  /** The connection visitor: stops at the first checked key that this node
      already produced or that has a provider below `root`. */
  function CheckKeys(s: seq<Scope>, root: ScopeId, ps: seq<Produced>, seen: set<Key>): (r: Result<set<Key>, ProvideError>)
    requires WellFormed(s) && root < |s|
    ensures r.Failure? ==> r.error.ProducedTwice? || r.error.AlreadyProvided?
    decreases |ps|
  {
    if ps == [] then Success(seen)
    else if ps[0].checked && ps[0].key in seen then Failure(ProducedTwice(ps[0].key))
    else if ps[0].checked && Providers(s, root, ps[0].key) != [] then Failure(AlreadyProvided(ps[0].key))
    else CheckKeys(s, root, ps[1..], seen + {ps[0].key})
  }

  /** A produced key passes when it is unchecked, or when it is new to this
      node and has no provider below `root`. */
  ghost predicate KeyPasses(s: seq<Scope>, root: ScopeId, ps: seq<Produced>, seen: set<Key>, i: nat)
    requires WellFormed(s) && root < |s| && i < |ps|
  {
    ps[i].checked ==>
      && ps[i].key !in seen
      && (forall j :: 0 <= j < i ==> ps[j].key != ps[i].key)
      && Providers(s, root, ps[i].key) == []
  }

  /** The visitor succeeds exactly when every produced key passes, and then
      yields every produced key. */
  lemma {:induction false} CheckKeysSpec(s: seq<Scope>, root: ScopeId, ps: seq<Produced>, seen: set<Key>)
    requires WellFormed(s) && root < |s|
    ensures CheckKeys(s, root, ps, seen).Success? <==>
              forall i :: 0 <= i < |ps| ==> KeyPasses(s, root, ps, seen, i)
    ensures CheckKeys(s, root, ps, seen).Success? ==>
              CheckKeys(s, root, ps, seen).value == seen + KeysOf(ps)
    decreases |ps|
  {
    if ps != [] {
      var k := ps[0].key;
      var rest := ps[1..];
      assert KeyPasses(s, root, ps, seen, 0) <==>
               !(ps[0].checked && k in seen) && !(ps[0].checked && Providers(s, root, k) != []);
      if KeyPasses(s, root, ps, seen, 0) {
        CheckKeysSpec(s, root, rest, seen + {k});
        forall i | 1 <= i < |ps|
          ensures KeyPasses(s, root, ps, seen, i) <==> KeyPasses(s, root, rest, seen + {k}, i - 1)
        {
          assert rest[i - 1] == ps[i];
          assert forall j :: 0 <= j < i - 1 ==> rest[j] == ps[j + 1];
          if ps[i].checked {
            if ps[i].key in seen + {k} && ps[i].key !in seen {
              assert ps[0].key == ps[i].key;
            }
            if exists j :: 0 <= j < i && ps[j].key == ps[i].key {
              var j :| 0 <= j < i && ps[j].key == ps[i].key;
              if j > 0 {
                assert rest[j - 1].key == ps[i].key;
              }
            }
          }
        }
        if CheckKeys(s, root, rest, seen + {k}).Success? {
          forall i | 0 <= i < |ps|
            ensures KeyPasses(s, root, ps, seen, i)
          {
            if i > 0 {
              assert KeyPasses(s, root, rest, seen + {k}, i - 1);
            }
          }
        } else {
          var i :| 0 <= i < |rest| && !KeyPasses(s, root, rest, seen + {k}, i);
          assert !KeyPasses(s, root, ps, seen, i + 1);
        }
        assert CheckKeys(s, root, ps, seen) == CheckKeys(s, root, rest, seen + {k});
        KeysOfCons(ps);
      }
    }
  }

  ghost function KeysOf(ps: seq<Produced>): set<Key>
  {
    set i | 0 <= i < |ps| :: ps[i].key
  }

  lemma KeysOfCons(ps: seq<Produced>)
    requires ps != []
    ensures KeysOf(ps) == {ps[0].key} + KeysOf(ps[1..])
  {
    var rest := ps[1..];
    forall x | x in KeysOf(ps)
      ensures x in {ps[0].key} + KeysOf(rest)
    {
      var i :| 0 <= i < |ps| && ps[i].key == x;
      if i > 0 {
        assert rest[i - 1].key == x;
      }
    }
    forall x | x in KeysOf(rest)
      ensures x in KeysOf(ps)
    {
      var i :| 0 <= i < |rest| && rest[i].key == x;
      assert ps[i + 1].key == x;
    }
  }

  /** findAndValidateResults: the result keys of a new node, checked against
      the node itself and against the whole tree below `root`. */
  function FindAndValidateResults(s: seq<Scope>, root: ScopeId, results: seq<ResultEntry>): (r: Result<set<Key>, ProvideError>)
    requires WellFormed(s) && root < |s|
    ensures r.Failure? ==> r.error.ProducedTwice? || r.error.AlreadyProvided?
    ensures r.Success? ==> r.value == KeysOf(ProducedKeys(results))
  {
    CheckKeysSpec(s, root, ProducedKeys(results), {});
    CheckKeys(s, root, ProducedKeys(results), {})
  }

  /** A plain or named key that already has a provider anywhere in the tree
      cannot be produced again, whichever scope the new node is added to. */
  lemma DuplicatePlainKeyRejected(s: seq<Scope>, c: ScopeId, results: seq<ResultEntry>, i: nat, j: ScopeId)
    requires WellFormed(s) && c < |s| && j < |s|
    requires i < |ProducedKeys(results)| && ProducedKeys(results)[i].checked
    requires Get(s[j].providers, ProducedKeys(results)[i].key) != []
    ensures FindAndValidateResults(s, Root(s, c), results).Failure?
  {
    var ps := ProducedKeys(results);
    RootIsZero(s, c);
    AllUnderRoot(s, j);
    ProvidersEmptyIff(s, 0, ps[i].key);
    CheckKeysSpec(s, 0, ps, {});
    assert !KeyPasses(s, 0, ps, {}, i);
  }

  lemma {:induction false} GroupedKeysUnchecked(results: seq<ResultEntry>)
    requires forall i :: 0 <= i < |results| ==> results[i].ResultGrouped?
    ensures forall i :: 0 <= i < |ProducedKeys(results)| ==> !ProducedKeys(results)[i].checked
    decreases |results|
  {
    if results != [] {
      GroupedKeysUnchecked(results[1..]);
    }
  }

  /** Group keys never conflict: a node producing only group values always
      passes the result check, however many providers the groups have. */
  lemma GroupResultsNeverConflict(s: seq<Scope>, root: ScopeId, results: seq<ResultEntry>)
    requires WellFormed(s) && root < |s|
    requires forall i :: 0 <= i < |results| ==> results[i].ResultGrouped?
    ensures FindAndValidateResults(s, root, results).Success?
  {
    GroupedKeysUnchecked(results);
    CheckKeysSpec(s, root, ProducedKeys(results), {});
  }

  // ---------------------------------------------------------------------
  // Decorator key sets

  /** One decorator parameter or result: a positional one (keyed by its type
      alone), or a field of a parameter or result object with its tags. For a
      group field the type tag is already the element type. */
  datatype DecoratorParam =
    | Positional(t: TypeId)
    | Field(t: TypeId, name: string, group: string)

  datatype DecorateError =
    | TagsTogether
    | RepeatedKey(key: Key)
    | NotAmongInputs
    | NotFound(key: Key)
    | DecorateCycle(key: Key)

  function TaggedKey(p: DecoratorParam): Key
  {
    match p
    case Positional(t) => Key(t, "", "")
    case Field(t, name, group) => Key(t, name, group)
  }

  /** Collects the keys of a decorator's parameters (or results) into `acc`,
      rejecting a field with both tags and a field whose key was already
      collected. Positional entries are never checked. */
  function CollectTagged(ps: seq<DecoratorParam>, acc: set<Key>): (r: Result<set<Key>, DecorateError>)
    ensures r.Failure? ==> r.error.TagsTogether? || r.error.RepeatedKey?
    decreases |ps|
  {
    if ps == [] then Success(acc)
    else if ps[0].Field? && ps[0].name != "" && ps[0].group != "" then Failure(TagsTogether)
    else if ps[0].Field? && TaggedKey(ps[0]) in acc then Failure(RepeatedKey(TaggedKey(ps[0])))
    else CollectTagged(ps[1..], acc + {TaggedKey(ps[0])})
  }

  ghost predicate FieldPasses(ps: seq<DecoratorParam>, acc: set<Key>, i: nat)
    requires i < |ps|
  {
    ps[i].Field? ==>
      && !(ps[i].name != "" && ps[i].group != "")
      && TaggedKey(ps[i]) !in acc
      && (forall j :: 0 <= j < i ==> TaggedKey(ps[j]) != TaggedKey(ps[i]))
  }

  ghost function KeySet(ps: seq<DecoratorParam>): set<Key>
  {
    set i | 0 <= i < |ps| :: TaggedKey(ps[i])
  }

  /** Collection succeeds exactly when no field carries both tags or repeats
      an earlier key, and then yields every key. */
  lemma {:induction false} CollectTaggedSpec(ps: seq<DecoratorParam>, acc: set<Key>)
    ensures CollectTagged(ps, acc).Success? <==> forall i :: 0 <= i < |ps| ==> FieldPasses(ps, acc, i)
    ensures CollectTagged(ps, acc).Success? ==> CollectTagged(ps, acc).value == acc + KeySet(ps)
    decreases |ps|
  {
    if ps != [] {
      var k := TaggedKey(ps[0]);
      var rest := ps[1..];
      if FieldPasses(ps, acc, 0) {
        CollectTaggedSpec(rest, acc + {k});
        forall i | 1 <= i < |ps|
          ensures FieldPasses(ps, acc, i) <==> FieldPasses(rest, acc + {k}, i - 1)
        {
          assert rest[i - 1] == ps[i];
          assert forall j :: 0 <= j < i - 1 ==> rest[j] == ps[j + 1];
          if ps[i].Field? {
            if TaggedKey(ps[i]) in acc + {k} && TaggedKey(ps[i]) !in acc {
              assert TaggedKey(ps[0]) == TaggedKey(ps[i]);
            }
            if exists j :: 0 <= j < i && TaggedKey(ps[j]) == TaggedKey(ps[i]) {
              var j :| 0 <= j < i && TaggedKey(ps[j]) == TaggedKey(ps[i]);
              if j > 0 {
                assert TaggedKey(rest[j - 1]) == TaggedKey(ps[i]);
              }
            }
          }
        }
        if CollectTagged(rest, acc + {k}).Success? {
          forall i | 0 <= i < |ps|
            ensures FieldPasses(ps, acc, i)
          {
            if i > 0 {
              assert FieldPasses(rest, acc + {k}, i - 1);
            }
          }
        } else {
          var i :| 0 <= i < |rest| && !FieldPasses(rest, acc + {k}, i);
          assert !FieldPasses(ps, acc, i + 1);
        }
        assert CollectTagged(ps, acc) == CollectTagged(rest, acc + {k});
        KeySetCons(ps);
      }
    }
  }

  lemma KeySetCons(ps: seq<DecoratorParam>)
    requires ps != []
    ensures KeySet(ps) == {TaggedKey(ps[0])} + KeySet(ps[1..])
  {
    var rest := ps[1..];
    forall x | x in KeySet(ps)
      ensures x in {TaggedKey(ps[0])} + KeySet(rest)
    {
      var i :| 0 <= i < |ps| && TaggedKey(ps[i]) == x;
      if i > 0 {
        assert TaggedKey(rest[i - 1]) == x;
      }
    }
    forall x | x in KeySet(rest)
      ensures x in KeySet(ps)
    {
      var i :| 0 <= i < |rest| && TaggedKey(rest[i]) == x;
      assert TaggedKey(ps[i + 1]) == x;
    }
  }

  /** The key checks of decorate: collect the inputs, then the outputs, then
      require every output among the inputs. Yields (inputs, outputs). */
  function DecoratorKeys(ins: seq<DecoratorParam>, outs: seq<DecoratorParam>): (r: Result<(set<Key>, set<Key>), DecorateError>)
    ensures r.Failure? ==> r.error.TagsTogether? || r.error.RepeatedKey? || r.error.NotAmongInputs?
  {
    match CollectTagged(ins, {})
    case Failure(e) => Failure(e)
    case Success(inKeys) =>
      match CollectTagged(outs, {})
      case Failure(e) => Failure(e)
      case Success(outKeys) =>
        if outKeys <= inKeys then Success((inKeys, outKeys)) else Failure(NotAmongInputs)
  }

  /** The decorator's key sets are accepted exactly when both lists are well
      tagged and free of repeated fields and every output is an input. */
  lemma DecoratorKeysSpec(ins: seq<DecoratorParam>, outs: seq<DecoratorParam>)
    ensures DecoratorKeys(ins, outs).Success? <==>
              && (forall i :: 0 <= i < |ins| ==> FieldPasses(ins, {}, i))
              && (forall i :: 0 <= i < |outs| ==> FieldPasses(outs, {}, i))
              && KeySet(outs) <= KeySet(ins)
    ensures DecoratorKeys(ins, outs).Success? ==>
              DecoratorKeys(ins, outs).value == (KeySet(ins), KeySet(outs))
  {
    CollectTaggedSpec(ins, {});
    CollectTaggedSpec(outs, {});
    assert {} + KeySet(ins) == KeySet(ins);
    assert {} + KeySet(outs) == KeySet(outs);
  }

  // ---------------------------------------------------------------------
  // Effects of provide and decorate on a provider or decorator map

  function Elems(ks: seq<Key>): set<Key>
  {
    set k | k in ks
  }

  /** `m` with `n` appended to the list of every key of `ks`; a key of `ks`
      that was absent becomes present. */
  function AppendedUnder(m: map<Key, seq<Node>>, ks: set<Key>, n: Node): map<Key, seq<Node>>
  {
    map k | k in m.Keys + ks :: if k in ks then Get(m, k) + [n] else m[k]
  }

  /** `m` after each key of `ks` was assigned its own old list: the lists are
      unchanged, but a key of `ks` that was absent is now present with an
      empty list. */
  function Restored(m: map<Key, seq<Node>>, ks: set<Key>): map<Key, seq<Node>>
  {
    map k | k in m.Keys + ks :: Get(m, k)
  }

  lemma AppendedUnderStep(m: map<Key, seq<Node>>, ks: set<Key>, k: Key, n: Node)
    requires k !in ks
    ensures Get(AppendedUnder(m, ks, n), k) == Get(m, k)
    ensures AppendedUnder(m, ks, n)[k := Get(m, k) + [n]] == AppendedUnder(m, ks + {k}, n)
  {
  }

  lemma AppendedUnderOverwrite(m: map<Key, seq<Node>>, ks: set<Key>, k: Key, n: Node, v: seq<Node>)
    ensures AppendedUnder(m, ks + {k}, n)[k := v] == AppendedUnder(m, ks, n)[k := v]
  {
  }

  lemma RestoredStep(m: map<Key, seq<Node>>, ks: set<Key>, k: Key)
    ensures Get(Restored(m, ks), k) == Get(m, k)
    ensures Restored(m, ks)[k := Get(m, k)] == Restored(m, ks + {k})
  {
  }

  /** The parameter a decorator takes for one of its input keys. */
  function ParamOfKey(k: Key): Param
  {
    if k.group != "" then Grouped(k.group, k.t) else Single(k.name, k.t, false)
  }

  /** The parameters for the given input keys, in their order. */
  function ParamsFor(ks: seq<Key>): (r: seq<Param>)
    ensures |r| == |ks| && forall i :: 0 <= i < |ks| ==> r[i] == ParamOfKey(ks[i])
  {
    seq(|ks|, i requires 0 <= i < |ks| => ParamOfKey(ks[i]))
  }

  /** The parameters of the given nodes, one node after another. */
  function NodesParams(ns: seq<Node>): seq<Param>
  {
    if ns == [] then [] else ns[0].params + NodesParams(ns[1..])
  }

  /** The parameters of the providers of each key of `done`, key after
      key: what decorate appends to the decorator's own parameters. */
  function ProvidersParams(m: map<Key, seq<Node>>, done: seq<Key>): seq<Param>
    decreases |done|
  {
    if done == [] then []
    else ProvidersParams(m, done[..|done| - 1]) + NodesParams(Get(m, done[|done| - 1]))
  }

  lemma ProvidersParamsSnoc(m: map<Key, seq<Node>>, before: seq<Key>, k: Key, ps0: seq<Param>)
    ensures ps0 + ProvidersParams(m, before + [k]) == (ps0 + ProvidersParams(m, before)) + NodesParams(Get(m, k))
  {
    assert (before + [k])[..|before|] == before;
  }

  /** Once provide has added `n` under its result keys in scope `c`,
      running the same result plan through the check again fails, whatever
      else provide changed in `c` (its nodes, its flag): a plan with a plain
      or named result cannot be provided twice. */
  lemma ProvideThenConflict(s: seq<Scope>, s2: seq<Scope>, c: ScopeId, results: seq<ResultEntry>, n: Node, i: nat)
    requires WellFormed(s) && c < |s|
    requires FindAndValidateResults(s, Root(s, c), results).Success?
    requires i < |ProducedKeys(results)| && ProducedKeys(results)[i].checked
    requires OnlyDataOf(s, s2, c)
    requires s2[c].providers == AppendedUnder(s[c].providers, FindAndValidateResults(s, Root(s, c), results).value, n)
    ensures WellFormed(s2) && c < |s2|
    ensures FindAndValidateResults(s2, Root(s2, c), results).Failure?
  {
    var ps := ProducedKeys(results);
    var keys := FindAndValidateResults(s, Root(s, c), results).value;
    OnlyDataOfWellFormed(s, s2, c);
    CheckKeysSpec(s, Root(s, c), ps, {});
    KeysOfMember(ps, i);
    assert ps[i].key in keys;
    assert n in Get(s2[c].providers, ps[i].key);
    DuplicatePlainKeyRejected(s2, c, results, i, c);
  }

  lemma KeysOfMember(ps: seq<Produced>, i: nat)
    requires i < |ps|
    ensures ps[i].key in KeysOf(ps)
  {
  }

  /** Decorate's restore leaves every lookup of every key unchanged, in
      every scope of the tree. */
  lemma RestoredProviders(s: seq<Scope>, c: ScopeId, ks: set<Key>, x: ScopeId, k: Key)
    requires WellFormed(s) && c < |s| && x < |s|
    ensures WellFormed(s[c := s[c].(providers := Restored(s[c].providers, ks))])
    ensures Providers(s[c := s[c].(providers := Restored(s[c].providers, ks))], x, k) == Providers(s, x, k)
  {
    var s2 := s[c := s[c].(providers := Restored(s[c].providers, ks))];
    OnlyDataOfWellFormed(s, s2, c);
    assert Get(s2[c].providers, k) == Get(s[c].providers, k);
    SameListsProviders(s, s2, x, k);
  }

  /** A decorator registered for `k` in `c` is among the decorators that
      getDecorators returns for `k` from `c` and from every scope below it. */
  lemma DecoratorReachesSubtree(s: seq<Scope>, c: ScopeId, x: ScopeId, k: Key, n: Node)
    requires WellFormed(s) && c < |s| && x < |s| && AncestorOf(s, c, x)
    requires n in Get(s[c].decorators, k)
    ensures n in AncestorDecorators(s, Owner(s, x, k), k)
  {
    OwnerSpec(s, x, k);
    AncestorTrans(s, c, x, Owner(s, x, k));
    AncestorDecoratorsMembers(s, Owner(s, x, k), k, n);
  }
}
