/** Running one constructor: node.Call with its one-shot `called` flag, and
    the staging writer that buffers the constructor's outputs until they are
    committed all at once. */
module Invocation {
  import opened Types
  import opened Scopes
  import opened Containers

  /** One write that extracting a constructor's results makes through the
      container-writer interface. */
  datatype Emission =
    | ValueWrite(name: string, t: TypeId, v: Value)
    | GroupWrite(group: string, t: TypeId, v: Value)

  function EmissionKey(e: Emission): Key
  {
    match e
    case ValueWrite(name, t, _) => PlainKey(t, name)
    case GroupWrite(group, t, _) => GroupKey(t, group)
  }

  /** What the reflective call and ExtractList hand back: the writes in the
      order they were made, or a failure (an error result of the
      constructor). */
  datatype CtorOutput = Extracted(emissions: seq<Emission>) | ExtractFailed

  /** What BuildList hands back: a failure, or the arguments together with
      whether the nested calls it made already ran this very node. */
  datatype BuildOutcome = BuildFailed | Built(args: seq<Value>, calledMeanwhile: bool)

  datatype CallError =
    | DependenciesMissing(keys: seq<Key>)
    | ArgumentsFailed
    | ConstructorFailed

  // ---------------------------------------------------------------------
  // What a sequence of writes stages

  /** The staged values after the writes `es`: each value write overwrites. */
  function StagedValues(es: seq<Emission>): (r: map<Key, Value>)
    ensures forall k :: k in r ==> k.group == ""
    decreases |es|
  {
    if es == [] then map[]
    else
      var m := StagedValues(es[..|es| - 1]);
      var e := es[|es| - 1];
      if e.ValueWrite? then m[PlainKey(e.t, e.name) := e.v] else m
  }

  /** The staged groups after the writes `es`: each group write appends. */
  function StagedGroups(es: seq<Emission>): (r: map<Key, seq<Value>>)
    ensures forall k :: k in r ==> k.name == "" && r[k] != []
    decreases |es|
  {
    if es == [] then map[]
    else
      var m := StagedGroups(es[..|es| - 1]);
      var e := es[|es| - 1];
      if e.GroupWrite? then m[GroupKey(e.t, e.group) := Get(m, GroupKey(e.t, e.group)) + [e.v]] else m
  }

  /** The values submitted to group key `k`, first to last. */
  function Submissions(es: seq<Emission>, k: Key): seq<Value>
  {
    if es == [] then []
    else (if es[0].GroupWrite? && EmissionKey(es[0]) == k then [es[0].v] else []) + Submissions(es[1..], k)
  }

  lemma {:induction false} SubmissionsSnoc(es: seq<Emission>, e: Emission, k: Key)
    ensures Submissions(es + [e], k) == Submissions(es, k) + (if e.GroupWrite? && EmissionKey(e) == k then [e.v] else [])
    decreases |es|
  {
    if es == [] {
      assert es + [e] == [e];
    } else {
      assert (es + [e])[1..] == es[1..] + [e];
      SubmissionsSnoc(es[1..], e, k);
    }
  }

  /** Every group element is staged, in the order it was submitted, and
      nothing else is: a group is present exactly when something was
      submitted to it. */
  lemma {:induction false} StagedGroupsInOrder(es: seq<Emission>, k: Key)
    ensures Get(StagedGroups(es), k) == Submissions(es, k)
    ensures k in StagedGroups(es) <==> Submissions(es, k) != []
    decreases |es|
  {
    if es != [] {
      var front := es[..|es| - 1];
      assert es == front + [es[|es| - 1]];
      StagedGroupsInOrder(front, k);
      SubmissionsSnoc(front, es[|es| - 1], k);
    }
  }

  /** A value is staged under `k` exactly when some write set it, and the
      staged value is the one the last such write set. */
  lemma {:induction false} StagedValuesLastWins(es: seq<Emission>, k: Key)
    ensures k in StagedValues(es) <==> exists i :: 0 <= i < |es| && es[i].ValueWrite? && EmissionKey(es[i]) == k
    ensures k in StagedValues(es) ==>
              exists i :: && 0 <= i < |es| && es[i].ValueWrite? && EmissionKey(es[i]) == k
                          && StagedValues(es)[k] == es[i].v
                          && forall j :: i < j < |es| ==> !(es[j].ValueWrite? && EmissionKey(es[j]) == k)
    decreases |es|
  {
    if es != [] {
      var front := es[..|es| - 1];
      var e := es[|es| - 1];
      StagedValuesLastWins(front, k);
      assert forall i :: 0 <= i < |front| ==> front[i] == es[i];
      if e.ValueWrite? && EmissionKey(e) == k {
        assert StagedValues(es)[k] == es[|es| - 1].v;
      } else if k in StagedValues(es) {
        var i :| && 0 <= i < |front| && front[i].ValueWrite? && EmissionKey(front[i]) == k
                 && StagedValues(front)[k] == front[i].v
                 && forall j :: i < j < |front| ==> !(front[j].ValueWrite? && EmissionKey(front[j]) == k);
        assert es[i] == front[i];
      }
    }
  }

  /** `a` overwritten by every entry of `b`. */
  function Merge(a: map<Key, Value>, b: map<Key, Value>): (r: map<Key, Value>)
    ensures r.Keys == a.Keys + b.Keys
    ensures forall k :: k in b ==> r[k] == b[k]
    ensures forall k :: k in a && k !in b ==> r[k] == a[k]
  {
    map k | k in a.Keys + b.Keys :: if k in b then b[k] else a[k]
  }

  /** `a` with every list of `b` appended to the list of the same key. */
  function MergeGroups(a: map<Key, seq<Value>>, b: map<Key, seq<Value>>): (r: map<Key, seq<Value>>)
    ensures r.Keys == a.Keys + b.Keys
  {
    map k | k in a.Keys + b.Keys :: Get(a, k) + Get(b, k)
  }

  /** After merging, every group holds its old elements followed by the
      staged ones. */
  lemma MergeGroupsGet(a: map<Key, seq<Value>>, b: map<Key, seq<Value>>, k: Key)
    ensures Get(MergeGroups(a, b), k) == Get(a, k) + Get(b, k)
  {
  }

  /** The tree after `values` and `groups` were committed to scope `c`. */
  function Committed(s: seq<Scope>, c: ScopeId, values: map<Key, Value>, groups: map<Key, seq<Value>>): seq<Scope>
    requires c < |s|
  {
    s[c := s[c].(values := Merge(s[c].values, values), groups := MergeGroups(s[c].groups, groups))]
  }

  function Restrict<V>(m: map<Key, V>, ks: set<Key>): (r: map<Key, V>)
    ensures r.Keys == m.Keys * ks && forall k :: k in r ==> r[k] == m[k]
  {
    map k | k in m.Keys * ks :: m[k]
  }

  /** Committing nothing changes nothing. */
  lemma CommittedNothing(s: seq<Scope>, c: ScopeId)
    requires c < |s|
    ensures Committed(s, c, map[], map[]) == s
  {
    assert Merge(s[c].values, map[]) == s[c].values;
    var g := MergeGroups(s[c].groups, map[]);
    forall k | k in g
      ensures g[k] == s[c].groups[k]
    {
      assert g[k] == Get(s[c].groups, k) + [];
    }
    assert g == s[c].groups;
  }

  // ---------------------------------------------------------------------
  // The staging writer

  /** stagingContainerWriter: buffers the values and group elements written
      to it. Values sit under plain keys and groups under group keys, and a
      staged group is never empty. */
  class StagingWriter {
    var values: map<Key, Value>
    var groups: map<Key, seq<Value>>

    ghost predicate Valid()
      reads this
    {
      && (forall k :: k in values ==> k.group == "")
      && (forall k :: k in groups ==> k.name == "" && groups[k] != [])
    }

    constructor ()
      ensures Valid() && values == map[] && groups == map[]
    {
      values := map[];
      groups := map[];
    }

    /** setValue: overwrites the staged value under the plain key. */
    method SetValue(name: string, t: TypeId, v: Value)
      requires Valid()
      modifies this
      ensures Valid()
      ensures values == old(values)[PlainKey(t, name) := v] && groups == old(groups)
    {
      values := values[PlainKey(t, name) := v];
    }

    /** submitGroupedValue: appends to the end of the staged group. */
    method SubmitGroupedValue(group: string, t: TypeId, v: Value)
      requires Valid()
      modifies this
      ensures Valid()
      ensures groups == old(groups)[GroupKey(t, group) := Get(old(groups), GroupKey(t, group)) + [v]]
      ensures values == old(values)
    {
      var k := GroupKey(t, group);
      groups := groups[k := Get(groups, k) + [v]];
    }

    /** Replays the writes `es` into this writer, as ExtractList does; from a
        fresh writer the result is what StagedValues and StagedGroups say. */
    method Receive(es: seq<Emission>)
      requires Valid() && values == map[] && groups == map[]
      modifies this
      ensures Valid() && values == StagedValues(es) && groups == StagedGroups(es)
    {
      var i := 0;
      while i < |es|
        invariant i <= |es| && Valid()
        invariant values == StagedValues(es[..i]) && groups == StagedGroups(es[..i])
      {
        assert es[..i + 1][..i] == es[..i];
        var e := es[i];
        if e.ValueWrite? {
          SetValue(e.name, e.t, e.v);
        } else {
          SubmitGroupedValue(e.group, e.t, e.v);
        }
        i := i + 1;
      }
      assert es[..|es|] == es;
    }

    /** Commit: every staged value is set in scope `c` and every staged group
        element is submitted to it, in its staged order; nothing else in the
        tree changes. Keys are visited in an arbitrary order, as Go's map
        iteration; the outcome does not depend on it. */
    method Commit(tree: Tree, c: ScopeId)
      requires Valid() && tree.Valid() && c < |tree.scopes|
      modifies tree
      ensures tree.Valid()
      ensures tree.scopes == Committed(old(tree.scopes), c, values, groups)
    {
      ghost var s0 := tree.scopes;
      CommitValues(tree, c);
      ghost var s1 := tree.scopes;
      CommitGroups(tree, c);
      assert s1[c].groups == s0[c].groups;
    }

    /** The first loop of Commit: every staged value, in any order. */
    method CommitValues(tree: Tree, c: ScopeId)
      requires Valid() && tree.Valid() && c < |tree.scopes|
      modifies tree
      ensures tree.Valid()
      ensures tree.scopes == old(tree.scopes)[c := old(tree.scopes)[c].(values := Merge(old(tree.scopes)[c].values, values))]
    {
      ghost var s0 := tree.scopes;
      var remaining := values.Keys;
      ValuesStart(s0, c, values);
      while remaining != {}
        invariant remaining <= values.Keys && tree.Valid() && |tree.scopes| == |s0|
        invariant tree.scopes == WithValues(s0, c, Merge(s0[c].values, Restrict(values, values.Keys - remaining)))
        decreases remaining
      {
        var k :| k in remaining;
        assert PlainKey(k.t, k.name) == k;
        ValuesStep(s0, c, values, remaining, k);
        tree.SetValue(c, k.name, k.t, values[k]);
        remaining := remaining - {k};
      }
      ValuesDone(s0, c, values);
    }

    /** The second loop of Commit: every staged group, in any order, each
        element by element in its staged order. */
    method CommitGroups(tree: Tree, c: ScopeId)
      requires Valid() && tree.Valid() && c < |tree.scopes|
      modifies tree
      ensures tree.Valid()
      ensures tree.scopes == WithGroups(old(tree.scopes), c, MergeGroups(old(tree.scopes)[c].groups, groups))
    {
      ghost var s0 := tree.scopes;
      var left := groups.Keys;
      GroupsStart(s0, c, groups);
      while left != {}
        invariant left <= groups.Keys && tree.Valid() && |tree.scopes| == |s0|
        invariant tree.scopes == WithGroups(s0, c, MergeGroups(s0[c].groups, Restrict(groups, groups.Keys - left)))
        decreases left
      {
        var k :| k in left;
        ghost var before := tree.scopes;
        SubmitAll(tree, c, k, groups[k]);
        GroupsStep(s0, c, before, groups, left, k);
        left := left - {k};
      }
      GroupsDone(s0, c, groups);
    }
  }

  /** The tree with the list of group key `k` in scope `c` set to `l`. */
  function WithGroup(s: seq<Scope>, c: ScopeId, k: Key, l: seq<Value>): seq<Scope>
    requires c < |s|
  {
    s[c := s[c].(groups := s[c].groups[k := l])]
  }

  lemma WithGroupTwice(s: seq<Scope>, c: ScopeId, k: Key, l1: seq<Value>, l2: seq<Value>)
    requires c < |s|
    ensures WithGroup(WithGroup(s, c, k, l1), c, k, l2) == WithGroup(s, c, k, l2)
  {
    assert s[c].groups[k := l1][k := l2] == s[c].groups[k := l2];
  }

  /** Submits the elements of `vs` to group key `k` of scope `c`, in order. */
  method SubmitAll(tree: Tree, c: ScopeId, k: Key, vs: seq<Value>)
    requires tree.Valid() && c < |tree.scopes| && k.name == "" && vs != []
    modifies tree
    ensures tree.Valid()
    ensures tree.scopes == WithGroup(old(tree.scopes), c, k, Get(old(tree.scopes)[c].groups, k) + vs)
  {
    ghost var s1 := tree.scopes;
    ghost var base := Get(s1[c].groups, k);
    assert GroupKey(k.t, k.group) == k;
    tree.SubmitGroupedValue(c, k.group, k.t, vs[0]);
    assert vs[..1] == [vs[0]];
    var i := 1;
    while i < |vs|
      invariant 1 <= i <= |vs| && tree.Valid() && |tree.scopes| == |s1|
      invariant tree.scopes == WithGroup(s1, c, k, base + vs[..i])
    {
      SubmitStep(s1, c, k, base, vs, i);
      tree.SubmitGroupedValue(c, k.group, k.t, vs[i]);
      i := i + 1;
    }
    assert vs[..|vs|] == vs;
  }

  /** One round of SubmitAll's loop: submitting `vs[i]` extends the list
      from `base + vs[..i]` to `base + vs[..i + 1]`. */
  lemma SubmitStep(s1: seq<Scope>, c: ScopeId, k: Key, base: seq<Value>, vs: seq<Value>, i: nat)
    requires c < |s1| && i < |vs|
    ensures var before := WithGroup(s1, c, k, base + vs[..i]);
            before[c := before[c].(groups := before[c].groups[k := Get(before[c].groups, k) + [vs[i]]])]
            == WithGroup(s1, c, k, base + vs[..i + 1])
  {
    var before := WithGroup(s1, c, k, base + vs[..i]);
    assert Get(before[c].groups, k) == base + vs[..i];
    assert vs[..i + 1] == vs[..i] + [vs[i]];
    assert base + vs[..i + 1] == (base + vs[..i]) + [vs[i]];
    WithGroupTwice(s1, c, k, base + vs[..i], base + vs[..i + 1]);
  }

  /** The tree with the groups of scope `c` replaced by `g`. */
  function WithGroups(s: seq<Scope>, c: ScopeId, g: map<Key, seq<Value>>): seq<Scope>
    requires c < |s|
  {
    s[c := s[c].(groups := g)]
  }

  lemma GroupsAfter(s0: seq<Scope>, c: ScopeId, before: seq<Scope>, g: map<Key, seq<Value>>, k: Key, vs: seq<Value>)
    requires c < |s0| && before == WithGroups(s0, c, g)
    ensures WithGroup(before, c, k, Get(before[c].groups, k) + vs) == WithGroups(s0, c, g[k := Get(g, k) + vs])
  {
  }

  /** The tree with the values of scope `c` replaced by `m`. */
  function WithValues(s: seq<Scope>, c: ScopeId, m: map<Key, Value>): seq<Scope>
    requires c < |s|
  {
    s[c := s[c].(values := m)]
  }

  /** One round of Commit's value loop: setting `k` takes the tree from
      the values handled so far merged in to those and `k`. */
  lemma ValuesStep(s0: seq<Scope>, c: ScopeId, values: map<Key, Value>, remaining: set<Key>, k: Key)
    requires c < |s0| && k in remaining && remaining <= values.Keys
    ensures var s := WithValues(s0, c, Merge(s0[c].values, Restrict(values, values.Keys - remaining)));
            s[c := s[c].(values := s[c].values[k := values[k]])]
            == WithValues(s0, c, Merge(s0[c].values, Restrict(values, values.Keys - (remaining - {k}))))
  {
    var handled := values.Keys - remaining;
    assert values.Keys - (remaining - {k}) == handled + {k};
    assert Restrict(values, handled + {k}) == Restrict(values, handled)[k := values[k]];
    MergeAdd(s0[c].values, Restrict(values, handled), k, values[k]);
  }

  /** Commit's value loop before any key is handled. */
  lemma ValuesStart(s0: seq<Scope>, c: ScopeId, values: map<Key, Value>)
    requires c < |s0|
    ensures WithValues(s0, c, Merge(s0[c].values, Restrict(values, values.Keys - values.Keys))) == s0
  {
    assert Restrict(values, values.Keys - values.Keys) == map[];
    assert Merge(s0[c].values, map[]) == s0[c].values;
  }

  /** Commit's value loop once every key is handled. */
  lemma ValuesDone(s0: seq<Scope>, c: ScopeId, values: map<Key, Value>)
    requires c < |s0|
    ensures WithValues(s0, c, Merge(s0[c].values, Restrict(values, values.Keys - {})))
            == s0[c := s0[c].(values := Merge(s0[c].values, values))]
  {
    assert values.Keys - {} == values.Keys;
    assert Restrict(values, values.Keys) == values;
  }

  lemma MergeAdd(a: map<Key, Value>, b: map<Key, Value>, k: Key, v: Value)
    ensures Merge(a, b[k := v]) == Merge(a, b)[k := v]
  {
  }


  lemma MergeGroupsAdd(a: map<Key, seq<Value>>, b: map<Key, seq<Value>>, k: Key, v: seq<Value>)
    requires k !in b
    ensures var m := MergeGroups(a, b);
            MergeGroups(a, b[k := v]) == m[k := Get(m, k) + v]
  {
    var m := MergeGroups(a, b);
    var m1 := MergeGroups(a, b[k := v]);
    var m2 := m[k := Get(m, k) + v];
    assert m1.Keys == m2.Keys;
    forall j | j in m1
      ensures m1[j] == m2[j]
    {
      assert m1[j] == Get(a, j) + Get(b[k := v], j);
      if j != k {
        assert m2[j] == m[j] == Get(a, j) + Get(b, j);
      } else {
        assert Get(b, k) == [];
        assert Get(m, k) == Get(a, k) + [];
      }
    }
  }

  /** One round of Commit's group loop: appending the list of `k` takes
      the tree from the groups handled so far merged in to those and `k`. */
  lemma GroupsStep(s0: seq<Scope>, c: ScopeId, before: seq<Scope>, groups: map<Key, seq<Value>>, left: set<Key>, k: Key)
    requires c < |s0| && k in left && left <= groups.Keys
    requires before == WithGroups(s0, c, MergeGroups(s0[c].groups, Restrict(groups, groups.Keys - left)))
    ensures WithGroup(before, c, k, Get(before[c].groups, k) + groups[k])
            == WithGroups(s0, c, MergeGroups(s0[c].groups, Restrict(groups, groups.Keys - (left - {k}))))
  {
    var handled := groups.Keys - left;
    var a := s0[c].groups;
    GroupsAfter(s0, c, before, MergeGroups(a, Restrict(groups, handled)), k, groups[k]);
    assert groups.Keys - (left - {k}) == handled + {k};
    assert Restrict(groups, handled + {k}) == Restrict(groups, handled)[k := groups[k]];
    MergeGroupsAdd(a, Restrict(groups, handled), k, groups[k]);
  }

  /** Commit's group loop before any key is handled. */
  lemma GroupsStart(s0: seq<Scope>, c: ScopeId, groups: map<Key, seq<Value>>)
    requires c < |s0|
    ensures WithGroups(s0, c, MergeGroups(s0[c].groups, Restrict(groups, groups.Keys - groups.Keys))) == s0
  {
    assert Restrict(groups, groups.Keys - groups.Keys) == map[];
    CommittedNothing(s0, c);
  }

  /** Commit's group loop once every key is handled. */
  lemma GroupsDone(s0: seq<Scope>, c: ScopeId, groups: map<Key, seq<Value>>)
    requires c < |s0|
    ensures WithGroups(s0, c, MergeGroups(s0[c].groups, Restrict(groups, groups.Keys - {})))
            == WithGroups(s0, c, MergeGroups(s0[c].groups, groups))
  {
    assert groups.Keys - {} == groups.Keys;
    assert Restrict(groups, groups.Keys) == groups;
  }

  // ---------------------------------------------------------------------
  // node.Call

  /** node.Call. Nothing happens once the node has been called. Otherwise
      every required parameter must have a provider, and the arguments must
      build; building may run other constructors, which may in turn run
      this node, in which case it is not run again. The constructor then
      runs on the arguments; if it fails nothing is committed and the node
      stays uncalled, otherwise everything it wrote is committed to scope
      `c` and the node is marked called. `ran` says whether the constructor
      ran. With the node's invariant, at most one run is ever committed. */
  method Call(n: Node, tree: Tree, c: ScopeId, build: BuildOutcome, ctor: seq<Value> -> CtorOutput)
    returns (r: Option<CallError>, ghost ran: bool)
    requires n.Valid() && tree.Valid() && c < |tree.scopes|
    modifies n, tree
    ensures n.Valid() && tree.Valid()
    ensures ran ==> !old(n.called) && old(n.successes) == 0
    ensures old(n.called) ==>
              r.None? && !ran && n.called && tree.scopes == old(tree.scopes) && n.successes == old(n.successes)
    ensures !old(n.called) && MissingKeys(old(tree.scopes), c, n.params) != [] ==>
              && r == Some(DependenciesMissing(MissingKeys(old(tree.scopes), c, n.params)))
              && !ran && !n.called && tree.scopes == old(tree.scopes)
    ensures !old(n.called) && MissingKeys(old(tree.scopes), c, n.params) == [] ==>
              match build
              case BuildFailed =>
                r == Some(ArgumentsFailed) && !ran && !n.called && tree.scopes == old(tree.scopes)
              case Built(args, true) =>
                r.None? && !ran && n.called && n.successes == 1 && tree.scopes == old(tree.scopes)
              case Built(args, false) =>
                && ran
                && match ctor(args)
                   case ExtractFailed =>
                     r == Some(ConstructorFailed) && !n.called && n.successes == old(n.successes)
                     && tree.scopes == old(tree.scopes)
                   case Extracted(es) =>
                     r.None? && n.called && n.successes == 1
                     && tree.scopes == Committed(old(tree.scopes), c, StagedValues(es), StagedGroups(es))
  {
    ran := false;
    if n.called {
      return None, false;
    }
    var missing := tree.ShallowCheckDependencies(c, n.params);
    if missing != [] {
      return Some(DependenciesMissing(missing)), false;
    }
    if build.BuildFailed? {
      return Some(ArgumentsFailed), false;
    }
    if build.calledMeanwhile {
      // The nested call that ran this node committed its run.
      n.called := true;
      n.successes := 1;
      return None, false;
    }
    var receiver := new StagingWriter();
    ran := true;
    var out := ctor(build.args);
    if out.ExtractFailed? {
      return Some(ConstructorFailed), true;
    }
    receiver.Receive(out.emissions);
    receiver.Commit(tree, c);
    n.called := true;
    n.successes := 1;
    r := None;
  }
}
