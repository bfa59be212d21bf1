/** The container tree as an arena: scope `i` of a `seq<Scope>` is one
    container, its parent and children are indices. This module holds the
    read-only traversals of the tree and what is proved about them. */
module Scopes {
  import opened Types

  type ScopeId = nat

  /** One container. Presence of a key in `providers` matters on its own:
      a key can be present with an empty list. */
  datatype Scope = Scope(
    providers: map<Key, seq<Node>>,
    nodes: seq<Node>,
    values: map<Key, Value>,
    groups: map<Key, seq<Value>>,
    decorators: map<Key, seq<Node>>,
    children: seq<ScopeId>,
    parent: Option<ScopeId>,
    isVerifiedAcyclic: bool,
    deferAcyclicVerification: bool)

  function EmptyScope(parent: Option<ScopeId>, deferAcyclic: bool): Scope
  {
    Scope(map[], [], map[], map[], map[], [], parent, false, deferAcyclic)
  }

  /** Scope 0 is the root; every other scope has a parent with a smaller
      index, and parent and child links agree. */
  ghost predicate WellFormed(s: seq<Scope>)
  {
    && |s| > 0
    && (forall i :: 0 < i < |s| ==> s[i].parent.Some?)
    && (forall i :: 0 <= i < |s| && s[i].parent.Some? ==>
          s[i].parent.value < i && i in s[s[i].parent.value].children)
    && (forall i, j :: 0 <= i < |s| && 0 <= j < |s[i].children| ==>
          i < s[i].children[j] < |s| && s[s[i].children[j]].parent == Some(i))
  }

  /** `s2` differs from `s` at most in the maps and flags of scope `c`. */
  ghost predicate OnlyDataOf(s: seq<Scope>, s2: seq<Scope>, c: ScopeId)
  {
    && |s2| == |s|
    && c < |s|
    && (forall i :: 0 <= i < |s| && i != c ==> s2[i] == s[i])
    && s2[c].children == s[c].children
    && s2[c].parent == s[c].parent
  }

  lemma OnlyDataOfWellFormed(s: seq<Scope>, s2: seq<Scope>, c: ScopeId)
    requires WellFormed(s) && OnlyDataOf(s, s2, c)
    ensures WellFormed(s2)
  {
    forall i | 0 <= i < |s2|
      ensures s2[i].children == s[i].children && s2[i].parent == s[i].parent
    {
    }
  }

  /** Every index of `qs` names a scope of `s`. */
  ghost predicate InRange(s: seq<Scope>, qs: seq<ScopeId>)
  {
    forall i :: 0 <= i < |qs| ==> qs[i] < |s|
  }

  /** `a` is `j` itself or one of its ancestors. */
  ghost predicate AncestorOf(s: seq<Scope>, a: ScopeId, j: ScopeId)
    requires WellFormed(s) && j < |s|
    decreases j
  {
    a == j || (s[j].parent.Some? && AncestorOf(s, a, s[j].parent.value))
  }

  lemma {:induction false} AncestorOfFrame(s: seq<Scope>, s2: seq<Scope>, c: ScopeId, a: ScopeId, j: ScopeId)
    requires WellFormed(s) && OnlyDataOf(s, s2, c) && j < |s|
    ensures WellFormed(s2)
    ensures AncestorOf(s, a, j) == AncestorOf(s2, a, j)
    decreases j
  {
    OnlyDataOfWellFormed(s, s2, c);
    assert s2[j].parent == s[j].parent;
    if s[j].parent.Some? {
      AncestorOfFrame(s, s2, c, a, s[j].parent.value);
    }
  }

  lemma {:induction false} AncestorTrans(s: seq<Scope>, a: ScopeId, b: ScopeId, j: ScopeId)
    requires WellFormed(s) && b < |s| && j < |s|
    requires AncestorOf(s, a, b) && AncestorOf(s, b, j)
    ensures AncestorOf(s, a, j)
    decreases j
  {
    if b != j {
      AncestorTrans(s, a, b, s[j].parent.value);
    }
  }

  /** getRoot: follows parent links up to the scope without a parent. */
  function Root(s: seq<Scope>, c: ScopeId): (r: ScopeId)
    requires WellFormed(s) && c < |s|
    ensures r < |s| && s[r].parent.None? && AncestorOf(s, r, c)
    decreases c
  {
    if s[c].parent.None? then c else Root(s, s[c].parent.value)
  }

  /** The ancestor without a parent is unique: it is the one getRoot finds. */
  lemma {:induction false} RootUnique(s: seq<Scope>, c: ScopeId, a: ScopeId)
    requires WellFormed(s) && c < |s| && a < |s|
    requires AncestorOf(s, a, c) && s[a].parent.None?
    ensures Root(s, c) == a
    decreases c
  {
    if a != c {
      RootUnique(s, s[c].parent.value, a);
    }
  }

  /** Every scope of a well-formed tree hangs below scope 0. */
  lemma {:induction false} AllUnderRoot(s: seq<Scope>, j: ScopeId)
    requires WellFormed(s) && j < |s|
    ensures AncestorOf(s, 0, j)
    decreases j
  {
    if j != 0 {
      AllUnderRoot(s, s[j].parent.value);
    }
  }

  /** All scopes of a tree share one root, scope 0. */
  lemma RootIsZero(s: seq<Scope>, c: ScopeId)
    requires WellFormed(s) && c < |s|
    ensures Root(s, c) == 0
  {
    AllUnderRoot(s, c);
    RootUnique(s, c, 0);
  }

  // ---------------------------------------------------------------------
  // Pre-order of a subtree

  ghost function PreOrder(s: seq<Scope>, c: ScopeId): (r: seq<ScopeId>)
    requires WellFormed(s) && c < |s|
    ensures |r| > 0 && r[0] == c
    ensures forall i :: 0 <= i < |r| ==> c <= r[i] < |s|
    ensures forall x :: x in r ==> c <= x < |s|
    decreases |s| - c, 1, 0
  {
    [c] + ChildrenPreOrder(s, c, 0)
  }

  ghost function ChildrenPreOrder(s: seq<Scope>, c: ScopeId, i: nat): (r: seq<ScopeId>)
    requires WellFormed(s) && c < |s| && i <= |s[c].children|
    ensures forall i :: 0 <= i < |r| ==> c < r[i] < |s|
    ensures forall x :: x in r ==> c < x < |s|
    decreases |s| - c, 0, |s[c].children| - i
  {
    if i == |s[c].children| then []
    else PreOrder(s, s[c].children[i]) + ChildrenPreOrder(s, c, i + 1)
  }

  lemma {:induction false} PreOrderDescendants(s: seq<Scope>, c: ScopeId)
    requires WellFormed(s) && c < |s|
    ensures forall j :: j in PreOrder(s, c) ==> AncestorOf(s, c, j)
    decreases |s| - c, 1, 0
  {
    ChildrenPreOrderDescendants(s, c, 0);
  }

  lemma {:induction false} ChildrenPreOrderDescendants(s: seq<Scope>, c: ScopeId, i: nat)
    requires WellFormed(s) && c < |s| && i <= |s[c].children|
    ensures forall j :: j in ChildrenPreOrder(s, c, i) ==> AncestorOf(s, c, j)
    decreases |s| - c, 0, |s[c].children| - i
  {
    if i < |s[c].children| {
      var ch := s[c].children[i];
      PreOrderDescendants(s, ch);
      ChildrenPreOrderDescendants(s, c, i + 1);
      assert AncestorOf(s, c, ch);
      forall j | j in PreOrder(s, ch)
        ensures AncestorOf(s, c, j)
      {
        AncestorTrans(s, c, ch, j);
      }
    }
  }

  lemma {:induction false} ChildrenPreOrderContains(s: seq<Scope>, c: ScopeId, i: nat, m: nat)
    requires WellFormed(s) && c < |s| && i <= m < |s[c].children|
    ensures forall x :: x in PreOrder(s, s[c].children[m]) ==> x in ChildrenPreOrder(s, c, i)
    decreases |s[c].children| - i
  {
    if i < m {
      ChildrenPreOrderContains(s, c, i + 1, m);
    }
  }

  /** A strict descendant of `c` lies below one of `c`'s children. */
  lemma {:induction false} ChildOnPath(s: seq<Scope>, c: ScopeId, j: ScopeId) returns (m: nat)
    requires WellFormed(s) && c < |s| && j < |s|
    requires AncestorOf(s, c, j) && j != c
    ensures m < |s[c].children| && AncestorOf(s, s[c].children[m], j)
    decreases j
  {
    var p := s[j].parent.value;
    if p == c {
      assert j in s[c].children;
      m :| 0 <= m < |s[c].children| && s[c].children[m] == j;
    } else {
      m := ChildOnPath(s, c, p);
    }
  }

  lemma {:induction false} DescendantInPreOrder(s: seq<Scope>, c: ScopeId, j: ScopeId)
    requires WellFormed(s) && c < |s| && j < |s|
    requires AncestorOf(s, c, j)
    ensures j in PreOrder(s, c)
    decreases |s| - c
  {
    if j != c {
      var m := ChildOnPath(s, c, j);
      DescendantInPreOrder(s, s[c].children[m], j);
      ChildrenPreOrderContains(s, c, 0, m);
    }
  }

  /** The pre-order of `c` lists exactly the scopes of `c`'s subtree. */
  lemma InPreOrderIff(s: seq<Scope>, c: ScopeId, j: ScopeId)
    requires WellFormed(s) && c < |s|
    ensures j in PreOrder(s, c) <==> j < |s| && AncestorOf(s, c, j)
  {
    PreOrderDescendants(s, c);
    if j < |s| && AncestorOf(s, c, j) {
      DescendantInPreOrder(s, c, j);
    }
  }

  // ---------------------------------------------------------------------
  // getValueProviders / getGroupProviders

  /** The providers of `k` in `c`, followed by those of each child's
      subtree, in child order. */
  function Providers(s: seq<Scope>, c: ScopeId, k: Key): (r: seq<Node>)
    requires WellFormed(s) && c < |s|
    ensures Get(s[c].providers, k) != [] ==> r != []
    decreases |s| - c, 1, 0
  {
    Get(s[c].providers, k) + ChildProviders(s, c, 0, k)
  }

  /** The lookup starts with `c`'s own list for the key, before any
      child's. */
  lemma ProvidersOwnFirst(s: seq<Scope>, c: ScopeId, k: Key)
    requires WellFormed(s) && c < |s|
    ensures Get(s[c].providers, k) <= Providers(s, c, k)
  {
  }

  function ChildProviders(s: seq<Scope>, c: ScopeId, i: nat, k: Key): seq<Node>
    requires WellFormed(s) && c < |s| && i <= |s[c].children|
    decreases |s| - c, 0, |s[c].children| - i
  {
    if i == |s[c].children| then []
    else Providers(s, s[c].children[i], k) + ChildProviders(s, c, i + 1, k)
  }

  /** The provider lists of `k` of the scopes `xs`, one after another. */
  ghost function Collect(s: seq<Scope>, xs: seq<ScopeId>, k: Key): seq<Node>
    requires InRange(s, xs)
    decreases |xs|
  {
    if xs == [] then [] else Get(s[xs[0]].providers, k) + Collect(s, xs[1..], k)
  }

  lemma {:induction false} CollectAppend(s: seq<Scope>, a: seq<ScopeId>, b: seq<ScopeId>, k: Key)
    requires InRange(s, a) && InRange(s, b)
    ensures InRange(s, a + b)
    ensures Collect(s, a + b, k) == Collect(s, a, k) + Collect(s, b, k)
    decreases |a|
  {
    if a == [] {
      assert a + b == b;
    } else {
      assert (a + b)[0] == a[0];
      assert (a + b)[1..] == a[1..] + b;
      CollectAppend(s, a[1..], b, k);
    }
  }

  lemma {:induction false} CollectEmptyIff(s: seq<Scope>, xs: seq<ScopeId>, k: Key)
    requires InRange(s, xs)
    ensures Collect(s, xs, k) == [] <==> forall x :: x in xs ==> Get(s[x].providers, k) == []
    decreases |xs|
  {
    if xs != [] {
      CollectEmptyIff(s, xs[1..], k);
      assert forall x :: x in xs ==> x == xs[0] || x in xs[1..];
    }
  }

  /** The recursive collection visits the subtree in pre-order. */
  lemma {:induction false} ProvidersInPreOrder(s: seq<Scope>, c: ScopeId, k: Key)
    requires WellFormed(s) && c < |s|
    ensures Providers(s, c, k) == Collect(s, PreOrder(s, c), k)
    decreases |s| - c, 1, 0
  {
    ChildProvidersInPreOrder(s, c, 0, k);
    assert PreOrder(s, c)[1..] == ChildrenPreOrder(s, c, 0);
  }

  lemma {:induction false} ChildProvidersInPreOrder(s: seq<Scope>, c: ScopeId, i: nat, k: Key)
    requires WellFormed(s) && c < |s| && i <= |s[c].children|
    ensures ChildProviders(s, c, i, k) == Collect(s, ChildrenPreOrder(s, c, i), k)
    decreases |s| - c, 0, |s[c].children| - i
  {
    if i < |s[c].children| {
      ProvidersInPreOrder(s, s[c].children[i], k);
      ChildProvidersInPreOrder(s, c, i + 1, k);
      CollectAppend(s, PreOrder(s, s[c].children[i]), ChildrenPreOrder(s, c, i + 1), k);
    }
  }

  /** The providers found from `c` are empty exactly when no scope of `c`'s
      subtree holds a provider for `k`. */
  lemma ProvidersEmptyIff(s: seq<Scope>, c: ScopeId, k: Key)
    requires WellFormed(s) && c < |s|
    ensures Providers(s, c, k) == [] <==>
              forall j :: 0 <= j < |s| && AncestorOf(s, c, j) ==> Get(s[j].providers, k) == []
  {
    ProvidersInPreOrder(s, c, k);
    CollectEmptyIff(s, PreOrder(s, c), k);
    forall j | 0 <= j < |s|
      ensures j in PreOrder(s, c) <==> AncestorOf(s, c, j)
    {
      InPreOrderIff(s, c, j);
    }
  }

  // ---------------------------------------------------------------------
  // Breadth-first search for the owner of a key

  /** The pre-orders of the subtrees of `qs`, one after another: the scopes
      a breadth-first search starting from queue `qs` can still visit. */
  ghost function Forest(s: seq<Scope>, qs: seq<ScopeId>): (r: seq<ScopeId>)
    requires WellFormed(s) && InRange(s, qs)
    ensures forall x :: x in r ==> x < |s|
    decreases |qs|
  {
    if qs == [] then [] else PreOrder(s, qs[0]) + Forest(s, qs[1..])
  }

  lemma {:induction false} ForestAppend(s: seq<Scope>, a: seq<ScopeId>, b: seq<ScopeId>)
    requires WellFormed(s) && InRange(s, a) && InRange(s, b)
    ensures InRange(s, a + b)
    ensures Forest(s, a + b) == Forest(s, a) + Forest(s, b)
    decreases |a|
  {
    if a == [] {
      assert a + b == b;
    } else {
      assert (a + b)[0] == a[0];
      assert (a + b)[1..] == a[1..] + b;
      ForestAppend(s, a[1..], b);
    }
  }

  lemma {:induction false} ChildrenPreOrderIsForest(s: seq<Scope>, c: ScopeId, i: nat)
    requires WellFormed(s) && c < |s| && i <= |s[c].children|
    ensures InRange(s, s[c].children[i..])
    ensures ChildrenPreOrder(s, c, i) == Forest(s, s[c].children[i..])
    decreases |s[c].children| - i
  {
    if i < |s[c].children| {
      ChildrenPreOrderIsForest(s, c, i + 1);
      assert s[c].children[i..][1..] == s[c].children[i + 1..];
    }
  }

  /** One step of the search: pop the head, enqueue its children. */
  lemma ForestStep(s: seq<Scope>, q: seq<ScopeId>)
    requires WellFormed(s) && q != [] && InRange(s, q)
    ensures InRange(s, q[1..] + s[q[0]].children)
    ensures |Forest(s, q[1..] + s[q[0]].children)| + 1 == |Forest(s, q)|
    ensures forall x :: x in Forest(s, q) <==> x == q[0] || x in Forest(s, q[1..] + s[q[0]].children)
  {
    var v := q[0];
    ChildrenBelow(s, v);
    ChildrenPreOrderIsForest(s, v, 0);
    assert s[v].children[0..] == s[v].children;
    ForestAppend(s, q[1..], s[v].children);
  }

  /** Queue-based breadth-first search for the first scope that has `k`
      present in its providers. */
  ghost function BfsFind(s: seq<Scope>, queue: seq<ScopeId>, k: Key): (r: Option<ScopeId>)
    requires WellFormed(s) && InRange(s, queue)
    ensures r.Some? ==> r.value < |s| && k in s[r.value].providers
    decreases |Forest(s, queue)|
  {
    if queue == [] then None
    else if k in s[queue[0]].providers then Some(queue[0])
    else
      ForestStep(s, queue);
      BfsFind(s, queue[1..] + s[queue[0]].children, k)
  }

  /** The search finds a scope of the queue's subtrees that has `k` present,
      and finds none exactly when no such scope exists. */
  lemma {:induction false} BfsFindSpec(s: seq<Scope>, queue: seq<ScopeId>, k: Key)
    requires WellFormed(s) && InRange(s, queue)
    ensures BfsFind(s, queue, k).Some? ==>
              BfsFind(s, queue, k).value in Forest(s, queue)
              && k in s[BfsFind(s, queue, k).value].providers
    ensures BfsFind(s, queue, k).None? <==> forall j :: j in Forest(s, queue) ==> k !in s[j].providers
    decreases |Forest(s, queue)|
  {
    if queue != [] {
      ForestStep(s, queue);
      if k in s[queue[0]].providers {
        assert PreOrder(s, queue[0])[0] == queue[0];
      } else {
        BfsFindSpec(s, queue[1..] + s[queue[0]].children, k);
      }
    }
  }

  // ---------------------------------------------------------------------
  // Breadth-first order, level by level

  /** The level below the queue `qs`: the children of each scope of `qs`,
      in queue order. */
  ghost function NextLevel(s: seq<Scope>, qs: seq<ScopeId>): (r: seq<ScopeId>)
    requires WellFormed(s) && InRange(s, qs)
    ensures InRange(s, r)
    decreases |qs|
  {
    if qs == [] then []
    else
      ChildrenBelow(s, qs[0]);
      s[qs[0]].children + NextLevel(s, qs[1..])
  }

  /** Every scope of the queue's subtrees is either in the queue or in the
      subtrees of the level below it. */
  lemma {:induction false} ForestLevels(s: seq<Scope>, qs: seq<ScopeId>)
    requires WellFormed(s) && InRange(s, qs)
    ensures |Forest(s, qs)| == |qs| + |Forest(s, NextLevel(s, qs))|
    decreases |qs|
  {
    if qs != [] {
      var v := qs[0];
      ChildrenBelow(s, v);
      ChildrenPreOrderIsForest(s, v, 0);
      assert s[v].children[0..] == s[v].children;
      ForestAppend(s, s[v].children, NextLevel(s, qs[1..]));
      ForestLevels(s, qs[1..]);
    }
  }

  /** The scopes of the queue's subtrees in level order: the queue itself,
      then the level below it, then the level below that, and so on. */
  ghost function LevelOrder(s: seq<Scope>, qs: seq<ScopeId>): (r: seq<ScopeId>)
    requires WellFormed(s) && InRange(s, qs)
    ensures InRange(s, r)
    decreases |Forest(s, qs)|
  {
    if qs == [] then []
    else
      ForestLevels(s, qs);
      qs + LevelOrder(s, NextLevel(s, qs))
  }

  /** The scopes in the order the queue-based search pops them. */
  ghost function BfsOrder(s: seq<Scope>, queue: seq<ScopeId>): (r: seq<ScopeId>)
    requires WellFormed(s) && InRange(s, queue)
    ensures InRange(s, r)
    decreases |Forest(s, queue)|
  {
    if queue == [] then []
    else
      ForestStep(s, queue);
      [queue[0]] + BfsOrder(s, queue[1..] + s[queue[0]].children)
  }

  /** The first scope of `l` that has `k` present. */
  ghost function FirstPresent(s: seq<Scope>, l: seq<ScopeId>, k: Key): (r: Option<ScopeId>)
    requires InRange(s, l)
    ensures r.None? <==> forall i :: 0 <= i < |l| ==> k !in s[l[i]].providers
    ensures r.Some? ==>
              exists i :: 0 <= i < |l| && l[i] == r.value && k in s[l[i]].providers
                          && forall j :: 0 <= j < i ==> k !in s[l[j]].providers
    decreases |l|
  {
    if l == [] then None
    else if k in s[l[0]].providers then Some(l[0])
    else
      var r := FirstPresent(s, l[1..], k);
      assert r.Some? ==>
               exists i :: 0 <= i < |l| && l[i] == r.value && k in s[l[i]].providers
                           && forall j :: 0 <= j < i ==> k !in s[l[j]].providers by {
        if r.Some? {
          var i :| 0 <= i < |l[1..]| && l[1..][i] == r.value && k in s[l[1..][i]].providers
                   && forall j :: 0 <= j < i ==> k !in s[l[1..][j]].providers;
          assert l[i + 1] == r.value && forall j :: 0 <= j < i + 1 ==> k !in s[l[j]].providers;
        }
      }
      r
  }

  /** Popping the scopes of `a` from the front of the queue `a + b` leaves
      `b` followed by the level below `a`. */
  lemma {:induction false} BfsOrderSplit(s: seq<Scope>, a: seq<ScopeId>, b: seq<ScopeId>)
    requires WellFormed(s) && InRange(s, a) && InRange(s, b)
    ensures InRange(s, a + b) && InRange(s, b + NextLevel(s, a))
    ensures BfsOrder(s, a + b) == a + BfsOrder(s, b + NextLevel(s, a))
    decreases |a|
  {
    if a == [] {
      QueueEmpty(a, b, NextLevel(s, a));
    } else {
      var x := a[0];
      var ch := s[x].children;
      var nl := NextLevel(s, a[1..]);
      BfsOrderPop(s, a, b);
      NextLevelCons(s, a);
      BfsOrderSplit(s, a[1..], b + ch);
      QueueRegroup(a, b, ch, nl, BfsOrder(s, b + NextLevel(s, a)));
    }
  }

  lemma NextLevelCons(s: seq<Scope>, a: seq<ScopeId>)
    requires WellFormed(s) && InRange(s, a) && a != []
    ensures InRange(s, a[1..]) && InRange(s, s[a[0]].children)
    ensures NextLevel(s, a) == s[a[0]].children + NextLevel(s, a[1..])
  {
    ChildrenBelow(s, a[0]);
  }

  /** Popping the head of the queue `a + b`. */
  lemma BfsOrderPop(s: seq<Scope>, a: seq<ScopeId>, b: seq<ScopeId>)
    requires WellFormed(s) && InRange(s, a) && InRange(s, b) && a != []
    ensures InRange(s, a + b) && InRange(s, a[1..] + (b + s[a[0]].children))
    ensures BfsOrder(s, a + b) == [a[0]] + BfsOrder(s, a[1..] + (b + s[a[0]].children))
  {
    InRangeAppend(s, a, b);
    BfsOrderUnfold(s, a + b);
    QueuePop(a, b, s[a[0]].children);
  }

  /** One step of the search: pop the head, enqueue its children. */
  lemma BfsOrderUnfold(s: seq<Scope>, q: seq<ScopeId>)
    requires WellFormed(s) && InRange(s, q) && q != []
    ensures InRange(s, q[1..] + s[q[0]].children)
    ensures BfsOrder(s, q) == [q[0]] + BfsOrder(s, q[1..] + s[q[0]].children)
  {
    ChildrenBelow(s, q[0]);
  }

  lemma InRangeAppend(s: seq<Scope>, a: seq<ScopeId>, b: seq<ScopeId>)
    requires InRange(s, a) && InRange(s, b)
    ensures InRange(s, a + b)
  {
  }

  lemma QueueEmpty(a: seq<ScopeId>, b: seq<ScopeId>, c: seq<ScopeId>)
    requires a == [] && c == []
    ensures a + b == b && b + c == b
  {
  }

  lemma QueueRegroup(a: seq<ScopeId>, b: seq<ScopeId>, c: seq<ScopeId>, d: seq<ScopeId>, z: seq<ScopeId>)
    requires a != []
    ensures (b + c) + d == b + (c + d) && [a[0]] + (a[1..] + z) == a + z
  {
    assert [a[0]] + a[1..] == a;
  }

  /** Popping the head of `a + b` and enqueueing `c`, as plain sequences. */
  lemma QueuePop(a: seq<ScopeId>, b: seq<ScopeId>, c: seq<ScopeId>)
    requires a != []
    ensures a + b != [] && (a + b)[0] == a[0]
    ensures (a + b)[1..] + c == a[1..] + (b + c)
  {
    assert (a + b)[1..] == a[1..] + b;
  }

  /** The search pops the scopes in level order. */
  lemma {:induction false} BfsOrderIsLevelOrder(s: seq<Scope>, queue: seq<ScopeId>)
    requires WellFormed(s) && InRange(s, queue)
    ensures BfsOrder(s, queue) == LevelOrder(s, queue)
    decreases |Forest(s, queue)|
  {
    if queue != [] {
      BfsOrderSplit(s, queue, []);
      assert queue + [] == queue && [] + NextLevel(s, queue) == NextLevel(s, queue);
      ForestLevels(s, queue);
      BfsOrderIsLevelOrder(s, NextLevel(s, queue));
    }
  }

  /** The search returns the first popped scope that has `k` present. */
  lemma {:induction false} BfsFindFirstPopped(s: seq<Scope>, queue: seq<ScopeId>, k: Key)
    requires WellFormed(s) && InRange(s, queue)
    ensures BfsFind(s, queue, k) == FirstPresent(s, BfsOrder(s, queue), k)
    decreases |Forest(s, queue)|
  {
    if queue != [] {
      ForestStep(s, queue);
      var rest := queue[1..] + s[queue[0]].children;
      assert BfsOrder(s, queue)[1..] == BfsOrder(s, rest);
      if k !in s[queue[0]].providers {
        BfsFindFirstPopped(s, rest, k);
      }
    }
  }

  /** The search finds the first scope in level order that has `k`
      present. */
  lemma BfsFindLevelOrder(s: seq<Scope>, queue: seq<ScopeId>, k: Key)
    requires WellFormed(s) && InRange(s, queue)
    ensures BfsFind(s, queue, k) == FirstPresent(s, LevelOrder(s, queue), k)
  {
    BfsFindFirstPopped(s, queue, k);
    BfsOrderIsLevelOrder(s, queue);
  }

  /** Some scope of `c`'s subtree (`c` included) has `k` present. */
  ghost predicate PresentAtOrBelow(s: seq<Scope>, c: ScopeId, k: Key)
    requires WellFormed(s) && c < |s|
  {
    exists j :: 0 <= j < |s| && AncestorOf(s, c, j) && k in s[j].providers
  }

  /** Presence is not a provider: a key restored to an empty list (as
      provide's rollback leaves one that was absent) is present, so
      decorate's owner check accepts it, while the provider lookup for it
      is empty. */
  lemma PresentWithoutProviders(k: Key)
    ensures var s := [EmptyScope(None, false).(providers := map[k := []])];
            WellFormed(s) && PresentAtOrBelow(s, 0, k) && Providers(s, 0, k) == []
  {
    var s := [EmptyScope(None, false).(providers := map[k := []])];
    assert WellFormed(s);
    assert AncestorOf(s, 0, 0) && k in s[0].providers;
    assert ChildProviders(s, 0, 0, k) == [];
  }

  lemma ChildrenBelow(s: seq<Scope>, c: ScopeId)
    requires WellFormed(s) && c < |s|
    ensures forall i :: 0 <= i < |s[c].children| ==> c < s[c].children[i] < |s|
    ensures InRange(s, s[c].children)
  {
  }

  /** The owner that getDecorators settles on: `c` when it has `k` present,
      else the first such scope below `c` in breadth-first order, else `c`. */
  ghost function Owner(s: seq<Scope>, c: ScopeId, k: Key): (r: ScopeId)
    requires WellFormed(s) && c < |s|
    ensures r < |s| && (r == c || k in s[r].providers)
  {
    ChildrenBelow(s, c);
    if k in s[c].providers then c
    else match BfsFind(s, s[c].children, k)
      case None => c
      case Some(o) => o
  }

  /** What the search below `c` finds, in terms of the subtree: a strict
      descendant with `k` present, the first one in level order. */
  lemma SearchBelowSpec(s: seq<Scope>, c: ScopeId, k: Key)
    requires WellFormed(s) && c < |s|
    ensures InRange(s, s[c].children)
    ensures BfsFind(s, s[c].children, k).Some? ==>
              var o := BfsFind(s, s[c].children, k).value;
              c < o < |s| && AncestorOf(s, c, o) && k in s[o].providers
    ensures (k in s[c].providers || BfsFind(s, s[c].children, k).Some?) <==> PresentAtOrBelow(s, c, k)
    ensures BfsFind(s, s[c].children, k) == FirstPresent(s, LevelOrder(s, s[c].children), k)
  {
    ChildrenBelow(s, c);
    BfsFindSpec(s, s[c].children, k);
    BfsFindLevelOrder(s, s[c].children, k);
    ChildrenPreOrderIsForest(s, c, 0);
    assert s[c].children[0..] == s[c].children;
    PreOrderDescendants(s, c);
    assert PreOrder(s, c) == [c] + Forest(s, s[c].children);
    if BfsFind(s, s[c].children, k).None? && k !in s[c].providers {
      forall j | 0 <= j < |s| && AncestorOf(s, c, j)
        ensures k !in s[j].providers
      {
        InPreOrderIff(s, c, j);
      }
    }
  }

  /** getDecorators' owner is `c` or a scope below it; it is `c` when `c`
      has `k` present or no scope of the subtree does, and otherwise the
      first strict descendant in level order that has `k` present. */
  lemma OwnerSpec(s: seq<Scope>, c: ScopeId, k: Key)
    requires WellFormed(s) && c < |s|
    ensures Owner(s, c, k) < |s| && AncestorOf(s, c, Owner(s, c, k))
    ensures k in s[c].providers ==> Owner(s, c, k) == c
    ensures !PresentAtOrBelow(s, c, k) ==> Owner(s, c, k) == c
    ensures k !in s[c].providers && PresentAtOrBelow(s, c, k) ==>
              Owner(s, c, k) != c && k in s[Owner(s, c, k)].providers
    ensures InRange(s, s[c].children)
    ensures k !in s[c].providers && PresentAtOrBelow(s, c, k) ==>
              FirstPresent(s, LevelOrder(s, s[c].children), k) == Some(Owner(s, c, k))
  {
    SearchBelowSpec(s, c, k);
  }

  // ---------------------------------------------------------------------
  // Decorators along the parent chain

  /** The decorators of `k` registered in `p`, then in its parent, and so on
      up to the root. */
  function AncestorDecorators(s: seq<Scope>, p: ScopeId, k: Key): (r: seq<Node>)
    requires WellFormed(s) && p < |s|
    ensures Get(s[p].decorators, k) <= r
    decreases p
  {
    Get(s[p].decorators, k)
      + (if s[p].parent.Some? then AncestorDecorators(s, s[p].parent.value, k) else [])
  }

  /** One step of the walk up the parent chain, after `r` was collected. */
  lemma AncestorDecoratorsStep(s: seq<Scope>, x: ScopeId, k: Key, r: seq<Node>)
    requires WellFormed(s) && x < |s|
    ensures r + AncestorDecorators(s, x, k)
            == (r + Get(s[x].decorators, k))
               + (if s[x].parent.Some? then AncestorDecorators(s, s[x].parent.value, k) else [])
  {
  }

  /** A decorator applies exactly when it was registered for `k` in `p` or
      in an ancestor of `p`; decorators of other subtrees never apply. */
  lemma {:induction false} AncestorDecoratorsMembers(s: seq<Scope>, p: ScopeId, k: Key, n: Node)
    requires WellFormed(s) && p < |s|
    ensures n in AncestorDecorators(s, p, k) <==>
              exists a :: 0 <= a < |s| && AncestorOf(s, a, p) && n in Get(s[a].decorators, k)
    decreases p
  {
    if s[p].parent.Some? {
      var q := s[p].parent.value;
      AncestorDecoratorsMembers(s, q, k, n);
      if n in AncestorDecorators(s, p, k) && n !in Get(s[p].decorators, k) {
        var a :| 0 <= a < |s| && AncestorOf(s, a, q) && n in Get(s[a].decorators, k);
        assert AncestorOf(s, a, p);
      }
    } else {
      if exists a :: 0 <= a < |s| && AncestorOf(s, a, p) && n in Get(s[a].decorators, k) {
        var a :| 0 <= a < |s| && AncestorOf(s, a, p) && n in Get(s[a].decorators, k);
        assert a == p;
      }
    }
  }

  // ---------------------------------------------------------------------
  // shallowCheckDependencies

  /** A parameter is missing when it is a required single value with no
      provider in `c`'s subtree. Groups and optional values never are. */
  predicate IsMissing(s: seq<Scope>, c: ScopeId, p: Param)
    requires WellFormed(s) && c < |s|
  {
    p.Single? && !p.optional && Providers(s, c, PlainKey(p.t, p.name)) == []
  }

  /** The keys of the missing parameters, in plan order. */
  function MissingKeys(s: seq<Scope>, c: ScopeId, ps: seq<Param>): (r: seq<Key>)
    requires WellFormed(s) && c < |s|
    ensures |r| <= |ps|
    decreases |ps|
  {
    if ps == [] then []
    else
      MissingKeys(s, c, ps[..|ps| - 1])
        + (if IsMissing(s, c, ps[|ps| - 1]) then [ParamKey(ps[|ps| - 1])] else [])
  }

  /** Every missing parameter is reported, and only missing ones are. */
  lemma {:induction false} MissingKeysSpec(s: seq<Scope>, c: ScopeId, ps: seq<Param>, k: Key)
    requires WellFormed(s) && c < |s|
    ensures k in MissingKeys(s, c, ps) <==>
              exists i :: 0 <= i < |ps| && IsMissing(s, c, ps[i]) && ParamKey(ps[i]) == k
  {
    var flags := seq(|ps|, i requires 0 <= i < |ps| => IsMissing(s, c, ps[i]));
    MissingKeysFlagged(s, c, ps, flags);
    FlaggedSpec(ps, flags, k);
  }

  /** The keys of the parameters of `ps` whose flag is set, in order. */
  function Flagged(ps: seq<Param>, flags: seq<bool>): seq<Key>
    requires |ps| <= |flags|
    decreases |ps|
  {
    if ps == [] then []
    else
      Flagged(ps[..|ps| - 1], flags)
        + (if flags[|ps| - 1] then [ParamKey(ps[|ps| - 1])] else [])
  }

  /** A key is kept exactly when some flagged parameter has it. */
  lemma {:induction false} FlaggedSpec(ps: seq<Param>, flags: seq<bool>, k: Key)
    requires |ps| <= |flags|
    ensures k in Flagged(ps, flags) <==> exists i :: 0 <= i < |ps| && flags[i] && ParamKey(ps[i]) == k
    decreases |ps|
  {
    if ps != [] {
      var init := ps[..|ps| - 1];
      FlaggedSpec(init, flags, k);
      if exists i :: 0 <= i < |ps| && flags[i] && ParamKey(ps[i]) == k {
        var i :| 0 <= i < |ps| && flags[i] && ParamKey(ps[i]) == k;
        if i < |ps| - 1 {
          assert init[i] == ps[i];
        }
      }
      if exists i :: 0 <= i < |init| && flags[i] && ParamKey(init[i]) == k {
        var i :| 0 <= i < |init| && flags[i] && ParamKey(init[i]) == k;
        assert ps[i] == init[i];
      }
    }
  }

  /** MissingKeys keeps the parameters flagged as missing. */
  lemma {:induction false} MissingKeysFlagged(s: seq<Scope>, c: ScopeId, ps: seq<Param>, flags: seq<bool>)
    requires WellFormed(s) && c < |s| && |ps| <= |flags|
    requires forall i :: 0 <= i < |ps| ==> flags[i] == IsMissing(s, c, ps[i])
    ensures MissingKeys(s, c, ps) == Flagged(ps, flags)
    decreases |ps|
  {
    if ps != [] {
      var init := ps[..|ps| - 1];
      assert forall i :: 0 <= i < |init| ==> init[i] == ps[i];
      MissingKeysFlagged(s, c, init, flags);
    }
  }

  /** The check passes exactly when no required single value lacks a
      provider in `c`'s subtree. */
  lemma {:induction false} MissingKeysEmptyIff(s: seq<Scope>, c: ScopeId, ps: seq<Param>)
    requires WellFormed(s) && c < |s|
    ensures MissingKeys(s, c, ps) == [] <==> forall i :: 0 <= i < |ps| ==> !IsMissing(s, c, ps[i])
    decreases |ps|
  {
    if ps != [] {
      MissingKeysEmptyIff(s, c, ps[..|ps| - 1]);
      assert forall i :: 0 <= i < |ps| - 1 ==> ps[..|ps| - 1][i] == ps[i];
    }
  }

  // ---------------------------------------------------------------------
  // Child: growing the tree

  /** The tree after Child(c): a new, empty scope at the end whose parent
      is `c`, appended to `c`'s children. It does not inherit the deferral
      flag. */
  function AddChild(s: seq<Scope>, c: ScopeId): seq<Scope>
    requires c < |s|
  {
    s[c := s[c].(children := s[c].children + [|s|])] + [EmptyScope(Some(c), false)]
  }

  lemma AddChildWellFormed(s: seq<Scope>, c: ScopeId)
    requires WellFormed(s) && c < |s|
    ensures WellFormed(AddChild(s, c))
    ensures |AddChild(s, c)| == |s| + 1 && AddChild(s, c)[|s|].parent == Some(c)
  {
    AddChildParents(s, c);
    AddChildChildren(s, c);
    LinkedWellFormed(s, AddChild(s, c), c);
  }

  /** The parent and child links that adding a leaf below `c` produces. */
  ghost predicate Linked(s: seq<Scope>, r: seq<Scope>, c: ScopeId)
  {
    && |r| == |s| + 1 && c < |s|
    && (forall i :: 0 <= i < |r| ==> r[i].parent == if i < |s| then s[i].parent else Some(c))
    && (forall i :: 0 <= i < |r| ==>
          r[i].children == if i == c then s[c].children + [|s|] else if i < |s| then s[i].children else [])
  }

  lemma LinkedWellFormed(s: seq<Scope>, r: seq<Scope>, c: ScopeId)
    requires WellFormed(s) && Linked(s, r, c)
    ensures WellFormed(r)
  {
    LinkedParents(s, r, c);
    LinkedChildren(s, r, c);
  }

  lemma LinkedParents(s: seq<Scope>, r: seq<Scope>, c: ScopeId)
    requires forall i :: 0 <= i < |s| && s[i].parent.Some? ==>
               s[i].parent.value < i && i in s[s[i].parent.value].children
    requires Linked(s, r, c)
    ensures forall i :: 0 <= i < |r| && r[i].parent.Some? ==>
              r[i].parent.value < i && i in r[r[i].parent.value].children
  {
    forall i | 0 <= i < |r| && r[i].parent.Some?
      ensures r[i].parent.value < i && i in r[r[i].parent.value].children
    {
      if i < |s| {
        var q := s[i].parent.value;
        assert q < i && i in s[q].children;
        KeptChild(s[q].children, r[q].children, i, |s|);
      } else {
        assert r[c].children[|s[c].children|] == |s|;
      }
    }
  }

  /** A child listed before a leaf is added is still listed after. */
  lemma KeptChild(before: seq<ScopeId>, after: seq<ScopeId>, i: ScopeId, leaf: ScopeId)
    requires i in before && (after == before || after == before + [leaf])
    ensures i in after
  {
    if after != before {
      var j :| 0 <= j < |before| && before[j] == i;
      assert after[j] == i;
    }
  }

  lemma LinkedChildren(s: seq<Scope>, r: seq<Scope>, c: ScopeId)
    requires forall i, j :: 0 <= i < |s| && 0 <= j < |s[i].children| ==>
               i < s[i].children[j] < |s| && s[s[i].children[j]].parent == Some(i)
    requires Linked(s, r, c)
    ensures forall i, j :: 0 <= i < |r| && 0 <= j < |r[i].children| ==>
              i < r[i].children[j] < |r| && r[r[i].children[j]].parent == Some(i)
  {
    forall i, j | 0 <= i < |r| && 0 <= j < |r[i].children|
      ensures i < r[i].children[j] < |r| && r[r[i].children[j]].parent == Some(i)
    {
      if i == c && j == |s[c].children| {
      } else if i < |s| {
        assert r[i].children[j] == s[i].children[j];
      }
    }
  }

  lemma AddChildParents(s: seq<Scope>, c: ScopeId)
    requires WellFormed(s) && c < |s|
    ensures forall i :: 0 <= i < |AddChild(s, c)| ==>
              AddChild(s, c)[i].parent == if i < |s| then s[i].parent else Some(c)
  {
  }

  lemma AddChildChildren(s: seq<Scope>, c: ScopeId)
    requires WellFormed(s) && c < |s|
    ensures forall i :: 0 <= i < |AddChild(s, c)| ==>
              AddChild(s, c)[i].children
                == if i == c then s[c].children + [|s|] else if i < |s| then s[i].children else []
  {
  }

  lemma AddChildData(s: seq<Scope>, c: ScopeId)
    requires WellFormed(s) && c < |s|
    ensures |AddChild(s, c)| == |s| + 1
    ensures forall i :: 0 <= i < |s| ==> AddChild(s, c)[i].providers == s[i].providers
    ensures AddChild(s, c)[|s|] == EmptyScope(Some(c), false)
  {
  }

  /** `r` is `s` with one more scope, an empty leaf, added below `c`. */
  ghost predicate GrownBy(s: seq<Scope>, r: seq<Scope>, c: ScopeId)
  {
    && WellFormed(r) && |r| == |s| + 1 && c < |s|
    && (forall i :: 0 <= i < |s| ==> r[i].providers == s[i].providers)
    && (forall i :: 0 <= i < |s| ==>
          r[i].children == if i == c then s[c].children + [|s|] else s[i].children)
    && r[|s|].providers == map[] && r[|s|].children == []
  }

  /** A new child changes no provider lookup anywhere in the tree. */
  lemma AddChildProviders(s: seq<Scope>, c: ScopeId, x: ScopeId, k: Key)
    requires WellFormed(s) && c < |s| && x < |s|
    ensures WellFormed(AddChild(s, c))
    ensures Providers(AddChild(s, c), x, k) == Providers(s, x, k)
  {
    AddChildWellFormed(s, c);
    AddChildChildren(s, c);
    AddChildData(s, c);
    GrownProviders(s, AddChild(s, c), c, x, k);
  }

  lemma {:induction false} GrownProviders(s: seq<Scope>, r: seq<Scope>, c: ScopeId, x: ScopeId, k: Key)
    requires WellFormed(s) && GrownBy(s, r, c) && x < |s|
    ensures Providers(r, x, k) == Providers(s, x, k)
    decreases |s| - x, 1, 0
  {
    GrownChildProviders(s, r, c, x, 0, k);
  }

  lemma {:induction false} GrownChildProviders(s: seq<Scope>, r: seq<Scope>, c: ScopeId, x: ScopeId, i: nat, k: Key)
    requires WellFormed(s) && GrownBy(s, r, c) && x < |s| && i <= |s[x].children|
    ensures i <= |r[x].children|
    ensures ChildProviders(r, x, i, k) == ChildProviders(s, x, i, k)
    decreases |s| - x, 0, |s[x].children| - i
  {
    GrownChildAt(s, r, c, x, i);
    if i == |s[x].children| {
      GrownLastChild(s, r, c, x, k);
    } else {
      GrownProviders(s, r, c, s[x].children[i], k);
      GrownChildProviders(s, r, c, x, i + 1, k);
    }
  }

  lemma GrownChildAt(s: seq<Scope>, r: seq<Scope>, c: ScopeId, x: ScopeId, i: nat)
    requires GrownBy(s, r, c) && x < |s| && i <= |s[x].children|
    ensures i <= |r[x].children|
    ensures i < |s[x].children| ==> r[x].children[i] == s[x].children[i]
  {
  }

  /** After the old children of `x`, only the new empty leaf can follow. */
  lemma GrownLastChild(s: seq<Scope>, r: seq<Scope>, c: ScopeId, x: ScopeId, k: Key)
    requires WellFormed(s) && GrownBy(s, r, c) && x < |s|
    ensures |s[x].children| <= |r[x].children|
    ensures ChildProviders(r, x, |s[x].children|, k) == []
  {
    var i := |s[x].children|;
    if x == c {
      assert r[x].children[i] == |s|;
      assert ChildProviders(r, |s|, 0, k) == [];
      assert Providers(r, |s|, k) == [];
      assert ChildProviders(r, x, i + 1, k) == [];
    }
  }

  // ---------------------------------------------------------------------
  // Data updates of one scope

  /** Presence of `k` at or below `c` depends only on whether each scope
      has `k` present, so an update of `c` that keeps `k`'s presence keeps
      it. */
  lemma PresentAtOrBelowFrame(s: seq<Scope>, s2: seq<Scope>, c: ScopeId, k: Key)
    requires WellFormed(s) && OnlyDataOf(s, s2, c)
    requires k in s2[c].providers <==> k in s[c].providers
    ensures WellFormed(s2)
    ensures PresentAtOrBelow(s2, c, k) == PresentAtOrBelow(s, c, k)
  {
    OnlyDataOfWellFormed(s, s2, c);
    forall j | 0 <= j < |s|
      ensures AncestorOf(s2, c, j) == AncestorOf(s, c, j)
      ensures (k in s2[j].providers) == (k in s[j].providers)
    {
      AncestorOfFrame(s, s2, c, c, j);
    }
  }

  /** Two trees of the same shape whose scopes hold the same list under `k`
      (present or not) give the same lookups of `k`. */
  ghost predicate SameLists(s: seq<Scope>, r: seq<Scope>, k: Key)
  {
    && |r| == |s|
    && (forall i :: 0 <= i < |s| ==> r[i].children == s[i].children)
    && (forall i :: 0 <= i < |s| ==> Get(r[i].providers, k) == Get(s[i].providers, k))
  }

  lemma {:induction false} SameListsProviders(s: seq<Scope>, r: seq<Scope>, x: ScopeId, k: Key)
    requires WellFormed(s) && WellFormed(r) && SameLists(s, r, k) && x < |s|
    ensures Providers(r, x, k) == Providers(s, x, k)
    decreases |s| - x, 1, 0
  {
    SameListsChildProviders(s, r, x, 0, k);
  }

  lemma {:induction false} SameListsChildProviders(s: seq<Scope>, r: seq<Scope>, x: ScopeId, i: nat, k: Key)
    requires WellFormed(s) && WellFormed(r) && SameLists(s, r, k) && x < |s| && i <= |s[x].children|
    ensures i <= |r[x].children|
    ensures ChildProviders(r, x, i, k) == ChildProviders(s, x, i, k)
    decreases |s| - x, 0, |s[x].children| - i
  {
    if i < |s[x].children| {
      SameListsProviders(s, r, s[x].children[i], k);
      SameListsChildProviders(s, r, x, i + 1, k);
    }
  }
}
