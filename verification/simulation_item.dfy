/** The discovery and setup logic that every simulation item of SKIRT inherits
    (SKIRT/core/SimulationItem.cpp): the run-once setup walk over the item tree, the search for an
    item of a requested type among the ancestors and their children, and the search for an item
    implementing a requested interface along the ancestor chain.

    The item tree is an arena: items are numbered 0, 1, 2, ... with a parent numbered before its
    children, so that every walk up the parent links ends at the root. A C++ `dynamic_cast` becomes
    a per-item flag or a predicate on item numbers. */
module SimulationItem {
  import opened Common

  //============= The item tree =============

  /** The tree of items. `children` and `parent` are Item::children() and Item::parent() (-1 for the
      root); `isSimulationItem` tells whether an item is a SimulationItem. The overridable hooks
      setupSelfBefore and setupSelfAfter of an item may ask for the setup of other items (through
      find or interface with setup set); `beforeRequests` and `afterRequests` list those items. */
  datatype Tree = Tree(children: seq<seq<nat>>, parent: seq<int>, isSimulationItem: seq<bool>,
                       beforeRequests: seq<seq<nat>>, afterRequests: seq<seq<nat>>)

  predicate AllBelow(lists: seq<seq<nat>>, n: nat) {
    forall i, k :: 0 <= i < |lists| && 0 <= k < |lists[i]| ==> lists[i][k] < n
  }

  predicate RequestsSimulationItems(lists: seq<seq<nat>>, isSimulationItem: seq<bool>)
    requires AllBelow(lists, |isSimulationItem|)
  {
    forall i, k :: 0 <= i < |lists| && 0 <= k < |lists[i]| ==> isSimulationItem[lists[i][k]]
  }

  predicate WellFormed(tr: Tree) {
    var n := |tr.children|;
    && |tr.parent| == n && |tr.isSimulationItem| == n
    && |tr.beforeRequests| == n && |tr.afterRequests| == n
    && (forall i :: 0 <= i < n ==> -1 <= tr.parent[i] < i)
    && AllBelow(tr.children, n) && AllBelow(tr.beforeRequests, n) && AllBelow(tr.afterRequests, n)
    && RequestsSimulationItems(tr.beforeRequests, tr.isSimulationItem)
    && RequestsSimulationItems(tr.afterRequests, tr.isSimulationItem)
  }

  /** The children of an item are exactly the items whose parent it is. */
  predicate Linked(tr: Tree)
    requires WellFormed(tr)
  {
    forall i :: 0 <= i < |tr.children| ==>
      (set x | x in tr.children[i]) == (set j | 0 <= j < |tr.children| && tr.parent[j] == i)
  }

  //============= Setup =============

  /** A hook of an item being entered, in the order the hooks run. */
  datatype Hook = SelfBefore(item: nat) | SelfAfter(item: nat)

  /** The number of items whose setup has started. */
  function CountStarted(st: seq<bool>): (n: nat)
    ensures n <= |st|
  {
    if st == [] then 0 else CountStarted(st[..|st| - 1]) + if st[|st| - 1] then 1 else 0
  }

  lemma {:induction false} StartOne(st: seq<bool>, i: nat)
    requires i < |st| && !st[i]
    ensures CountStarted(st[i := true]) == CountStarted(st) + 1
  {
    var last := |st| - 1;
    if i == last {
      assert st[i := true][..last] == st[..last];
    } else {
      assert st[i := true][..last] == st[..last][i := true];
      StartOne(st[..last], i);
    }
  }

  /** The flags only ever go from false to true. */
  predicate Grows(st: seq<bool>, st': seq<bool>) {
    |st'| == |st| && forall j :: 0 <= j < |st| && st[j] ==> st'[j]
  }

  /** setup() of item `i` (SimulationItem.cpp:11-23) given the setup-started flags `st`: the hooks
      that run, in order, and the flags afterwards. The flag is raised before anything else, so a
      setup that is requested again while it is under way does nothing. */
  function SetupRun(tr: Tree, st: seq<bool>, i: nat): (r: (seq<Hook>, seq<bool>))
    requires WellFormed(tr) && |st| == |tr.children| && i < |st|
    ensures Grows(st, r.1) && CountStarted(r.1) >= CountStarted(st) && r.1[i]
    decreases |st| - CountStarted(st), 0, 0
  {
    if st[i] then ([], st)
    else
      var st1 := st[i := true];
      StartOne(st, i);
      var r1 := EachRun(tr, st1, tr.beforeRequests[i], 0);
      var r2 := EachRun(tr, r1.1, tr.children[i], 0);
      var r3 := EachRun(tr, r2.1, tr.afterRequests[i], 0);
      ([SelfBefore(i)] + r1.0 + r2.0 + [SelfAfter(i)] + r3.0, r3.1)
  }

  /** setup() of each simulation item among `items[k..]`, in order; other items are skipped. */
  function EachRun(tr: Tree, st: seq<bool>, items: seq<nat>, k: nat): (r: (seq<Hook>, seq<bool>))
    requires WellFormed(tr) && |st| == |tr.children| && k <= |items|
    requires forall j :: 0 <= j < |items| ==> items[j] < |st|
    ensures Grows(st, r.1) && CountStarted(r.1) >= CountStarted(st)
    decreases |st| - CountStarted(st), 1, |items| - k
  {
    if k == |items| then ([], st)
    else if !tr.isSimulationItem[items[k]] then EachRun(tr, st, items, k + 1)
    else
      var r1 := SetupRun(tr, st, items[k]);
      var r2 := EachRun(tr, r1.1, items, k + 1);
      (r1.0 + r2.0, r2.1)
  }

  /** One iteration of the loop over the children, at a simulation item. */
  lemma EachRunStep(tr: Tree, st: seq<bool>, items: seq<nat>, k: nat)
    requires WellFormed(tr) && |st| == |tr.children| && k < |items|
    requires forall j :: 0 <= j < |items| ==> items[j] < |st|
    requires tr.isSimulationItem[items[k]]
    ensures var r1 := SetupRun(tr, st, items[k]);
            EachRun(tr, st, items, k) == (r1.0 + EachRun(tr, r1.1, items, k + 1).0, EachRun(tr, r1.1, items, k + 1).1)
  {
  }

  /** The hooks `m` are exactly two per item started between `st` and `st'`: its SelfBefore and its
      SelfAfter, each once. */
  predicate Covers(m: multiset<Hook>, st: seq<bool>, st': seq<bool>)
    requires |st'| == |st|
  {
    && (forall h :: h in m ==> h.item < |st| && !st[h.item] && st'[h.item] && m[h] == 1)
    && (forall j :: 0 <= j < |st| && !st[j] && st'[j] ==> SelfBefore(j) in m && SelfAfter(j) in m)
  }

  lemma CoversAppend(a: multiset<Hook>, b: multiset<Hook>, s0: seq<bool>, s1: seq<bool>, s2: seq<bool>)
    requires Grows(s0, s1) && Grows(s1, s2) && Covers(a, s0, s1) && Covers(b, s1, s2)
    ensures Covers(a + b, s0, s2)
  {
    forall h | h in a + b
      ensures h.item < |s0| && !s0[h.item] && s2[h.item] && (a + b)[h] == 1
    {
      if h in a {
        assert h !in b;
      }
    }
  }

  /** Setting up an item runs the two hooks of every item it starts, each exactly once, and no hook
      of any item that had started before. */
  lemma {:induction false} SetupRunCovers(tr: Tree, st: seq<bool>, i: nat)
    requires WellFormed(tr) && |st| == |tr.children| && i < |st|
    ensures Covers(multiset(SetupRun(tr, st, i).0), st, SetupRun(tr, st, i).1)
    decreases |st| - CountStarted(st), 0, 0
  {
    if !st[i] {
      var st1 := st[i := true];
      StartOne(st, i);
      var r1 := EachRun(tr, st1, tr.beforeRequests[i], 0);
      var r2 := EachRun(tr, r1.1, tr.children[i], 0);
      var r3 := EachRun(tr, r2.1, tr.afterRequests[i], 0);
      EachRunCovers(tr, st1, tr.beforeRequests[i], 0);
      EachRunCovers(tr, r1.1, tr.children[i], 0);
      EachRunCovers(tr, r2.1, tr.afterRequests[i], 0);
      assert SetupRun(tr, st, i) == ([SelfBefore(i)] + r1.0 + r2.0 + [SelfAfter(i)] + r3.0, r3.1);
      SetupCovers(i, st, st1, r1.0, r1.1, r2.0, r2.1, r3.0, r3.1);
    }
  }

  /** The hooks of a setup that starts item `i`: its own two hooks and those of the three loops. */
  lemma SetupCovers(i: nat, st: seq<bool>, st1: seq<bool>, t1: seq<Hook>, st2: seq<bool>, t2: seq<Hook>,
                    st3: seq<bool>, t3: seq<Hook>, st4: seq<bool>)
    requires i < |st| && !st[i] && st1 == st[i := true]
    requires Grows(st1, st2) && Grows(st2, st3) && Grows(st3, st4)
    requires Covers(multiset(t1), st1, st2) && Covers(multiset(t2), st2, st3) && Covers(multiset(t3), st3, st4)
    ensures Covers(multiset([SelfBefore(i)] + t1 + t2 + [SelfAfter(i)] + t3), st, st4)
  {
    var own := multiset{SelfBefore(i), SelfAfter(i)};
    CoversOwn(i, st, st1);
    CoversAppend(own, multiset(t1), st, st1, st2);
    CoversAppend(own + multiset(t1), multiset(t2), st, st2, st3);
    CoversAppend(own + multiset(t1) + multiset(t2), multiset(t3), st, st3, st4);
    SetupTraceMultiset(i, t1, t2, t3);
  }

  lemma CoversOwn(i: nat, st: seq<bool>, st1: seq<bool>)
    requires i < |st| && !st[i] && st1 == st[i := true]
    ensures Covers(multiset{SelfBefore(i), SelfAfter(i)}, st, st1)
  {
  }

  lemma SetupTraceMultiset(i: nat, t1: seq<Hook>, t2: seq<Hook>, t3: seq<Hook>)
    ensures multiset([SelfBefore(i)] + t1 + t2 + [SelfAfter(i)] + t3)
            == multiset{SelfBefore(i), SelfAfter(i)} + multiset(t1) + multiset(t2) + multiset(t3)
  {
  }

  lemma {:induction false} EachRunCovers(tr: Tree, st: seq<bool>, items: seq<nat>, k: nat)
    requires WellFormed(tr) && |st| == |tr.children| && k <= |items|
    requires forall j :: 0 <= j < |items| ==> items[j] < |st|
    ensures Covers(multiset(EachRun(tr, st, items, k).0), st, EachRun(tr, st, items, k).1)
    decreases |st| - CountStarted(st), 1, |items| - k
  {
    if k == |items| {
    } else if !tr.isSimulationItem[items[k]] {
      EachRunCovers(tr, st, items, k + 1);
    } else {
      var (t1, st1) := SetupRun(tr, st, items[k]);
      var (t2, st2) := EachRun(tr, st1, items, k + 1);
      SetupRunCovers(tr, st, items[k]);
      EachRunCovers(tr, st1, items, k + 1);
      CoversAppend(multiset(t1), multiset(t2), st, st1, st2);
    }
  }

  /** Run once: every hook of every item runs at most once per setup call, exactly for the items
      whose setup the call starts; an item whose setup had started runs no hook again. */
  lemma SetupRunsHooksOnce(tr: Tree, st: seq<bool>, i: nat, j: nat)
    requires WellFormed(tr) && |st| == |tr.children| && i < |st| && j < |st|
    ensures var (t, st') := SetupRun(tr, st, i);
            && multiset(t)[SelfBefore(j)] == (if !st[j] && st'[j] then 1 else 0)
            && multiset(t)[SelfAfter(j)] == (if !st[j] && st'[j] then 1 else 0)
  {
    SetupRunCovers(tr, st, i);
  }

  /** A second setup, of the same item or of any item the first one started, does nothing. */
  lemma SetupIdempotent(tr: Tree, st: seq<bool>, i: nat, j: nat)
    requires WellFormed(tr) && |st| == |tr.children| && i < |st| && j < |st|
    requires var st' := SetupRun(tr, st, i).1; j == i || (!st[j] && st'[j])
    ensures var st' := SetupRun(tr, st, i).1; SetupRun(tr, st', j) == ([], st')
  {
  }

  /** Setting up an item runs its SelfBefore hook first, then exactly the hooks of the items that
      the setups requested by SelfBefore and those of its children start (flags `st1` to `r2.1`),
      then its SelfAfter hook, then exactly the hooks of the items that the setups requested by
      SelfAfter start; no other hook of the item runs, and nothing follows SelfAfter exactly when
      every item SelfAfter requests has started by then. */
  lemma SetupBrackets(tr: Tree, st: seq<bool>, i: nat)
    requires WellFormed(tr) && |st| == |tr.children| && i < |st| && !st[i]
    ensures var st1 := st[i := true];
            var r1 := EachRun(tr, st1, tr.beforeRequests[i], 0);
            var r2 := EachRun(tr, r1.1, tr.children[i], 0);
            var r3 := EachRun(tr, r2.1, tr.afterRequests[i], 0);
            var middle := r1.0 + r2.0;
            && SetupRun(tr, st, i) == ([SelfBefore(i)] + r1.0 + r2.0 + [SelfAfter(i)] + r3.0, r3.1)
            && Covers(multiset(middle), st1, r2.1) && Covers(multiset(r3.0), r2.1, r3.1)
            && (forall h :: h in middle + r3.0 ==> h.item != i)
            && (r3.0 == [] <==> forall x :: x in tr.afterRequests[i] ==> r2.1[x])
  {
    var st1 := st[i := true];
    StartOne(st, i);
    var r1 := EachRun(tr, st1, tr.beforeRequests[i], 0);
    var r2 := EachRun(tr, r1.1, tr.children[i], 0);
    var r3 := EachRun(tr, r2.1, tr.afterRequests[i], 0);
    SetupUnfold(tr, st, i);
    EachRunCovers(tr, st1, tr.beforeRequests[i], 0);
    EachRunCovers(tr, r1.1, tr.children[i], 0);
    EachRunCovers(tr, r2.1, tr.afterRequests[i], 0);
    CoversAppend(multiset(r1.0), multiset(r2.0), st1, r1.1, r2.1);
    assert multiset(r1.0 + r2.0) == multiset(r1.0) + multiset(r2.0);
    NoHookOf(i, r1.0 + r2.0, r3.0, st1, r2.1, r3.1);
    AfterRequestsRunLast(tr, r2.1, tr.afterRequests[i]);
  }

  /** The hooks of items started after item `i` include none of `i`. */
  lemma NoHookOf(i: nat, m: seq<Hook>, m': seq<Hook>, st1: seq<bool>, st2: seq<bool>, st3: seq<bool>)
    requires i < |st1| && st1[i] && Grows(st1, st2) && Grows(st2, st3)
    requires Covers(multiset(m), st1, st2) && Covers(multiset(m'), st2, st3)
    ensures forall h :: h in m + m' ==> h.item != i
  {
    forall h | h in m + m'
      ensures h.item != i
    {
      if h in m {
        assert h in multiset(m);
      } else {
        assert h in multiset(m');
      }
    }
  }

  /** One unfolding of SetupRun at an item whose setup has not started. */
  lemma SetupUnfold(tr: Tree, st: seq<bool>, i: nat)
    requires WellFormed(tr) && |st| == |tr.children| && i < |st| && !st[i]
    ensures var st1 := st[i := true];
            var r1 := EachRun(tr, st1, tr.beforeRequests[i], 0);
            var r2 := EachRun(tr, r1.1, tr.children[i], 0);
            var r3 := EachRun(tr, r2.1, tr.afterRequests[i], 0);
            SetupRun(tr, st, i) == ([SelfBefore(i)] + r1.0 + r2.0 + [SelfAfter(i)] + r3.0, r3.1)
  {
  }

  /** The loop over the requests of SelfAfter runs no hook exactly when all of them have started. */
  lemma AfterRequestsRunLast(tr: Tree, st: seq<bool>, items: seq<nat>)
    requires WellFormed(tr) && |st| == |tr.children|
    requires forall j :: 0 <= j < |items| ==> items[j] < |st| && tr.isSimulationItem[items[j]]
    ensures EachRun(tr, st, items, 0).0 == [] <==> forall x :: x in items ==> st[x]
  {
    if forall x :: x in items ==> st[x] {
      EachRunAllStarted(tr, st, items, 0);
    } else {
      var x :| x in items && !st[x];
      var j :| 0 <= j < |items| && items[j] == x;
      EachRunStarts(tr, st, items, 0);
      EachRunCovers(tr, st, items, 0);
      assert SelfBefore(x) in multiset(EachRun(tr, st, items, 0).0);
    }
  }

  /** A loop over items that have all started runs nothing and changes nothing. */
  lemma {:induction false} EachRunAllStarted(tr: Tree, st: seq<bool>, items: seq<nat>, k: nat)
    requires WellFormed(tr) && |st| == |tr.children| && k <= |items|
    requires forall j :: 0 <= j < |items| ==> items[j] < |st| && st[items[j]]
    ensures EachRun(tr, st, items, k) == ([], st)
    decreases |items| - k
  {
    if k < |items| {
      EachRunAllStarted(tr, st, items, k + 1);
      if tr.isSimulationItem[items[k]] {
        assert SetupRun(tr, st, items[k]) == ([], st);
        assert EachRun(tr, st, items, k).0 == [] + [];
      }
    }
  }

  /** A loop over items leaves every simulation item among them started. */
  lemma {:induction false} EachRunStarts(tr: Tree, st: seq<bool>, items: seq<nat>, k: nat)
    requires WellFormed(tr) && |st| == |tr.children| && k <= |items|
    requires forall j :: 0 <= j < |items| ==> items[j] < |st|
    ensures forall j :: k <= j < |items| && tr.isSimulationItem[items[j]] ==> EachRun(tr, st, items, k).1[items[j]]
    decreases |items| - k
  {
    if k < |items| {
      if !tr.isSimulationItem[items[k]] {
        EachRunStarts(tr, st, items, k + 1);
      } else {
        var r1 := SetupRun(tr, st, items[k]);
        EachRunStarts(tr, r1.1, items, k + 1);
      }
    }
  }

  //============= Searching the tree =============

  /** The position of the first element of `xs` that satisfies `p`, or |xs| when there is none. */
  function FirstIndex(xs: seq<nat>, p: nat -> bool): (k: nat)
    ensures k <= |xs|
    ensures forall j :: 0 <= j < k ==> !p(xs[j])
    ensures k < |xs| ==> p(xs[k])
  {
    if xs == [] then 0 else if p(xs[0]) then 0 else 1 + FirstIndex(xs[1..], p)
  }

  /** The first position satisfying `p` is determined by where `p` first holds. */
  lemma FirstIndexIs(xs: seq<nat>, p: nat -> bool, k: nat)
    requires k <= |xs| && (forall j :: 0 <= j < k ==> !p(xs[j])) && (k < |xs| ==> p(xs[k]))
    ensures FirstIndex(xs, p) == k
  {
  }

  /** The first element of `xs` that satisfies `p`, if any. */
  function FirstMatch(xs: seq<nat>, p: nat -> bool): (r: Option<nat>)
    ensures r.Some? ==> r.value in xs && p(r.value)
    ensures r.None? <==> forall j :: 0 <= j < |xs| ==> !p(xs[j])
  {
    var k := FirstIndex(xs, p);
    if k < |xs| then Some(xs[k]) else None
  }

  /** interfaceCandidates() (SimulationItem.cpp:107-114): the item, its parent, its parent's
      parent, and so on up to the root. */
  function InterfaceCandidates(tr: Tree, a: nat): (c: seq<nat>)
    requires WellFormed(tr) && a < |tr.children|
    ensures forall k :: 0 <= k < |c| ==> c[k] < |tr.children|
    ensures |c| >= 1 && c[0] == a && tr.parent[c[|c| - 1]] == -1
    ensures forall k :: 0 <= k < |c| - 1 ==> c[k + 1] == tr.parent[c[k]]
    ensures |c| == Depth(tr, a) + 1
    decreases a
  {
    if tr.parent[a] < 0 then [a] else [a] + InterfaceCandidates(tr, tr.parent[a])
  }

  /** The number of parent links from `a` up to the root. */
  function Depth(tr: Tree, a: nat): nat
    requires WellFormed(tr) && a < |tr.children|
    decreases a
  {
    if tr.parent[a] < 0 then 0 else 1 + Depth(tr, tr.parent[a])
  }

  /** The chain holds every ancestor exactly once: its items strictly decrease. */
  lemma {:induction false} CandidatesDescend(tr: Tree, a: nat)
    requires WellFormed(tr) && a < |tr.children|
    ensures Descending(InterfaceCandidates(tr, a))
    decreases a
  {
    if tr.parent[a] >= 0 {
      var b := tr.parent[a];
      var rest := InterfaceCandidates(tr, b);
      CandidatesDescend(tr, b);
      var c := InterfaceCandidates(tr, a);
      assert c == [a] + rest;
      forall k, l | 0 <= k < l < |c|
        ensures c[l] < c[k]
      {
        assert c[l] == rest[l - 1];
        if k > 0 {
          assert c[k] == rest[k - 1];
        } else if l > 1 {
          assert rest[0] == b && 0 < l - 1 < |rest|;
          assert rest[l - 1] < rest[0];
        }
      }
    }
  }

  predicate Descending(c: seq<nat>) {
    forall k, l :: 0 <= k < l < |c| ==> c[l] < c[k]
  }

  /** The order in which find() tests items (SimulationItem.cpp:58-83): an ancestor (starting with
      the item itself), then that ancestor's children in order, then the next ancestor. */
  function SearchOrder(tr: Tree, a: nat): (order: seq<nat>)
    requires WellFormed(tr) && a < |tr.children|
    ensures forall x :: x in order ==> x < |tr.children|
    decreases a
  {
    [a] + tr.children[a] + if tr.parent[a] < 0 then [] else SearchOrder(tr, tr.parent[a])
  }

  /** find() tests the item first, then its children in order, and reaches its parent. */
  lemma SearchOrderStarts(tr: Tree, a: nat)
    requires WellFormed(tr) && a < |tr.children|
    ensures var order := SearchOrder(tr, a);
            && |order| > |tr.children[a]| && order[0] == a && order[1..|tr.children[a]| + 1] == tr.children[a]
            && (tr.parent[a] >= 0 ==> tr.parent[a] in order)
  {
    var order := SearchOrder(tr, a);
    var head := [a] + tr.children[a];
    if tr.parent[a] >= 0 {
      assert SearchOrder(tr, tr.parent[a])[0] == tr.parent[a];
      assert order[|head|] == tr.parent[a];
    }
  }

  /** `x` is one of the items `c` or a child of one of them. */
  predicate InFamily(tr: Tree, c: seq<nat>, x: nat)
    requires forall k :: 0 <= k < |c| ==> c[k] < |tr.children|
  {
    exists k :: 0 <= k < |c| && (x == c[k] || x in tr.children[c[k]])
  }

  lemma InFamilyCons(tr: Tree, a: nat, c: seq<nat>, x: nat)
    requires a < |tr.children| && forall k :: 0 <= k < |c| ==> c[k] < |tr.children|
    ensures InFamily(tr, [a] + c, x) <==> x == a || x in tr.children[a] || InFamily(tr, c, x)
  {
    var ac := [a] + c;
    if InFamily(tr, c, x) {
      var k :| 0 <= k < |c| && (x == c[k] || x in tr.children[c[k]]);
      assert ac[k + 1] == c[k];
    }
    if InFamily(tr, ac, x) {
      var k :| 0 <= k < |ac| && (x == ac[k] || x in tr.children[ac[k]]);
      if k > 0 {
        assert ac[k] == c[k - 1];
      }
    }
    if x == a || x in tr.children[a] {
      assert ac[0] == a;
    }
  }

  /** The items find() looks at are exactly the interface candidates and their children. */
  lemma {:induction false} SearchOrderCovers(tr: Tree, a: nat, x: nat)
    requires WellFormed(tr) && a < |tr.children|
    ensures x in SearchOrder(tr, a) <==> InFamily(tr, InterfaceCandidates(tr, a), x)
    decreases a
  {
    if tr.parent[a] >= 0 {
      var b := tr.parent[a];
      SearchOrderCovers(tr, b, x);
      assert InterfaceCandidates(tr, a) == [a] + InterfaceCandidates(tr, b);
      InFamilyCons(tr, a, InterfaceCandidates(tr, b), x);
    } else {
      InFamilyCons(tr, a, [], x);
      assert InterfaceCandidates(tr, a) == [a] + [];
    }
  }

  /** The item find() returns when asked for items satisfying `wanted`, if any. */
  function Search(tr: Tree, a: nat, wanted: nat -> bool): Option<nat>
    requires WellFormed(tr) && a < |tr.children|
  {
    FirstMatch(SearchOrder(tr, a), wanted)
  }

  /** find() returns an item of the family of `a` that the cast accepts, and returns nothing only
      when no item of that family is accepted. */
  lemma SearchFindsInFamily(tr: Tree, a: nat, wanted: nat -> bool)
    requires WellFormed(tr) && a < |tr.children|
    ensures var r := Search(tr, a, wanted);
            r.Some? ==> wanted(r.value) && InFamily(tr, InterfaceCandidates(tr, a), r.value)
    ensures Search(tr, a, wanted).None? <==> forall x :: InFamily(tr, InterfaceCandidates(tr, a), x) ==> !wanted(x)
  {
    SearchOrderCoversAll(tr, a);
  }

  lemma SearchOrderCoversAll(tr: Tree, a: nat)
    requires WellFormed(tr) && a < |tr.children|
    ensures forall x :: x in SearchOrder(tr, a) <==> InFamily(tr, InterfaceCandidates(tr, a), x)
  {
    forall x {
      SearchOrderCovers(tr, a, x);
    }
  }

  /** find() prefers the item itself, then its children in order, then the wider family. */
  lemma SearchPrefersNearest(tr: Tree, a: nat, wanted: nat -> bool)
    requires WellFormed(tr) && a < |tr.children|
    ensures wanted(a) ==> Search(tr, a, wanted) == Some(a)
    ensures forall k :: 0 <= k < |tr.children[a]| && !wanted(a) && wanted(tr.children[a][k])
                        && (forall j :: 0 <= j < k ==> !wanted(tr.children[a][j]))
                        ==> Search(tr, a, wanted) == Some(tr.children[a][k])
  {
    var order := SearchOrder(tr, a);
    if wanted(a) {
      FirstIndexIs(order, wanted, 0);
    }
    forall k | 0 <= k < |tr.children[a]| && !wanted(a) && wanted(tr.children[a][k])
               && (forall j :: 0 <= j < k ==> !wanted(tr.children[a][j]))
      ensures Search(tr, a, wanted) == Some(tr.children[a][k])
    {
      SearchAtChild(tr, a, wanted, k);
    }
  }

  lemma SearchAtChild(tr: Tree, a: nat, wanted: nat -> bool, k: nat)
    requires WellFormed(tr) && a < |tr.children| && k < |tr.children[a]|
    requires !wanted(a) && wanted(tr.children[a][k]) && forall j :: 0 <= j < k ==> !wanted(tr.children[a][j])
    ensures Search(tr, a, wanted) == Some(tr.children[a][k])
  {
    var order := SearchOrder(tr, a);
    assert order[k + 1] == tr.children[a][k];
    forall j | 0 <= j < k + 1
      ensures !wanted(order[j])
    {
      if j > 0 {
        assert order[j] == tr.children[a][j - 1];
      }
    }
    FirstIndexIs(order, wanted, k + 1);
  }

  /** Past an ancestor and its children that do not match, find() goes on with the parent. */
  lemma SearchSkips(tr: Tree, a: nat, wanted: nat -> bool)
    requires WellFormed(tr) && a < |tr.children|
    requires !wanted(a) && forall j :: 0 <= j < |tr.children[a]| ==> !wanted(tr.children[a][j])
    ensures Search(tr, a, wanted) == if tr.parent[a] < 0 then None else Search(tr, tr.parent[a], wanted)
  {
    var order := SearchOrder(tr, a);
    var head := [a] + tr.children[a];
    var rest := if tr.parent[a] < 0 then [] else SearchOrder(tr, tr.parent[a]);
    assert order == head + rest;
    var f := FirstIndex(rest, wanted);
    forall j | 0 <= j < |head| + f
      ensures !wanted(order[j])
    {
      if j == 0 {
      } else if j < |head| {
        assert order[j] == tr.children[a][j - 1];
      } else {
        assert order[j] == rest[j - |head|];
      }
    }
    if f < |rest| {
      assert order[|head| + f] == rest[f];
    }
    FirstIndexIs(order, wanted, |head| + f);
  }

  /** The item interface() returns when asked for items satisfying `implements`, if any. */
  function InterfaceSearch(tr: Tree, a: nat, implements: nat -> bool): (r: Option<nat>)
    requires WellFormed(tr) && a < |tr.children|
    ensures r.Some? ==> implements(r.value) && r.value in InterfaceCandidates(tr, a)
    ensures r.None? <==> forall x :: x in InterfaceCandidates(tr, a) ==> !implements(x)
  {
    FirstMatch(InterfaceCandidates(tr, a), implements)
  }

  /** interface() returns the nearest ancestor-or-self that implements the interface: every item
      between the item and the one found does not. */
  lemma InterfaceFindsNearest(tr: Tree, a: nat, implements: nat -> bool)
    requires WellFormed(tr) && a < |tr.children|
    ensures var c := InterfaceCandidates(tr, a);
            InterfaceSearch(tr, a, implements) == None <==> forall k :: 0 <= k < |c| ==> !implements(c[k])
    ensures var c := InterfaceCandidates(tr, a);
            forall k :: 0 <= k < |c| && implements(c[k]) && (forall j :: 0 <= j < k ==> !implements(c[j]))
                        ==> InterfaceSearch(tr, a, implements) == Some(c[k])
  {
    FirstMatchNearest(InterfaceCandidates(tr, a), implements);
  }

  /** The first match is the element at the first position where `p` holds. */
  lemma FirstMatchNearest(xs: seq<nat>, p: nat -> bool)
    ensures FirstMatch(xs, p) == None <==> forall k :: 0 <= k < |xs| ==> !p(xs[k])
    ensures forall k :: 0 <= k < |xs| && p(xs[k]) && (forall j :: 0 <= j < k ==> !p(xs[j]))
                        ==> FirstMatch(xs, p) == Some(xs[k])
  {
    forall k | 0 <= k < |xs| && p(xs[k]) && (forall j :: 0 <= j < k ==> !p(xs[j]))
      ensures FirstMatch(xs, p) == Some(xs[k])
    {
      FirstIndexIs(xs, p, k);
    }
  }

  //============= Names =============

  /** itemName() of a simulation item that does not override it (SimulationItem.cpp:49-52). */
  const DefaultItemName: string := ""

  /** typeAndName() (SimulationItem.cpp:39-45): the type, followed by a space and the name when the
      item has one. */
  function TypeAndName(typeName: string, name: string): (r: string)
    ensures name == [] ==> r == typeName
    ensures name != [] ==> |r| == |typeName| + 1 + |name| && r[..|typeName|] == typeName
                           && r[|typeName|] == ' ' && r[|typeName| + 1..] == name
  {
    if name == [] then typeName else typeName + " " + name
  }

  /** The position of the first space in `s`, or |s|. */
  function FirstSpace(s: string): (k: nat)
    ensures k <= |s| && (k < |s| ==> s[k] == ' ') && forall j :: 0 <= j < k ==> s[j] != ' '
  {
    if s == [] || s[0] == ' ' then 0 else 1 + FirstSpace(s[1..])
  }

  /** The type and the name read back from the text typeAndName() writes. */
  function SplitTypeAndName(s: string): (string, string)
  {
    var k := FirstSpace(s);
    if k == |s| then (s, "") else (s[..k], s[k + 1..])
  }

  /** Type names contain no space, so the text typeAndName() writes determines the type and the
      name; an item with the default name shows its type alone. */
  lemma TypeAndNameRoundTrip(typeName: string, name: string)
    requires ' ' !in typeName
    ensures SplitTypeAndName(TypeAndName(typeName, name)) == (typeName, name)
    ensures TypeAndName(typeName, DefaultItemName) == typeName
  {
    var s := TypeAndName(typeName, name);
    var n := |typeName|;
    assert forall j :: 0 <= j < n ==> s[j] == typeName[j];
    if name != [] {
      assert s[n] == ' ';
      FirstSpaceIs(s, n);
      assert s[..n] == typeName && s[n + 1..] == name;
    } else {
      FirstSpaceIs(s, n);
    }
  }

  lemma FirstSpaceIs(s: string, k: nat)
    requires k <= |s| && (k < |s| ==> s[k] == ' ') && forall j :: 0 <= j < k ==> s[j] != ' '
    ensures FirstSpace(s) == k
  {
  }

  //============= The mutable hierarchy =============

  datatype Error = NoItemOfRequestedType | NoItemImplementingInterface

  /** The items of a simulation with their setup-started flags (_setupStarted) and the record of the
      hooks run so far. */
  class Hierarchy {
    const tree: Tree
    var started: seq<bool>
    var trace: seq<Hook>

    predicate Valid()
      reads this
    {
      WellFormed(tree) && Linked(tree) && |started| == |tree.children|
    }

    /** A freshly built hierarchy: no setup has started. */
    constructor (tr: Tree)
      requires WellFormed(tr) && Linked(tr)
      ensures Valid() && tree == tr && trace == []
      ensures |started| == |tr.children| && forall j :: 0 <= j < |started| ==> !started[j]
    {
      tree := tr;
      started := seq(|tr.children|, _ => false);
      trace := [];
    }

    /** setup() (SimulationItem.cpp:11-23). */
    method Setup(i: nat)
      requires Valid() && i < |started|
      modifies this`started, this`trace
      ensures Valid()
      ensures var (t, st) := SetupRun(tree, old(started), i); trace == old(trace) + t && started == st
      decreases |started| - CountStarted(started), 0, 0
    {
      if started[i] {
        return;
      }
      StartOne(started, i);
      started := started[i := true];
      SetupSelfBefore(i);
      ghost var t1 := trace[|old(trace)| + 1..];
      SetupEach(tree.children[i]);
      ghost var t2 := trace[|old(trace)| + 1 + |t1|..];
      SetupSelfAfter(i);
      ghost var t3 := trace[|old(trace)| + 2 + |t1| + |t2|..];
      SetupTraceJoin(old(trace), i, t1, t2, t3);
    }

    /** setupSelfBefore() of item `i`: the hook runs, with the setups it requests. */
    method SetupSelfBefore(i: nat)
      requires Valid() && i < |started|
      modifies this`started, this`trace
      ensures Valid()
      ensures var (t, st) := EachRun(tree, old(started), tree.beforeRequests[i], 0);
              trace == old(trace) + [SelfBefore(i)] + t && started == st
      decreases |started| - CountStarted(started), 2, 0
    {
      trace := trace + [SelfBefore(i)];
      SetupEach(tree.beforeRequests[i]);
    }

    /** setupSelfAfter() of item `i`: the hook runs, with the setups it requests. */
    method SetupSelfAfter(i: nat)
      requires Valid() && i < |started|
      modifies this`started, this`trace
      ensures Valid()
      ensures var (t, st) := EachRun(tree, old(started), tree.afterRequests[i], 0);
              trace == old(trace) + [SelfAfter(i)] + t && started == st
      decreases |started| - CountStarted(started), 2, 0
    {
      trace := trace + [SelfAfter(i)];
      SetupEach(tree.afterRequests[i]);
    }

    /** The loop over the children in setup(): each SimulationItem among `items` is set up. */
    method SetupEach(items: seq<nat>)
      requires Valid() && forall j :: 0 <= j < |items| ==> items[j] < |started|
      modifies this`started, this`trace
      ensures Valid()
      ensures var (t, st) := EachRun(tree, old(started), items, 0); trace == old(trace) + t && started == st
      decreases |started| - CountStarted(started), 1, |items| + 1
    {
      ghost var all := EachRun(tree, old(started), items, 0);
      var k := 0;
      while k < |items|
        invariant k <= |items| && Valid()
        invariant CountStarted(started) >= CountStarted(old(started))
        invariant old(trace) + all.0 == trace + EachRun(tree, started, items, k).0
        invariant all.1 == EachRun(tree, started, items, k).1
      {
        SetupEachStep(items, k);
        k := k + 1;
      }
    }

    /** One iteration of the loop over the children: `items[k]` is set up if it is a SimulationItem. */
    method SetupEachStep(items: seq<nat>, k: nat)
      requires Valid() && k < |items| && forall j :: 0 <= j < |items| ==> items[j] < |started|
      modifies this`started, this`trace
      ensures Valid() && CountStarted(started) >= CountStarted(old(started))
      ensures trace + EachRun(tree, started, items, k + 1).0 == old(trace) + EachRun(tree, old(started), items, k).0
      ensures EachRun(tree, started, items, k + 1).1 == EachRun(tree, old(started), items, k).1
      decreases |started| - CountStarted(started), 1, |items| - k
    {
      if tree.isSimulationItem[items[k]] {
        Setup(items[k]);
        EachRunStep(tree, old(started), items, k);
        AppendAssociates(old(trace), SetupRun(tree, old(started), items[k]).0, EachRun(tree, started, items, k + 1).0);
      }
    }

    /** A candidate that was found is set up first when `setup` is set, then returned
        (SimulationItem.cpp:66-67, 76-77, 97-98). */
    method Provide(candidate: nat, setup: bool) returns (r: Result<Option<nat>, Error>)
      requires Valid() && candidate < |started|
      modifies this`started, this`trace
      ensures Valid() && r == Ok(Some(candidate))
      ensures if setup then (trace, started) == (old(trace) + SetupRun(tree, old(started), candidate).0,
                                                 SetupRun(tree, old(started), candidate).1)
              else started == old(started) && trace == old(trace)
    {
      if setup {
        Setup(candidate);
      }
      return Ok(Some(candidate));
    }

    /** The search loop of find() (SimulationItem.cpp:58-83): the item itself, then its children
        in order, then the same for each ancestor in turn. */
    method Locate(self: nat, wanted: nat -> bool) returns (found: Option<nat>)
      requires Valid() && self < |started|
      ensures found == Search(tree, self, wanted)
      ensures found.Some? ==> found.value < |started|
    {
      found := None;
      var ancestor: int := self;
      while ancestor >= 0 && found.None?
        invariant ancestor < |tree.children|
        invariant found.None? ==> Search(tree, self, wanted) == if ancestor < 0 then None else Search(tree, ancestor, wanted)
        invariant found.Some? ==> Search(tree, self, wanted) == found && found.value < |started|
        decreases ancestor + 1, if found.None? then 1 else 0
      {
        if wanted(ancestor) {
          SearchPrefersNearest(tree, ancestor, wanted);
          found := Some(ancestor);
        } else {
          var k := ScanChildren(ancestor, wanted);
          if k < |tree.children[ancestor]| {
            SearchAtChild(tree, ancestor, wanted, k);
            found := Some(tree.children[ancestor][k]);
          } else {
            SearchSkips(tree, ancestor, wanted);
            ancestor := tree.parent[ancestor];
          }
        }
      }
    }

    /** The loop over the children of one item (SimulationItem.cpp:70-79): the position of the
        first child the cast accepts, or the number of children when none is. */
    method ScanChildren(a: nat, wanted: nat -> bool) returns (k: nat)
      requires Valid() && a < |started|
      ensures k <= |tree.children[a]| && forall j :: 0 <= j < k ==> !wanted(tree.children[a][j])
      ensures k < |tree.children[a]| ==> wanted(tree.children[a][k])
    {
      var children := tree.children[a];
      k := 0;
      while k < |children| && !wanted(children[k])
        invariant k <= |children| && forall j :: 0 <= j < k ==> !wanted(children[j])
      {
        k := k + 1;
      }
    }

    /** find(setup, castToRequestedType) (SimulationItem.cpp:56-87) called on item `self`;
        `wanted` tells which items the cast accepts. The cast yields a SimulationItem, so it
        accepts nothing else. */
    method Find(self: nat, setup: bool, wanted: nat -> bool) returns (r: Result<Option<nat>, Error>)
      requires Valid() && self < |started| && tree.isSimulationItem[self]
      requires forall x :: 0 <= x < |started| && wanted(x) ==> tree.isSimulationItem[x]
      modifies this`started, this`trace
      ensures Valid()
      ensures match Search(tree, self, wanted)
              case None =>
                r == (if setup then Fatal(NoItemOfRequestedType) else Ok(None))
                && started == old(started) && trace == old(trace)
              case Some(x) =>
                r == Ok(Some(x))
                && if setup then (trace, started) == (old(trace) + SetupRun(tree, old(started), x).0,
                                                      SetupRun(tree, old(started), x).1)
                   else started == old(started) && trace == old(trace)
    {
      var found := Locate(self, wanted);
      if found.Some? {
        r := Provide(found.value, setup);
      } else if setup {
        r := Fatal(NoItemOfRequestedType);
      } else {
        r := Ok(None);
      }
    }

    /** interface(setup, implementsRequestedInterface) (SimulationItem.cpp:91-103) called on item
        `self`; interfaceCandidates() casts each ancestor to a SimulationItem
        (SimulationItem.cpp:111), so all of them are. */
    method Interface(self: nat, setup: bool, implements: nat -> bool) returns (r: Result<Option<nat>, Error>)
      requires Valid() && self < |started|
      requires forall x :: x in InterfaceCandidates(tree, self) ==> tree.isSimulationItem[x]
      modifies this`started, this`trace
      ensures Valid()
      ensures match InterfaceSearch(tree, self, implements)
              case None =>
                r == (if setup then Fatal(NoItemImplementingInterface) else Ok(None))
                && started == old(started) && trace == old(trace)
              case Some(x) =>
                r == Ok(Some(x))
                && if setup then (trace, started) == (old(trace) + SetupRun(tree, old(started), x).0,
                                                      SetupRun(tree, old(started), x).1)
                   else started == old(started) && trace == old(trace)
    {
      var candidates := InterfaceCandidates(tree, self);
      var k := 0;
      while k < |candidates|
        invariant k <= |candidates| && Valid()
        invariant started == old(started) && trace == old(trace)
        invariant forall j :: 0 <= j < k ==> !implements(candidates[j])
      {
        if implements(candidates[k]) {
          FirstIndexIs(candidates, implements, k);
          r := Provide(candidates[k], setup);
          return;
        }
        k := k + 1;
      }
      FirstIndexIs(candidates, implements, k);
      if setup {
        return Fatal(NoItemImplementingInterface);
      }
      return Ok(None);
    }
  }

  lemma SetupTraceJoin(before: seq<Hook>, i: nat, t1: seq<Hook>, t2: seq<Hook>, t3: seq<Hook>)
    ensures before + [SelfBefore(i)] + t1 + t2 + [SelfAfter(i)] + t3
            == before + ([SelfBefore(i)] + t1 + t2 + [SelfAfter(i)] + t3)
  {
  }

  lemma AppendAssociates<T>(a: seq<T>, b: seq<T>, c: seq<T>)
    ensures a + b + c == a + (b + c)
  {
  }
}
