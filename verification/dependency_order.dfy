/** Stable ordering of native commands by their producer and consumer labels.

    The ordering is Kahn's algorithm with the position in the proposed pipeline as
    tie-break.  The theorems say what a pipeline author can rely on: ordering fails
    exactly when the labels form a cycle, and otherwise it yields the one order that
    respects every label and stays lexicographically closest to the proposal. */
module DependencyOrder {
  import opened FiniteSets

  datatype Invocation = Invocation(command: string, arguments: seq<string>, role: string)

  /** The labels rendered from a command's contract, or the reason why its scope could
      not be bound. */
  datatype Labels = Bound(inputs: set<string>, outputs: set<string>) | Unbound(reason: string)

  datatype Failure = UnboundScope(command: string, reason: string) | Cycle(commands: seq<string>)

  datatype Outcome = Outcome(order: seq<Invocation>, failures: seq<Failure>)

  ghost predicate AllBound(ls: seq<Labels>) {
    forall i :: 0 <= i < |ls| ==> ls[i].Bound?
  }

  /** Command p produces a label that command c consumes. */
  predicate Edge(ls: seq<Labels>, p: nat, c: nat) {
    p < |ls| && c < |ls| && ls[p].Bound? && ls[c].Bound? &&
    p != c && ls[p].outputs * ls[c].inputs != {}
  }

  /** Producers of v that are not in the list yet. */
  ghost function Pending(ls: seq<Labels>, done: seq<nat>, v: nat): set<nat> {
    set p: nat | p < |ls| && Edge(ls, p, v) && p !in done
  }

  ghost predicate Ready(ls: seq<Labels>, done: seq<nat>, v: nat) {
    v < |ls| && v !in done && Pending(ls, done, v) == {}
  }

  // ----- What a caller wants: orders, cycles, and the best order -----

  ghost predicate Distinct(o: seq<nat>) {
    forall i, j :: 0 <= i < j < |o| ==> o[i] != o[j]
  }

  /** o lists every command once. */
  ghost predicate Permutation(n: nat, o: seq<nat>) {
    |o| == n && Distinct(o) && forall i :: 0 <= i < n ==> o[i] < n
  }

  ghost predicate Respects(ls: seq<Labels>, o: seq<nat>) {
    forall i, j :: 0 <= i < |o| && 0 <= j < |o| && Edge(ls, o[i], o[j]) ==> i < j
  }

  ghost predicate Topological(ls: seq<Labels>, o: seq<nat>) {
    Permutation(|ls|, o) && Respects(ls, o)
  }

  ghost predicate LexBefore(a: seq<nat>, b: seq<nat>) {
    exists k: nat :: k < |a| && k < |b| && a[..k] == b[..k] && a[k] < b[k]
  }

  /** The lexicographically least order that respects every label. */
  ghost predicate StableOrder(ls: seq<Labels>, o: seq<nat>) {
    Topological(ls, o) && forall q :: Topological(ls, q) && q != o ==> LexBefore(o, q)
  }

  ghost predicate Walk(ls: seq<Labels>, w: seq<nat>) {
    |w| > 0 && w[0] < |ls| && forall i :: 0 < i < |w| ==> Edge(ls, w[i - 1], w[i])
  }

  ghost predicate ClosedWalk(ls: seq<Labels>, w: seq<nat>) {
    Walk(ls, w) && |w| > 1 && w[0] == w[|w| - 1]
  }

  ghost predicate Acyclic(ls: seq<Labels>) {
    forall w :: !ClosedWalk(ls, w)
  }

  ghost predicate WalkBetween(ls: seq<Labels>, w: seq<nat>, from: nat, to: nat) {
    Walk(ls, w) && w[0] == from && w[|w| - 1] == to
  }

  /** v lies on a cycle or consumes, directly or not, something a cycle produces. */
  ghost predicate BehindCycle(ls: seq<Labels>, v: nat) {
    exists c, w :: ClosedWalk(ls, c) && WalkBetween(ls, w, c[0], v)
  }

  function Pick<T>(items: seq<T>, o: seq<nat>): seq<T>
    requires forall i :: 0 <= i < |o| ==> o[i] < |items|
  {
    seq(|o|, i requires 0 <= i < |o| => items[o[i]])
  }

  // ----- Greedy runs -----

  /** Each entry is the smallest command that was ready when it was appended. */
  ghost predicate Greedy(ls: seq<Labels>, o: seq<nat>) {
    forall k: nat :: k < |o| ==> LeastReady(ls, o[..k], o[k])
  }

  ghost predicate LeastReady(ls: seq<Labels>, done: seq<nat>, v: nat) {
    Ready(ls, done, v) && forall u :: Ready(ls, done, u) ==> v <= u
  }

  ghost predicate Stuck(ls: seq<Labels>, o: seq<nat>) {
    forall v :: !Ready(ls, o, v)
  }

  lemma GreedyExtend(ls: seq<Labels>, o: seq<nat>, v: nat)
    requires Greedy(ls, o) && LeastReady(ls, o, v)
    ensures Greedy(ls, o + [v])
  {
    var o' := o + [v];
    forall k: nat | k < |o'| ensures LeastReady(ls, o'[..k], o'[k]) {
      if k < |o| {
        assert o'[..k] == o[..k];
      } else {
        assert o'[..k] == o;
      }
    }
  }

  /** A producer of the k-th entry of a greedy run occurs before it. */
  lemma GreedyProducer(ls: seq<Labels>, o: seq<nat>, p: nat, k: nat)
    requires Greedy(ls, o) && k < |o| && Edge(ls, p, o[k])
    ensures p in o[..k]
  {
    var done, v := o[..k], o[k];
    assert Ready(ls, done, v);
    assert p !in done ==> p in Pending(ls, done, v);
  }

  lemma GreedyRespects(ls: seq<Labels>, o: seq<nat>)
    requires Greedy(ls, o)
    ensures Respects(ls, o)
  {
    forall i, j | 0 <= i < |o| && 0 <= j < |o| && Edge(ls, o[i], o[j]) ensures i < j {
      GreedyProducer(ls, o, o[i], j);
      var k :| 0 <= k < j && o[..j][k] == o[i];
      assert o[k] == o[i];
    }
  }

  /** A greedy run beats every other order that respects the labels at their first
      difference: the other order's choice there was ready too. */
  lemma GreedyIsLeast(ls: seq<Labels>, o: seq<nat>, q: seq<nat>)
    requires Greedy(ls, o) && |o| == |ls| && Topological(ls, q) && q != o
    ensures LexBefore(o, q)
  {
    var k := FirstDifference(o, q, 0);
    var done := o[..k];
    assert done == q[..k];
    assert LeastReady(ls, done, o[k]);
    forall i | 0 <= i < k ensures done[i] != q[k] {
      assert done[i] == q[i];
    }
    forall p: nat | p < |ls| && Edge(ls, p, q[k]) ensures p in done {
      PermutationCovers(|ls|, q, p);
      var i :| 0 <= i < |q| && q[i] == p;
      assert q[i] == q[..k][i];
    }
    assert Pending(ls, done, q[k]) == {};
    assert Ready(ls, done, q[k]);
  }

  lemma FirstDifference(o: seq<nat>, q: seq<nat>, from: nat) returns (k: nat)
    requires |o| == |q| && o != q && from <= |o| && o[..from] == q[..from]
    ensures k < |o| && o[..k] == q[..k] && o[k] != q[k]
    decreases |o| - from
  {
    assert o[..|o|] == o && q[..|q|] == q;
    if from < |o| && o[from] == q[from] {
      assert o[..from + 1] == o[..from] + [o[from]];
      assert q[..from + 1] == q[..from] + [q[from]];
      k := FirstDifference(o, q, from + 1);
    } else {
      k := from;
    }
  }

  // ----- Counting -----

  /** A list without repetition that stays inside a set is no longer than the set, and
      covers the set when it is as long. */
  lemma {:induction false} DistinctInside(o: seq<nat>, s: set<nat>)
    requires Distinct(o) && forall i :: 0 <= i < |o| ==> o[i] in s
    ensures |o| <= |s|
    ensures |o| == |s| ==> forall v :: v in s ==> v in o
  {
    if |o| > 0 {
      var last := o[|o| - 1];
      var rest := o[..|o| - 1];
      forall i | 0 <= i < |rest| ensures rest[i] in s - {last} {
        assert rest[i] == o[i];
      }
      DistinctInside(rest, s - {last});
      forall v | v in s && |o| == |s| ensures v in o {
        if v != last {
          assert v in rest;
        }
      }
    } else if |s| == 0 {
      assert s == {};
    }
  }

  lemma PermutationCovers(n: nat, o: seq<nat>, v: nat)
    requires Permutation(n, o) && v < n
    ensures v in o
  {
    DistinctInside(o, UpTo(n));
  }

  // ----- Cycles -----

  /** Every entry of a walk that ends in a greedy run was appended before its end. */
  lemma {:induction false} WalkInsideGreedy(ls: seq<Labels>, o: seq<nat>, w: seq<nat>, k: nat)
    requires Greedy(ls, o) && Walk(ls, w) && k < |o| && w[|w| - 1] == o[k]
    ensures forall i :: 0 <= i < |w| - 1 ==> w[i] in o[..k]
    decreases |w|
  {
    if |w| > 1 {
      var w' := w[..|w| - 1];
      var last := w'[|w'| - 1];
      assert Edge(ls, w[|w| - 2], w[|w| - 1]);
      GreedyProducer(ls, o, last, k);
      var j :| 0 <= j < k && o[..k][j] == last;
      assert o[j] == last;
      WalkInsideGreedy(ls, o, w', j);
      forall i | 0 <= i < |w| - 1 ensures w[i] in o[..k] {
        if i < |w| - 2 {
          assert w'[i] in o[..j];
        }
      }
    }
  }

  /** Nothing on a cycle, or behind one, is ever ordered. */
  lemma BehindCycleNotOrdered(ls: seq<Labels>, o: seq<nat>, v: nat)
    requires Greedy(ls, o) && BehindCycle(ls, v)
    ensures v !in o
  {
    if v in o {
      var c, w :| ClosedWalk(ls, c) && WalkBetween(ls, w, c[0], v);
      var k :| 0 <= k < |o| && o[k] == v;
      WalkInsideGreedy(ls, o, w, k);
      assert c[0] in o by {
        if |w| > 1 {
          assert w[0] in o[..k];
        }
      }
      var j :| 0 <= j < |o| && o[j] == c[0];
      forall i | 0 <= i < j ensures o[..j][i] != c[0] {
        assert o[..j][i] == o[i];
      }
      WalkInsideGreedy(ls, o, c, j);
    }
  }

  /** In a stuck run, walk backwards from v through commands that were not ordered. */
  lemma {:induction false} BackwardWalk(ls: seq<Labels>, o: seq<nat>, v: nat, steps: nat) returns (w: seq<nat>)
    requires Stuck(ls, o) && v < |ls| && v !in o
    ensures Walk(ls, w) && |w| == steps + 1 && w[|w| - 1] == v
    ensures forall i :: 0 <= i < |w| ==> w[i] < |ls|
    decreases steps
  {
    if steps == 0 {
      w := [v];
    } else {
      assert !Ready(ls, o, v);
      var p :| p in Pending(ls, o, v);
      var w' := BackwardWalk(ls, o, p, steps - 1);
      w := w' + [v];
    }
  }

  /** What a stuck run left out lies behind a cycle: the backward walk must repeat. */
  lemma LeftOverBehindCycle(ls: seq<Labels>, o: seq<nat>, v: nat)
    requires Stuck(ls, o) && v < |ls| && v !in o
    ensures BehindCycle(ls, v)
  {
    var w := BackwardWalk(ls, o, v, |ls|);
    if Distinct(w) {
      DistinctInside(w, UpTo(|ls|));
    }
    var i, j :| 0 <= i < j < |w| && w[i] == w[j];
    var c, d := w[i..j + 1], w[i..];
    assert ClosedWalk(ls, c);
    assert WalkBetween(ls, d, c[0], v);
  }

  lemma OrderedOrBehindCycle(ls: seq<Labels>, o: seq<nat>, v: nat)
    requires Greedy(ls, o) && Stuck(ls, o) && v < |ls|
    ensures v in o <==> !BehindCycle(ls, v)
  {
    if v !in o {
      LeftOverBehindCycle(ls, o, v);
    } else if BehindCycle(ls, v) {
      BehindCycleNotOrdered(ls, o, v);
    }
  }

  /** Main theorem: a finished run orders everything exactly when there is no cycle. */
  lemma CompleteIffAcyclic(ls: seq<Labels>, o: seq<nat>)
    requires Greedy(ls, o) && Stuck(ls, o)
    ensures |o| == |ls| <==> Acyclic(ls)
    ensures |o| == |ls| ==> StableOrder(ls, o)
  {
    GreedyRespects(ls, o);
    DistinctInside(o, UpTo(|ls|));
    if |o| == |ls| {
      forall w ensures !ClosedWalk(ls, w) {
        if ClosedWalk(ls, w) {
          assert WalkBetween(ls, [w[0]], w[0], w[0]);
          assert w[0] in UpTo(|ls|);
          BehindCycleNotOrdered(ls, o, w[0]);
        }
      }
      forall q | Topological(ls, q) && q != o ensures LexBefore(o, q) {
        GreedyIsLeast(ls, o, q);
      }
    } else if forall v :: 0 <= v < |ls| ==> v in o {
      forall i | 0 <= i < |ls| ensures Iota(|ls|)[i] in Elements(o) {
        assert i in o;
      }
      DistinctInside(Iota(|ls|), Elements(o));
      ElementsBound(o);
    } else {
      var v :| 0 <= v < |ls| && v !in o;
      LeftOverBehindCycle(ls, o, v);
    }
  }

  function Iota(n: nat): seq<nat> {
    seq(n, i requires 0 <= i < n => i)
  }

  ghost function Elements(o: seq<nat>): set<nat> {
    set v | v in o
  }

  lemma {:induction false} ElementsBound(o: seq<nat>)
    ensures |Elements(o)| <= |o|
  {
    if |o| > 0 {
      ElementsBound(o[1..]);
      assert Elements(o) == Elements(o[1..]) + {o[0]};
    }
  }

  /** A pipeline that already respects every label keeps its order. */
  lemma ValidOrderUnchanged(ls: seq<Labels>, o: seq<nat>)
    requires StableOrder(ls, o) && Respects(ls, Iota(|ls|))
    ensures o == Iota(|ls|)
  {
    var id := Iota(|ls|);
    if o != id {
      forall k: nat | k < |o| && o[..k] == id[..k] ensures o[k] >= k {
        forall i | 0 <= i < k ensures o[k] != id[i] {
          assert o[i] == o[..k][i] == id[..k][i];
        }
        assert id[o[k]] == o[k];
      }
      assert Topological(ls, id);
    }
  }

  lemma StableOrderUnique(ls: seq<Labels>, a: seq<nat>, b: seq<nat>)
    requires StableOrder(ls, a) && StableOrder(ls, b)
    ensures a == b
  {
    if a != b {
      var j: nat :| j < |a| && j < |b| && a[..j] == b[..j] && a[j] < b[j];
      forall k: nat | k < |a| && k < |b| ensures b[..k] == a[..k] ==> a[k] <= b[k] {
        if k > j {
          assert a[..k][j] == a[j] && b[..k][j] == b[j];
        } else if k < j {
          assert a[..j][k] == a[k] && b[..j][k] == b[k];
        }
      }
    }
  }

  // ----- The algorithm -----

  ghost function ProducersBelow(ls: seq<Labels>, v: nat, bound: nat): set<nat> {
    set p: nat | p < bound && Edge(ls, p, v)
  }

  lemma ProducersBelowStep(ls: seq<Labels>, v: nat, p: nat)
    ensures |ProducersBelow(ls, v, p + 1)| == |ProducersBelow(ls, v, p)| + (if Edge(ls, p, v) then 1 else 0)
  {
    var below := ProducersBelow(ls, v, p);
    if Edge(ls, p, v) {
      assert ProducersBelow(ls, v, p + 1) == below + {p};
    } else {
      assert ProducersBelow(ls, v, p + 1) == below;
    }
  }

  /** The successor sets and the number of producers of each command. */
  method BuildGraph(ls: seq<Labels>) returns (outgoing: seq<set<nat>>, indegree: seq<nat>)
    requires AllBound(ls)
    ensures |outgoing| == |ls| && |indegree| == |ls|
    ensures forall p: nat, c :: p < |ls| ==> (c in outgoing[p] <==> Edge(ls, p, c))
    ensures forall v: nat :: v < |ls| ==> indegree[v] == |Pending(ls, [], v)|
  {
    var count := |ls|;
    outgoing := seq(count, _ => {});
    indegree := seq(count, _ => 0);
    forall v: nat | v < count ensures ProducersBelow(ls, v, 0) == {} {}
    for producer := 0 to count
      invariant |outgoing| == count && |indegree| == count
      invariant forall p: nat, c :: p < producer ==> (c in outgoing[p] <==> Edge(ls, p, c))
      invariant forall p: nat :: producer <= p < count ==> outgoing[p] == {}
      invariant forall v: nat :: v < count ==> indegree[v] == |ProducersBelow(ls, v, producer)|
    {
      for consumer := 0 to count
        invariant |outgoing| == count && |indegree| == count
        invariant forall p: nat, c :: p < producer ==> (c in outgoing[p] <==> Edge(ls, p, c))
        invariant forall p: nat :: producer < p < count ==> outgoing[p] == {}
        invariant forall c: nat :: c in outgoing[producer] <==> c < consumer && Edge(ls, producer, c)
        invariant forall v: nat :: v < count ==>
          indegree[v] == |ProducersBelow(ls, v, if v < consumer then producer + 1 else producer)|
      {
        ProducersBelowStep(ls, consumer, producer);
        if producer != consumer && ls[producer].outputs * ls[consumer].inputs != {} && consumer !in outgoing[producer] {
          outgoing := outgoing[producer := outgoing[producer] + {consumer}];
          indegree := indegree[consumer := indegree[consumer] + 1];
        }
      }
    }
    forall v: nat | v < count ensures ProducersBelow(ls, v, count) == Pending(ls, [], v) {}
  }

  method LeastOf(s: seq<nat>) returns (least: nat)
    requires |s| > 0
    ensures least in s && forall v :: v in s ==> least <= v
  {
    least := s[0];
    for i := 1 to |s|
      invariant least in s && forall j :: 0 <= j < i ==> least <= s[j]
    {
      if s[i] < least {
        least := s[i];
      }
    }
  }

  method RemoveFirst(s: seq<nat>, v: nat) returns (r: seq<nat>)
    requires v in s && Distinct(s)
    ensures Distinct(r) && forall u :: u in r <==> u in s && u != v
  {
    var i := 0;
    while s[i] != v
      invariant 0 <= i < |s| && v in s[i..]
      decreases |s| - i
    {
      assert s[i..] == [s[i]] + s[i + 1..];
      i := i + 1;
    }
    r := s[..i] + s[i + 1..];
    assert s == s[..i] + [v] + s[i + 1..];
    forall u ensures u in r <==> u in s && u != v {
      if u in r {
        var k :| 0 <= k < |r| && r[k] == u;
        assert u == s[if k < i then k else k + 1];
      }
    }
  }

  /** Appending one entry shrinks exactly its consumers' pending sets, by that entry. */
  lemma PendingStep(ls: seq<Labels>, done: seq<nat>, p: nat, v: nat)
    requires p !in done
    ensures Edge(ls, p, v) ==> |Pending(ls, done + [p], v)| == |Pending(ls, done, v)| - 1
    ensures !Edge(ls, p, v) ==> Pending(ls, done + [p], v) == Pending(ls, done, v)
  {
    if Edge(ls, p, v) {
      assert Pending(ls, done + [p], v) == Pending(ls, done, v) - {p};
    } else {
      assert Pending(ls, done + [p], v) == Pending(ls, done, v);
    }
  }

  /** Remove the edges out of the command just ordered; commands left without a
      producer become ready. */
  method Release(ls: seq<Labels>, children: set<nat>, ghost before: seq<nat>, index: nat,
                 ready0: seq<nat>, indegree0: seq<nat>)
    returns (ready: seq<nat>, indegree: seq<nat>)
    requires Greedy(ls, before) && LeastReady(ls, before, index)
    requires forall c :: c in children <==> Edge(ls, index, c)
    requires Distinct(ready0) && forall v: nat :: v in ready0 <==> Ready(ls, before, v) && v != index
    requires |indegree0| == |ls| && forall v: nat :: v < |ls| ==> indegree0[v] == |Pending(ls, before, v)|
    ensures Distinct(ready) && forall v: nat :: v in ready <==> Ready(ls, before + [index], v)
    ensures |indegree| == |ls| && forall v: nat :: v < |ls| ==> indegree[v] == |Pending(ls, before + [index], v)|
  {
    ready, indegree := ready0, indegree0;
    ghost var after := before + [index];
    for child := 0 to |ls|
      invariant Distinct(ready) && |indegree| == |ls|
      invariant forall v: nat :: v < child ==> indegree[v] == |Pending(ls, after, v)|
      invariant forall v: nat :: child <= v < |ls| ==> indegree[v] == |Pending(ls, before, v)|
      invariant forall v: nat :: v in ready ==> v < |ls| && v !in after
      invariant forall v: nat :: v < child && v !in after ==> (v in ready <==> Pending(ls, after, v) == {})
      invariant forall v: nat :: child <= v < |ls| && v !in after ==> (v in ready <==> Pending(ls, before, v) == {})
    {
      PendingStep(ls, before, index, child);
      if child in children {
        ConsumerNotOrdered(ls, before, index, child);
        assert Pending(ls, before, child) != {} by {
          assert index in Pending(ls, before, child);
        }
        indegree := indegree[child := indegree[child] - 1];
        if indegree[child] == 0 {
          assert child !in ready;
          ready := ready + [child];
        }
      }
    }
  }

  /** Repeatedly take the least ready command and release its consumers. */
  method TopologicalIndices(ls: seq<Labels>) returns (ordered: seq<nat>, indegree: seq<nat>)
    requires AllBound(ls)
    ensures Greedy(ls, ordered) && Stuck(ls, ordered)
    ensures |indegree| == |ls| && forall v: nat :: v < |ls| ==> indegree[v] == |Pending(ls, ordered, v)|
  {
    var count := |ls|;
    var outgoing;
    outgoing, indegree := BuildGraph(ls);
    ordered := [];
    var ready: seq<nat> := [];
    for index := 0 to count
      invariant Distinct(ready) && forall k :: 0 <= k < |ready| ==> ready[k] < index
      invariant forall v: nat :: v in ready <==> v < index && Ready(ls, [], v)
    {
      if indegree[index] == 0 {
        ready := ready + [index];
      }
    }
    while ready != []
      invariant Greedy(ls, ordered) && Distinct(ready) && |indegree| == count
      invariant forall v: nat :: v in ready <==> Ready(ls, ordered, v)
      invariant forall v: nat :: v < count ==> indegree[v] == |Pending(ls, ordered, v)|
      invariant |ordered| <= count
      decreases count - |ordered|
    {
      var index := LeastOf(ready);
      ready := RemoveFirst(ready, index);
      GreedyExtend(ls, ordered, index);
      ready, indegree := Release(ls, outgoing[index], ordered, index, ready, indegree);
      ordered := ordered + [index];
      DistinctInside(ordered, UpTo(count));
    }
  }

  /** The consumers of the next command have not been ordered. */
  lemma ConsumerNotOrdered(ls: seq<Labels>, before: seq<nat>, index: nat, child: nat)
    requires Greedy(ls, before) && LeastReady(ls, before, index) && Edge(ls, index, child)
    ensures child !in before + [index]
  {
    if child in before {
      var k :| 0 <= k < |before| && before[k] == child;
      GreedyProducer(ls, before, index, k);
    }
  }

  // ----- In the words of the caller -----

  /** Every command can be bound. */
  ghost predicate Bindable(invocations: seq<Invocation>, render: Invocation -> Labels) {
    forall c :: c in invocations ==> render(c).Bound?
  }

  /** A command that writes what another reads comes before it. */
  ghost predicate ProducersFirst(order: seq<Invocation>, render: Invocation -> Labels) {
    forall i, j :: 0 <= i < |order| && 0 <= j < |order| && i != j ==>
      render(order[i]).Bound? && render(order[j]).Bound? ==>
      render(order[i]).outputs * render(order[j]).inputs != {} ==> i < j
  }

  /** The order lists the commands, each once, from these places of the proposal. */
  ghost predicate Rearranges(invocations: seq<Invocation>, order: seq<Invocation>, places: seq<nat>) {
    && |order| == |places| == |invocations|
    && (forall i, j :: 0 <= i < j < |places| ==> places[i] != places[j])
    && forall i :: 0 <= i < |places| ==> places[i] < |invocations| && order[i] == invocations[places[i]]
  }

  /** No other order with producers first stays closer to the proposal: at the first difference
      it takes a later command. */
  ghost predicate ClosestToProposal(invocations: seq<Invocation>, render: Invocation -> Labels, places: seq<nat>) {
    forall order, q :: Rearranges(invocations, order, q) && ProducersFirst(order, render) && q != places ==>
      exists k :: 0 <= k < |places| == |q| && places[..k] == q[..k] && places[k] < q[k]
  }

  /** The order puts producers first and is the closest to the proposal that does. */
  ghost predicate BestOrder(invocations: seq<Invocation>, render: Invocation -> Labels, order: seq<Invocation>) {
    ProducersFirst(order, render) &&
    exists places :: Rearranges(invocations, order, places) && ClosestToProposal(invocations, render, places)
  }

  ghost predicate SomeOrder(invocations: seq<Invocation>, render: Invocation -> Labels) {
    exists order, places :: Rearranges(invocations, order, places) && ProducersFirst(order, render)
  }

  lemma BoundAlike(invocations: seq<Invocation>, render: Invocation -> Labels)
    ensures AllBound(Rendered(invocations, render)) <==> Bindable(invocations, render)
  {
    var ls := Rendered(invocations, render);
    forall i | 0 <= i < |ls| && Bindable(invocations, render) ensures ls[i].Bound? {
      assert invocations[i] in invocations;
    }
    forall c | c in invocations && AllBound(ls) ensures render(c).Bound? {
      var i :| 0 <= i < |invocations| && invocations[i] == c;
      assert ls[i] == render(c);
    }
  }

  lemma RearrangedIsPicked(invocations: seq<Invocation>, order: seq<Invocation>, places: seq<nat>)
    ensures Rearranges(invocations, order, places) <==>
      Permutation(|invocations|, places) && order == Pick(invocations, places)
  {}

  lemma RespectsIsProducersFirst(invocations: seq<Invocation>, render: Invocation -> Labels, o: seq<nat>)
    requires Permutation(|invocations|, o) && Bindable(invocations, render)
    ensures Respects(Rendered(invocations, render), o) <==> ProducersFirst(Pick(invocations, o), render)
  {
    var ls, order := Rendered(invocations, render), Pick(invocations, o);
    forall i: nat, j: nat | i < |o| && j < |o|
      ensures Edge(ls, o[i], o[j]) <==> i != j && render(order[i]).outputs * render(order[j]).inputs != {}
    {
      assert invocations[o[i]] in invocations && invocations[o[j]] in invocations;
      assert ls[o[i]] == render(order[i]) && ls[o[j]] == render(order[j]);
      assert i < j ==> o[i] != o[j];
      assert j < i ==> o[j] != o[i];
    }
    if ProducersFirst(order, render) {
      forall i, j | 0 <= i < |o| && 0 <= j < |o| && Edge(ls, o[i], o[j]) ensures i < j {
        assert invocations[o[i]] in invocations && invocations[o[j]] in invocations;
      }
    }
  }

  /** Main theorem: a stable order is an order with producers first, closest to the proposal. */
  lemma StableOrderIsBest(invocations: seq<Invocation>, render: Invocation -> Labels, o: seq<nat>)
    requires Bindable(invocations, render) && StableOrder(Rendered(invocations, render), o)
    ensures BestOrder(invocations, render, Pick(invocations, o))
  {
    RespectsIsProducersFirst(invocations, render, o);
    RearrangedIsPicked(invocations, Pick(invocations, o), o);
    forall order, q | Rearranges(invocations, order, q) && ProducersFirst(order, render) && q != o
      ensures exists k :: 0 <= k < |o| == |q| && o[..k] == q[..k] && o[k] < q[k]
    {
      RearrangedIsPicked(invocations, order, q);
      RespectsIsProducersFirst(invocations, render, q);
      assert Topological(Rendered(invocations, render), q);
    }
  }

  lemma ShortIsBest(invocations: seq<Invocation>, render: Invocation -> Labels)
    requires |invocations| < 2
    ensures BestOrder(invocations, render, invocations)
  {
    var places := Iota(|invocations|);
    assert Rearranges(invocations, invocations, places);
    forall order, q | Rearranges(invocations, order, q) && ProducersFirst(order, render) ensures q == places {}
  }

  /** The labels have no cycle exactly when some order has producers first. */
  lemma AcyclicIffOrderable(invocations: seq<Invocation>, render: Invocation -> Labels)
    requires Bindable(invocations, render)
    ensures Acyclic(Rendered(invocations, render)) <==> SomeOrder(invocations, render)
  {
    var ls := Rendered(invocations, render);
    if Acyclic(ls) {
      var o := SomeGreedy(ls);
      CompleteIffAcyclic(ls, o);
      RespectsIsProducersFirst(invocations, render, o);
      RearrangedIsPicked(invocations, Pick(invocations, o), o);
    }
    if order, q :| Rearranges(invocations, order, q) && ProducersFirst(order, render) {
      RearrangedIsPicked(invocations, order, q);
      RespectsIsProducersFirst(invocations, render, q);
      forall w ensures !ClosedWalk(ls, w) {
        if ClosedWalk(ls, w) {
          WalkForward(ls, q, w, |w| - 1);
        }
      }
    }
  }

  /** Along a walk the places in an order that respects the labels increase. */
  lemma {:induction false} WalkForward(ls: seq<Labels>, o: seq<nat>, w: seq<nat>, n: nat)
    requires Topological(ls, o) && Walk(ls, w) && 0 < n < |w|
    ensures w[0] != w[n]
    ensures exists i, j :: 0 <= i < j < |o| && o[i] == w[0] && o[j] == w[n]
  {
    assert Edge(ls, w[n - 1], w[n]);
    PermutationCovers(|ls|, o, w[n - 1]);
    PermutationCovers(|ls|, o, w[n]);
    var a :| 0 <= a < |o| && o[a] == w[n - 1];
    var b :| 0 <= b < |o| && o[b] == w[n];
    assert a < b;
    if n == 1 {
      assert o[a] == w[0];
    } else {
      WalkForward(ls, o, w, n - 1);
      var i, j :| 0 <= i < j < |o| && o[i] == w[0] && o[j] == w[n - 1];
      assert j == a;
    }
  }

  /** A greedy run that cannot be continued. */
  lemma SomeGreedy(ls: seq<Labels>) returns (o: seq<nat>)
    ensures Greedy(ls, o) && Stuck(ls, o)
  {
    o := GreedyFrom(ls, [], UpTo(|ls|));
  }

  lemma {:induction false} GreedyFrom(ls: seq<Labels>, before: seq<nat>, left: set<nat>) returns (o: seq<nat>)
    requires Greedy(ls, before) && forall v: nat :: v < |ls| ==> v in left || v in before
    ensures Greedy(ls, o) && Stuck(ls, o)
    decreases |left|
  {
    if Stuck(ls, before) {
      o := before;
    } else {
      var u :| Ready(ls, before, u);
      var v := LeastReadyBelow(ls, before, u);
      GreedyExtend(ls, before, v);
      o := GreedyFrom(ls, before + [v], left - {v});
    }
  }

  lemma {:induction false} LeastReadyBelow(ls: seq<Labels>, done: seq<nat>, u: nat) returns (v: nat)
    requires Ready(ls, done, u)
    ensures LeastReady(ls, done, v)
    decreases u
  {
    if w: nat :| Ready(ls, done, w) && w < u {
      v := LeastReadyBelow(ls, done, w);
    } else {
      v := u;
    }
  }

  /** Exactly the commands that cannot be bound are reported, with their reasons. */
  lemma {:induction false} UnboundFailuresExact(invocations: seq<Invocation>, render: Invocation -> Labels, f: Failure)
    ensures f in UnboundFailures(invocations, render) <==>
      exists c :: c in invocations && render(c).Unbound? && f == UnboundScope(c.command, render(c).reason)
  {
    if invocations != [] {
      var n := |invocations| - 1;
      UnboundFailuresExact(invocations[..n], render, f);
      assert invocations == invocations[..n] + [invocations[n]];
    }
  }

  /** The whole routine: short lists pass through, unbound scopes and cycles leave the
      order alone and are reported, anything else is put in the stable order. */
  method StableDependencyOrder(invocations: seq<Invocation>, render: Invocation -> Labels) returns (out: Outcome)
    ensures |invocations| < 2 ==> out == Outcome(invocations, [])
    ensures |invocations| >= 2 && !AllBound(Rendered(invocations, render)) ==>
      out == Outcome(invocations, UnboundFailures(invocations, render))
    ensures AllBound(Rendered(invocations, render)) ==>
      (out.failures == [] <==> Acyclic(Rendered(invocations, render)))
    ensures AllBound(Rendered(invocations, render)) && out.failures == [] ==>
      exists o :: StableOrder(Rendered(invocations, render), o) && out.order == Pick(invocations, o)
    ensures AllBound(Rendered(invocations, render)) && out.failures != [] ==>
      out.order == invocations &&
      exists blocked :: BlockedIndices(Rendered(invocations, render), blocked) &&
        out.failures == [Cycle(Commands(invocations, blocked))]
    ensures Bindable(invocations, render) ==> (out.failures == [] <==> SomeOrder(invocations, render))
    ensures Bindable(invocations, render) && out.failures == [] ==> BestOrder(invocations, render, out.order)
  {
    BoundAlike(invocations, render);
    if Bindable(invocations, render) {
      AcyclicIffOrderable(invocations, render);
    }
    var count := |invocations|;
    ghost var rendered := Rendered(invocations, render);
    if count < 2 {
      out := Outcome(invocations, []);
      SmallGraph(rendered);
      assert Pick(invocations, Iota(count)) == invocations;
      if Bindable(invocations, render) {
        StableOrderIsBest(invocations, render, Iota(count));
      }
      return;
    }
    var ls, failures := RenderLabels(invocations, render);
    if failures != [] {
      return Outcome(invocations, failures);
    }
    var ordered, indegree := TopologicalIndices(ls);
    CompleteIffAcyclic(ls, ordered);
    if |ordered| != count {
      var blocked := FindBlocked(ls, ordered, indegree);
      return Outcome(invocations, [Cycle(Commands(invocations, blocked))]);
    }
    StableOrderIsBest(invocations, render, ordered);
    return Outcome(Pick(invocations, ordered), []);
  }

  /** The labels of every command, and a report for each that could not be bound. */
  method RenderLabels(invocations: seq<Invocation>, render: Invocation -> Labels)
    returns (ls: seq<Labels>, failures: seq<Failure>)
    ensures ls == Rendered(invocations, render) && failures == UnboundFailures(invocations, render)
    ensures failures == [] <==> AllBound(ls)
  {
    ls, failures := [], [];
    for i := 0 to |invocations|
      invariant ls == Rendered(invocations, render)[..i]
      invariant failures == UnboundFailures(invocations[..i], render)
    {
      assert invocations[..i + 1][..i] == invocations[..i];
      var labels := render(invocations[i]);
      if labels.Unbound? {
        failures := failures + [UnboundScope(invocations[i].command, labels.reason)];
      }
      ls := ls + [labels];
    }
    assert invocations[..|invocations|] == invocations;
    UnboundReported(invocations, render);
  }

  /** The commands left with producers, in pipeline order: those behind a cycle. */
  method FindBlocked(ls: seq<Labels>, ordered: seq<nat>, indegree: seq<nat>) returns (blocked: seq<nat>)
    requires Greedy(ls, ordered) && Stuck(ls, ordered) && |indegree| == |ls|
    requires forall v: nat :: v < |ls| ==> indegree[v] == |Pending(ls, ordered, v)|
    ensures BlockedIndices(ls, blocked)
  {
    blocked := [];
    for i := 0 to |ls|
      invariant Ascending(blocked) && forall k :: 0 <= k < |blocked| ==> blocked[k] < i
      invariant forall v: nat :: v in blocked <==> v < i && BehindCycle(ls, v)
    {
      OrderedOrBehindCycle(ls, ordered, i);
      PositiveIndegree(ls, ordered, i);
      if indegree[i] > 0 {
        blocked := blocked + [i];
      }
    }
  }

  /** When no command is ready any more, the ones with producers left are the ones that
      were not ordered. */
  lemma PositiveIndegree(ls: seq<Labels>, o: seq<nat>, v: nat)
    requires Greedy(ls, o) && Stuck(ls, o) && v < |ls|
    ensures |Pending(ls, o, v)| > 0 <==> v !in o
  {
    if v in o {
      var k :| 0 <= k < |o| && o[k] == v;
      if p :| p in Pending(ls, o, v) {
        GreedyProducer(ls, o, p, k);
      }
    } else {
      assert !Ready(ls, o, v);
    }
  }

  lemma SmallGraph(ls: seq<Labels>)
    requires |ls| < 2
    ensures Acyclic(ls) && StableOrder(ls, Iota(|ls|))
  {
    forall w ensures !ClosedWalk(ls, w) {
      assert ClosedWalk(ls, w) ==> Edge(ls, w[0], w[1]);
    }
    forall q | Topological(ls, q) ensures q == Iota(|ls|) {}
  }

  function Rendered(invocations: seq<Invocation>, render: Invocation -> Labels): seq<Labels> {
    seq(|invocations|, i requires 0 <= i < |invocations| => render(invocations[i]))
  }

  /** One report for each command whose scope could not be bound, in pipeline order. */
  function UnboundFailures(invocations: seq<Invocation>, render: Invocation -> Labels): seq<Failure> {
    if invocations == [] then []
    else
      var last := invocations[|invocations| - 1];
      UnboundFailures(invocations[..|invocations| - 1], render) +
      (match render(last)
       case Unbound(reason) => [UnboundScope(last.command, reason)]
       case Bound(_, _) => [])
  }

  lemma {:induction false} UnboundReported(invocations: seq<Invocation>, render: Invocation -> Labels)
    ensures UnboundFailures(invocations, render) == [] <==> AllBound(Rendered(invocations, render))
  {
    if invocations != [] {
      var n := |invocations| - 1;
      UnboundReported(invocations[..n], render);
      var all, before := Rendered(invocations, render), Rendered(invocations[..n], render);
      assert forall i :: 0 <= i < n ==> all[i] == before[i];
      assert AllBound(all) <==> AllBound(before) && all[n].Bound?;
    }
  }

  ghost predicate Ascending(s: seq<nat>) {
    forall i, j :: 0 <= i < j < |s| ==> s[i] < s[j]
  }

  /** Exactly the commands behind a cycle, in pipeline order. */
  ghost predicate BlockedIndices(ls: seq<Labels>, blocked: seq<nat>) {
    Ascending(blocked) && (forall i :: 0 <= i < |blocked| ==> blocked[i] < |ls|) &&
    forall v: nat :: v in blocked <==> v < |ls| && BehindCycle(ls, v)
  }

  function Commands(invocations: seq<Invocation>, o: seq<nat>): seq<string>
    requires forall i :: 0 <= i < |o| ==> o[i] < |invocations|
  {
    seq(|o|, i requires 0 <= i < |o| => invocations[o[i]].command)
  }
}
