/** The bounded choice of newly retrieved evidence for the model's context: the best of every gap
    first, then the second best of every gap, and so on up to a limit. */
module EvidenceSelection {

  /** The place of one evidence id: its gap and its rank there. */
  datatype Place = Place(gap: nat, rank: nat)

  predicate Exists(queues: seq<seq<string>>, p: Place) {
    p.gap < |queues| && p.rank < |queues[p.gap]|
  }

  /** Better ranks come first, then earlier gaps. */
  predicate Before(a: Place, b: Place) {
    a.rank < b.rank || (a.rank == b.rank && a.gap < b.gap)
  }

  /** The places chosen, in order, with none left out before a chosen one. */
  ghost predicate Front(queues: seq<seq<string>>, places: seq<Place>) {
    && (forall i :: 0 <= i < |places| ==> Exists(queues, places[i]))
    && (forall i, j :: 0 <= i < j < |places| ==> Before(places[i], places[j]))
    && forall i, p :: 0 <= i < |places| && Exists(queues, p) && Before(p, places[i]) ==> p in places
  }

  /** Everything is chosen. */
  ghost predicate Whole(queues: seq<seq<string>>, places: seq<Place>) {
    forall p :: Exists(queues, p) ==> p in places
  }

  function Count(places: seq<Place>, gap: nat): nat {
    if places == [] then 0
    else Count(places[..|places| - 1], gap) + if places[|places| - 1].gap == gap then 1 else 0
  }

  /** In a front a gap has its best ranks chosen, as many as are counted. */
  lemma {:induction false} CountIsRank(queues: seq<seq<string>>, places: seq<Place>, gap: nat)
    requires Front(queues, places) && gap < |queues|
    ensures Count(places, gap) <= |queues[gap]|
    ensures forall r: nat :: Place(gap, r) in places <==> r < Count(places, gap)
  {
    if places != [] {
      var n := |places| - 1;
      var most, last := places[..n], places[n];
      assert Front(queues, most) by {
        forall i, p | 0 <= i < n && Exists(queues, p) && Before(p, most[i]) ensures p in most {
          assert p in places && p != last;
        }
      }
      CountIsRank(queues, most, gap);
      assert forall p :: p in places <==> p in most || p == last;
      assert last !in most;
      if last.gap == gap {
        assert last == Place(gap, last.rank);
        forall r: nat | r < last.rank ensures Place(gap, r) in most {
          assert Exists(queues, Place(gap, r)) && Before(Place(gap, r), places[n]);
        }
        assert last.rank == Count(most, gap) by {
          assert last.rank > 0 ==> Place(gap, last.rank - 1) in most;
          assert Place(gap, last.rank) !in most;
        }
      }
    }
  }

  /** Main theorem: no gap has two more chosen than another that still has some left. */
  lemma FrontIsFair(queues: seq<seq<string>>, places: seq<Place>, a: nat, b: nat)
    requires Front(queues, places) && a < |queues| && b < |queues|
    requires Count(places, b) < |queues[b]|
    ensures Count(places, a) <= Count(places, b) + 1
  {
    CountIsRank(queues, places, a);
    CountIsRank(queues, places, b);
    var ca, cb := Count(places, a), Count(places, b);
    if ca > cb + 1 {
      var i :| 0 <= i < |places| && places[i] == Place(a, ca - 1);
      assert Before(Place(b, cb), places[i]) && Exists(queues, Place(b, cb));
    }
  }

  /** Two fronts of the same length choose the same. */
  lemma {:induction false} FrontUnique(queues: seq<seq<string>>, a: seq<Place>, b: seq<Place>)
    requires Front(queues, a) && Front(queues, b) && |a| == |b|
    ensures a == b
  {
    forall i: nat | i < |a| ensures a[i] == b[i] {
      SameAt(queues, a, b, i);
    }
  }

  lemma {:induction false} SameAt(queues: seq<seq<string>>, a: seq<Place>, b: seq<Place>, i: nat)
    requires Front(queues, a) && Front(queues, b) && i < |a| && i < |b|
    ensures forall k :: 0 <= k <= i ==> a[k] == b[k]
  {
    if i > 0 {
      SameAt(queues, a, b, i - 1);
    }
    if Before(a[i], b[i]) {
      var k :| 0 <= k < |b| && b[k] == a[i];
      assert k < i;
    } else if Before(b[i], a[i]) {
      var k :| 0 <= k < |a| && a[k] == b[i];
      assert k < i;
    }
  }

  /** Exactly the places before a given one are chosen, in order. */
  ghost predicate UpTo(queues: seq<seq<string>>, places: seq<Place>, next: Place) {
    && (forall p :: p in places <==> Exists(queues, p) && Before(p, next))
    && forall i, j :: 0 <= i < j < |places| ==> Before(places[i], places[j])
  }

  /** The queues that reach the given rank, in order. */
  ghost predicate Active(queues: seq<seq<string>>, active: seq<nat>, rank: nat) {
    && (forall q: nat :: q in active <==> q < |queues| && rank < |queues[q]|)
    && forall i, j :: 0 <= i < j < |active| ==> active[i] < active[j]
  }

  function NextGap(queues: seq<seq<string>>, active: seq<nat>, k: nat): nat {
    if k < |active| then active[k] else |queues|
  }

  /** A finished round. */
  lemma RoundDone(queues: seq<seq<string>>, places: seq<Place>, rank: nat)
    requires UpTo(queues, places, Place(|queues|, rank))
    ensures UpTo(queues, places, Place(0, rank + 1))
  {}

  /** Taking the next active queue's place leaves none out before the one after it. */
  lemma TakeNext(queues: seq<seq<string>>, places: seq<Place>, active: seq<nat>, k: nat, rank: nat)
    requires Active(queues, active, rank) && k < |active| && UpTo(queues, places, Place(active[k], rank))
    ensures UpTo(queues, places + [Place(active[k], rank)], Place(NextGap(queues, active, k + 1), rank))
  {
    var next, more := Place(active[k], rank), places + [Place(active[k], rank)];
    var bound := Place(NextGap(queues, active, k + 1), rank);
    assert active[k] in active;
    forall p ensures p in more <==> Exists(queues, p) && Before(p, bound) {
      assert p in more <==> p in places || p == next;
      if Exists(queues, p) && p.rank == rank {
        assert p.gap in active;
        var i :| 0 <= i < |active| && active[i] == p.gap;
        assert i < k + 1 ==> active[i] <= active[k];
      }
    }
    forall i, j | 0 <= i < j < |more| ensures Before(more[i], more[j]) {
      assert more[i] in places;
    }
  }

  /** Take rank `rank` of every active queue, until the limit. */
  method PickRound(queues: seq<seq<string>>, limit: nat, rank: nat, active: seq<nat>, before: seq<string>,
                   ghost placed: seq<Place>)
    returns (promoted: seq<string>, ghost places: seq<Place>, next: seq<nat>)
    requires Active(queues, active, rank) && UpTo(queues, placed, Place(0, rank)) && active != []
    requires |before| == |placed| < limit && before == IdsOf(queues, placed)
    ensures promoted == IdsOf(queues, places) && |promoted| == |places| <= limit && |promoted| > |before|
    ensures Front(queues, places)
    ensures |promoted| < limit ==> UpTo(queues, places, Place(0, rank + 1)) && Active(queues, next, rank + 1)
  {
    promoted, places, next := before, placed, [];
    SkipToFirst(queues, places, active, rank);
    var k := 0;
    while k < |active| && |promoted| < limit
      invariant k <= |active| && |promoted| == |before| + k <= limit
      invariant UpTo(queues, places, Place(NextGap(queues, active, k), rank))
      invariant |promoted| == |places| && promoted == IdsOf(queues, places)
      invariant forall q: nat :: q in next <==> q in active[..k] && q < |queues| && rank + 1 < |queues[q]|
      invariant forall i :: 0 <= i < |next| ==> k > 0 && next[i] <= active[k - 1]
      invariant forall i, j :: 0 <= i < j < |next| ==> next[i] < next[j]
    {
      assert active[k] in active;
      TakeNext(queues, places, active, k, rank);
      IdsMore(queues, places, Place(active[k], rank));
      promoted := promoted + [queues[active[k]][rank]];
      places := places + [Place(active[k], rank)];
      assert active[..k + 1] == active[..k] + [active[k]];
      if rank + 1 < |queues[active[k]]| {
        next := next + [active[k]];
      }
      k := k + 1;
    }
    if |promoted| < limit {
      assert active[..|active|] == active;
      RoundDone(queues, places, rank);
    }
  }

  /** Before the first active queue there is nothing to choose. */
  lemma SkipToFirst(queues: seq<seq<string>>, places: seq<Place>, active: seq<nat>, rank: nat)
    requires Active(queues, active, rank) && active != [] && UpTo(queues, places, Place(0, rank))
    ensures UpTo(queues, places, Place(active[0], rank))
  {
    forall p | Exists(queues, p) && p.rank == rank ensures p.gap >= active[0] {
      assert p.gap in active;
    }
  }

  function IdsOf(queues: seq<seq<string>>, places: seq<Place>): seq<string> {
    seq(|places|, i requires 0 <= i < |places| =>
      if Exists(queues, places[i]) then queues[places[i].gap][places[i].rank] else "")
  }

  lemma IdsMore(queues: seq<seq<string>>, places: seq<Place>, p: Place)
    requires Exists(queues, p)
    ensures IdsOf(queues, places + [p]) == IdsOf(queues, places) + [queues[p.gap][p.rank]]
  {}

  /** Pick round by round until the limit is reached or every queue is used up. */
  method SelectNewEvidence(queues: seq<seq<string>>, limit: nat)
    returns (promoted: seq<string>, ghost places: seq<Place>)
    ensures Front(queues, places) && |promoted| == |places| && promoted == IdsOf(queues, places)
    ensures |promoted| <= limit && (|promoted| < limit ==> Whole(queues, places))
    ensures forall i :: 0 <= i < |places| ==>
      places[i].gap < |queues| && places[i].rank < |queues[places[i].gap]| &&
      promoted[i] == queues[places[i].gap][places[i].rank]
    ensures forall i, j :: 0 <= i < j < |places| ==>
      places[i].rank < places[j].rank || (places[i].rank == places[j].rank && places[i].gap < places[j].gap)
  {
    promoted, places := [], [];
    var active: seq<nat> := [];
    for q := 0 to |queues|
      invariant forall k: nat :: k in active <==> k < q && queues[k] != []
      invariant forall i :: 0 <= i < |active| ==> active[i] < q
      invariant forall i, j :: 0 <= i < j < |active| ==> active[i] < active[j]
    {
      if queues[q] != [] {
        active := active + [q];
      }
    }
    var rank := 0;
    while |promoted| < limit && active != []
      invariant |promoted| == |places| <= limit && promoted == IdsOf(queues, places) && Front(queues, places)
      invariant |promoted| < limit ==> Active(queues, active, rank) && UpTo(queues, places, Place(0, rank))
      decreases limit - |promoted|
    {
      promoted, places, active := PickRound(queues, limit, rank, active, promoted, places);
      rank := rank + 1;
    }
    if |promoted| < limit {
      forall p | Exists(queues, p) ensures p in places {
        assert p.gap in active <==> rank < |queues[p.gap]|;
      }
    }
  }
}
