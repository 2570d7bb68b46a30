/** The ledger of evidence gaps within one phase: fresh opaque ids, repair of the ids a model
    proposes, and retrieval that happens at most once per gap and a bounded number of times.

    The theorems range over every run of batches, closings and infrastructure failures. */
module EvidenceGaps {
  import opened Wrappers

  // ----- Gap ids -----

  const LAST: nat := 9999

  function Digit(d: nat): char
    requires d < 10
  {
    (48 + d) as char
  }

  predicate IsDigit(c: char) {
    '0' <= c <= '9'
  }

  predicate Digits(s: string) {
    forall i :: 0 <= i < |s| ==> IsDigit(s[i])
  }

  function Value(s: string): nat
    requires Digits(s)
  {
    if s == "" then 0
    else
      assert IsDigit(s[|s| - 1]);
      10 * Value(s[..|s| - 1]) + (s[|s| - 1] as int - 48)
  }

  /** The number of an id: G and two to four digits. */
  function Number(id: string): Option<nat> {
    if 3 <= |id| <= 5 && id[0] == 'G' && Digits(id[1..]) then Some(Value(id[1..])) else None
  }

  /** G and the number, with at least two digits. */
  function GapId(n: nat): string
    requires n <= LAST
  {
    "G" + (if n >= 1000 then [Digit(n / 1000)] else "") + (if n >= 100 then [Digit(n / 100 % 10)] else "") +
    [Digit(n / 10 % 10), Digit(n % 10)]
  }

  lemma ValueAppend(s: string, d: nat)
    requires Digits(s) && d < 10
    ensures Digits(s + [Digit(d)]) && Value(s + [Digit(d)]) == 10 * Value(s) + d
  {
    assert (s + [Digit(d)])[..|s|] == s;
  }

  lemma ValueOfOne(a: nat)
    requires a < 10
    ensures Digits([Digit(a)]) && Value([Digit(a)]) == a
  {
    var none := "";
    ValueAppend(none, a);
    assert none + [Digit(a)] == [Digit(a)];
  }

  lemma ValueOfTwo(a: nat, b: nat)
    requires a < 10 && b < 10
    ensures Digits([Digit(a), Digit(b)]) && Value([Digit(a), Digit(b)]) == 10 * a + b
  {
    var first := [Digit(a)];
    ValueOfOne(a);
    ValueAppend(first, b);
    assert first + [Digit(b)] == [Digit(a), Digit(b)];
  }

  lemma ValueOfThree(a: nat, b: nat, c: nat)
    requires a < 10 && b < 10 && c < 10
    ensures var s := [Digit(a), Digit(b), Digit(c)]; Digits(s) && Value(s) == 100 * a + 10 * b + c
  {
    ValueOfTwo(a, b);
    ValueAppend([Digit(a), Digit(b)], c);
    assert [Digit(a), Digit(b)] + [Digit(c)] == [Digit(a), Digit(b), Digit(c)];
  }

  lemma ValueOfFour(a: nat, b: nat, c: nat, d: nat)
    requires a < 10 && b < 10 && c < 10 && d < 10
    ensures var s := [Digit(a), Digit(b), Digit(c), Digit(d)]; Digits(s) && Value(s) == 1000 * a + 100 * b + 10 * c + d
  {
    ValueOfThree(a, b, c);
    ValueAppend([Digit(a), Digit(b), Digit(c)], d);
    assert [Digit(a), Digit(b), Digit(c)] + [Digit(d)] == [Digit(a), Digit(b), Digit(c), Digit(d)];
  }

  lemma DecimalParts(n: nat)
    requires n <= LAST
    ensures n / 1000 < 10 && n == 1000 * (n / 1000) + 100 * (n / 100 % 10) + 10 * (n / 10 % 10) + n % 10
    ensures (n < 1000 ==> n / 1000 == 0) && (n < 100 ==> n / 100 % 10 == 0)
  {
    var tens, hundreds := n / 10, n / 100;
    assert tens / 10 == hundreds && hundreds / 10 == n / 1000;
  }

  /** Issued ids are read back as their number, so they are all different. */
  lemma GapIdNumber(n: nat)
    requires n <= LAST
    ensures Number(GapId(n)) == Some(n)
  {
    var a, b, c, d := n / 1000, n / 100 % 10, n / 10 % 10, n % 10;
    DecimalParts(n);
    if n >= 1000 {
      ValueOfFour(a, b, c, d);
      assert GapId(n)[1..] == [Digit(a), Digit(b), Digit(c), Digit(d)];
    } else if n >= 100 {
      ValueOfThree(b, c, d);
      assert GapId(n)[1..] == [Digit(b), Digit(c), Digit(d)];
    } else {
      ValueOfTwo(c, d);
      assert GapId(n)[1..] == [Digit(c), Digit(d)];
    }
  }

  function Numbers(occupied: set<string>): set<nat> {
    set id | id in occupied && Number(id).Some? :: Number(id).value
  }

  function LargestUpTo(numbers: set<nat>, n: nat): nat {
    if n == 0 || n in numbers then n else LargestUpTo(numbers, n - 1)
  }

  /** Where the search for a free number starts: after the largest one in use, or over. */
  function FirstNumber(occupied: set<string>): (n: nat)
    ensures 1 <= n <= LAST
  {
    var largest := LargestUpTo(Numbers(occupied), LAST);
    if largest < LAST then largest + 1 else 1
  }

  function Candidate(occupied: set<string>, offset: nat): nat {
    (FirstNumber(occupied) - 1 + offset) % LAST + 1
  }

  /** The first free id among the last `left` candidates of the cycle. */
  function FreeWithin(occupied: set<string>, left: nat): Option<string>
    requires left <= LAST
  {
    if left == 0 then None
    else
      var id := GapId(Candidate(occupied, LAST - left));
      if id !in occupied then Some(id) else FreeWithin(occupied, left - 1)
  }

  /** The first free id, cyclically. */
  function FreeId(occupied: set<string>): Option<string> {
    FreeWithin(occupied, LAST)
  }

  lemma {:induction false} FreeWithinExact(occupied: set<string>, left: nat)
    requires left <= LAST
    ensures FreeWithin(occupied, left).Some? ==> FreeWithin(occupied, left).value !in occupied
    ensures FreeWithin(occupied, left).None? <==>
      forall k: nat :: LAST - left <= k < LAST ==> GapId(Candidate(occupied, k)) in occupied
  {
    if left > 0 {
      FreeWithinExact(occupied, left - 1);
    }
  }

  lemma EveryNumberTried(occupied: set<string>, n: nat) returns (k: nat)
    requires 1 <= n <= LAST
    ensures k < LAST && Candidate(occupied, k) == n
  {
    var first := FirstNumber(occupied);
    k := if n >= first then n - first else n - first + LAST;
    assert first - 1 + k == n - 1 || first - 1 + k == n - 1 + LAST;
  }

  /** Main theorem: the id issued is free, and there is none exactly when all are taken. */
  lemma FreshId(occupied: set<string>)
    ensures FreeId(occupied).Some? ==> FreeId(occupied).value !in occupied
    ensures FreeId(occupied).None? <==> forall n: nat :: 1 <= n <= LAST ==> GapId(n) in occupied
  {
    FreeWithinExact(occupied, LAST);
    if FreeId(occupied).None? {
      forall n: nat | 1 <= n <= LAST ensures GapId(n) in occupied {
        var k := EveryNumberTried(occupied, n);
      }
    }
  }

  /** Issue an id that is not in use. */
  method NextGapId(occupied: set<string>) returns (r: Option<string>)
    ensures r == FreeId(occupied)
  {
    for offset := 0 to LAST
      invariant FreeId(occupied) == FreeWithin(occupied, LAST - offset)
    {
      var candidate := GapId(Candidate(occupied, offset));
      if candidate !in occupied {
        return Some(candidate);
      }
    }
    return None;
  }

  // ----- Repairing a proposed batch -----

  /** A gap as proposed; `content` is everything but the ids. */
  datatype Gap = Gap(id: string, parent: Option<string>, content: string)

  datatype Request = Request(id: string, parent: Option<string>, requested: string, content: string)

  /** The id and parent a gap gets.  A gap that refines itself becomes a child when it exists
      and a root otherwise; ids in use are replaced; unknown parents are dropped. */
  function Normalized(ledger: set<string>, reserved: set<string>, gap: Gap): Option<Request> {
    var own := gap.parent == Some(gap.id);
    var first := if own && gap.id in ledger then FreeId(ledger + reserved) else Some(gap.id);
    var parent := if own && gap.id !in ledger then None else gap.parent;
    match first
    case None => None
    case Some(id) =>
      var taken := id in reserved || (id in ledger && parent.Some? && id != parent.value);
      match (if taken then FreeId(ledger + reserved) else Some(id))
      case None => None
      case Some(effective) =>
        Some(Request(effective, if parent.Some? && parent.value !in ledger then None else parent, gap.id, gap.content))
  }

  function RequestIds(requests: seq<Request>): set<string> {
    set i | 0 <= i < |requests| :: requests[i].id
  }

  /** The batch with exact repeats dropped and every gap normalized; None when ids run out. */
  function NormalizedBatch(ledger: set<string>, gaps: seq<Gap>): Option<seq<Request>> {
    if gaps == [] then Some([])
    else
      var n := |gaps| - 1;
      match NormalizedBatch(ledger, gaps[..n])
      case None => None
      case Some(before) =>
        if gaps[n] in gaps[..n] then Some(before)
        else
          match Normalized(ledger, RequestIds(before), gaps[n])
          case None => None
          case Some(request) => Some(before + [request])
  }

  /** What retrieval relies on: ids differ, and a parent is an old gap refined by a new one. */
  ghost predicate WellFormed(ledger: set<string>, requests: seq<Request>) {
    && (forall i, j :: 0 <= i < j < |requests| ==> requests[i].id != requests[j].id)
    && forall i :: 0 <= i < |requests| && requests[i].parent.Some? ==>
         requests[i].parent.value in ledger && requests[i].id !in ledger
  }

  lemma NormalizedIsNew(ledger: set<string>, reserved: set<string>, gap: Gap)
    ensures var r := Normalized(ledger, reserved, gap);
      r.Some? ==>
        r.value.id !in reserved && (r.value.parent.Some? ==> r.value.parent.value in ledger && r.value.id !in ledger)
    ensures var r := Normalized(ledger, reserved, gap);
      r.Some? && r.value.id != gap.id ==> gap.id in ledger + reserved
    ensures Normalized(ledger, reserved, gap).None? ==>
      forall n: nat :: 1 <= n <= LAST ==> GapId(n) in ledger + reserved
  {
    FreshId(ledger + reserved);
  }

  predicate Asks(q: Request, g: Gap) {
    g.id == q.requested && g.content == q.content
  }

  /** Proposed gaps without exact repeats. */
  function Unrepeated(gaps: seq<Gap>): seq<Gap> {
    if gaps == [] then []
    else
      var n := |gaps| - 1;
      Unrepeated(gaps[..n]) + (if gaps[n] in gaps[..n] then [] else [gaps[n]])
  }

  /** The requests ask, one by one, for what was proposed. */
  predicate Answers(gaps: seq<Gap>, requests: seq<Request>) {
    var asked := Unrepeated(gaps);
    |requests| == |asked| && forall i :: 0 <= i < |asked| ==> Asks(requests[i], asked[i])
  }

  /** Main theorem: a normalized batch is well formed and asks for exactly what was proposed. */
  lemma {:induction false} BatchWellFormed(ledger: set<string>, gaps: seq<Gap>)
    ensures var r := NormalizedBatch(ledger, gaps);
      r.Some? ==> WellFormed(ledger, r.value) && Answers(gaps, r.value)
  {
    if gaps != [] {
      var n := |gaps| - 1;
      BatchWellFormed(ledger, gaps[..n]);
      var before := NormalizedBatch(ledger, gaps[..n]);
      if before.Some? && gaps[n] !in gaps[..n] {
        NormalizedIsNew(ledger, RequestIds(before.value), gaps[n]);
      }
    }
  }

  // ----- The ledger -----

  datatype Status = Open | Available | Stagnant | Satisfied | Superseded | Unavailable

  datatype Entry = Entry(parent: Option<string>, retrievals: nat, status: Status, supersededBy: Option<string>)

  /** The entries, the order they were added in, the retrievals made, and the fuse. */
  datatype Ledger = Ledger(entries: map<string, Entry>, order: seq<string>, retrieved: seq<string>, cycles: nat,
                           disabled: bool)

  /** What a search yields for a request: something, nothing, or an infrastructure failure. */
  datatype Outcome = Found | Nothing | Failed

  datatype Progress = Progress(ledger: Ledger, performed: bool, failed: bool)

  /** The request is refused: the gap exists, or its parent is satisfied. */
  predicate Refused(l: Ledger, r: Request) {
    r.id in l.entries ||
    (r.parent.Some? && r.parent.value in l.entries && l.entries[r.parent.value].status == Satisfied)
  }

  function Supersede(entries: map<string, Entry>, parent: Option<string>, child: string): map<string, Entry> {
    if parent.Some? && parent.value in entries then
      entries[parent.value := entries[parent.value].(status := Superseded, supersededBy := Some(child))]
    else entries
  }

  /** Add the gap, supersede its parent, and search. */
  function Retrieve(l: Ledger, r: Request, outcome: Outcome): Ledger {
    var entry := match outcome
      case Found => Entry(r.parent, 1, Available, None)
      case Nothing => Entry(r.parent, 1, Stagnant, None)
      case Failed => Entry(r.parent, 0, Open, None);
    l.(entries := Supersede(l.entries, r.parent, r.id)[r.id := entry], order := l.order + [r.id],
       retrieved := l.retrieved + [r.id])
  }

  /** Requests in order; a failure stops the rest. */
  function RetrieveAll(l: Ledger, requests: seq<Request>, outcome: Request -> Outcome): Progress {
    if requests == [] then Progress(l, false, false)
    else
      var n := |requests| - 1;
      var p := RetrieveAll(l, requests[..n], outcome);
      if p.failed || Refused(p.ledger, requests[n]) then p
      else Progress(Retrieve(p.ledger, requests[n], outcome(requests[n])), true, outcome(requests[n]) == Failed)
  }

  function Unusable(e: Entry): Entry {
    if e.status in {Open, Available, Stagnant} then e.(status := Unavailable) else e
  }

  function Disable(l: Ledger, limit: nat): Ledger {
    l.(entries := map id | id in l.entries :: Unusable(l.entries[id]), cycles := limit, disabled := true)
  }

  function Closed(e: Entry): Entry {
    if e.status == Available then e.(status := Satisfied) else e
  }

  function Close(l: Ledger): Ledger {
    l.(entries := map id | id in l.entries :: Closed(l.entries[id]))
  }

  function Gather(l: Ledger, limit: nat, gaps: seq<Gap>, outcome: Request -> Outcome): Ledger {
    if l.disabled || l.cycles >= limit then l
    else
      match NormalizedBatch(l.entries.Keys, gaps)
      case None => l
      case Some(requests) =>
        var p := RetrieveAll(l, requests, outcome);
        if p.failed then Disable(p.ledger, limit)
        else if p.performed then p.ledger.(cycles := l.cycles + 1)
        else p.ledger
  }

  // ----- Runs -----

  datatype Event = Batch(gaps: seq<Gap>, outcome: Request -> Outcome) | Proceed | Breakdown

  function Step(l: Ledger, limit: nat, e: Event): Ledger {
    match e
    case Batch(gaps, outcome) => Gather(l, limit, gaps, outcome)
    case Proceed => Close(l)
    case Breakdown => Disable(l, limit)
  }

  const EMPTY := Ledger(map[], [], [], 0, false)

  function Run(limit: nat, h: seq<Event>, n: nat): Ledger
    requires n <= |h|
  {
    if n == 0 then EMPTY else Step(Run(limit, h, n - 1), limit, h[n - 1])
  }

  ghost predicate NoRepeats(s: seq<string>) {
    forall i, j :: 0 <= i < j < |s| ==> s[i] != s[j]
  }

  ghost predicate Older(order: seq<string>, a: string, b: string) {
    exists i, j :: 0 <= i < j < |order| && order[i] == a && order[j] == b
  }

  /** Each gap is listed and retrieved once, refines only older gaps, and is superseded only by
      one that refines it; the fuse holds. */
  ghost predicate Sound(l: Ledger, limit: nat) {
    && NoRepeats(l.order) && l.retrieved == l.order && (forall id :: id in l.order <==> id in l.entries)
    && l.cycles <= limit && (l.disabled ==> l.cycles == limit)
    && forall id :: id in l.entries ==> SoundEntry(l, id)
  }

  ghost predicate SoundEntry(l: Ledger, id: string)
    requires id in l.entries
  {
    var e := l.entries[id];
    && e.retrievals <= 1
    && (e.parent.Some? ==> Older(l.order, e.parent.value, id))
    && (e.status == Superseded <==> e.supersededBy.Some?)
    && (e.supersededBy.Some? ==>
          e.supersededBy.value in l.entries && l.entries[e.supersededBy.value].parent == Some(id))
  }

  /** What later ledgers keep: gaps and their parents, satisfied and superseded gaps, and the
      disabled fuse, after which nothing is retrieved. */
  ghost predicate Keeps(a: Ledger, b: Ledger) {
    && a.order <= b.order && a.cycles <= b.cycles
    && (a.disabled ==> b.disabled && b.retrieved == a.retrieved)
    && forall id :: id in a.entries ==>
         && id in b.entries && b.entries[id].parent == a.entries[id].parent
         && (a.entries[id].status == Satisfied ==> b.entries[id].status == Satisfied)
         && (a.entries[id].status == Superseded ==> b.entries[id].status == Superseded)
  }

  lemma OlderStays(order: seq<string>, more: seq<string>, a: string, b: string)
    requires Older(order, a, b)
    ensures Older(order + more, a, b)
  {
    var i, j :| 0 <= i < j < |order| && order[i] == a && order[j] == b;
    assert (order + more)[i] == a && (order + more)[j] == b;
  }

  /** The new entry is sound. */
  lemma NewEntrySound(l: Ledger, limit: nat, r: Request, outcome: Outcome)
    requires Sound(l, limit) && !Refused(l, r) && (r.parent.Some? ==> r.parent.value in l.entries)
    ensures SoundEntry(Retrieve(l, r, outcome), r.id)
  {
    var after := Retrieve(l, r, outcome);
    if r.parent.Some? {
      var i :| 0 <= i < |l.order| && l.order[i] == r.parent.value;
      assert after.order[i] == r.parent.value && after.order[|l.order|] == r.id;
    }
  }

  /** The entries that were there stay sound. */
  lemma OldEntrySound(l: Ledger, r: Request, outcome: Outcome, id: string)
    requires !Refused(l, r) && (r.parent.Some? ==> r.parent.value in l.entries)
    requires id in l.entries && SoundEntry(l, id)
    ensures SoundEntry(Retrieve(l, r, outcome), id)
  {
    if l.entries[id].parent.Some? {
      OlderStays(l.order, [r.id], l.entries[id].parent.value, id);
    }
  }

  /** One retrieval keeps the ledger sound. */
  lemma RetrieveSound(l: Ledger, limit: nat, r: Request, outcome: Outcome)
    requires Sound(l, limit) && !Refused(l, r) && !l.disabled && (r.parent.Some? ==> r.parent.value in l.entries)
    ensures Sound(Retrieve(l, r, outcome), limit)
  {
    var after := Retrieve(l, r, outcome);
    forall id | id in after.entries ensures SoundEntry(after, id) {
      if id == r.id {
        NewEntrySound(l, limit, r, outcome);
      } else {
        OldEntrySound(l, r, outcome, id);
      }
    }
    assert r.id !in l.order;
  }

  lemma RetrieveKeeps(l: Ledger, r: Request, outcome: Outcome)
    requires !Refused(l, r) && !l.disabled
    ensures Keeps(l, Retrieve(l, r, outcome))
  {}

  /** Retrieving well-formed requests: parents are old gaps, so they are in the ledger. */
  lemma {:induction false} RetrieveAllSound(l: Ledger, limit: nat, requests: seq<Request>, outcome: Request -> Outcome)
    requires Sound(l, limit) && !l.disabled && WellFormed(l.entries.Keys, requests)
    ensures var p := RetrieveAll(l, requests, outcome);
      Sound(p.ledger, limit) && Keeps(l, p.ledger) && p.ledger.cycles == l.cycles && !p.ledger.disabled
  {
    if requests != [] {
      var n := |requests| - 1;
      RetrieveAllSound(l, limit, requests[..n], outcome);
      var p := RetrieveAll(l, requests[..n], outcome);
      if !p.failed && !Refused(p.ledger, requests[n]) {
        RetrieveSound(p.ledger, limit, requests[n], outcome(requests[n]));
        RetrieveKeeps(p.ledger, requests[n], outcome(requests[n]));
      }
    }
  }

  lemma MappedSound(l: Ledger, after: Ledger, limit: nat)
    requires Sound(l, limit) && after.order == l.order && after.retrieved == l.retrieved
    requires after.entries.Keys == l.entries.Keys
    requires after.cycles <= limit && (after.disabled ==> after.cycles == limit) && l.cycles <= after.cycles
    requires (l.disabled ==> after.disabled)
    requires forall id :: id in l.entries ==>
      after.entries[id] == Unusable(l.entries[id]) || after.entries[id] == Closed(l.entries[id])
    ensures Sound(after, limit) && Keeps(l, after)
  {
    forall id | id in after.entries ensures SoundEntry(after, id) {
      assert SoundEntry(l, id);
    }
  }

  /** Main theorem: every event keeps the ledger sound and keeps what was settled. */
  lemma StepSound(l: Ledger, limit: nat, e: Event)
    requires Sound(l, limit)
    ensures Sound(Step(l, limit, e), limit) && Keeps(l, Step(l, limit, e))
  {
    match e
    case Batch(gaps, outcome) =>
      if !l.disabled && l.cycles < limit {
        var requests := NormalizedBatch(l.entries.Keys, gaps);
        if requests.Some? {
          BatchWellFormed(l.entries.Keys, gaps);
          RetrieveAllSound(l, limit, requests.value, outcome);
          var p := RetrieveAll(l, requests.value, outcome);
          if p.failed {
            MappedSound(p.ledger, Disable(p.ledger, limit), limit);
          }
        }
      }
    case Proceed =>
      MappedSound(l, Close(l), limit);
    case Breakdown =>
      MappedSound(l, Disable(l, limit), limit);
  }

  lemma NextSound(limit: nat, h: seq<Event>, n: nat)
    requires 0 < n <= |h| && Sound(Run(limit, h, n - 1), limit)
    ensures Sound(Run(limit, h, n), limit) && Keeps(Run(limit, h, n - 1), Run(limit, h, n))
  {
    StepSound(Run(limit, h, n - 1), limit, h[n - 1]);
  }

  lemma {:induction false} RunIsSound(limit: nat, h: seq<Event>, n: nat)
    requires n <= |h|
    ensures Sound(Run(limit, h, n), limit)
    decreases n
  {
    if n > 0 {
      RunIsSound(limit, h, n - 1);
      NextSound(limit, h, n);
    }
  }

  lemma KeepsItself(l: Ledger)
    ensures Keeps(l, l)
  {}

  lemma KeepsChain(a: Ledger, b: Ledger, c: Ledger)
    requires Keeps(a, b) && Keeps(b, c)
    ensures Keeps(a, c)
  {}

  /** Main theorem: at every point of every run the ledger is sound, and whatever was settled at
      an earlier point still is. */
  lemma {:induction false} RunSound(limit: nat, h: seq<Event>, m: nat, n: nat)
    requires m <= n <= |h|
    ensures Sound(Run(limit, h, n), limit) && Keeps(Run(limit, h, m), Run(limit, h, n))
    decreases n
  {
    if m == n {
      RunIsSound(limit, h, n);
      KeepsItself(Run(limit, h, n));
    } else {
      RunSound(limit, h, m, n - 1);
      NextSound(limit, h, n);
      KeepsChain(Run(limit, h, m), Run(limit, h, n - 1), Run(limit, h, n));
    }
  }

  // ----- The ledger object -----

  class EvidenceLedger {
    const limit: nat
    var entries: map<string, Entry>
    var order: seq<string>
    ghost var retrieved: seq<string>
    var cycles: nat
    var disabled: bool

    ghost function View(): Ledger
      reads this
    {
      Ledger(entries, order, retrieved, cycles, disabled)
    }

    ghost predicate Valid()
      reads this
    {
      Sound(View(), limit)
    }

    constructor (limit: nat)
      ensures Valid() && this.limit == limit && View() == EMPTY
    {
      this.limit := limit;
      entries, order, retrieved, cycles, disabled := map[], [], [], 0, false;
    }

    /** Retrieve a batch of gaps, or refuse when the fuse is spent.  A failing search disables
        retrieval for the rest of the phase. */
    method GatherEvidence(gaps: seq<Gap>, outcome: Request -> Outcome)
      requires Valid()
      modifies this
      ensures Valid() && View() == Gather(old(View()), limit, gaps, outcome) && Keeps(old(View()), View())
    {
      StepSound(View(), limit, Batch(gaps, outcome));
      if disabled || cycles >= limit {
        return;
      }
      var normalized := NormalizeBatch(gaps);
      if normalized.None? {
        return;
      }
      var performed, failed := RetrieveBatch(normalized.value, outcome);
      if failed {
        DisableEntries();
      } else if performed {
        cycles := cycles + 1;
      }
    }

    /** Retrieve requests in order until one fails. */
    method RetrieveBatch(requests: seq<Request>, outcome: Request -> Outcome) returns (performed: bool, failed: bool)
      modifies this`entries, this`order, this`retrieved
      ensures RetrieveAll(old(View()), requests, outcome) == Progress(View(), performed, failed)
    {
      performed, failed := false, false;
      var k := 0;
      while k < |requests| && !failed
        invariant k <= |requests|
        invariant RetrieveAll(old(View()), requests[..k], outcome) == Progress(View(), performed, failed)
      {
        assert requests[..k + 1][..k] == requests[..k];
        var done, broken := RetrieveGap(requests[k], outcome(requests[k]));
        performed, failed := performed || done, broken;
        k := k + 1;
      }
      FailureStops(old(View()), requests, outcome, k);
      assert requests[..|requests|] == requests;
    }

    /** Retrieve one gap, unless it exists or its parent is satisfied. */
    method RetrieveGap(r: Request, outcome: Outcome) returns (performed: bool, failed: bool)
      modifies this`entries, this`order, this`retrieved
      ensures performed == !Refused(old(View()), r) && failed == (performed && outcome == Failed)
      ensures View() == if performed then Retrieve(old(View()), r, outcome) else old(View())
    {
      if r.id in entries {
        return false, false;
      }
      if r.parent.Some? && r.parent.value in entries && entries[r.parent.value].status == Satisfied {
        return false, false;
      }
      entries := Supersede(entries, r.parent, r.id)[r.id := Entry(r.parent, 0, Open, None)];
      order := order + [r.id];
      retrieved := retrieved + [r.id];
      match outcome
      case Found =>
        entries := entries[r.id := Entry(r.parent, 1, Available, None)];
        return true, false;
      case Nothing =>
        entries := entries[r.id := Entry(r.parent, 1, Stagnant, None)];
        return true, false;
      case Failed =>
        return true, true;
    }

    method NormalizeBatch(gaps: seq<Gap>) returns (r: Option<seq<Request>>)
      ensures r == NormalizedBatch(entries.Keys, gaps)
    {
      var requests: seq<Request> := [];
      var reserved: set<string> := {};
      for k := 0 to |gaps|
        invariant NormalizedBatch(entries.Keys, gaps[..k]) == Some(requests)
        invariant reserved == RequestIds(requests)
      {
        assert gaps[..k + 1][..k] == gaps[..k];
        if gaps[k] !in gaps[..k] {
          var normalized := Normalized(entries.Keys, reserved, gaps[k]);
          if normalized.None? {
            OutOfIds(entries.Keys, gaps, k + 1);
            return None;
          }
          RequestIdsStep(requests, normalized.value);
          requests := requests + [normalized.value];
          reserved := reserved + {normalized.value.id};
        }
      }
      assert gaps[..|gaps|] == gaps;
      return Some(requests);
    }

    /** Spend the fuse and mark what can no longer be retrieved. */
    method DisableEntries()
      modifies this
      ensures View() == Disable(old(View()), limit)
    {
      disabled, cycles := true, limit;
      entries := map id | id in entries :: Unusable(entries[id]);
    }

    /** Close the gaps whose evidence was found, when the work proceeds. */
    method MarkSatisfied()
      requires Valid()
      modifies this`entries
      ensures Valid() && View() == Close(old(View())) && Keeps(old(View()), View())
    {
      StepSound(View(), limit, Proceed);
      entries := map id | id in entries :: Closed(entries[id]);
    }
  }

  lemma {:induction false} FailureStops(l: Ledger, requests: seq<Request>, outcome: Request -> Outcome, k: nat)
    requires k <= |requests|
    ensures RetrieveAll(l, requests[..k], outcome).failed ==>
      RetrieveAll(l, requests, outcome) == RetrieveAll(l, requests[..k], outcome)
    decreases |requests| - k
  {
    if k == |requests| {
      assert requests[..k] == requests;
    } else {
      FailureStops(l, requests, outcome, k + 1);
      assert requests[..k + 1][..k] == requests[..k];
    }
  }

  lemma {:induction false} OutOfIds(ledger: set<string>, gaps: seq<Gap>, k: nat)
    requires k <= |gaps| && NormalizedBatch(ledger, gaps[..k]).None?
    ensures NormalizedBatch(ledger, gaps).None?
    decreases |gaps| - k
  {
    if k == |gaps| {
      assert gaps[..k] == gaps;
    } else {
      assert gaps[..k + 1][..k] == gaps[..k];
      OutOfIds(ledger, gaps, k + 1);
    }
  }

  lemma RequestIdsStep(requests: seq<Request>, last: Request)
    ensures RequestIds(requests + [last]) == RequestIds(requests) + {last.id}
  {
    var all := requests + [last];
    assert all[|requests|] == last;
    forall i | 0 <= i < |requests| ensures requests[i].id in RequestIds(all) {
      assert all[i] == requests[i];
    }
  }

  // ----- In plain words -----

  /** The number a digit stands for. */
  function DigitOf(c: char): int {
    c as int - '0' as int
  }

  /** An id is the letter G and a number of two to four digits, with leading zeros up to two. */
  lemma GapIdWritten(n: nat)
    requires n <= 9999
    ensures var id := GapId(n);
      id[0] == 'G' && (forall i :: 0 < i < |id| ==> '0' <= id[i] <= '9') &&
      (n < 100 ==> |id| == 3 && n == 10 * DigitOf(id[1]) + DigitOf(id[2])) &&
      (100 <= n < 1000 ==> |id| == 4 && n == 100 * DigitOf(id[1]) + 10 * DigitOf(id[2]) + DigitOf(id[3])) &&
      (1000 <= n ==>
         |id| == 5 && n == 1000 * DigitOf(id[1]) + 100 * DigitOf(id[2]) + 10 * DigitOf(id[3]) + DigitOf(id[4]))
  {
    DecimalParts(n);
  }

  /** Exactly the letter G with two to four digits has a number, leading zeros or not. */
  lemma NumberRead(id: string)
    ensures Number(id).Some? <==>
      3 <= |id| <= 5 && id[0] == 'G' && forall i :: 0 < i < |id| ==> '0' <= id[i] <= '9'
    ensures Number(id).Some? && |id| == 3 ==> Number(id).value == 10 * DigitOf(id[1]) + DigitOf(id[2])
    ensures Number(id).Some? && |id| == 4 ==>
      Number(id).value == 100 * DigitOf(id[1]) + 10 * DigitOf(id[2]) + DigitOf(id[3])
    ensures Number(id).Some? && |id| == 5 ==>
      Number(id).value == 1000 * DigitOf(id[1]) + 100 * DigitOf(id[2]) + 10 * DigitOf(id[3]) + DigitOf(id[4])
  {
    if 3 <= |id| <= 5 && id[0] == 'G' {
      assert forall i :: 0 <= i < |id| - 1 ==> id[1..][i] == id[i + 1];
      if Digits(id[1..]) {
        forall i | 0 < i < |id| ensures '0' <= id[i] <= '9' && Digit(DigitOf(id[i])) == id[i] {
          assert IsDigit(id[1..][i - 1]);
        }
        DigitsRead(id[1..]);
      }
    }
  }

  lemma DigitsRead(t: string)
    requires 2 <= |t| <= 4 && Digits(t) && forall i :: 0 <= i < |t| ==> Digit(DigitOf(t[i])) == t[i]
    ensures |t| == 2 ==> Value(t) == 10 * DigitOf(t[0]) + DigitOf(t[1])
    ensures |t| == 3 ==> Value(t) == 100 * DigitOf(t[0]) + 10 * DigitOf(t[1]) + DigitOf(t[2])
    ensures |t| == 4 ==> Value(t) == 1000 * DigitOf(t[0]) + 100 * DigitOf(t[1]) + 10 * DigitOf(t[2]) + DigitOf(t[3])
  {
    if |t| == 2 {
      ValueOfTwo(DigitOf(t[0]), DigitOf(t[1]));
      assert t == [Digit(DigitOf(t[0])), Digit(DigitOf(t[1]))];
    } else if |t| == 3 {
      ValueOfThree(DigitOf(t[0]), DigitOf(t[1]), DigitOf(t[2]));
      assert t == [Digit(DigitOf(t[0])), Digit(DigitOf(t[1])), Digit(DigitOf(t[2]))];
    } else {
      ValueOfFour(DigitOf(t[0]), DigitOf(t[1]), DigitOf(t[2]), DigitOf(t[3]));
      assert t == [Digit(DigitOf(t[0])), Digit(DigitOf(t[1])), Digit(DigitOf(t[2])), Digit(DigitOf(t[3]))];
    }
  }

  /** The largest number among the ids, 0 when there is none. */
  ghost predicate Largest(occupied: set<string>, m: nat) {
    && (forall id :: id in occupied && Number(id).Some? ==> Number(id).value <= m)
    && (m == 0 || exists id :: id in occupied && Number(id) == Some(m))
  }

  lemma {:induction false} LargestFound(occupied: set<string>, m: nat, n: nat)
    requires Largest(occupied, m) && m <= n
    ensures LargestUpTo(Numbers(occupied), n) == m
  {
    if n > m {
      assert n !in Numbers(occupied);
      LargestFound(occupied, m, n - 1);
    } else if m > 0 {
      var id :| id in occupied && Number(id) == Some(m);
      assert Number(id).value in Numbers(occupied);
    }
  }

  /** The id issued is the one after the largest in use. */
  lemma NextAfterLargest(occupied: set<string>, m: nat)
    requires Largest(occupied, m) && m < 9999
    ensures FreeId(occupied) == Some(GapId(m + 1))
  {
    LargestFound(occupied, m, LAST);
    GapIdNumber(m + 1);
    assert GapId(m + 1) !in occupied;
    assert Candidate(occupied, 0) == m + 1;
  }

  lemma {:induction false} FirstFree(occupied: set<string>, left: nat, k: nat)
    requires LAST - left < k <= LAST && left <= LAST && FirstNumber(occupied) == 1
    requires GapId(k) !in occupied && forall j: nat :: LAST - left < j < k ==> GapId(j) in occupied
    ensures FreeWithin(occupied, left) == Some(GapId(k))
    decreases left
  {
    assert Candidate(occupied, LAST - left) == LAST - left + 1;
    if LAST - left + 1 < k {
      FirstFree(occupied, left - 1, k);
    }
  }

  /** Once the last number is in use, the first free one is issued. */
  lemma FirstFreeAfterLast(occupied: set<string>, k: nat)
    requires Largest(occupied, 9999) && 1 <= k <= 9999
    requires GapId(k) !in occupied && forall j: nat :: 1 <= j < k ==> GapId(j) in occupied
    ensures FreeId(occupied) == Some(GapId(k))
  {
    LargestFound(occupied, LAST, LAST);
    FirstFree(occupied, LAST, k);
  }

  /** A proposed id is issued anew exactly when the batch has it already, or the ledger has it and
      the gap refines another or itself; a parent is kept exactly when the ledger knows it. */
  lemma NormalizedExact(ledger: set<string>, reserved: set<string>, gap: Gap)
    ensures var reissued := gap.id in reserved || (gap.id in ledger && gap.parent.Some?);
      var parent := if gap.parent.Some? && gap.parent.value in ledger then gap.parent else None;
      var issued := FreeId(ledger + reserved);
      Normalized(ledger, reserved, gap) ==
        if !reissued then Some(Request(gap.id, parent, gap.id, gap.content))
        else if issued.None? then None
        else Some(Request(issued.value, parent, gap.id, gap.content))
  {
    FreshId(ledger + reserved);
  }

  /** A request is refused exactly when its gap was retrieved before or refines a satisfied one.
      Otherwise its gap is entered with what the search yielded, and its parent is superseded. */
  lemma RetrieveExact(l: Ledger, r: Request, outcome: Outcome)
    ensures Refused(l, r) <==>
      r.id in l.entries ||
      (r.parent.Some? && r.parent.value in l.entries && l.entries[r.parent.value].status == Satisfied)
    ensures !Refused(l, r) ==> var after := Retrieve(l, r, outcome);
      r.id in after.entries && after.entries[r.id].parent == r.parent && after.entries[r.id].supersededBy == None &&
      (outcome == Found ==> after.entries[r.id].status == Available && after.entries[r.id].retrievals == 1) &&
      (outcome == Nothing ==> after.entries[r.id].status == Stagnant && after.entries[r.id].retrievals == 1) &&
      (outcome == Failed ==> after.entries[r.id].status == Open && after.entries[r.id].retrievals == 0) &&
      after.entries.Keys == l.entries.Keys + {r.id} && after.order == l.order + [r.id] &&
      after.cycles == l.cycles && after.disabled == l.disabled
    ensures !Refused(l, r) ==> forall id :: id in l.entries ==>
      Retrieve(l, r, outcome).entries[id] ==
        if r.parent == Some(id) then l.entries[id].(status := Superseded, supersededBy := Some(r.id)) else l.entries[id]
  {}

  /** Disabling makes open, available and stagnant gaps unavailable, spends the fuse, and leaves
      the rest. */
  lemma DisableExact(l: Ledger, limit: nat, id: string)
    ensures Disable(l, limit).disabled && Disable(l, limit).cycles == limit
    ensures Disable(l, limit).entries.Keys == l.entries.Keys && Disable(l, limit).order == l.order
    ensures id in l.entries ==> var e := l.entries[id];
      Disable(l, limit).entries[id] ==
      if e.status == Open || e.status == Available || e.status == Stagnant then e.(status := Unavailable) else e
  {}

  /** Closing satisfies exactly the available gaps. */
  lemma CloseExact(l: Ledger, id: string)
    ensures Close(l).entries.Keys == l.entries.Keys && Close(l) == l.(entries := Close(l).entries)
    ensures id in l.entries ==> var e := l.entries[id];
      Close(l).entries[id] == if e.status == Available then e.(status := Satisfied) else e
  {}

  /** A batch is ignored once retrieval is disabled or the limit is reached; otherwise it costs
      one cycle when something was retrieved, and the whole fuse when a search failed. */
  lemma GatherCycles(l: Ledger, limit: nat, gaps: seq<Gap>, outcome: Request -> Outcome)
    ensures l.disabled || l.cycles >= limit ==> Gather(l, limit, gaps, outcome) == l
    ensures !l.disabled && l.cycles < limit ==> var after := Gather(l, limit, gaps, outcome);
      (after.disabled <==> exists r :: Tried(l, gaps, outcome, r) && outcome(r) == Failed) &&
      after.cycles ==
        if after.disabled then limit else if after.order == l.order then l.cycles else l.cycles + 1
  {
    if !l.disabled && l.cycles < limit && NormalizedBatch(l.entries.Keys, gaps).Some? {
      TriedAll(l, NormalizedBatch(l.entries.Keys, gaps).value, outcome);
    }
  }

  /** The request of the batch is reached and not refused. */
  ghost predicate Tried(l: Ledger, gaps: seq<Gap>, outcome: Request -> Outcome, r: Request) {
    NormalizedBatch(l.entries.Keys, gaps).Some? && TriedOf(l, NormalizedBatch(l.entries.Keys, gaps).value, outcome, r)
  }

  ghost predicate TriedOf(l: Ledger, requests: seq<Request>, outcome: Request -> Outcome, r: Request) {
    exists k :: 0 <= k < |requests| && requests[k] == r && TriedAt(l, requests, outcome, k)
  }

  /** No search failed before the k-th request, and it is not refused. */
  ghost predicate TriedAt(l: Ledger, requests: seq<Request>, outcome: Request -> Outcome, k: nat)
    requires k < |requests|
  {
    var before := RetrieveAll(l, requests[..k], outcome);
    !before.failed && !Refused(before.ledger, requests[k])
  }

  lemma {:induction false} TriedAll(l: Ledger, requests: seq<Request>, outcome: Request -> Outcome)
    ensures var p := RetrieveAll(l, requests, outcome);
      (p.failed <==> exists r :: TriedOf(l, requests, outcome, r) && outcome(r) == Failed) &&
      (p.performed <==> p.ledger.order != l.order) && |p.ledger.order| >= |l.order| && (p.failed ==> p.performed) &&
      p.ledger.cycles == l.cycles && p.ledger.disabled == l.disabled
  {
    if requests != [] {
      var n := |requests| - 1;
      TriedAll(l, requests[..n], outcome);
      forall r
        ensures TriedOf(l, requests, outcome, r) <==>
          TriedOf(l, requests[..n], outcome, r) || (r == requests[n] && TriedAt(l, requests, outcome, n))
      {
        TriedStep(l, requests, outcome, r);
      }
    }
  }

  lemma TriedStep(l: Ledger, requests: seq<Request>, outcome: Request -> Outcome, r: Request)
    requires requests != []
    ensures var n := |requests| - 1;
      TriedOf(l, requests, outcome, r) <==>
      TriedOf(l, requests[..n], outcome, r) || (r == requests[n] && TriedAt(l, requests, outcome, n))
  {
    var n := |requests| - 1;
    var rest := requests[..n];
    forall k: nat | k < n ensures TriedAt(l, rest, outcome, k) <==> TriedAt(l, requests, outcome, k) {
      assert rest[..k] == requests[..k];
    }
    if k :| 0 <= k < n && rest[k] == r && TriedAt(l, rest, outcome, k) {
      assert requests[k] == r && TriedAt(l, requests, outcome, k);
    }
    if k :| 0 <= k < n && requests[k] == r && TriedAt(l, requests, outcome, k) {
      assert rest[k] == r && TriedAt(l, rest, outcome, k);
    }
  }

  /** No earlier gap is equal. */
  predicate FirstGap(gaps: seq<Gap>, i: nat)
    requires i < |gaps|
  {
    gaps[i] !in gaps[..i]
  }

  /** Ascending places of gaps that are no repeats. */
  ghost predicate FirstPlaces(gaps: seq<Gap>, kept: seq<Gap>, places: seq<nat>) {
    && |places| == |kept|
    && (forall i, j :: 0 <= i < j < |places| ==> places[i] < places[j])
    && forall i :: 0 <= i < |places| ==> places[i] < |gaps| && kept[i] == gaps[places[i]] && FirstGap(gaps, places[i])
  }

  lemma OneMoreGap(gaps: seq<Gap>, g: Gap, kept: seq<Gap>, places: seq<nat>)
    requires FirstPlaces(gaps, kept, places)
    ensures FirstPlaces(gaps + [g], kept, places)
    ensures g !in gaps ==> FirstPlaces(gaps + [g], kept + [g], places + [|gaps|])
  {
    var more := gaps + [g];
    assert more[..|gaps|] == gaps;
    forall i | 0 <= i < |places| ensures FirstGap(more, places[i]) && more[places[i]] == gaps[places[i]] {
      assert more[..places[i]] == gaps[..places[i]];
      assert FirstGap(gaps, places[i]);
    }
  }

  /** Of equal gaps the first is kept, and the order stays. */
  lemma {:induction false} UnrepeatedKeepsFirst(gaps: seq<Gap>) returns (places: seq<nat>)
    ensures FirstPlaces(gaps, Unrepeated(gaps), places)
  {
    if gaps == [] {
      places := [];
    } else {
      var n := |gaps| - 1;
      var before := UnrepeatedKeepsFirst(gaps[..n]);
      OneMoreGap(gaps[..n], gaps[n], Unrepeated(gaps[..n]), before);
      assert gaps == gaps[..n] + [gaps[n]];
      places := if gaps[n] in gaps[..n] then before else before + [n];
    }
  }

  lemma {:induction false} UnrepeatedKeepsAll(gaps: seq<Gap>, g: Gap)
    ensures g in Unrepeated(gaps) <==> g in gaps
  {
    if gaps != [] {
      var n := |gaps| - 1;
      UnrepeatedKeepsAll(gaps[..n], g);
      assert gaps == gaps[..n] + [gaps[n]];
    }
  }
}
