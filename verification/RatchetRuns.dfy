/**
 * Whole runs of the ratchet: copies of one device, exchanges whose attestations are judged late, out of
 * order or never, legacy reports and resets.
 */
module RatchetRuns {
  import opened Bytes
  import opened Options
  import opened RatchetWire
  import opened RatchetBackend

  type Mac = (Bytes, Bytes) -> Bytes

  // What can happen to one device identity. An exchange moves the copy of the device that runs it; the
  // backend judges its attestation when the phone delivers it, at any later time or never. An exchange is
  // known by its place in the run.
  datatype Event =
    | Exchanged(copy: nat, rc: Bytes, next: Bytes)
    | Delivered(x: nat)
    | Reported(status: Verdict)
    | Cleared
    | Erased(copy: nat)
    | Copied(from: nat, to: nat)
    | Idle

  // The proofs stored by the copies of the device, the attestations made by the events so far, and the
  // backend's row.
  datatype World = World(held: map<nat, Bytes>, made: seq<Option<Exchange>>, row: Option<Row>)

  // The claim of a copy: the device side of ratchet_derive.
  function Claim(mac: Mac, held: Option<Bytes>, rc: Bytes, next: Bytes): Exchange {
    match held
    case Some(prior) => Exchange([], rc, mac(prior, rc), next, 1)
    case None => Exchange([], [], [], next, 0)
  }

  // The row that judging an attestation leaves.
  function RowAfter(mac: Mac, row: Option<Row>, e: Exchange): Row {
    Row(VerdictOf(mac, row, e), Some(e.nextProof), Server, 0)
  }

  function HeldAfter(held: map<nat, Bytes>, e: Event): map<nat, Bytes> {
    match e
    case Exchanged(copy, _, next) => held[copy := next]
    case Erased(copy) => held - {copy}
    case Copied(from, to) => if from in held then held[to := held[from]] else held - {to}
    case _ => held
  }

  function MadeBy(mac: Mac, held: map<nat, Bytes>, e: Event): Option<Exchange> {
    match e
    case Exchanged(copy, rc, next) => Some(Claim(mac, Lookup(held, copy), rc, next))
    case _ => None
  }

  function RowBy(mac: Mac, w: World, e: Event): Option<Row> {
    match e
    case Delivered(x) => if x < |w.made| && w.made[x].Some? then Some(RowAfter(mac, w.row, w.made[x].value)) else w.row
    case Reported(status) => Some(Row(status, ProofOnFile(w.row), ClientReported, 0))
    case Cleared => None
    case _ => w.row
  }

  function After(mac: Mac, w: World, e: Event): World {
    World(HeldAfter(w.held, e), w.made + [MadeBy(mac, w.held, e)], RowBy(mac, w, e))
  }

  function Run(mac: Mac, events: seq<Event>): World {
    if events == [] then World(map[], [], None)
    else After(mac, Run(mac, events[..|events| - 1]), events[|events| - 1])
  }

  predicate ExchangedAt(events: seq<Event>, i: int) {
    0 <= i < |events| && events[i].Exchanged?
  }

  // Event j judges the attestation of an earlier exchange.
  predicate JudgedAt(events: seq<Event>, j: int) {
    0 <= j < |events| && events[j].Delivered? && events[j].x < j && ExchangedAt(events, events[j].x)
  }

  // The attestation that exchange x makes.
  function AttestationOf(mac: Mac, events: seq<Event>, x: nat): Exchange
    requires ExchangedAt(events, x)
  {
    Claim(mac, Lookup(Run(mac, events[..x]).held, events[x].copy), events[x].rc, events[x].next)
  }

  // The verdict of event j.
  function VerdictAt(mac: Mac, events: seq<Event>, j: nat): Verdict
    requires JudgedAt(events, j)
  {
    VerdictOf(mac, Run(mac, events[..j]).row, AttestationOf(mac, events, events[j].x))
  }

  lemma {:induction false} MadeByHistory(mac: Mac, events: seq<Event>)
    ensures |Run(mac, events).made| == |events|
    ensures forall x: nat :: x < |events| ==> Run(mac, events).made[x] == MadeAt(mac, events, x)
  {
    if events == [] {
    } else {
      var n := |events| - 1;
      MadeByHistory(mac, events[..n]);
      MadeLast(mac, events);
      forall x: nat | x < n
        ensures MadeAt(mac, events, x) == MadeAt(mac, events[..n], x)
      {
        MadeBeforeLast(mac, events, x);
      }
      hide Run, MadeAt;
    }
  }

  // What event x adds to the attestations made.
  function MadeAt(mac: Mac, events: seq<Event>, x: nat): Option<Exchange>
    requires x < |events|
  {
    if events[x].Exchanged? then Some(AttestationOf(mac, events, x)) else None
  }

  lemma MadeLast(mac: Mac, events: seq<Event>)
    requires events != []
    ensures var n := |events| - 1; Run(mac, events).made == Run(mac, events[..n]).made + [MadeAt(mac, events, n)]
  {
    LastStep(mac, events);
    hide Run, Claim, Lookup, HeldAfter, RowBy;
  }

  lemma MadeBeforeLast(mac: Mac, events: seq<Event>, x: nat)
    requires x < |events| - 1
    ensures MadeAt(mac, events, x) == MadeAt(mac, events[..|events| - 1], x)
  {
    hide Run, Claim;
    assert events[..|events| - 1][..x] == events[..x];
  }

  lemma LastStep(mac: Mac, events: seq<Event>)
    requires events != []
    ensures var n := |events| - 1; Run(mac, events) == After(mac, Run(mac, events[..n]), events[n])
  {
    hide After;
  }

  // So that is the verdict that the run writes into the row.
  lemma JudgedRow(mac: Mac, events: seq<Event>, j: nat)
    requires JudgedAt(events, j)
    ensures Run(mac, events[..j + 1]).row == Some(Row(VerdictAt(mac, events, j), Some(events[events[j].x].next), Server, 0))
  {
    var x := events[j].x;
    MadeByHistory(mac, events[..j]);
    LastStep(mac, events[..j + 1]);
    hide Run, Claim, VerdictOf;
    assert events[..j + 1][..j] == events[..j] && events[..j][..x] == events[..x];
    assert Run(mac, events[..j]).made[x] == Some(AttestationOf(mac, events, x));
  }

  // ---- the same in terms of the history alone ----

  // The exchange that made the proof a copy holds.
  function Producer(events: seq<Event>, copy: nat): (i: Option<nat>)
    ensures i.Some? ==> ExchangedAt(events, i.value)
  {
    if events == [] then None
    else
      var n := |events| - 1;
      match events[n]
      case Exchanged(c, _, _) => if c == copy then Some(n) else Producer(events[..n], copy)
      case Erased(c) => if c == copy then None else Producer(events[..n], copy)
      case Copied(from, to) => Producer(events[..n], if to == copy then from else copy)
      case _ => Producer(events[..n], copy)
  }

  // The exchange judged last since the last clearing.
  function LastJudged(events: seq<Event>): (x: Option<nat>)
    ensures x.Some? ==> ExchangedAt(events, x.value)
  {
    if events == [] then None
    else
      var n := |events| - 1;
      if JudgedAt(events, n) then Some(events[n].x)
      else if events[n].Cleared? then None
      else LastJudged(events[..n])
  }

  function ProofAt(events: seq<Event>, i: Option<nat>): Option<Bytes>
    requires i.Some? ==> ExchangedAt(events, i.value)
  {
    if i.Some? then Some(events[i.value].next) else None
  }

  lemma {:induction false} HeldByHistory(mac: Mac, events: seq<Event>, copy: nat)
    ensures Lookup(Run(mac, events).held, copy) == ProofAt(events, Producer(events, copy))
  {
    if events == [] {
    } else {
      var n := |events| - 1;
      HeldByHistory(mac, events[..n], copy);
      if events[n].Copied? { HeldByHistory(mac, events[..n], events[n].from); }
    }
  }

  lemma {:induction false} OnFileByHistory(mac: Mac, events: seq<Event>)
    ensures ProofOnFile(Run(mac, events).row) == ProofAt(events, LastJudged(events))
  {
    if events == [] {
    } else {
      var n := |events| - 1;
      OnFileByHistory(mac, events[..n]);
      MadeByHistory(mac, events[..n]);
      LastStep(mac, events);
      hide Run, Claim, VerdictOf;
    }
  }

  ghost predicate DistinctProofs(events: seq<Event>) {
    forall i, j :: 0 <= i < j < |events| && events[i].Exchanged? && events[j].Exchanged? ==> events[i].next != events[j].next
  }

  // The MAC tells the proofs of this run apart on the challenges of this run; injectivity in 32-byte
  // keys is more than that.
  ghost predicate SeparatesKeys(mac: Mac, events: seq<Event>) {
    forall i, j, l :: ExchangedAt(events, i) && ExchangedAt(events, j) && ExchangedAt(events, l) ==>
      mac(events[i].next, events[l].rc) == mac(events[j].next, events[l].rc) ==> events[i].next == events[j].next
  }

  // Every verdict is decided by which exchange made the proof that the copy held when it ran the exchange,
  // and which exchange was judged last when the attestation arrived.
  lemma VerdictByHistory(mac: Mac, events: seq<Event>, j: nat)
    requires JudgedAt(events, j) && DistinctProofs(events) && SeparatesKeys(mac, events)
    ensures var x := events[j].x;
            VerdictAt(mac, events, j) ==
            match (Producer(events[..x], events[x].copy), LastJudged(events[..j]))
            case (None, _) => Bootstrap
            case (Some(_), None) => Unverifiable
            case (Some(p), Some(a)) => if p == a then Verified else Mismatch
  {
    var x := events[j].x;
    HeldByHistory(mac, events[..x], events[x].copy);
    OnFileByHistory(mac, events[..j]);
    hide Run, Producer, LastJudged;
    var p, a := Producer(events[..x], events[x].copy), LastJudged(events[..j]);
    assert p.Some? ==> ExchangedAt(events[..x], p.value) && ExchangedAt(events, p.value);
    assert a.Some? ==> ExchangedAt(events[..j], a.value) && ExchangedAt(events, a.value);
  }

  // The half of it that rests on no hypothesis.
  lemma VerifiedByHistory(mac: Mac, events: seq<Event>, j: nat)
    requires JudgedAt(events, j)
    ensures var x := events[j].x;
            var (p, a) := (Producer(events[..x], events[x].copy), LastJudged(events[..j]));
            && (p.None? ==> VerdictAt(mac, events, j) == Bootstrap)
            && (p.Some? && a.None? ==> VerdictAt(mac, events, j) == Unverifiable)
            && (p.Some? && p == a ==> VerdictAt(mac, events, j) == Verified)
  {
    var x := events[j].x;
    HeldByHistory(mac, events[..x], events[x].copy);
    OnFileByHistory(mac, events[..j]);
    hide Run, Producer, LastJudged;
  }

  // A hand-over: the exchange judged last was run by another copy, and this copy's proof was from an
  // exchange of its own.
  lemma HandOverIsMismatch(mac: Mac, events: seq<Event>, j: nat)
    requires JudgedAt(events, j) && DistinctProofs(events) && SeparatesKeys(mac, events)
    requires var x := events[j].x;
             var (p, a) := (Producer(events[..x], events[x].copy), LastJudged(events[..j]));
             p.Some? && a.Some? && events[p.value].copy == events[x].copy != events[a.value].copy
    ensures VerdictAt(mac, events, j) == Mismatch
  {
    VerdictByHistory(mac, events, j);
  }

  // ---- a single device ----

  ghost predicate SingleDevice(events: seq<Event>) {
    forall e :: e in events ==> !e.Copied? && !e.Erased? && (e.Exchanged? ==> e.copy == 0)
  }

  // Exchange p is the one made immediately before x.
  ghost predicate MadeBefore(events: seq<Event>, p: int, x: int) {
    p < x && ExchangedAt(events, p) && forall k :: p < k < x ==> !ExchangedAt(events, k)
  }

  lemma {:induction false} ProducerIsLast(events: seq<Event>)
    requires SingleDevice(events)
    ensures var p := Producer(events, 0);
            (p.None? ==> forall k :: 0 <= k < |events| ==> !events[k].Exchanged?)
            && (p.Some? ==> forall k :: p.value < k < |events| ==> !events[k].Exchanged?)
  {
    if events == [] {
    } else {
      var n := |events| - 1;
      assert events[..n] + [events[n]] == events;
      ProducerIsLast(events[..n]);
      assert forall k :: 0 <= k < n ==> events[..n][k] == events[k];
    }
  }

  // With one device, an attestation judged against a proof on file is verified if the exchange judged last
  // is the one made immediately before its own, and a mismatch otherwise.
  lemma MismatchUnlessPrevious(mac: Mac, events: seq<Event>, j: nat)
    requires JudgedAt(events, j) && DistinctProofs(events) && SeparatesKeys(mac, events)
    requires SingleDevice(events) && LastJudged(events[..j]).Some?
    ensures var (x, a) := (events[j].x, LastJudged(events[..j]).value);
            VerdictAt(mac, events, j) ==
            if forall p :: !MadeBefore(events, p, x) then Bootstrap
            else if MadeBefore(events, a, x) then Verified
            else Mismatch
  {
    hide SeparatesKeys, DistinctProofs, VerdictAt;
    var x, a := events[j].x, LastJudged(events[..j]).value;
    VerdictByHistory(mac, events, j);
    var h := events[..x];
    ProducerIsLast(h);
    assert events[x] in events && forall k :: 0 <= k < x ==> h[k] == events[k];
    var p := Producer(h, 0);
    if p.Some? {
      assert MadeBefore(events, p.value, x);
      if MadeBefore(events, a, x) { OnePrevious(events, a, p.value, x); }
    } else {
      assert forall k :: 0 <= k < x ==> !events[k].Exchanged?;
    }
  }

  lemma OnePrevious(events: seq<Event>, p: int, q: int, x: int)
    requires MadeBefore(events, p, x) && MadeBefore(events, q, x)
    ensures p == q
  {
  }

  // ---- what happens between two judgements ----

  ghost predicate QuietBackend(events: seq<Event>, i: int, j: int) {
    forall k :: i < k < j && 0 <= k < |events| ==> !JudgedAt(events, k) && !events[k].Cleared?
  }

  ghost predicate QuietDevice(events: seq<Event>, copy: nat, a: int, x: int) {
    forall k :: a < k < x && 0 <= k < |events| ==>
      !(events[k].Exchanged? && events[k].copy == copy) && events[k] != Erased(copy) && !(events[k].Copied? && events[k].to == copy)
  }

  lemma {:induction false} LastJudgedAfter(events: seq<Event>, i: nat, j: nat)
    requires i < j <= |events| && JudgedAt(events, i) && QuietBackend(events, i, j)
    ensures LastJudged(events[..j]) == Some(events[i].x)
  {
    var h := events[..j];
    assert h[..j - 1] == events[..j - 1];
    if i + 1 == j {
      assert JudgedAt(h, i);
    } else {
      LastJudgedAfter(events, i, j - 1);
      assert JudgedAt(h, j - 1) ==> JudgedAt(events, j - 1);
    }
  }

  lemma {:induction false} NothingJudgedAfter(events: seq<Event>, c: nat, j: nat)
    requires c < j <= |events| && events[c].Cleared? && forall k :: c < k < j ==> !JudgedAt(events, k)
    ensures LastJudged(events[..j]) == None
  {
    var h := events[..j];
    assert h[..j - 1] == events[..j - 1];
    assert JudgedAt(h, j - 1) ==> JudgedAt(events, j - 1);
    if c + 1 == j || events[j - 1].Cleared? {
    } else {
      NothingJudgedAfter(events, c, j - 1);
    }
  }

  lemma {:induction false} ProducerAfter(events: seq<Event>, copy: nat, a: nat, x: nat)
    requires a < x <= |events| && ExchangedAt(events, a) && events[a].copy == copy && QuietDevice(events, copy, a, x)
    ensures Producer(events[..x], copy) == Some(a)
  {
    assert events[..x][..x - 1] == events[..x - 1];
    if a + 1 == x {
    } else {
      ProducerAfter(events, copy, a, x - 1);
    }
  }

  // The exchange judged last is one that some event judged, with no judgement after it.
  lemma {:induction false} LastJudgement(events: seq<Event>, j: nat) returns (i: nat)
    requires j <= |events| && LastJudged(events[..j]).Some?
    ensures i < j && JudgedAt(events, i) && LastJudged(events[..j]) == Some(events[i].x) && QuietBackend(events, i, j)
  {
    var h := events[..j];
    assert j > 0 && h[..j - 1] == events[..j - 1];
    assert JudgedAt(h, j - 1) <==> JudgedAt(events, j - 1);
    if JudgedAt(events, j - 1) {
      i := j - 1;
    } else {
      i := LastJudgement(events, j - 1);
    }
  }

  // Whatever the verdict on an attestation, the one of the copy's next exchange is verified if nothing else
  // is judged between them: a burst of losses costs one mismatch.
  lemma NextIsVerified(mac: Mac, events: seq<Event>, i: nat, j: nat)
    requires i < j && JudgedAt(events, i) && JudgedAt(events, j) && QuietBackend(events, i, j)
    requires var (a, x) := (events[i].x, events[j].x);
             a < x && events[a].copy == events[x].copy && QuietDevice(events, events[a].copy, a, x)
    ensures VerdictAt(mac, events, j) == Verified
  {
    LastJudgedAfter(events, i, j);
    ProducerAfter(events, events[events[i].x].copy, events[i].x, events[j].x);
    hide VerdictAt, QuietBackend, QuietDevice, Producer, LastJudged;
    VerifiedByHistory(mac, events, j);
  }

  // After a clearing, and until another attestation is judged, no attestation of any copy is a mismatch,
  // whenever it was made.
  lemma ClearedIsUnverifiable(mac: Mac, events: seq<Event>, c: nat, j: nat)
    requires c < j && JudgedAt(events, j) && events[c].Cleared? && forall k :: c < k < j ==> !JudgedAt(events, k)
    ensures var x := events[j].x;
            VerdictAt(mac, events, j) == if Producer(events[..x], events[x].copy).None? then Bootstrap else Unverifiable
  {
    NothingJudgedAfter(events, c, j);
    hide VerdictAt, Producer, LastJudged;
    VerifiedByHistory(mac, events, j);
  }

  // ---- sessions that do not overlap ----

  // An attestation is judged before the next exchange or never, and once.
  ghost predicate Sequential(events: seq<Event>) {
    && (forall j, k :: JudgedAt(events, j) && events[j].x < k < j ==> !ExchangedAt(events, k))
    && (forall i, j :: JudgedAt(events, i) && JudgedAt(events, j) && events[i].x == events[j].x ==> i == j)
  }

  // An exchange between a and x whose attestation nobody has judged by j.
  ghost predicate LostBetween(events: seq<Event>, a: int, x: int, j: int) {
    exists k :: a < k < x && ExchangedAt(events, k) && forall i :: 0 <= i < j && JudgedAt(events, i) ==> events[i].x != k
  }

  // With one device and sessions that do not overlap, a mismatch means exactly that an exchange was lost
  // since the one judged last.
  lemma MismatchIsLoss(mac: Mac, events: seq<Event>, j: nat)
    requires JudgedAt(events, j) && DistinctProofs(events) && SeparatesKeys(mac, events)
    requires SingleDevice(events) && Sequential(events) && LastJudged(events[..j]).Some?
    ensures var (x, a) := (events[j].x, LastJudged(events[..j]).value);
            a < x && VerdictAt(mac, events, j) == if LostBetween(events, a, x, j) then Mismatch else Verified
  {
    var i := LastJudgement(events, j);
    hide SeparatesKeys, DistinctProofs, VerdictAt, LastJudged;
    MismatchUnlessPrevious(mac, events, j);
    hide SingleDevice;
    var x, a := events[j].x, events[i].x;
    assert a < x by { assert a != x; assert !(x < a < j); }
    forall k | a < k < x && ExchangedAt(events, k)
      ensures forall l :: 0 <= l < j && JudgedAt(events, l) ==> events[l].x != k
    {
      assert i <= k;
      forall l | 0 <= l < j && JudgedAt(events, l)
        ensures events[l].x != k
      {
        assert l <= i;
      }
    }
    if MadeBefore(events, a, x) {
      assert !LostBetween(events, a, x, j);
    } else {
      var k :| a < k < x && ExchangedAt(events, k);
      SomePrevious(events, x, k);
    }
    if forall p :: !MadeBefore(events, p, x) { SomePrevious(events, x, a); }
  }

  lemma {:induction false} SomePrevious(events: seq<Event>, x: nat, k: nat)
    requires k < x && ExchangedAt(events, k)
    ensures exists p :: MadeBefore(events, p, x)
    decreases x - k
  {
    if l :| k < l < x && ExchangedAt(events, l) {
      SomePrevious(events, x, l);
    } else {
      assert MadeBefore(events, k, x);
    }
  }

  // Sessions of one device that overlap: two exchanges are made and judged in the other order, and the next
  // session follows. Every attestation is judged, and the last three are mismatches all the same.
  function Overlapping(rc: (Bytes, Bytes, Bytes, Bytes), next: (Bytes, Bytes, Bytes, Bytes)): seq<Event> {
    [Exchanged(0, rc.0, next.0), Delivered(0), Exchanged(0, rc.1, next.1), Exchanged(0, rc.2, next.2), Delivered(3), Delivered(2),
     Exchanged(0, rc.3, next.3), Delivered(6)]
  }

  lemma OverlapWithoutLoss(mac: Mac, rc: (Bytes, Bytes, Bytes, Bytes), next: (Bytes, Bytes, Bytes, Bytes))
    requires var events := Overlapping(rc, next); DistinctProofs(events) && SeparatesKeys(mac, events)
    ensures var events := Overlapping(rc, next);
            && SingleDevice(events)
            && (forall x :: ExchangedAt(events, x) ==> exists j :: JudgedAt(events, j) && events[j].x == x)
            && JudgedAt(events, 4) && JudgedAt(events, 5) && JudgedAt(events, 7)
            && VerdictAt(mac, events, 4) == VerdictAt(mac, events, 5) == VerdictAt(mac, events, 7) == Mismatch
  {
    var events := Overlapping(rc, next);
    OverlapEvents(rc, next);
    hide Overlapping, SeparatesKeys, DistinctProofs, SingleDevice, VerdictAt, QuietBackend, MadeBefore;
    OvertakenIsMismatch(mac, events, 1, 4, 2);
    OvertakenIsMismatch(mac, events, 4, 5, 0);
    OvertakenIsMismatch(mac, events, 5, 7, 3);
  }

  lemma OverlapEvents(rc: (Bytes, Bytes, Bytes, Bytes), next: (Bytes, Bytes, Bytes, Bytes))
    ensures var events := Overlapping(rc, next);
            && SingleDevice(events)
            && (forall x :: ExchangedAt(events, x) ==> exists j :: JudgedAt(events, j) && events[j].x == x)
            && JudgedAt(events, 1) && JudgedAt(events, 4) && JudgedAt(events, 5) && JudgedAt(events, 7)
            && events[1].x == 0 && events[4].x == 3 && events[5].x == 2 && events[7].x == 6
            && QuietBackend(events, 1, 4) && QuietBackend(events, 4, 5) && QuietBackend(events, 5, 7)
            && MadeBefore(events, 2, 3) && MadeBefore(events, 0, 2) && MadeBefore(events, 3, 6)
  {
    var events := Overlapping(rc, next);
    assert ExchangedAt(events, 0) && ExchangedAt(events, 2) && ExchangedAt(events, 3) && ExchangedAt(events, 6);
    assert JudgedAt(events, 1) && JudgedAt(events, 4) && JudgedAt(events, 5) && JudgedAt(events, 7);
  }

  // If another exchange than the previous one was judged last, the verdict is a mismatch.
  lemma OvertakenIsMismatch(mac: Mac, events: seq<Event>, i: nat, j: nat, p: nat)
    requires DistinctProofs(events) && SeparatesKeys(mac, events) && SingleDevice(events)
    requires i < j && JudgedAt(events, i) && JudgedAt(events, j) && QuietBackend(events, i, j)
    requires MadeBefore(events, p, events[j].x) && events[i].x != p
    ensures VerdictAt(mac, events, j) == Mismatch
  {
    LastJudgedAfter(events, i, j);
    hide SeparatesKeys, DistinctProofs, VerdictAt, LastJudged, SingleDevice, QuietBackend;
    MismatchUnlessPrevious(mac, events, j);
    if MadeBefore(events, events[i].x, events[j].x) { OnePrevious(events, p, events[i].x, events[j].x); }
  }

  // ---- legacy reports ----

  // The run without its legacy reports.
  function WithoutReports(events: seq<Event>): (kept: seq<Event>)
    ensures |kept| == |events|
    ensures forall i :: 0 <= i < |events| ==> kept[i] == if events[i].Reported? then Idle else events[i]
  {
    if events == [] then []
    else
      var n := |events| - 1;
      WithoutReports(events[..n]) + [if events[n].Reported? then Idle else events[n]]
  }

  // Worlds with the same proofs everywhere, whatever the statuses recorded.
  predicate SameProofs(w: World, w': World) {
    w.held == w'.held && w.made == w'.made && ProofOnFile(w.row) == ProofOnFile(w'.row)
  }

  lemma SameProofsAfter(mac: Mac, w: World, w': World, e: Event)
    requires SameProofs(w, w')
    ensures SameProofs(After(mac, w, e), After(mac, w', if e.Reported? then Idle else e))
  {
  }

  lemma {:induction false} ReportsChangeNoProof(mac: Mac, events: seq<Event>)
    ensures SameProofs(Run(mac, events), Run(mac, WithoutReports(events)))
  {
    if events == [] {
    } else {
      var n := |events| - 1;
      var kept := WithoutReports(events);
      assert kept[..n] == WithoutReports(events[..n]);
      LastStep(mac, events);
      LastStep(mac, kept);
      hide Run, After, SameProofs, WithoutReports;
      ReportsChangeNoProof(mac, events[..n]);
      SameProofsAfter(mac, Run(mac, events[..n]), Run(mac, kept[..n]), events[n]);
    }
  }

  // Leaving the legacy reports out of a run changes no verdict.
  lemma ReportsChangeNoVerdict(mac: Mac, events: seq<Event>, j: nat)
    requires JudgedAt(events, j)
    ensures var kept := WithoutReports(events);
            JudgedAt(kept, j) && VerdictAt(mac, kept, j) == VerdictAt(mac, events, j)
  {
    var x, kept := events[j].x, WithoutReports(events);
    assert kept[x] == events[x] && kept[j] == events[j];
    SameWorlds(mac, events, x);
    SameWorlds(mac, events, j);
    hide Run, WithoutReports, Claim, Lookup, VerdictOf, ProofOnFile;
    VerdictNeedsProof(mac, Run(mac, events[..j]).row, Run(mac, kept[..j]).row, AttestationOf(mac, events, x));
  }

  lemma SameWorlds(mac: Mac, events: seq<Event>, n: nat)
    requires n <= |events|
    ensures var (w, w') := (Run(mac, events[..n]), Run(mac, WithoutReports(events)[..n]));
            w.held == w'.held && ProofOnFile(w.row) == ProofOnFile(w'.row)
  {
    hide Run, WithoutReports, ProofOnFile;
    ReportsChangeNoProof(mac, events[..n]);
    PrefixWithoutReports(events, n);
  }

  lemma PrefixWithoutReports(events: seq<Event>, n: nat)
    requires n <= |events|
    ensures WithoutReports(events[..n]) == WithoutReports(events)[..n]
  {
    hide WithoutReports;
  }

  // Only the proof in a row matters to a verdict.
  lemma VerdictNeedsProof(mac: Mac, row: Option<Row>, row': Option<Row>, e: Exchange)
    requires ProofOnFile(row) == ProofOnFile(row')
    ensures VerdictOf(mac, row, e) == VerdictOf(mac, row', e)
  {
  }
}
