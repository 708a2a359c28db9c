/** backend/audit/log.js: the hash-chained log of admin actions. */
module AuditLog {
  import opened Options

  // A row of the table in the order of row ids. Rows from before the chain have no hashes.
  datatype Row = Row(id: string, admin: string, action: string, target: Option<string>, org: Option<string>,
                     details: string, timestamp: string, prevHash: Option<string>, hash: Option<string>)

  function Zeros(n: nat): (z: string)
    ensures |z| == n
  {
    seq(n, _ => '0')
  }

  const GENESIS_HASH: string := Zeros(64)

  function OrEmpty(s: Option<string>): string {
    if s.Some? then s.value else ""
  }

  // What computeHash feeds to the hash after the previous hash: the fields without separators, the
  // details in the serialized form given.
  function Body(r: Row, details: string): string {
    r.id + r.admin + r.action + OrEmpty(r.target) + OrEmpty(r.org) + details + r.timestamp
  }

  datatype Break = PrevHashMismatch | HashMismatch

  datatype Report = Report(intact: bool, brokenAt: Option<string>, reason: Option<Break>, checked: nat)

  // The hash, and the JSON functions that details pass through.
  datatype Oracles<!J(!new)> = Oracles(sha256: string -> string, stringify: J -> string, parse: string -> Option<J>) {
    // Details written by this log read back as themselves.
    ghost predicate RoundTrips() {
      forall d: J :: parse(stringify(d)).Some? && stringify(parse(stringify(d)).value) == stringify(d)
    }

    // Details as the verifier serializes them again; None if they do not parse.
    function Reserialized(details: string): Option<string> {
      match parse(details)
      case Some(d) => Some(stringify(d))
      case None => None
    }

    // What the log relies on besides: digests of 64 letters that are never the genesis hash.
    ghost predicate Digests() {
      forall s :: |sha256(s)| == 64 && sha256(s) != GENESIS_HASH
    }
  }

  function Chained(rows: seq<Row>): (c: seq<Row>)
    ensures forall r :: r in c ==> r.hash.Some?
  {
    if rows == [] then []
    else Chained(rows[..|rows| - 1]) + if rows[|rows| - 1].hash.Some? then [rows[|rows| - 1]] else []
  }

  // The hash that the next row is chained to.
  function Tip(chain: seq<Row>): string {
    if chain == [] then GENESIS_HASH else OrEmpty(chain[|chain| - 1].hash)
  }

  function BodyOf<J(!new)>(o: Oracles<J>, r: Row): string
    requires o.Reserialized(r.details).Some?
  {
    Body(r, o.Reserialized(r.details).value)
  }

  predicate Readable<J(!new)>(o: Oracles<J>, rows: seq<Row>) {
    forall r :: r in rows ==> o.Reserialized(r.details).Some?
  }

  // What row i of a chain makes the log hash.
  function Input<J(!new)>(o: Oracles<J>, chain: seq<Row>, i: nat): string
    requires i < |chain| && Readable(o, chain)
  {
    assert chain[i] in chain;
    Tip(chain[..i]) + BodyOf(o, chain[i])
  }

  // No two different strings among what the two chains make the log hash have the same hash.
  ghost predicate NoCollision<J(!new)>(o: Oracles<J>, a: seq<Row>, b: seq<Row>)
    requires Readable(o, a) && Readable(o, b)
  {
    forall i: nat, j: nat :: i < |a| && j < |b| && o.sha256(Input(o, a, i)) == o.sha256(Input(o, b, j)) ==>
      Input(o, a, i) == Input(o, b, j)
  }

  // The same rows, as far as the hashes and what is hashed of them tell.
  ghost predicate SameChain<J(!new)>(o: Oracles<J>, a: seq<Row>, b: seq<Row>)
    requires Readable(o, a) && Readable(o, b)
  {
    |a| == |b| && forall i :: 0 <= i < |a| ==>
      a[i].prevHash == b[i].prevHash && a[i].hash == b[i].hash && BodyOf(o, a[i]) == BodyOf(o, b[i])
  }

  // Row r continues a chain with the given tip.
  predicate Continues<J(!new)>(o: Oracles<J>, tip: string, r: Row)
    requires o.Reserialized(r.details).Some?
  {
    r.prevHash == Some(tip) && r.hash == Some(o.sha256(tip + BodyOf(o, r)))
  }

  // Every row of the chain continues the rows before it, from the genesis hash on.
  predicate Linked<J(!new)>(o: Oracles<J>, chain: seq<Row>)
    requires Readable(o, chain)
  {
    chain == [] ||
    var n := |chain| - 1;
    assert forall r :: r in chain[..n] ==> r in chain;
    Linked(o, chain[..n]) && Continues(o, Tip(chain[..n]), chain[n])
  }

  class Log<!J(!new)> {
    const oracles: Oracles<J>
    var rows: seq<Row>

    // What the log writes: rows from before the chain, then a linked chain.
    ghost predicate Valid()
      reads this
    {
      LegacyFirst(rows) && Readable(oracles, Chained(rows)) && Linked(oracles, Chained(rows))
    }

    // A table with rows from before the chain, if any.
    constructor (oracles: Oracles<J>, legacy: seq<Row>)
      requires forall r :: r in legacy ==> r.hash == None
      ensures this.oracles == oracles && rows == legacy && Valid()
    {
      this.oracles, rows := oracles, legacy;
      new;
      NothingChained(legacy);
    }

    method LogAdminAction(id: string, admin: string, action: string, target: Option<string>, details: J,
                          org: Option<string>, timestamp: string)
      modifies this
      ensures |rows| == |old(rows)| + 1 && rows[..|old(rows)|] == old(rows)
      ensures var r := rows[|rows| - 1];
              r == Row(id, admin, action, target, org, oracles.stringify(details), timestamp, r.prevHash, r.hash)
              && r.prevHash == Some(if old(rows) == [] || old(rows)[|old(rows)| - 1].hash.None? then GENESIS_HASH
                                    else old(rows)[|old(rows)| - 1].hash.value)
              && r.hash == Some(oracles.sha256(r.prevHash.value + Body(r, oracles.stringify(details))))
      ensures oracles.RoundTrips() && old(Valid()) ==> Valid()
    {
      hide Linked, Readable, LegacyFirst, Chained, Oracles.RoundTrips;
      var prevHash := if rows == [] || rows[|rows| - 1].hash.None? then GENESIS_HASH else rows[|rows| - 1].hash.value;
      var row := Row(id, admin, action, target, org, oracles.stringify(details), timestamp, Some(prevHash), None);
      var hash := oracles.sha256(prevHash + Body(row, oracles.stringify(details)));
      ghost var was := rows;
      rows := rows + [row.(hash := Some(hash))];
      if oracles.RoundTrips() && old(Valid()) {
        ChainGrows(oracles, was, row.(hash := Some(hash)), details);
      }
    }

    // None stands for the exception of details that do not parse.
    method VerifyAuditChain() returns (report: Option<Report>)
      ensures Readable(oracles, Chained(rows)) ==> report.Some?
      ensures report.Some? && Readable(oracles, Chained(rows)) ==>
        (report.value.intact <==> Linked(oracles, Chained(rows)))
      ensures report.Some? && !report.value.intact ==>
        exists i :: 0 <= i < |Chained(rows)| && report.value.brokenAt == Some(Chained(rows)[i].id)
          && Readable(oracles, Chained(rows)[..i + 1]) && Linked(oracles, Chained(rows)[..i]) && !Linked(oracles, Chained(rows)[..i + 1])
    {
      var chain := Chained(rows);
      var expectedPrev := GENESIS_HASH;
      var i := 0;
      while i < |chain|
        invariant 0 <= i <= |chain|
        invariant Readable(oracles, chain[..i]) && Linked(oracles, chain[..i]) && expectedPrev == Tip(chain[..i])
      {
        var row := chain[i];
        var details := oracles.Reserialized(row.details);
        if details.None? {
          assert row in chain;
          return None;
        }
        assert chain[..i + 1] == chain[..i] + [row];
        assert chain[..i + 1][..i] == chain[..i];
        if row.prevHash != Some(expectedPrev) {
          BrokenStaysBroken(oracles, chain, i);
          return Some(Report(false, Some(row.id), Some(PrevHashMismatch), |chain|));
        }
        var recomputed := oracles.sha256(expectedPrev + Body(row, details.value));
        if Some(recomputed) != row.hash {
          BrokenStaysBroken(oracles, chain, i);
          return Some(Report(false, Some(row.id), Some(HashMismatch), |chain|));
        }
        expectedPrev := OrEmpty(row.hash);
        i := i + 1;
      }
      assert chain[..i] == chain;
      return Some(Report(true, None, None, |chain|));
    }
  }

  lemma {:induction false} LinkedPrefix<J(!new)>(o: Oracles<J>, chain: seq<Row>, i: nat)
    requires i <= |chain| && Readable(o, chain)
    ensures Readable(o, chain[..i]) && (Linked(o, chain) ==> Linked(o, chain[..i]))
  {
    if i < |chain| {
      var n := |chain| - 1;
      assert chain[..n][..i] == chain[..i];
      assert Readable(o, chain[..n]);
      LinkedPrefix(o, chain[..n], i);
    } else {
      assert chain[..i] == chain;
    }
  }

  lemma BrokenStaysBroken<J(!new)>(o: Oracles<J>, chain: seq<Row>, i: nat)
    requires i < |chain| && Readable(o, chain[..i + 1]) && !Linked(o, chain[..i + 1])
    ensures Readable(o, chain) ==> !Linked(o, chain)
  {
    if Readable(o, chain) { LinkedPrefix(o, chain, i + 1); }
  }

  predicate LegacyFirst(rows: seq<Row>) {
    forall i, j :: 0 <= i < j < |rows| && rows[i].hash.Some? ==> rows[j].hash.Some?
  }

  lemma {:induction false} NothingChained(rows: seq<Row>)
    requires forall r :: r in rows ==> r.hash == None
    ensures Chained(rows) == []
  {
    if rows == [] {
    } else {
      NothingChained(rows[..|rows| - 1]);
    }
  }

  // If the last row is chained, it is the last of the chain; if it is not and legacy rows come first,
  // there is no chain yet.
  lemma TipOfTable(rows: seq<Row>)
    requires LegacyFirst(rows)
    ensures Tip(Chained(rows)) == if rows == [] || rows[|rows| - 1].hash.None? then GENESIS_HASH else rows[|rows| - 1].hash.value
  {
    if rows != [] && rows[|rows| - 1].hash.None? { NothingChained(rows); }
  }

  lemma ChainGrows<J(!new)>(o: Oracles<J>, rows: seq<Row>, r: Row, details: J)
    requires LegacyFirst(rows) && Readable(o, Chained(rows)) && Linked(o, Chained(rows)) && o.RoundTrips()
    requires r.details == o.stringify(details)
    requires r.prevHash == Some(if rows == [] || rows[|rows| - 1].hash.None? then GENESIS_HASH else rows[|rows| - 1].hash.value)
    requires r.hash == Some(o.sha256(r.prevHash.value + Body(r, o.stringify(details))))
    ensures LegacyFirst(rows + [r]) && Readable(o, Chained(rows + [r])) && Linked(o, Chained(rows + [r]))
  {
    hide Linked, Body;
    TipOfTable(rows);
    LegacyStaysFirst(rows, r);
    var chain := Chained(rows);
    assert (rows + [r])[..|rows|] == rows;
    assert Chained(rows + [r]) == chain + [r];
    ReadBack(o, r, details);
    ChainSnoc(o, chain, r);
  }

  lemma LegacyStaysFirst(rows: seq<Row>, r: Row)
    requires LegacyFirst(rows) && r.hash.Some?
    ensures LegacyFirst(rows + [r])
  {
  }

  lemma ChainSnoc<J(!new)>(o: Oracles<J>, chain: seq<Row>, r: Row)
    requires Readable(o, chain) && Linked(o, chain) && o.Reserialized(r.details).Some? && Continues(o, Tip(chain), r)
    ensures Readable(o, chain + [r]) && Linked(o, chain + [r])
  {
    hide Continues, Tip;
    assert (chain + [r])[..|chain|] == chain;
  }

  lemma ReadBack<J(!new)>(o: Oracles<J>, r: Row, details: J)
    requires o.RoundTrips() && r.details == o.stringify(details)
    ensures o.Reserialized(r.details) == Some(o.stringify(details))
  {
  }

  // ---- what an intact report guarantees ----

  lemma TailsOfEqual(a: string, b: string, s: string, t: string)
    requires |a| == |b| && a + s == b + t
    ensures a == b && s == t
  {
    assert (a + s)[..|a|] == a && (b + t)[..|b|] == b;
    assert (a + s)[|a|..] == s && (b + t)[|b|..] == t;
  }

  lemma TipLength<J(!new)>(o: Oracles<J>, chain: seq<Row>)
    requires Readable(o, chain) && Linked(o, chain) && o.Digests()
    ensures |Tip(chain)| == 64 && (chain == [] <==> Tip(chain) == GENESIS_HASH)
  {
  }

  // Among intact chains, the last hash tells all hashes and all field concatenations.
  lemma SameTipSameChain<J(!new)>(o: Oracles<J>, a: seq<Row>, b: seq<Row>)
    requires Readable(o, a) && Readable(o, b) && Linked(o, a) && Linked(o, b)
    requires o.Digests() && NoCollision(o, a, b)
    ensures Tip(a) == Tip(b) <==> SameChain(o, a, b)
  {
    hide Linked, NoCollision, BodyOf, Oracles.Digests;
    if Tip(a) == Tip(b) { TipDetermines(o, a, b); }
  }

  lemma {:induction false} TipDetermines<J(!new)>(o: Oracles<J>, a: seq<Row>, b: seq<Row>)
    requires Readable(o, a) && Readable(o, b) && Linked(o, a) && Linked(o, b)
    requires o.Digests() && NoCollision(o, a, b) && Tip(a) == Tip(b)
    ensures SameChain(o, a, b)
    decreases |a|
  {
    hide Linked, BodyOf, Body, Tip, NoCollision, Oracles.Digests, Oracles.Reserialized;
    TipLength(o, a);
    TipLength(o, b);
    if a == [] || b == [] {
    } else {
      var m, n := |a| - 1, |b| - 1;
      LastLink(o, a);
      LastLink(o, b);
      TipLength(o, a[..m]);
      TipLength(o, b[..n]);
      SameInput(o, a, b);
      TailsOfEqual(Tip(a[..m]), Tip(b[..n]), BodyOf(o, a[m]), BodyOf(o, b[n]));
      NoCollisionBefore(o, a, b);
      TipDetermines(o, a[..m], b[..n]);
      forall i | 0 <= i < |a|
        ensures a[i].prevHash == b[i].prevHash && a[i].hash == b[i].hash && BodyOf(o, a[i]) == BodyOf(o, b[i])
      {
        if i < m { assert a[..m][i] == a[i] && b[..n][i] == b[i]; }
      }
    }
  }

  lemma SameInput<J(!new)>(o: Oracles<J>, a: seq<Row>, b: seq<Row>)
    requires a != [] && b != [] && Readable(o, a) && Readable(o, b) && NoCollision(o, a, b)
    requires o.sha256(Input(o, a, |a| - 1)) == o.sha256(Input(o, b, |b| - 1))
    ensures Input(o, a, |a| - 1) == Input(o, b, |b| - 1)
  {
    hide Input;
  }

  lemma NoCollisionBefore<J(!new)>(o: Oracles<J>, a: seq<Row>, b: seq<Row>)
    requires a != [] && b != [] && Readable(o, a) && Readable(o, b) && NoCollision(o, a, b)
    ensures Readable(o, a[..|a| - 1]) && Readable(o, b[..|b| - 1]) && NoCollision(o, a[..|a| - 1], b[..|b| - 1])
  {
    InputsBefore(o, a, |a| - 1);
    InputsBefore(o, b, |b| - 1);
    hide Input;
  }

  lemma InputsBefore<J(!new)>(o: Oracles<J>, chain: seq<Row>, n: nat)
    requires n <= |chain| && Readable(o, chain)
    ensures Readable(o, chain[..n]) && forall i: nat :: i < n ==> Input(o, chain[..n], i) == Input(o, chain, i)
  {
    assert Readable(o, chain[..n]);
    hide BodyOf, Tip;
    forall i: nat | i < n
      ensures Input(o, chain[..n], i) == Input(o, chain, i)
    {
      assert chain[..n][..i] == chain[..i];
    }
  }

  lemma LastLink<J(!new)>(o: Oracles<J>, chain: seq<Row>)
    requires chain != [] && Readable(o, chain) && Linked(o, chain)
    ensures var n := |chain| - 1;
            && Readable(o, chain[..n]) && Linked(o, chain[..n]) && o.Reserialized(chain[n].details).Some?
            && chain[n].prevHash == Some(Tip(chain[..n])) && chain[n].hash == Some(Tip(chain))
            && Tip(chain) == o.sha256(Input(o, chain, n)) && Input(o, chain, n) == Tip(chain[..n]) + BodyOf(o, chain[n])
  {
    hide BodyOf;
    LinkedPrefix(o, chain, |chain| - 1);
  }

  // An edit of the fields of one row goes unreported exactly if the hash of the row stays the same. An edit
  // that keeps the concatenation of the fields always does; one that changes it is reported, unless the
  // two strings hashed for that row collide.
  lemma EditDetected<J(!new)>(o: Oracles<J>, chain: seq<Row>, i: nat, r: Row)
    requires i < |chain| && Readable(o, chain) && Linked(o, chain)
    requires o.Reserialized(r.details).Some? && r.prevHash == chain[i].prevHash && r.hash == chain[i].hash
    ensures Readable(o, chain[i := r])
    ensures var (was, now) := (Input(o, chain, i), Tip(chain[..i]) + BodyOf(o, r));
            && (Linked(o, chain[i := r]) <==> o.sha256(now) == o.sha256(was))
            && ((o.sha256(now) == o.sha256(was) ==> now == was) ==>
                  (Linked(o, chain[i := r]) <==> BodyOf(o, r) == BodyOf(o, chain[i])))
  {
    var edited := chain[i := r];
    assert Readable(o, edited);
    assert edited[..i] == chain[..i];
    hide Linked, BodyOf, Tip, Oracles.Reserialized;
    if Linked(o, edited) {
      LinkedAt(o, edited, i);
      LinkedAt(o, chain, i);
    }
    if o.sha256(Tip(chain[..i]) + BodyOf(o, r)) == o.sha256(Input(o, chain, i)) {
      forall j: nat | j < |chain|
        ensures o.sha256(Input(o, edited, j)) == o.sha256(Input(o, chain, j))
      {
        SameTips(chain, edited, j);
      }
      SameHashesLinked(o, chain, edited);
    }
    if Tip(chain[..i]) + BodyOf(o, r) == Input(o, chain, i) {
      TailsOfEqual(Tip(chain[..i]), Tip(chain[..i]), BodyOf(o, r), BodyOf(o, chain[i]));
    }
  }

  // The row was edited in one field, to something that reads differently.
  ghost predicate EditsOneField<J(!new)>(o: Oracles<J>, was: Row, r: Row)
    requires o.Reserialized(was.details).Some? && o.Reserialized(r.details).Some?
  {
    || (r == was.(id := r.id) && r.id != was.id)
    || (r == was.(admin := r.admin) && r.admin != was.admin)
    || (r == was.(action := r.action) && r.action != was.action)
    || (r == was.(target := r.target) && OrEmpty(r.target) != OrEmpty(was.target))
    || (r == was.(org := r.org) && OrEmpty(r.org) != OrEmpty(was.org))
    || (r == was.(details := r.details) && o.Reserialized(r.details) != o.Reserialized(was.details))
    || (r == was.(timestamp := r.timestamp) && r.timestamp != was.timestamp)
  }

  // Such an edit is reported, whichever field it is, unless the two strings hashed for that row collide.
  lemma OneFieldEditReported<J(!new)>(o: Oracles<J>, chain: seq<Row>, i: nat, r: Row)
    requires i < |chain| && Readable(o, chain) && Linked(o, chain) && chain[i] in chain
    requires o.Reserialized(r.details).Some? && EditsOneField(o, chain[i], r)
    ensures Readable(o, chain[i := r])
    ensures var (was, now) := (Input(o, chain, i), Tip(chain[..i]) + BodyOf(o, r));
            now != was && (Linked(o, chain[i := r]) ==> o.sha256(now) == o.sha256(was))
  {
    OneFieldInBody(o, chain[i], r);
    hide Linked, BodyOf, Tip, Oracles.Reserialized, EditsOneField;
    EditDetected(o, chain, i, r);
    if Tip(chain[..i]) + BodyOf(o, r) == Input(o, chain, i) {
      TailsOfEqual(Tip(chain[..i]), Tip(chain[..i]), BodyOf(o, r), BodyOf(o, chain[i]));
    }
  }

  lemma OneFieldInBody<J(!new)>(o: Oracles<J>, was: Row, r: Row)
    requires o.Reserialized(was.details).Some? && o.Reserialized(r.details).Some? && EditsOneField(o, was, r)
    ensures BodyOf(o, r) != BodyOf(o, was) && r.prevHash == was.prevHash && r.hash == was.hash
  {
    BodyIsJoined(o, was);
    BodyIsJoined(o, r);
    var f, f' := Parts(o, was), Parts(o, r);
    var n := if r.id != was.id then 0 else if r.admin != was.admin then 1 else if r.action != was.action then 2
             else if f'[3] != f[3] then 3 else if f'[4] != f[4] then 4 else if f'[5] != f[5] then 5 else 6;
    hide Joined, BodyOf, Oracles.Reserialized;
    OnePartDiffers(f', f, n);
  }

  // The parts of what is hashed of a row.
  function Parts<J(!new)>(o: Oracles<J>, r: Row): (f: seq<string>)
    requires o.Reserialized(r.details).Some?
    ensures |f| == 7
  {
    [r.id, r.admin, r.action, OrEmpty(r.target), OrEmpty(r.org), o.Reserialized(r.details).value, r.timestamp]
  }

  function Joined(f: seq<string>): string {
    if f == [] then "" else Joined(f[..|f| - 1]) + f[|f| - 1]
  }

  lemma BodyIsJoined<J(!new)>(o: Oracles<J>, r: Row)
    requires o.Reserialized(r.details).Some?
    ensures BodyOf(o, r) == Joined(Parts(o, r))
  {
    var f := Parts(o, r);
    hide Oracles.Reserialized;
    JoinedFirst(f[0]);
    assert f[..1] == [f[0]] && f == f[..7];
    JoinedNext(f, 1);
    JoinedNext(f, 2);
    JoinedNext(f, 3);
    JoinedNext(f, 4);
    JoinedNext(f, 5);
    JoinedNext(f, 6);
  }

  lemma JoinedFirst(s: string)
    ensures Joined([s]) == s
  {
    assert [s][..0] == [];
  }

  lemma JoinedNext(f: seq<string>, n: nat)
    requires n < |f|
    ensures Joined(f[..n + 1]) == Joined(f[..n]) + f[n]
  {
    assert f[..n + 1][..n] == f[..n];
  }

  // Strings joined from parts that differ in one place differ.
  lemma {:induction false} OnePartDiffers(f: seq<string>, g: seq<string>, n: nat)
    requires |f| == |g| && n < |f| && f[n] != g[n] && forall k :: 0 <= k < |f| && k != n ==> f[k] == g[k]
    ensures Joined(f) != Joined(g)
  {
    var m := |f| - 1;
    if n == m {
      assert f[..m] == g[..m];
      if Joined(f) == Joined(g) { TailsOfEqual(Joined(f[..m]), Joined(g[..m]), f[m], g[m]); }
    } else {
      OnePartDiffers(f[..m], g[..m], n);
      if Joined(f) == Joined(g) {
        assert |Joined(f[..m])| == |Joined(g[..m])|;
        TailsOfEqual(Joined(f[..m]), Joined(g[..m]), f[m], g[m]);
      }
    }
  }

  // Rows with the same hashes hand on the same tips.
  lemma SameTips(a: seq<Row>, b: seq<Row>, j: nat)
    requires |a| == |b| && j <= |a| && forall i :: 0 <= i < |a| ==> a[i].hash == b[i].hash
    ensures Tip(a[..j]) == Tip(b[..j])
  {
  }

  lemma LinkedAt<J(!new)>(o: Oracles<J>, chain: seq<Row>, i: nat)
    requires i < |chain| && Readable(o, chain) && Linked(o, chain)
    ensures chain[i].prevHash == Some(Tip(chain[..i])) && chain[i].hash == Some(o.sha256(Input(o, chain, i)))
  {
    LinkedPrefix(o, chain, i + 1);
    LastLink(o, chain[..i + 1]);
    assert chain[..i + 1][..i] == chain[..i];
    hide Linked, BodyOf, Tip;
  }

  // The rows claim the same hashes, and what they make the log hash has the same hashes.
  ghost predicate SameHashes<J(!new)>(o: Oracles<J>, a: seq<Row>, b: seq<Row>)
    requires Readable(o, a) && Readable(o, b)
  {
    |a| == |b|
    && (forall i :: 0 <= i < |a| ==> a[i].prevHash == b[i].prevHash && a[i].hash == b[i].hash)
    && forall i: nat :: i < |a| ==> o.sha256(Input(o, b, i)) == o.sha256(Input(o, a, i))
  }

  lemma SameHashesBefore<J(!new)>(o: Oracles<J>, a: seq<Row>, b: seq<Row>, n: nat)
    requires Readable(o, a) && Readable(o, b) && SameHashes(o, a, b) && n <= |a|
    ensures Readable(o, a[..n]) && Readable(o, b[..n]) && SameHashes(o, a[..n], b[..n])
    ensures Tip(a[..n]) == Tip(b[..n])
  {
    InputsBefore(o, a, n);
    InputsBefore(o, b, n);
    SameTips(a, b, n);
    hide Input, Tip;
  }

  lemma {:induction false} SameHashesLinked<J(!new)>(o: Oracles<J>, a: seq<Row>, b: seq<Row>)
    requires Readable(o, a) && Readable(o, b) && SameHashes(o, a, b) && Linked(o, a)
    ensures Linked(o, b)
  {
    if a == [] {
    } else {
      var n := |a| - 1;
      hide *;
      LastContinues(o, a, b);
      SameHashesBefore(o, a, b, n);
      LinkedPrefix(o, a, n);
      SameHashesLinked(o, a[..n], b[..n]);
      LinkedByLast(o, b);
    }
  }

  lemma LinkedByLast<J(!new)>(o: Oracles<J>, chain: seq<Row>)
    requires chain != [] && Readable(o, chain) && Readable(o, chain[..|chain| - 1])
    requires o.Reserialized(chain[|chain| - 1].details).Some?
    requires Linked(o, chain[..|chain| - 1]) && Continues(o, Tip(chain[..|chain| - 1]), chain[|chain| - 1])
    ensures Linked(o, chain)
  {
    hide Continues, Tip;
  }

  lemma LastContinues<J(!new)>(o: Oracles<J>, a: seq<Row>, b: seq<Row>)
    requires a != [] && Readable(o, a) && Readable(o, b) && SameHashes(o, a, b) && Linked(o, a)
    ensures |b| == |a|
    ensures var n := |a| - 1; o.Reserialized(b[n].details).Some? && Continues(o, Tip(b[..n]), b[n])
  {
    assert b[|b| - 1] in b;
    hide Tip, BodyOf, Linked, Oracles.Reserialized;
    LinkedAt(o, a, |a| - 1);
    SameTips(a, b, |a| - 1);
  }

  // The comment's promise that any edited field is detected fails: letters moved from one field to the
  // next, here from the admin's id to the action, leave the chain intact.
  lemma EditUndetected<J(!new)>(o: Oracles<J>, chain: seq<Row>, i: nat)
    requires i < |chain| && Readable(o, chain) && Linked(o, chain)
    requires chain[i].admin == "admin-1" && chain[i].action == "identity_reset"
    ensures var after := chain[i].(admin := "admin-", action := "1identity_reset");
            after != chain[i] && Readable(o, chain[i := after]) && Linked(o, chain[i := after])
  {
    var r := chain[i];
    var after := r.(admin := "admin-", action := "1identity_reset");
    assert r in chain;
    assert "admin-1" + "identity_reset" == "admin-" + "1identity_reset";
    var rest := OrEmpty(r.target) + OrEmpty(r.org) + o.Reserialized(r.details).value + r.timestamp;
    BodySplit(o, r, rest);
    BodySplit(o, after, rest);
    hide Linked, BodyOf, Tip, Oracles.Reserialized;
    EditDetected(o, chain, i, after);
  }

  lemma BodySplit<J(!new)>(o: Oracles<J>, r: Row, rest: string)
    requires o.Reserialized(r.details).Some?
    requires rest == OrEmpty(r.target) + OrEmpty(r.org) + o.Reserialized(r.details).value + r.timestamp
    ensures BodyOf(o, r) == r.id + (r.admin + r.action) + rest
  {
    var d, t, g := o.Reserialized(r.details).value, OrEmpty(r.target), OrEmpty(r.org);
    assert r.id + r.admin + r.action + t + g + d + r.timestamp == r.id + (r.admin + r.action) + (t + g + d + r.timestamp);
  }

  // Rows cut off the end are not reported.
  lemma TruncationUndetected<J(!new)>(o: Oracles<J>, chain: seq<Row>, n: nat)
    requires n <= |chain| && Readable(o, chain) && Linked(o, chain)
    ensures Readable(o, chain[..n]) && Linked(o, chain[..n])
  {
    LinkedPrefix(o, chain, n);
  }
}
