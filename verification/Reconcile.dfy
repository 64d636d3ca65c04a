/** Matching database rows to live broker positions, and the counts reported about it. */
module Reconcile {
  import opened Common

  /** A live position: its broker profile and position id, "" if it has none. */
  datatype Live = Live(profile: int, id: string)

  /** An open database row; absent references are "". */
  datatype Row = Row(profile: Option<int>, positionRef: string, orderRef: string)

  /** The non-blank references of a row, position first, without repetition. */
  function Refs(r: Row): seq<string> {
    var first := if r.positionRef != "" then [r.positionRef] else [];
    if r.orderRef != "" && r.orderRef !in first then first + [r.orderRef] else first
  }

  /** The two dictionaries over the live positions: the later entry wins in one, the earlier in the other. */
  datatype Index = Index(byProfile: map<(int, string), nat>, byId: map<string, nat>)

  function IndexOf(live: seq<Live>): Index {
    if live == [] then Index(map[], map[])
    else
      var n := |live| - 1;
      var ix, p := IndexOf(live[..n]), live[n];
      if p.id == "" then ix
      else Index(ix.byProfile[(p.profile, p.id) := n], if p.id in ix.byId then ix.byId else ix.byId[p.id := n])
  }

  function FirstByProfile(ix: Index, profile: int, refs: seq<string>): Option<nat> {
    if refs == [] then None
    else if (profile, refs[0]) in ix.byProfile then Some(ix.byProfile[(profile, refs[0])])
    else FirstByProfile(ix, profile, refs[1..])
  }

  function FirstById(ix: Index, refs: seq<string>): Option<nat> {
    if refs == [] then None
    else if refs[0] in ix.byId then Some(ix.byId[refs[0]])
    else FirstById(ix, refs[1..])
  }

  /** The live position a row claims. */
  function Claim(ix: Index, r: Row): Option<nat> {
    var own := if r.profile.Some? then FirstByProfile(ix, r.profile.value, Refs(r)) else None;
    if own.Some? then own else FirstById(ix, Refs(r))
  }

  datatype Info = Info(matched: nat, stale: nat, missingInDb: int, hasMismatches: bool)

  function Matched(ix: Index, rows: seq<Row>): nat {
    if rows == [] then 0
    else Matched(ix, rows[..|rows| - 1]) + if Claim(ix, rows[|rows| - 1]).Some? then 1 else 0
  }

  predicate IsStale(ix: Index, r: Row) { Claim(ix, r).None? && Refs(r) != [] }

  function StaleCount(ix: Index, rows: seq<Row>): nat {
    if rows == [] then 0
    else StaleCount(ix, rows[..|rows| - 1]) + if IsStale(ix, rows[|rows| - 1]) then 1 else 0
  }

  function InfoOf(live: seq<Live>, rows: seq<Row>): Info {
    var ix := IndexOf(live);
    var missing := if |live| - Matched(ix, rows) > 0 then |live| - Matched(ix, rows) else 0;
    Info(Matched(ix, rows), StaleCount(ix, rows), missing, StaleCount(ix, rows) > 0 || missing > 0)
  }

  method ActivePositions(live: seq<Live>, rows: seq<Row>) returns (info: Info)
    ensures info == InfoOf(live, rows)
    ensures info.matched == HowMany(rows, LiveRow(live)) && info.stale == HowMany(rows, StaleRow(live))
    ensures info.missingInDb == if |live| > info.matched then |live| - info.matched else 0
    ensures info.hasMismatches <==> info.stale > 0 || |live| > info.matched
  {
    var byProfile: map<(int, string), nat> := map[];
    var byId: map<string, nat> := map[];
    for i := 0 to |live|
      invariant Index(byProfile, byId) == IndexOf(live[..i])
    {
      assert live[..i + 1][..i] == live[..i];
      var p := live[i];
      if p.id == "" { continue; }
      byProfile := byProfile[(p.profile, p.id) := i];
      if p.id !in byId { byId := byId[p.id := i]; }
    }
    assert live[..|live|] == live;
    var ix := Index(byProfile, byId);
    var matched, stale: nat := 0, 0;
    for i := 0 to |rows|
      invariant matched == Matched(ix, rows[..i]) && stale == StaleCount(ix, rows[..i])
    {
      assert rows[..i + 1][..i] == rows[..i];
      var found := Claim(ix, rows[i]);
      if found.Some? {
        matched := matched + 1;
      } else if Refs(rows[i]) != [] {
        stale := stale + 1;
      }
    }
    assert rows[..|rows|] == rows;
    var missing := if |live| - matched > 0 then |live| - matched else 0;
    info := Info(matched, stale, missing, stale > 0 || missing > 0);
    CountsMeaning(live, rows);
  }

  /** Some live position carries one of the row's references. */
  function LiveRow(live: seq<Live>): Row -> bool {
    (r: Row) => exists i :: 0 <= i < |live| && live[i].id != ""
                            && (live[i].id == r.positionRef || live[i].id == r.orderRef)
  }

  /** The row has a reference, but no live position carries one. */
  function StaleRow(live: seq<Live>): Row -> bool {
    (r: Row) => (r.positionRef != "" || r.orderRef != "") && !LiveRow(live)(r)
  }

  /** The row counts on the references themselves. */
  lemma {:induction false} CountsMeaning(live: seq<Live>, rows: seq<Row>)
    ensures Matched(IndexOf(live), rows) == HowMany(rows, LiveRow(live))
    ensures StaleCount(IndexOf(live), rows) == HowMany(rows, StaleRow(live))
  {
    if rows == [] {
      HowManyNone(LiveRow(live));
      HowManyNone(StaleRow(live));
    } else {
      var init, r := rows[..|rows| - 1], rows[|rows| - 1];
      CountsMeaning(live, init);
      assert rows == init + [r];
      HowManySnoc(init, r, LiveRow(live));
      HowManySnoc(init, r, StaleRow(live));
      ClaimIffLive(live, r);
    }
  }

  lemma ClaimIffLive(live: seq<Live>, r: Row)
    ensures Claim(IndexOf(live), r).Some? <==> LiveRow(live)(r)
    ensures IsStale(IndexOf(live), r) <==> StaleRow(live)(r)
  {
    ClaimMeaning(live, r);
    RefsAre(r);
    match Claim(IndexOf(live), r)
    case None =>
    case Some(k) => assert live[k].id != "" && (live[k].id == r.positionRef || live[k].id == r.orderRef);
  }

  lemma RefsAre(r: Row)
    ensures forall ref :: ref in Refs(r) <==> ref != "" && (ref == r.positionRef || ref == r.orderRef)
    ensures Refs(r) == [] <==> r.positionRef == "" && r.orderRef == ""
  {
  }

  // ---- What a claim is ----

  ghost predicate ProfileIndexOk(m: map<(int, string), nat>, live: seq<Live>) {
    && (forall k :: k in m ==> m[k] < |live| && k.1 != "" && live[m[k]] == Live(k.0, k.1))
    && (forall i :: 0 <= i < |live| && live[i].id != "" ==> (live[i].profile, live[i].id) in m)
  }

  ghost predicate IdIndexOk(m: map<string, nat>, live: seq<Live>) {
    && (forall id :: id in m ==> m[id] < |live| && id != "" && live[m[id]].id == id)
    && (forall i :: 0 <= i < |live| && live[i].id != "" ==> live[i].id in m)
  }

  /** The dictionaries list exactly the positions with an id. */
  lemma {:induction false} IndexMeaning(live: seq<Live>)
    ensures ProfileIndexOk(IndexOf(live).byProfile, live) && IdIndexOk(IndexOf(live).byId, live)
  {
    if live != [] {
      var n := |live| - 1;
      IndexMeaning(live[..n]);
      assert live == live[..n] + [live[n]];
      ProfileIndexGrows(IndexOf(live[..n]).byProfile, live[..n], live[n]);
      IdIndexGrows(IndexOf(live[..n]).byId, live[..n], live[n]);
    }
  }

  lemma ProfileIndexGrows(m: map<(int, string), nat>, live: seq<Live>, p: Live)
    requires ProfileIndexOk(m, live)
    ensures ProfileIndexOk(if p.id == "" then m else m[(p.profile, p.id) := |live|], live + [p])
  {
  }

  lemma IdIndexGrows(m: map<string, nat>, live: seq<Live>, p: Live)
    requires IdIndexOk(m, live)
    ensures IdIndexOk(if p.id == "" || p.id in m then m else m[p.id := |live|], live + [p])
  {
  }

  lemma {:induction false} FirstByProfileMeaning(ix: Index, profile: int, refs: seq<string>)
    ensures match FirstByProfile(ix, profile, refs)
            case None => forall ref :: ref in refs ==> (profile, ref) !in ix.byProfile
            case Some(k) =>
              exists ref :: ref in refs && (profile, ref) in ix.byProfile && ix.byProfile[(profile, ref)] == k
  {
    if refs != [] {
      FirstByProfileMeaning(ix, profile, refs[1..]);
      assert forall ref :: ref in refs <==> ref == refs[0] || ref in refs[1..];
    }
  }

  lemma {:induction false} FirstByIdMeaning(ix: Index, refs: seq<string>)
    ensures match FirstById(ix, refs)
            case None => forall ref :: ref in refs ==> ref !in ix.byId
            case Some(k) => exists ref :: ref in refs && ref in ix.byId && ix.byId[ref] == k
  {
    if refs != [] {
      FirstByIdMeaning(ix, refs[1..]);
      assert forall ref :: ref in refs <==> ref == refs[0] || ref in refs[1..];
    }
  }

  /** A row claims a live position it references, of its own profile if there is one; and it claims none
      exactly when no live position carries one of its references. */
  lemma ClaimMeaning(live: seq<Live>, r: Row)
    ensures match Claim(IndexOf(live), r)
            case None => forall i :: 0 <= i < |live| ==> live[i].id !in Refs(r)
            case Some(k) => && k < |live| && live[k].id in Refs(r)
                            && (r.profile.Some? && live[k].profile != r.profile.value ==>
                                  forall i :: 0 <= i < |live| && live[i].profile == r.profile.value ==>
                                    live[i].id !in Refs(r))
  {
    var ix := IndexOf(live);
    IndexMeaning(live);
    assert "" !in Refs(r);
    FirstByIdMeaning(ix, Refs(r));
    if r.profile.Some? { FirstByProfileMeaning(ix, r.profile.value, Refs(r)); }
  }

  // ---- The counts ----

  /** The live positions some row claims. */
  function Claimed(ix: Index, rows: seq<Row>): set<nat> {
    set i | 0 <= i < |rows| && Claim(ix, rows[i]).Some? :: Claim(ix, rows[i]).value
  }

  /** No two rows claim the same position. */
  ghost predicate OneToOne(ix: Index, rows: seq<Row>) {
    forall i, j :: 0 <= i < j < |rows| && Claim(ix, rows[i]).Some? ==> Claim(ix, rows[i]) != Claim(ix, rows[j])
  }

  /** The claimed positions never outnumber the matched rows, and equal them exactly for one-to-one claims. */
  lemma {:induction false} ClaimedCount(ix: Index, rows: seq<Row>)
    ensures |Claimed(ix, rows)| <= Matched(ix, rows)
    ensures |Claimed(ix, rows)| == Matched(ix, rows) <==> OneToOne(ix, rows)
  {
    if rows == [] {
      assert Claimed(ix, rows) == {};
    } else {
      var n := |rows| - 1;
      var init, c := rows[..n], Claim(ix, rows[n]);
      ClaimedCount(ix, init);
      assert forall i :: 0 <= i < n ==> init[i] == rows[i];
      ClaimedStep(ix, rows);
      OneToOneStep(ix, rows);
    }
  }

  lemma ClaimedStep(ix: Index, rows: seq<Row>)
    requires rows != []
    ensures var init, c := rows[..|rows| - 1], Claim(ix, rows[|rows| - 1]);
            Claimed(ix, rows) == if c.Some? then Claimed(ix, init) + {c.value} else Claimed(ix, init)
  {
    var n := |rows| - 1;
    var init := rows[..n];
    assert forall i :: 0 <= i < n ==> init[i] == rows[i];
    forall x | x in Claimed(ix, init) ensures x in Claimed(ix, rows) {
      var i :| 0 <= i < n && Claim(ix, init[i]) == Some(x);
      assert Claim(ix, rows[i]) == Some(x);
    }
    forall x | x in Claimed(ix, rows) ensures x in Claimed(ix, init) || Claim(ix, rows[n]) == Some(x) {
      var i :| 0 <= i < |rows| && Claim(ix, rows[i]) == Some(x);
      assert i < n ==> Claim(ix, init[i]) == Some(x);
    }
  }

  lemma OneToOneStep(ix: Index, rows: seq<Row>)
    requires rows != []
    ensures var init, c := rows[..|rows| - 1], Claim(ix, rows[|rows| - 1]);
            OneToOne(ix, rows) <==> OneToOne(ix, init) && (c.Some? ==> c.value !in Claimed(ix, init))
  {
    var n := |rows| - 1;
    var init, c := rows[..n], Claim(ix, rows[n]);
    assert forall i :: 0 <= i < n ==> init[i] == rows[i];
    if c.Some? && c.value in Claimed(ix, init) {
      var i :| 0 <= i < n && Claim(ix, init[i]) == c;
      assert Claim(ix, rows[i]) == Claim(ix, rows[n]);
    }
    if OneToOne(ix, init) && (c.Some? ==> c.value !in Claimed(ix, init)) {
      forall i, j | 0 <= i < j < |rows| && Claim(ix, rows[i]).Some? ensures Claim(ix, rows[i]) != Claim(ix, rows[j]) {
        if j == n { assert Claim(ix, init[i]).Some?; } else { assert Claim(ix, init[i]) != Claim(ix, init[j]); }
      }
    }
  }

  lemma {:induction false} BoundedSet(s: set<nat>, n: nat)
    requires forall x :: x in s ==> x < n
    ensures |s| <= n && (|s| == n <==> forall x: nat :: x < n ==> x in s)
  {
    if n == 0 {
      assert s == {};
    } else {
      BoundedSet(s - {n - 1}, n - 1);
      assert n - 1 in s ==> s == (s - {n - 1}) + {n - 1};
      assert n - 1 !in s ==> s == s - {n - 1};
    }
  }

  lemma ClaimedInRange(live: seq<Live>, rows: seq<Row>)
    ensures forall x :: x in Claimed(IndexOf(live), rows) ==> x < |live|
  {
    var ix := IndexOf(live);
    forall i | 0 <= i < |rows| && Claim(ix, rows[i]).Some? ensures Claim(ix, rows[i]).value < |live| {
      ClaimMeaning(live, rows[i]);
    }
  }

  ghost predicate AllClaimed(live: seq<Live>, rows: seq<Row>) {
    forall x: nat :: x < |live| ==> x in Claimed(IndexOf(live), rows)
  }

  /** "Missing in the database" is the number of unclaimed live positions exactly when no two rows claim the
      same position, or every position is claimed anyway; otherwise it is too low. */
  lemma MissingIsUnclaimedIff(live: seq<Live>, rows: seq<Row>)
    ensures var unclaimed := |live| - |Claimed(IndexOf(live), rows)|;
            && 0 <= InfoOf(live, rows).missingInDb <= unclaimed
            && (InfoOf(live, rows).missingInDb == unclaimed <==>
                OneToOne(IndexOf(live), rows) || AllClaimed(live, rows))
  {
    var ix := IndexOf(live);
    ClaimedCount(ix, rows);
    ClaimedInRange(live, rows);
    BoundedSet(Claimed(ix, rows), |live|);
  }

  lemma {:induction false} StaleCountZero(ix: Index, rows: seq<Row>)
    ensures StaleCount(ix, rows) == 0 <==> forall i :: 0 <= i < |rows| ==> !IsStale(ix, rows[i])
  {
    if rows != [] {
      var n := |rows| - 1;
      StaleCountZero(ix, rows[..n]);
      assert forall i :: 0 <= i < n ==> rows[..n][i] == rows[i];
    }
  }

  /** The mismatch flag is clear exactly when every referencing row is live and at least as many rows are
      matched as positions are live; for one-to-one claims that is: every live position is claimed. */
  lemma MismatchFlagIff(live: seq<Live>, rows: seq<Row>)
    ensures var ix := IndexOf(live);
            && (!InfoOf(live, rows).hasMismatches <==>
                (forall i :: 0 <= i < |rows| ==> !IsStale(ix, rows[i])) && Matched(ix, rows) >= |live|)
            && (OneToOne(ix, rows) ==> (Matched(ix, rows) >= |live| <==> AllClaimed(live, rows)))
  {
    var ix := IndexOf(live);
    StaleCountZero(ix, rows);
    ClaimedCount(ix, rows);
    ClaimedInRange(live, rows);
    BoundedSet(Claimed(ix, rows), |live|);
  }

  /** Two rows on one position hide an unclaimed one: no mismatch is reported. */
  lemma DoubleClaimHidesMissing()
    ensures var live := [Live(1, "a"), Live(1, "b")];
            var rows := [Row(Some(1), "a", ""), Row(Some(1), "a", "")];
            !InfoOf(live, rows).hasMismatches && 1 !in Claimed(IndexOf(live), rows)
  {
    var live := [Live(1, "a"), Live(1, "b")];
    var r := Row(Some(1), "a", "");
    var rows := [r, r];
    assert live[..1] == [Live(1, "a")] && live[..1][..0] == [];
    var ix := IndexOf(live);
    assert IndexOf(live[..1]) == Index(map[(1, "a") := 0], map["a" := 0]);
    assert Refs(r) == ["a"];
    assert Claim(ix, r) == Some(0);
    assert rows[..1] == [r] && [r][..0] == [];
    assert Matched(ix, [r]) == Matched(ix, []) + 1 && StaleCount(ix, [r]) == StaleCount(ix, []);
    assert Matched(ix, rows) == 2 && StaleCount(ix, rows) == 0;
  }

  // ---- The per-account view ----

  /** The broker reference of a database row, "" if none. */
  function BrokerRef(r: Row): string { if r.orderRef != "" then r.orderRef else r.positionRef }

  function RefSet(rows: seq<Row>): set<string> { set r | r in rows && BrokerRef(r) != "" :: BrokerRef(r) }

  function CountIn(ids: seq<string>, s: set<string>): nat {
    if ids == [] then 0 else CountIn(ids[..|ids| - 1], s) + if ids[|ids| - 1] in s then 1 else 0
  }

  function BrokerRefs(rows: seq<Row>): (refs: seq<string>)
    ensures |refs| == |rows| && forall i :: 0 <= i < |rows| ==> refs[i] == BrokerRef(rows[i])
  {
    seq(|rows|, i requires 0 <= i < |rows| => BrokerRef(rows[i]))
  }

  datatype Summary = Summary(matched: nat, orphaned: nat, pending: int, tags: seq<bool>)

  /** Some row refers to the broker position: by its order reference, or by its position reference if it has no
      order reference. */
  function Referenced(rows: seq<Row>): string -> bool {
    (id: string) => exists i :: && 0 <= i < |rows| && id != ""
                                && (rows[i].orderRef == id || (rows[i].orderRef == "" && rows[i].positionRef == id))
  }

  /** The row's order reference, or its position reference if it has none, is a broker position. */
  predicate RefersTo(r: Row, broker: seq<string>) {
    if r.orderRef != "" then r.orderRef in broker else r.positionRef != "" && r.positionRef in broker
  }

  lemma {:induction false} CountInMeaning(broker: seq<string>, rows: seq<Row>)
    ensures CountIn(broker, RefSet(rows)) == HowMany(broker, Referenced(rows))
  {
    if broker == [] {
      HowManyNone(Referenced(rows));
    } else {
      var init, id := broker[..|broker| - 1], broker[|broker| - 1];
      CountInMeaning(init, rows);
      assert broker == init + [id];
      HowManySnoc(init, id, Referenced(rows));
      InRefSet(rows, id);
    }
  }

  lemma InRefSet(rows: seq<Row>, id: string)
    ensures id in RefSet(rows) <==> Referenced(rows)(id)
  {
    if id in RefSet(rows) {
      var r :| r in rows && BrokerRef(r) != "" && BrokerRef(r) == id;
      var i :| 0 <= i < |rows| && rows[i] == r;
    }
    if i :| 0 <= i < |rows| && id != ""
            && (rows[i].orderRef == id || (rows[i].orderRef == "" && rows[i].positionRef == id)) {
      assert rows[i] in rows && BrokerRef(rows[i]) == id;
    }
  }

  /** `tags[i]` is true if database row i is tagged matched, false if pending. */
  method AccountPositions(broker: seq<string>, rows: seq<Row>) returns (s: Summary)
    ensures s.matched == CountIn(broker, RefSet(rows)) && s.matched + s.orphaned == |broker|
    ensures s.pending == |rows| - s.matched
    ensures Tagged(broker, rows, s.tags)
    ensures s.matched == HowMany(broker, Referenced(rows))
    ensures |s.tags| == |rows| && forall i :: 0 <= i < |rows| ==> (s.tags[i] <==> RefersTo(rows[i], broker))
  {
    CountInMeaning(broker, rows);
    var known := RefSet(rows);
    var matchedIds: set<string> := {};
    var matched, orphaned: nat := 0, 0;
    for i := 0 to |broker|
      invariant matched == CountIn(broker[..i], known) && matched + orphaned == i
      invariant forall id :: id in matchedIds <==> id in broker[..i] && id in known
    {
      assert broker[..i + 1] == broker[..i] + [broker[i]];
      if broker[i] in known {
        matchedIds, matched := matchedIds + {broker[i]}, matched + 1;
      } else {
        orphaned := orphaned + 1;
      }
    }
    assert broker[..|broker|] == broker;
    var tags: seq<bool> := [];
    for i := 0 to |rows|
      invariant |tags| == i
      invariant forall k :: 0 <= k < i ==> (tags[k] <==> BrokerRef(rows[k]) != "" && BrokerRef(rows[k]) in broker)
    {
      var ref := BrokerRef(rows[i]);
      assert ref != "" ==> rows[i] in rows && ref in known;
      tags := tags + [ref != "" && ref in matchedIds];
    }
    s := Summary(matched, orphaned, |rows| - matched, tags);
  }

  function IdSet(ids: seq<string>): set<string> { set id | id in ids }

  /** In a list without repetitions, counting members of a set counts the common elements. */
  lemma {:induction false} CountDistinct(ids: seq<string>, s: set<string>)
    requires Distinct(ids)
    ensures CountIn(ids, s) == |IdSet(ids) * s|
  {
    if ids == [] {
      assert IdSet(ids) * s == {};
    } else {
      var init, x := ids[..|ids| - 1], ids[|ids| - 1];
      CountDistinct(init, s);
      assert forall y :: y in ids <==> y in init || y == x;
      assert x !in IdSet(init);
      assert IdSet(ids) * s == if x in s then IdSet(init) * s + {x} else IdSet(init) * s;
    }
  }

  /** References of the rows that have one. */
  function NonBlank(ids: seq<string>): seq<string> {
    if ids == [] then []
    else NonBlank(ids[..|ids| - 1]) + if ids[|ids| - 1] != "" then [ids[|ids| - 1]] else []
  }

  lemma {:induction false} NonBlankMeaning(rows: seq<Row>)
    ensures IdSet(NonBlank(BrokerRefs(rows))) == RefSet(rows)
  {
    if rows != [] {
      var n := |rows| - 1;
      NonBlankMeaning(rows[..n]);
      assert BrokerRefs(rows)[..n] == BrokerRefs(rows[..n]);
      assert forall r :: r in rows <==> r in rows[..n] || r == rows[n];
      assert forall id :: id in NonBlank(BrokerRefs(rows)) <==>
                            id in NonBlank(BrokerRefs(rows[..n])) || (id == BrokerRef(rows[n]) && id != "");
      forall id ensures id in RefSet(rows) <==> id in RefSet(rows[..n]) || (id == BrokerRef(rows[n]) && id != "") {
        if id in RefSet(rows) {
          var r :| r in rows && BrokerRef(r) != "" && BrokerRef(r) == id;
        }
      }
    }
  }

  /** Rows tagged matched: those whose reference is a live broker id. */
  function TaggedMatched(broker: seq<string>, rows: seq<Row>): nat {
    CountIn(NonBlank(BrokerRefs(rows)), IdSet(broker))
  }

  function CountFalse(tags: seq<bool>): nat {
    if tags == [] then 0 else CountFalse(tags[..|tags| - 1]) + if tags[|tags| - 1] then 0 else 1
  }

  /** The tags the endpoint sets. */
  ghost predicate Tagged(broker: seq<string>, rows: seq<Row>, tags: seq<bool>) {
    && |tags| == |rows|
    && forall i :: 0 <= i < |rows| ==> (tags[i] <==> BrokerRef(rows[i]) != "" && BrokerRef(rows[i]) in broker)
  }

  /** The pending total exceeds the number of rows tagged pending by the surplus of matched rows over
      matched positions. */
  lemma PendingOffBy(broker: seq<string>, rows: seq<Row>, tags: seq<bool>)
    requires Tagged(broker, rows, tags)
    ensures (|rows| - CountIn(broker, RefSet(rows))) - CountFalse(tags)
            == TaggedMatched(broker, rows) - CountIn(broker, RefSet(rows))
  {
    TagsCounted(broker, rows, tags);
  }

  /** With distinct ids on both sides the pending total is the number of rows tagged pending. */
  lemma PendingIsTagged(broker: seq<string>, rows: seq<Row>, tags: seq<bool>)
    requires Tagged(broker, rows, tags)
    requires Distinct(broker) && Distinct(NonBlank(BrokerRefs(rows)))
    ensures |rows| - CountIn(broker, RefSet(rows)) == CountFalse(tags)
  {
    CountDistinct(broker, RefSet(rows));
    CountDistinct(NonBlank(BrokerRefs(rows)), IdSet(broker));
    NonBlankMeaning(rows);
    assert IdSet(broker) * RefSet(rows) == RefSet(rows) * IdSet(broker);
    PendingOffBy(broker, rows, tags);
  }

  /** The tags set by the endpoint are counted by TaggedMatched. */
  lemma {:induction false} TagsCounted(broker: seq<string>, rows: seq<Row>, tags: seq<bool>)
    requires Tagged(broker, rows, tags)
    ensures |rows| - CountFalse(tags) == TaggedMatched(broker, rows)
  {
    if rows != [] {
      var n := |rows| - 1;
      TagsCounted(broker, rows[..n], tags[..n]);
      TaggedMatchedStep(broker, rows);
    }
  }

  lemma CountInSnoc(ids: seq<string>, x: string, s: set<string>)
    ensures CountIn(ids + [x], s) == CountIn(ids, s) + if x in s then 1 else 0
  {
    assert (ids + [x])[..|ids|] == ids;
  }

  lemma {:induction false} TaggedMatchedStep(broker: seq<string>, rows: seq<Row>)
    requires rows != []
    ensures var n := |rows| - 1;
            TaggedMatched(broker, rows) == TaggedMatched(broker, rows[..n])
              + if BrokerRef(rows[n]) != "" && BrokerRef(rows[n]) in broker then 1 else 0
  {
    var n := |rows| - 1;
    var refs := BrokerRefs(rows);
    assert refs[..n] == BrokerRefs(rows[..n]);
    CountInSnoc(NonBlank(refs[..n]), refs[n], IdSet(broker));
    assert NonBlank(refs) == if refs[n] != "" then NonBlank(refs[..n]) + [refs[n]] else NonBlank(refs[..n]);
  }
}
