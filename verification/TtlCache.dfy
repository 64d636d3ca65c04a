/** The per-account cache of broker answers, for 15 seconds (positions) or 30 (account data), as requests overlap. */
module TtlCache {
  import opened Common

  datatype Kind = Positions | Account

  function Ttl(kind: Kind): real { if kind.Positions? then 15.0 else 30.0 }

  function Suffix(kind: Kind): string { if kind.Positions? then ":positions" else ":account" }

  /** An adapter without an account id counts as "default". */
  function AccountName(id: Option<string>): string { if id.Some? then id.value else "default" }

  function Key(id: Option<string>, kind: Kind): string { AccountName(id) + Suffix(kind) }

  /** Two requests share an entry exactly when they are of one kind and one account: entries are never mixed,
      except between an account called "default" and an adapter without an id. */
  lemma KeysSharedIff(a: Option<string>, ka: Kind, b: Option<string>, kb: Kind)
    ensures Key(a, ka) == Key(b, kb) <==>
            ka == kb && (a == b || (a == None && b == Some("default")) || (a == Some("default") && b == None))
  {
    if Key(a, ka) == Key(b, kb) {
      var x, y := Key(a, ka), Key(b, kb);
      assert x[|x| - 1] == Suffix(ka)[|Suffix(ka)| - 1] && y[|y| - 1] == Suffix(kb)[|Suffix(kb)| - 1];
      assert x[..|AccountName(a)|] == AccountName(a) && y[..|AccountName(b)|] == AccountName(b);
    }
  }

  datatype Entry<V> = Entry(value: V, expiry: real)

  /** What a lookup returns. */
  function Hit<V>(entries: map<string, Entry<V>>, key: string, now: real): Option<V> {
    if key in entries && now < entries[key].expiry then Some(entries[key].value) else None
  }

  /** A completed broker call: whom it is for, the instant the answer describes, and when it arrived. */
  datatype Answer<V> = Answer(id: Option<string>, kind: Kind, value: V, snapshot: real, arrived: real)

  /** The answer accounts for `value` being served for an account and kind at time `at`. */
  ghost predicate Explains<V>(f: Answer<V>, id: Option<string>, kind: Kind, value: V, at: real) {
    && AccountName(f.id) == AccountName(id) && f.kind == kind && f.value == value
    && f.snapshot <= f.arrived <= at < f.arrived + (if kind.Positions? then 15.0 else 30.0)
  }

  /** The entry is what storing the answer leaves under its key. */
  ghost predicate Left<V>(f: Answer<V>, key: string, e: Entry<V>) {
    key == Key(f.id, f.kind) && e == Entry(f.value, f.arrived + Ttl(f.kind))
  }

  /** The module-level dictionary. The look-up and the store of one request are two calls, and other requests
      may come between them. */
  class Cache<V(!new)> {
    var entries: map<string, Entry<V>>
    ghost var answers: set<Answer<V>>
    ghost var clock: real

    ghost predicate Valid()
      reads this
    {
      && (forall f :: f in answers ==> f.snapshot <= f.arrived <= clock)
      && forall key :: key in entries ==> Backed(key, entries[key])
    }

    ghost predicate Backed(key: string, e: Entry<V>)
      reads this
    {
      exists f :: f in answers && Left(f, key, e)
    }

    constructor ()
      ensures Valid() && entries == map[] && answers == {}
    {
      entries, answers, clock := map[], {}, 0.0;
    }

    /** The look-up; on a miss the caller goes on to ask the broker. */
    method Lookup(id: Option<string>, kind: Kind, now: real) returns (r: Option<V>)
      requires Valid() && clock <= now
      modifies this
      ensures Valid() && entries == old(entries) && answers == old(answers)
      ensures r == Hit(entries, Key(id, kind), now)
      ensures r.Some? ==> exists f :: f in answers && Explains(f, id, kind, r.value, now)
    {
      clock := now;
      var key := Key(id, kind);
      r := None;
      if key in entries && now < entries[key].expiry {
        assert Backed(key, entries[key]);
        ghost var f :| f in answers && Left(f, key, entries[key]);
        KeysSharedIff(f.id, f.kind, id, kind);
        assert Explains(f, id, kind, entries[key].value, now);
        r := Some(entries[key].value);
      }
    }

    /** Store an answer when it arrives; the clean-up endpoint does so without a look-up before. */
    method Put(id: Option<string>, kind: Kind, value: V, ghost snapshot: real, arrived: real)
      requires Valid() && snapshot <= arrived && clock <= arrived
      modifies this
      ensures Valid() && answers == old(answers) + {Answer(id, kind, value, snapshot, arrived)}
      ensures entries == old(entries)[Key(id, kind) := Entry(value, arrived + Ttl(kind))]
    {
      ghost var f := Answer(id, kind, value, snapshot, arrived);
      ghost var before, earlier := entries, answers;
      entries := entries[Key(id, kind) := Entry(value, arrived + Ttl(kind))];
      answers := answers + {f};
      clock := arrived;
      forall key | key in entries ensures Backed(key, entries[key]) {
        if key == Key(id, kind) {
          assert f in answers && Left(f, key, entries[key]);
        } else {
          var g :| g in earlier && Left(g, key, before[key]);
          assert g in answers;
        }
      }
    }
  }

  // ---- Overlapping requests ----

  /** A request between its look-up and its store. */
  datatype Call<V> =
    | Asking(id: Option<string>, kind: Kind)
    | Answered(id: Option<string>, kind: Kind, value: V, snapshot: real)  // the broker has answered, as of `snapshot`

  datatype Served<V> = Served(id: Option<string>, kind: Kind, value: V, at: real)

  datatype State<V> = State(
    clock: real, entries: map<string, Entry<V>>, calls: map<int, Call<V>>, served: seq<Served<V>>,
    answers: seq<Answer<V>>,           // everything ever stored
    origin: map<string, Answer<V>>     // the last answer stored under each key
  )

  datatype Action<V> =
    | Tick(seconds: real)
    | Lookup(r: int, id: Option<string>, kind: Kind)   // serve from the cache, or start a broker call
    | Refresh(r: int, id: Option<string>)              // the clean-up's broker call, without a look-up
    | Reply(r: int, value: V)                          // the broker fixes its answer
    | Store(r: int)                                    // the answer arrives, is stored and returned
    | Fail(r: int)                                     // the call raises

  ghost function Step<V(!new)>(st: State<V>, a: Action<V>): State<V> {
    match a
    case Tick(seconds) => if seconds < 0.0 then st else st.(clock := st.clock + seconds)
    case Lookup(r, id, kind) =>
      if r in st.calls then st
      else
        var hit := Hit(st.entries, Key(id, kind), st.clock);
        if hit.Some? then st.(served := st.served + [Served(id, kind, hit.value, st.clock)])
        else st.(calls := st.calls[r := Asking(id, kind)])
    case Refresh(r, id) => if r in st.calls then st else st.(calls := st.calls[r := Asking(id, Positions)])
    case Reply(r, value) =>
      if r !in st.calls || !st.calls[r].Asking? then st
      else st.(calls := st.calls[r := Answered(st.calls[r].id, st.calls[r].kind, value, st.clock)])
    case Store(r) =>
      if r !in st.calls || !st.calls[r].Answered? then st
      else
        var c := st.calls[r];
        var f := Answer(c.id, c.kind, c.value, c.snapshot, st.clock);
        st.(entries := st.entries[Key(c.id, c.kind) := Entry(c.value, st.clock + Ttl(c.kind))],
            calls := st.calls - {r}, served := st.served + [Served(c.id, c.kind, c.value, st.clock)],
            answers := st.answers + [f], origin := st.origin[Key(c.id, c.kind) := f])
    case Fail(r) => st.(calls := st.calls - {r})
  }

  ghost function RunFrom<V(!new)>(st: State<V>, actions: seq<Action<V>>): State<V> {
    if actions == [] then st else Step(RunFrom(st, actions[..|actions| - 1]), actions[|actions| - 1])
  }

  ghost function Initial<V(!new)>(clock: real): State<V> { State(clock, map[], map[], [], [], map[]) }

  ghost predicate EntryOk<V(!new)>(st: State<V>, key: string) {
    key in st.entries && key in st.origin ==>
      && st.origin[key] in st.answers && Left(st.origin[key], key, st.entries[key])
      && st.origin[key].snapshot <= st.origin[key].arrived <= st.clock
  }

  /** What was served stems from an answer for the same account and kind that arrived within the last TTL. */
  ghost predicate ServedOk<V(!new)>(st: State<V>, s: Served<V>) {
    s.at <= st.clock && exists f :: f in st.answers && Explains(f, s.id, s.kind, s.value, s.at)
  }

  ghost predicate CallOk<V(!new)>(st: State<V>, c: Call<V>) { c.Answered? ==> c.snapshot <= st.clock }

  ghost predicate Invariant<V(!new)>(st: State<V>) {
    && st.entries.Keys == st.origin.Keys
    && (forall key :: key in st.entries ==> EntryOk(st, key))
    && (forall r :: r in st.calls ==> CallOk(st, st.calls[r]))
    && (forall i :: 0 <= i < |st.served| ==> ServedOk(st, st.served[i]))
  }

  /** What is served stays explained when time passes and answers are added. */
  lemma ServedStays<V(!new)>(st: State<V>, s: State<V>)
    requires Invariant(st) && st.clock <= s.clock && st.answers <= s.answers
    ensures forall i :: 0 <= i < |st.served| ==> ServedOk(s, st.served[i])
  {
    forall i | 0 <= i < |st.served| ensures ServedOk(s, st.served[i]) {
      var x := st.served[i];
      var f :| f in st.answers && Explains(f, x.id, x.kind, x.value, x.at);
      assert f in s.answers;
    }
  }

  /** A hit is explained by the last answer stored under its key. */
  lemma HitExplained<V(!new)>(st: State<V>, id: Option<string>, kind: Kind)
    requires Invariant(st) && Hit(st.entries, Key(id, kind), st.clock).Some?
    ensures var key := Key(id, kind);
            && key in st.origin && st.origin[key] in st.answers
            && Explains(st.origin[key], id, kind, Hit(st.entries, key, st.clock).value, st.clock)
  {
    var key := Key(id, kind);
    assert EntryOk(st, key);
    KeysSharedIff(st.origin[key].id, st.origin[key].kind, id, kind);
  }

  lemma OneMoreServed<V(!new)>(st: State<V>, s: State<V>, x: Served<V>)
    requires Invariant(st) && st.clock <= s.clock && st.answers <= s.answers
    requires s.served == st.served + [x] && ServedOk(s, x)
    ensures forall i :: 0 <= i < |s.served| ==> ServedOk(s, s.served[i])
  {
    ServedStays(st, s);
  }

  lemma LookupKeeps<V(!new)>(st: State<V>, r: int, id: Option<string>, kind: Kind)
    requires Invariant(st)
    ensures Invariant(Step(st, Action<V>.Lookup(r, id, kind)))
  {
    var s := Step(st, Action<V>.Lookup(r, id, kind));
    var hit := Hit(st.entries, Key(id, kind), st.clock);
    EntriesStay(st, s);
    if r !in st.calls && hit.Some? {
      HitExplained(st, id, kind);
      OneMoreServed(st, s, Served(id, kind, hit.value, st.clock));
    } else {
      ServedStays(st, s);
    }
  }

  lemma EntriesStay<V(!new)>(st: State<V>, s: State<V>)
    requires Invariant(st) && s.entries == st.entries && s.origin == st.origin
    requires st.clock <= s.clock && st.answers <= s.answers
    ensures forall key :: key in s.entries ==> EntryOk(s, key)
  {
    forall key | key in s.entries ensures EntryOk(s, key) {
      assert EntryOk(st, key);
    }
  }

  lemma StoreKeeps<V(!new)>(st: State<V>, r: int)
    requires Invariant(st) && r in st.calls && st.calls[r].Answered?
    ensures Invariant(Step(st, Action<V>.Store(r)))
  {
    var s, c := Step(st, Action<V>.Store(r)), st.calls[r];
    var f := Answer(c.id, c.kind, c.value, c.snapshot, st.clock);
    assert CallOk(st, c);
    forall key | key in s.entries ensures EntryOk(s, key) {
      if key != Key(c.id, c.kind) { assert EntryOk(st, key); }
    }
    assert Explains(f, c.id, c.kind, c.value, st.clock);
    OneMoreServed(st, s, Served(c.id, c.kind, c.value, st.clock));
  }

  lemma OtherKeeps<V(!new)>(st: State<V>, a: Action<V>)
    requires Invariant(st) && !a.Lookup? && !a.Store?
    ensures Invariant(Step(st, a))
  {
    ServedStays(st, Step(st, a));
    EntriesStay(st, Step(st, a));
  }

  lemma InvariantStep<V(!new)>(st: State<V>, a: Action<V>)
    requires Invariant(st)
    ensures Invariant(Step(st, a))
  {
    match a
    case Lookup(r, id, kind) => LookupKeeps(st, r, id, kind);
    case Store(r) => if r in st.calls && st.calls[r].Answered? { StoreKeeps(st, r); }
    case _ => OtherKeeps(st, a);
  }

  /** Over all interleavings, the clean-up's write-through included, every served value comes from an answer
      for the same account and kind that arrived less than that kind's TTL before. */
  lemma {:induction false} EveryServedExplained<V(!new)>(clock: real, actions: seq<Action<V>>)
    ensures Invariant(RunFrom(Initial<V>(clock), actions))
  {
    if actions != [] {
      EveryServedExplained(clock, actions[..|actions| - 1]);
      InvariantStep(RunFrom(Initial<V>(clock), actions[..|actions| - 1]), actions[|actions| - 1]);
    }
  }

  // ---- How old the described instant can get ----

  /** Only time and look-ups. */
  ghost predicate LookupsOnly<V(!new)>(actions: seq<Action<V>>) {
    forall i :: 0 <= i < |actions| ==> actions[i].Tick? || actions[i].Lookup?
  }

  /** The last answer under the served key describes an instant less than a TTL before it was served. */
  ghost predicate Young<V(!new)>(st: State<V>, s: Served<V>) {
    && Key(s.id, s.kind) in st.origin
    && s.at - st.origin[Key(s.id, s.kind)].snapshot < (if s.kind.Positions? then 15.0 else 30.0)
  }

  ghost predicate NewlyServedYoung<V(!new)>(st: State<V>, s: State<V>) {
    forall i :: |st.served| <= i < |s.served| ==> Young(st, s.served[i])
  }

  /** No entry that can still be served took time to arrive. */
  ghost predicate NoDelay<V(!new)>(st: State<V>) {
    forall key :: key in st.entries && key in st.origin && st.clock < st.entries[key].expiry ==>
      st.origin[key].snapshot == st.origin[key].arrived
  }

  /** `s` is `st` some time and some look-ups later. */
  ghost predicate SameCache<V(!new)>(st: State<V>, s: State<V>) {
    && s.entries == st.entries && s.origin == st.origin && st.clock <= s.clock && |st.served| <= |s.served|
    && (NoDelay(st) ==> NewlyServedYoung(st, s))
  }

  lemma LookupKeepsCache<V(!new)>(st: State<V>, s: State<V>, a: Action<V>)
    requires Invariant(s) && SameCache(st, s) && (a.Tick? || a.Lookup?)
    ensures SameCache(st, Step(s, a))
  {
    if a.Lookup? && a.r !in s.calls && Hit(s.entries, Key(a.id, a.kind), s.clock).Some? {
      HitExplained(s, a.id, a.kind);
      assert NoDelay(st) ==> Young(st, Served(a.id, a.kind, s.entries[Key(a.id, a.kind)].value, s.clock));
    }
  }

  lemma {:induction false} LookupsKeepCache<V(!new)>(st: State<V>, actions: seq<Action<V>>)
    requires Invariant(st) && LookupsOnly(actions)
    ensures Invariant(RunFrom(st, actions)) && SameCache(st, RunFrom(st, actions))
  {
    if actions != [] {
      var init, a := actions[..|actions| - 1], actions[|actions| - 1];
      assert forall i :: 0 <= i < |init| ==> init[i] == actions[i];
      LookupsKeepCache(st, init);
      InvariantStep(RunFrom(st, init), a);
      LookupKeepsCache(st, RunFrom(st, init), a);
    }
  }

  /** An entry whose answer took time to arrive is served, if asked for late enough, when what it describes is
      a whole TTL old. */
  lemma {:induction false} DelayedIsServedOld<V(!new)>(st: State<V>, key: string, r: int)
    returns (actions: seq<Action<V>>)
    requires Invariant(st) && key in st.entries && key in st.origin && st.clock < st.entries[key].expiry
    requires st.origin[key].snapshot < st.origin[key].arrived && r !in st.calls
    ensures LookupsOnly(actions) && !NewlyServedYoung(st, RunFrom(st, actions))
  {
    assert EntryOk(st, key);
    var f := st.origin[key];
    var at := MaxR(st.clock, f.snapshot + Ttl(f.kind));
    var wait, ask := Tick(at - st.clock), Lookup(r, f.id, f.kind);
    actions := [wait, ask];
    assert actions[..1] == [wait] && [wait][..0] == [];
    var one := Step(st, wait);
    assert RunFrom(st, [wait]) == Step(RunFrom(st, []), wait) == one;
    var two := Step(one, ask);
    assert RunFrom(st, actions) == two;
    assert one.clock == at < st.entries[key].expiry;
    assert two.served[|st.served|] == Served(f.id, f.kind, f.value, at);
    assert !Young(st, two.served[|st.served|]);
  }

  /** The TTL bounds the time since an answer arrived. It bounds the age of what is described, for everything
      that can still be served from the cache, exactly when no servable answer took time to arrive. */
  lemma AgeBoundIff<V(!new)>(st: State<V>)
    requires Invariant(st)
    ensures (forall actions :: LookupsOnly(actions) ==> NewlyServedYoung(st, RunFrom(st, actions))) <==> NoDelay(st)
  {
    if NoDelay(st) {
      forall actions | LookupsOnly(actions) ensures NewlyServedYoung(st, RunFrom(st, actions)) {
        LookupsKeepCache(st, actions);
      }
    } else {
      var key :| key in st.entries && key in st.origin && st.clock < st.entries[key].expiry
                 && st.origin[key].snapshot != st.origin[key].arrived;
      assert EntryOk(st, key);
      var r := FreeName(st.calls.Keys);
      var actions := DelayedIsServedOld(st, key, r);
    }
  }

  lemma {:induction false} RunSnoc<V(!new)>(st: State<V>, actions: seq<Action<V>>, a: Action<V>)
    ensures RunFrom(st, actions + [a]) == Step(RunFrom(st, actions), a)
  {
    assert (actions + [a])[..|actions|] == actions;
  }

  lemma RunOfFour<V(!new)>(st: State<V>, a: Action<V>, b: Action<V>, c: Action<V>, d: Action<V>)
    ensures RunFrom(st, [a, b, c, d]) == Step(Step(Step(Step(st, a), b), c), d)
  {
    RunSnoc(st, [], a);
    RunSnoc(st, [a], b);
    RunSnoc(st, [a, b], c);
    RunSnoc(st, [a, b, c], d);
    assert [] + [a] == [a] && [a] + [b] == [a, b] && [a, b] + [c] == [a, b, c] && [a, b, c] + [d] == [a, b, c, d];
  }

  /** Such states occur: any answer may take any time to arrive. */
  lemma DelayedAnswerReachable<V(!new)>(clock: real, id: Option<string>, kind: Kind, value: V, delay: real)
    requires delay > 0.0
    ensures var st := RunFrom(Initial<V>(clock), [Lookup(0, id, kind), Reply(0, value), Tick(delay), Store(0)]);
            Invariant(st) && !NoDelay(st)
  {
    var a, b, c, d: Action<V> := Lookup(0, id, kind), Reply(0, value), Tick(delay), Store(0);
    var st := RunFrom(Initial<V>(clock), [a, b, c, d]);
    RunOfFour(Initial<V>(clock), a, b, c, d);
    EveryServedExplained(clock, [a, b, c, d]);
    assert st.origin[Key(id, kind)] == Answer(id, kind, value, clock, clock + delay);
    assert Key(id, kind) in st.entries && st.clock < st.entries[Key(id, kind)].expiry;
  }
}
