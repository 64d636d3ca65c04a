/** The broker_profiles table under every endpoint that writes it. Blank and absent text are both "". */
module BrokerProfiles {
  import opened Common

  datatype Profile = Profile(venue: string, metaId: string, token: string, apiKey: string, apiSecret: string,
                             active: bool, selected: bool)

  predicate IsMetaApi(venue: string) { venue in {"metaapi", "metaapi_mt5", "mt5"} }

  predicate IsExchange(venue: string) { venue in {"binance", "bybit"} }

  predicate Supported(venue: string) { IsMetaApi(venue) || venue == "ctrader" || IsExchange(venue) }

  const DEFAULT_VENUE := "metaapi_mt5"

  /** Fields of an update; None is "not provided". `other` stands for fields without credentials or flags. */
  datatype Patch = Patch(metaId: Option<string>, token: Option<string>, apiKey: Option<string>,
                         apiSecret: Option<string>, active: Option<bool>, other: bool)

  datatype Request =
    | Create(venue: string, metaId: string, token: string, apiKey: string, apiSecret: string)
    | Update(id: int, patch: Patch)
    | Delete(id: int)
    | Activate(id: int)
    | CreateAccount(metaId: string, token: string, found: Option<int>)  // `found`: a row with that account id
    | ChallengeSettings(profile: Option<int>, metaId: string)
    | OAuthStart(id: int)
    | OAuthCallback(id: int, refreshToken: string)
    | CtraderTest(id: int, newToken: string, accountId: string)
    | RotateToken(accountId: string, newToken: string)

  datatype Response = Done | NotFound | Conflict | Rejected

  /** The table, the next row id, and the profile ids in signed connect states handed out so far. */
  datatype State = State(rows: map<int, Profile>, nextId: int, issued: set<int>)

  /** The row a create request inserts, if it is accepted. */
  function NewProfile(venue: string, metaId: string, token: string, apiKey: string, apiSecret: string)
    : Option<Profile>
  {
    if IsMetaApi(venue) then
      if metaId == "" || token == "" then None else Some(Profile(venue, metaId, token, "", "", true, false))
    else if venue == "ctrader" then Some(Profile(venue, "", "", "", "", false, false))
    else if IsExchange(venue) then
      if apiKey == "" || apiSecret == "" then None else Some(Profile(venue, "", "", apiKey, apiSecret, true, false))
    else None
  }

  function Patched(p: Profile, q: Patch): Profile {
    Profile(p.venue,
            if q.metaId.Some? then q.metaId.value else p.metaId,
            if q.token.Some? then q.token.value else p.token,
            if q.apiKey.Some? then q.apiKey.value else p.apiKey,
            if q.apiSecret.Some? then q.apiSecret.value else p.apiSecret,
            if q.active.Some? then q.active.value else p.active,
            if q.active == Some(false) then false else p.selected)
  }

  predicate Empty(q: Patch) {
    q.metaId.None? && q.token.None? && q.apiKey.None? && q.apiSecret.None? && q.active.None? && !q.other
  }

  predicate AllowedPatch(venue: string, q: Patch) {
    && (IsMetaApi(venue) ==> q.apiKey.None? && q.apiSecret.None?)
    && (venue == "ctrader" ==> q.metaId.None? && q.token.None? && q.apiKey.None? && q.apiSecret.None?)
    && (IsExchange(venue) ==> q.metaId.None? && q.token.None?)
    && !Empty(q)
  }

  function Insert(st: State, p: Profile): State { st.(rows := st.rows[st.nextId := p], nextId := st.nextId + 1) }

  function Rotated(rows: map<int, Profile>, accountId: string, newToken: string): map<int, Profile> {
    map id | id in rows :: if rows[id].metaId == accountId then rows[id].(token := newToken) else rows[id]
  }

  /** The new state and the response of one request, handled atomically. */
  function Apply(st: State, r: Request): (State, Response) {
    match r
    case Create(venue, metaId, token, apiKey, apiSecret) =>
      var p := NewProfile(venue, metaId, token, apiKey, apiSecret);
      if p.None? then (st, Rejected) else (Insert(st, p.value), Done)
    case Update(id, q) =>
      if id !in st.rows then (st, NotFound)
      else if !AllowedPatch(st.rows[id].venue, q) then (st, Rejected)
      else (st.(rows := st.rows[id := Patched(st.rows[id], q)]), Done)
    case Delete(id) => if id !in st.rows then (st, NotFound) else (st.(rows := st.rows - {id}), Done)
    case Activate(id) =>
      if id !in st.rows then (st, NotFound)
      else if !st.rows[id].active then (st, Conflict)
      else (st.(rows := st.rows[id := st.rows[id].(selected := true)]), Done)
    case CreateAccount(metaId, token, found) =>
      if metaId == "" then (st, Done)
      else if found.Some? then
        if found.value !in st.rows || token == "" then (st, Done)
        else (st.(rows := st.rows[found.value := st.rows[found.value].(token := token)]), Done)
      else (Insert(st, Profile(DEFAULT_VENUE, metaId, token, "", "", true, false)), Done)
    case ChallengeSettings(profile, metaId) =>
      if profile.Some? then (st, Done)
      else (Insert(st, Profile(DEFAULT_VENUE, metaId, "", "", "", true, false)), Done)
    case OAuthStart(id) =>
      if id !in st.rows then (st, NotFound)
      else if st.rows[id].venue != "ctrader" then (st, Conflict)
      else (st.(issued := st.issued + {id}), Done)
    case OAuthCallback(id, refreshToken) =>
      if id !in st.issued then (st, Rejected)
      else if id !in st.rows then (st, Done)
      else (st.(rows := st.rows[id := st.rows[id].(token := refreshToken)]), Done)
    case CtraderTest(id, newToken, accountId) =>
      if id !in st.rows then (st, NotFound)
      else if st.rows[id].venue != "ctrader" then (st, Conflict)
      else if st.rows[id].token == "" then (st, Rejected)
      else
        var p := st.rows[id];
        (st.(rows := st.rows[id := p.(token := if newToken != "" then newToken else p.token,
                                      metaId := if accountId != "" then accountId else p.metaId)]), Done)
    case RotateToken(accountId, newToken) =>
      if accountId == "" || newToken == "" then (st, Done)
      else (st.(rows := Rotated(st.rows, accountId, newToken)), Done)
  }

  /** The lookup by account id names a row that has it, and finds one if there is one. */
  ghost predicate HonestLookup(st: State, r: Request) {
    r.CreateAccount? && r.metaId != "" ==>
      if r.found.Some? then r.found.value in st.rows && st.rows[r.found.value].metaId == r.metaId
      else forall id :: id in st.rows ==> st.rows[id].metaId != r.metaId
  }

  // ---- Invariants of every reachable state ----

  ghost predicate RowOk(p: Profile) {
    && Supported(p.venue)
    && (p.selected ==> p.active)
    && (IsMetaApi(p.venue) || p.venue == "ctrader" ==> p.apiKey == "" && p.apiSecret == "")
    && (IsExchange(p.venue) ==> p.token == "" && p.metaId == "")
  }

  ghost predicate Invariant(st: State) {
    && (forall id :: id in st.rows ==> id < st.nextId && RowOk(st.rows[id]))
    && (forall id :: id in st.issued ==> id < st.nextId && (id in st.rows ==> st.rows[id].venue == "ctrader"))
  }

  /** What one request may not do to the rows: change a venue, or bring back a used id. */
  ghost predicate Continues(st: State, s: State) {
    && st.nextId <= s.nextId && st.issued <= s.issued
    && (forall id :: id in st.rows && id in s.rows ==> s.rows[id].venue == st.rows[id].venue)
    && (forall id :: id in s.rows && id < st.nextId ==> id in st.rows)
  }

  lemma InsertKeeps(st: State, p: Profile)
    requires Invariant(st) && RowOk(p)
    ensures Invariant(Insert(st, p)) && Continues(st, Insert(st, p))
  {
  }

  lemma ReplaceKeeps(st: State, id: int, p: Profile)
    requires Invariant(st) && id in st.rows && RowOk(p) && p.venue == st.rows[id].venue
    ensures var s := st.(rows := st.rows[id := p]);
            Invariant(s) && Continues(st, s)
  {
  }

  lemma RotateKeeps(st: State, accountId: string, newToken: string)
    requires Invariant(st) && accountId != ""
    ensures var s := st.(rows := Rotated(st.rows, accountId, newToken));
            Invariant(s) && Continues(st, s)
  {
  }

  /** What a request may make of a state. */
  ghost predicate Keeps(st: State, s: State) { Invariant(s) && Continues(st, s) }

  lemma CreateKeeps(st: State, venue: string, metaId: string, token: string, apiKey: string, apiSecret: string)
    requires Invariant(st)
    ensures Keeps(st, Apply(st, Create(venue, metaId, token, apiKey, apiSecret)).0)
  {
    var p := NewProfile(venue, metaId, token, apiKey, apiSecret);
    if p.Some? { InsertKeeps(st, p.value); }
  }

  lemma UpdateKeeps(st: State, id: int, q: Patch)
    requires Invariant(st)
    ensures Keeps(st, Apply(st, Update(id, q)).0)
  {
    if id in st.rows && AllowedPatch(st.rows[id].venue, q) {
      PatchKeepsRow(st.rows[id], q);
      ReplaceKeeps(st, id, Patched(st.rows[id], q));
    }
  }

  lemma DeleteKeeps(st: State, id: int)
    requires Invariant(st)
    ensures Keeps(st, Apply(st, Delete(id)).0)
  {
  }

  lemma ActivateKeeps(st: State, id: int)
    requires Invariant(st)
    ensures Keeps(st, Apply(st, Activate(id)).0)
  {
    if id in st.rows && st.rows[id].active { ReplaceKeeps(st, id, st.rows[id].(selected := true)); }
  }

  lemma CreateAccountKeeps(st: State, metaId: string, token: string, found: Option<int>)
    requires Invariant(st) && HonestLookup(st, CreateAccount(metaId, token, found))
    ensures Keeps(st, Apply(st, CreateAccount(metaId, token, found)).0)
  {
    if metaId != "" {
      if found.None? {
        InsertKeeps(st, Profile(DEFAULT_VENUE, metaId, token, "", "", true, false));
      } else {
        ReplaceKeeps(st, found.value, st.rows[found.value].(token := token));
      }
    }
  }

  lemma ChallengeKeeps(st: State, profile: Option<int>, metaId: string)
    requires Invariant(st)
    ensures Keeps(st, Apply(st, ChallengeSettings(profile, metaId)).0)
  {
    InsertKeeps(st, Profile(DEFAULT_VENUE, metaId, "", "", "", true, false));
  }

  lemma ConnectKeeps(st: State, r: Request)
    requires Invariant(st) && (r.OAuthStart? || r.OAuthCallback? || r.CtraderTest?)
    ensures Keeps(st, Apply(st, r).0)
  {
    match r
    case OAuthCallback(id, refreshToken) =>
      if id in st.issued && id in st.rows { ReplaceKeeps(st, id, st.rows[id].(token := refreshToken)); }
    case CtraderTest(id, newToken, accountId) =>
      if id in st.rows && st.rows[id].venue == "ctrader" && st.rows[id].token != "" {
        ReplaceKeeps(st, id, Apply(st, r).0.rows[id]);
      }
    case _ =>
  }

  lemma RotateTokenKeeps(st: State, accountId: string, newToken: string)
    requires Invariant(st)
    ensures Keeps(st, Apply(st, RotateToken(accountId, newToken)).0)
  {
    if accountId != "" { RotateKeeps(st, accountId, newToken); }
  }

  /** One request keeps the invariants and continues the history. */
  lemma RequestKeepsInvariant(st: State, r: Request)
    requires Invariant(st) && HonestLookup(st, r)
    ensures Keeps(st, Apply(st, r).0)
  {
    match r
    case Create(venue, metaId, token, apiKey, apiSecret) => CreateKeeps(st, venue, metaId, token, apiKey, apiSecret);
    case Update(id, q) => UpdateKeeps(st, id, q);
    case Delete(id) => DeleteKeeps(st, id);
    case Activate(id) => ActivateKeeps(st, id);
    case CreateAccount(metaId, token, found) => CreateAccountKeeps(st, metaId, token, found);
    case ChallengeSettings(profile, metaId) => ChallengeKeeps(st, profile, metaId);
    case RotateToken(accountId, newToken) => RotateTokenKeeps(st, accountId, newToken);
    case _ => ConnectKeeps(st, r);
  }

  /** No row but `id` is added, removed or changed. */
  ghost predicate OnlyRow(st: State, s: State, id: int) {
    forall k :: k != id ==> (k in st.rows <==> k in s.rows) && (k in st.rows ==> s.rows[k] == st.rows[k])
  }

  lemma PatchKeepsRow(p: Profile, q: Patch)
    requires RowOk(p) && AllowedPatch(p.venue, q)
    ensures RowOk(Patched(p, q)) && Patched(p, q).venue == p.venue
  {
  }

  /** Every provided column has the new value, every other one the old, and deactivation deselects. */
  ghost predicate TakesPatch(before: Profile, q: Patch, after: Profile) {
    && after.venue == before.venue
    && (if q.metaId.Some? then after.metaId == q.metaId.value else after.metaId == before.metaId)
    && (if q.token.Some? then after.token == q.token.value else after.token == before.token)
    && (if q.apiKey.Some? then after.apiKey == q.apiKey.value else after.apiKey == before.apiKey)
    && (if q.apiSecret.Some? then after.apiSecret == q.apiSecret.value else after.apiSecret == before.apiSecret)
    && (if q.active.Some? then after.active == q.active.value else after.active == before.active)
    && (if q.active == Some(false) then !after.selected else after.selected == before.selected)
  }

  /** The update provides something, and no credential that is foreign to the venue. */
  ghost predicate Acceptable(venue: string, q: Patch) {
    && (q.metaId.Some? || q.token.Some? || q.apiKey.Some? || q.apiSecret.Some? || q.active.Some? || q.other)
    && (venue in {"metaapi", "metaapi_mt5", "mt5"} ==> q.apiKey.None? && q.apiSecret.None?)
    && (venue == "ctrader" ==> q.metaId.None? && q.token.None? && q.apiKey.None? && q.apiSecret.None?)
    && (venue in {"binance", "bybit"} ==> q.metaId.None? && q.token.None?)
  }

  lemma PatchMeaning(p: Profile, q: Patch)
    ensures TakesPatch(p, q, Patched(p, q))
    ensures AllowedPatch(p.venue, q) <==> Acceptable(p.venue, q)
  {
  }

  /** The answer to an update of a row, and the row that then has the id. */
  ghost predicate Updates(before: Profile, q: Patch, r: Response, after: Profile) {
    && (r == Done <==> Acceptable(before.venue, q))
    && (r == Done ==> TakesPatch(before, q, after) && (after.selected ==> after.active && before.selected))
    && (r != Done ==> after == before)
  }

  lemma ApplyUpdates(st: State, id: int, q: Patch)
    requires id in st.rows && RowOk(st.rows[id])
    ensures id in Apply(st, Update(id, q)).0.rows
    ensures Updates(st.rows[id], q, Apply(st, Update(id, q)).1, Apply(st, Update(id, q)).0.rows[id])
  {
    PatchMeaning(st.rows[id], q);
  }

  ghost predicate HoldsAccount(rows: map<int, Profile>, id: int, metaId: string, token: string) {
    id in rows && rows[id].metaId == metaId && (token != "" ==> rows[id].token == token)
  }

  // ---- The endpoints, step by step ----

  /** The table, and the profile ids in connect states handed out. Every method keeps the invariants, changes no
      venue, brings back no used id, and computes what `Apply` says. */
  class Table {
    var rows: map<int, Profile>
    var nextId: int
    var issued: set<int>

    function Abstract(): State
      reads this
    {
      State(rows, nextId, issued)
    }

    ghost predicate Valid()
      reads this
    {
      Invariant(Abstract())
    }

    constructor ()
      ensures Valid() && Abstract() == State(map[], 1, {})
    {
      rows, nextId, issued := map[], 1, {};
    }

    /** An accepted profile gets an unused id, is not selected, and holds the credentials of its venue only. */
    method CreateProfile(venue: string, metaId: string, token: string, apiKey: string, apiSecret: string)
      returns (r: Response)
      requires Valid()
      modifies this
      ensures Valid() && Continues(old(Abstract()), Abstract())
      ensures (Abstract(), r) == Apply(old(Abstract()), Create(venue, metaId, token, apiKey, apiSecret))
      ensures OnlyRow(old(Abstract()), Abstract(), old(nextId))
      ensures r == Done ==> && old(nextId) !in old(rows) && old(nextId) in rows
                            && rows[old(nextId)].venue == venue && !rows[old(nextId)].selected
      ensures r == Done <==>
                || (venue in {"metaapi", "metaapi_mt5", "mt5"} && metaId != "" && token != "")
                || venue == "ctrader" || (venue in {"binance", "bybit"} && apiKey != "" && apiSecret != "")
      ensures r == Done ==>
                rows[old(nextId)]
                == if venue == "ctrader" then Profile(venue, "", "", "", "", false, false)
                   else if venue in {"binance", "bybit"} then Profile(venue, "", "", apiKey, apiSecret, true, false)
                   else Profile(venue, metaId, token, "", "", true, false)
      ensures r != Done ==> Abstract() == old(Abstract())
    {
      CreateKeeps(Abstract(), venue, metaId, token, apiKey, apiSecret);
      var payload := Profile(venue, metaId, token, apiKey, apiSecret, true, false);
      if IsMetaApi(venue) {
        if payload.metaId == "" || payload.token == "" { return Rejected; }
        payload := payload.(apiKey := "", apiSecret := "");
      } else if venue == "ctrader" {
        payload := payload.(metaId := "", token := "", apiKey := "", apiSecret := "");
        payload := payload.(active := false, selected := false);
      } else if IsExchange(venue) {
        if payload.apiKey == "" || payload.apiSecret == "" { return Rejected; }
        payload := payload.(metaId := "", token := "");
      } else {
        return Rejected;
      }
      rows := rows[nextId := payload];
      nextId := nextId + 1;
      r := Done;
    }

    /** An update never leaves a deactivated profile selected, and never selects one. */
    method UpdateProfile(id: int, q: Patch) returns (r: Response)
      requires Valid()
      modifies this
      ensures Valid() && Continues(old(Abstract()), Abstract())
      ensures (Abstract(), r) == Apply(old(Abstract()), Update(id, q))
      ensures OnlyRow(old(Abstract()), Abstract(), id)
      ensures if id in old(rows) then id in rows && Updates(old(rows)[id], q, r, rows[id]) else r == NotFound
      ensures r != Done ==> Abstract() == old(Abstract())
    {
      UpdateKeeps(Abstract(), id, q);
      if id !in rows { return NotFound; }
      ApplyUpdates(Abstract(), id, q);
      var venue, p := rows[id].venue, rows[id];
      if q.metaId.Some? { p := p.(metaId := q.metaId.value); }
      if q.token.Some? { p := p.(token := q.token.value); }
      if q.apiKey.Some? { p := p.(apiKey := q.apiKey.value); }
      if q.apiSecret.Some? { p := p.(apiSecret := q.apiSecret.value); }
      if q.active.Some? {
        p := p.(active := q.active.value);
        if !q.active.value { p := p.(selected := false); }
      }
      if IsMetaApi(venue) && (q.apiKey.Some? || q.apiSecret.Some?) { return Rejected; }
      if venue == "ctrader" && (q.token.Some? || q.metaId.Some? || q.apiKey.Some? || q.apiSecret.Some?) {
        return Rejected;
      }
      if IsExchange(venue) && (q.metaId.Some? || q.token.Some?) { return Rejected; }
      if Empty(q) { return Rejected; }
      rows := rows[id := p];
      r := Done;
    }

    /** Afterwards the profile is selected for trading and active, or nothing has changed. */
    method ActivateProfile(id: int) returns (r: Response)
      requires Valid()
      modifies this
      ensures Valid() && Continues(old(Abstract()), Abstract())
      ensures (Abstract(), r) == Apply(old(Abstract()), Activate(id))
      ensures OnlyRow(old(Abstract()), Abstract(), id)
      ensures r == Done <==> id in old(rows) && old(rows)[id].active
      ensures r == Done ==> id in rows && rows[id].active && rows[id] == old(rows)[id].(selected := true)
      ensures r != Done ==> Abstract() == old(Abstract())
    {
      ActivateKeeps(Abstract(), id);
      if id !in rows { return NotFound; }
      if !rows[id].active { return Conflict; }
      rows := rows[id := rows[id].(selected := true)];
      r := Done;
    }

    /** Afterwards some row has the account id, with the token if one was given. */
    method OpenAccount(metaId: string, token: string, found: Option<int>) returns (r: Response)
      requires Valid() && HonestLookup(Abstract(), CreateAccount(metaId, token, found))
      modifies this
      ensures Valid() && Continues(old(Abstract()), Abstract())
      ensures (Abstract(), r) == Apply(old(Abstract()), CreateAccount(metaId, token, found))
      ensures metaId == "" ==> Abstract() == old(Abstract())
      ensures metaId != "" ==> exists id :: HoldsAccount(rows, id, metaId, token)
      ensures forall id :: id in old(rows) && old(rows)[id].metaId != metaId ==> id in rows && rows[id] == old(rows)[id]
      ensures metaId != "" && found.None? ==>
                old(nextId) in rows && rows[old(nextId)] == Profile("metaapi_mt5", metaId, token, "", "", true, false)
      ensures metaId != "" && found.Some? ==>
                rows == old(rows)[found.value := old(rows)[found.value].(
                          token := if token != "" then token else old(rows)[found.value].token)]
    {
      CreateAccountKeeps(Abstract(), metaId, token, found);
      r := Done;
      if metaId == "" { return; }
      if found.Some? {
        if token != "" && found.value in rows { rows := rows[found.value := rows[found.value].(token := token)]; }
        assert HoldsAccount(rows, found.value, metaId, token);
      } else {
        rows := rows[nextId := Profile(DEFAULT_VENUE, metaId, token, "", "", true, false)];
        assert HoldsAccount(rows, nextId, metaId, token);
        nextId := nextId + 1;
      }
    }

    /** The refresh token only ever lands in a cTrader row. */
    method ConnectCallback(id: int, refreshToken: string) returns (r: Response)
      requires Valid()
      modifies this
      ensures Valid() && Continues(old(Abstract()), Abstract())
      ensures (Abstract(), r) == Apply(old(Abstract()), OAuthCallback(id, refreshToken))
      ensures OnlyRow(old(Abstract()), Abstract(), id)
      ensures r == Done && id in rows ==>
                rows[id].venue == "ctrader" && rows[id] == old(rows)[id].(token := refreshToken)
      ensures r == Done <==> id in old(issued)
      ensures id in old(rows) && old(rows)[id].venue != "ctrader" ==> Abstract() == old(Abstract())
    {
      ConnectKeeps(Abstract(), OAuthCallback(id, refreshToken));
      if id !in issued { return Rejected; }
      if id in rows { rows := rows[id := rows[id].(token := refreshToken)]; }
      r := Done;
    }

    /** Afterwards the row is gone, and its id is never given out again. */
    method RemoveProfile(id: int) returns (r: Response)
      requires Valid()
      modifies this
      ensures Valid() && Continues(old(Abstract()), Abstract())
      ensures (Abstract(), r) == Apply(old(Abstract()), Delete(id))
      ensures OnlyRow(old(Abstract()), Abstract(), id)
      ensures id !in rows && (r == Done <==> id in old(rows)) && (r == Done ==> id < nextId)
    {
      DeleteKeeps(Abstract(), id);
      if id !in rows { return NotFound; }
      rows := rows - {id};
      r := Done;
    }

    /** A connect state is handed out for cTrader rows only, and no row changes. */
    method StartConnect(id: int) returns (r: Response)
      requires Valid()
      modifies this
      ensures Valid() && Continues(old(Abstract()), Abstract())
      ensures (Abstract(), r) == Apply(old(Abstract()), OAuthStart(id))
      ensures rows == old(rows) && (r == Done <==> id in rows && rows[id].venue == "ctrader")
      ensures issued == old(issued) + if r == Done then {id} else {}
      ensures forall k :: k in issued && k in rows ==> rows[k].venue == "ctrader"
    {
      ConnectKeeps(Abstract(), OAuthStart(id));
      if id !in rows { return NotFound; }
      if rows[id].venue != "ctrader" { return Conflict; }
      issued := issued + {id};
      r := Done;
    }

    /** Only a connected cTrader row changes, and it stays connected. */
    method TestCtrader(id: int, newToken: string, accountId: string) returns (r: Response)
      requires Valid()
      modifies this
      ensures Valid() && Continues(old(Abstract()), Abstract())
      ensures (Abstract(), r) == Apply(old(Abstract()), CtraderTest(id, newToken, accountId))
      ensures OnlyRow(old(Abstract()), Abstract(), id)
      ensures r == Done ==> id in rows && rows[id].venue == "ctrader" && rows[id].token != ""
      ensures r == Done ==>
                rows[id] == old(rows)[id].(token := if newToken != "" then newToken else old(rows)[id].token,
                                           metaId := if accountId != "" then accountId else old(rows)[id].metaId)
      ensures r == Done <==> id in old(rows) && old(rows)[id].venue == "ctrader" && old(rows)[id].token != ""
      ensures r != Done ==> Abstract() == old(Abstract())
    {
      ConnectKeeps(Abstract(), CtraderTest(id, newToken, accountId));
      if id !in rows { return NotFound; }
      if rows[id].venue != "ctrader" { return Conflict; }
      if rows[id].token == "" { return Rejected; }
      var p := rows[id];
      if newToken != "" { p := p.(token := newToken); }
      if accountId != "" { p := p.(metaId := accountId); }
      rows := rows[id := p];
      r := Done;
    }

    /** At most one row is added, active but not selected; no other row changes. */
    method SaveChallenge(profile: Option<int>, metaId: string) returns (r: Response)
      requires Valid()
      modifies this
      ensures Valid() && Continues(old(Abstract()), Abstract())
      ensures (Abstract(), r) == Apply(old(Abstract()), ChallengeSettings(profile, metaId))
      ensures OnlyRow(old(Abstract()), Abstract(), old(nextId))
      ensures profile.None? ==> && old(nextId) !in old(rows) && old(nextId) in rows
                                && rows[old(nextId)] == Profile("metaapi_mt5", metaId, "", "", "", true, false)
      ensures profile.Some? ==> Abstract() == old(Abstract())
    {
      ChallengeKeeps(Abstract(), profile, metaId);
      r := Done;
      if profile.Some? { return; }
      rows := rows[nextId := Profile(DEFAULT_VENUE, metaId, "", "", "", true, false)];
      nextId := nextId + 1;
    }

    /** The cTrader adapter's update of a rotated token, by account id: exchange rows are out of its reach. */
    method RotateStored(accountId: string, newToken: string) returns (r: Response)
      requires Valid()
      modifies this
      ensures Valid() && Continues(old(Abstract()), Abstract())
      ensures (Abstract(), r) == Apply(old(Abstract()), RotateToken(accountId, newToken))
      ensures rows.Keys == old(rows).Keys
      ensures forall id :: id in rows && IsExchange(rows[id].venue) ==> rows[id] == old(rows)[id]
      ensures forall id :: id in rows ==>
                rows[id] == if accountId != "" && newToken != "" && old(rows)[id].metaId == accountId
                            then old(rows)[id].(token := newToken) else old(rows)[id]
    {
      RotateTokenKeeps(Abstract(), accountId, newToken);
      r := Done;
      if accountId == "" || newToken == "" { return; }
      rows := map id | id in rows :: if rows[id].metaId == accountId then rows[id].(token := newToken) else rows[id];
    }
  }

  // ---- Whole runs ----

  function RunAll(st: State, requests: seq<Request>): State {
    if requests == [] then st else Apply(RunAll(st, requests[..|requests| - 1]), requests[|requests| - 1]).0
  }

  ghost predicate HonestRun(st: State, requests: seq<Request>) {
    forall i :: 0 <= i < |requests| ==> HonestLookup(RunAll(st, requests[..i]), requests[i])
  }

  /** Every state reachable through the endpoints satisfies the invariants, venues never change over the whole
      run, and a deleted row never reappears under its id. */
  lemma {:induction false} ReachableStates(st: State, requests: seq<Request>)
    requires Invariant(st) && HonestRun(st, requests)
    ensures Invariant(RunAll(st, requests)) && Continues(st, RunAll(st, requests))
  {
    if requests != [] {
      var n := |requests| - 1;
      var init := requests[..n];
      forall i | 0 <= i < n ensures HonestLookup(RunAll(st, init[..i]), init[i]) {
        assert init[..i] == requests[..i];
        assert HonestLookup(RunAll(st, requests[..i]), requests[i]);
      }
      ReachableStates(st, init);
      assert HonestLookup(RunAll(st, requests[..n]), requests[n]);
      RequestKeepsInvariant(RunAll(st, init), requests[n]);
    }
  }

  /** The request is an accepted update of profile `id` (of this venue) that sets `active`. */
  predicate Sets(r: Request, id: int, venue: string, active: bool) {
    r.Update? && r.id == id && AllowedPatch(venue, r.patch) && r.patch.active == Some(active)
  }

  /** Some accepted update deactivates the profile, none after it reactivates it, and it is not deleted. */
  ghost predicate LeftInactive(requests: seq<Request>, id: int, venue: string) {
    && Delete(id) !in requests
    && exists i :: 0 <= i < |requests| && LastWord(requests, i, id, venue)
  }

  ghost predicate LastWord(requests: seq<Request>, i: nat, id: int, venue: string)
    requires i < |requests|
  {
    Sets(requests[i], id, venue, false) && forall j :: i < j < |requests| ==> !Sets(requests[j], id, venue, true)
  }

  lemma {:induction false} LastWordStep(requests: seq<Request>, id: int, venue: string)
    requires requests != []
    ensures var init, r := requests[..|requests| - 1], requests[|requests| - 1];
            (exists i :: 0 <= i < |requests| && LastWord(requests, i, id, venue)) <==>
            Sets(r, id, venue, false)
            || ((exists i :: 0 <= i < |init| && LastWord(init, i, id, venue)) && !Sets(r, id, venue, true))
  {
    var n := |requests| - 1;
    var init := requests[..n];
    forall i | 0 <= i < n
      ensures LastWord(requests, i, id, venue) <==> LastWord(init, i, id, venue) && !Sets(requests[n], id, venue, true)
    {
    }
    if Sets(requests[n], id, venue, false) { assert LastWord(requests, n, id, venue); }
  }

  /** What the requests leave of an active profile of this venue. */
  ghost predicate Left(s: State, requests: seq<Request>, id: int, venue: string) {
    && id < s.nextId && (id in s.rows <==> Delete(id) !in requests)
    && (id in s.rows ==> s.rows[id].venue == venue && (!s.rows[id].active <==> LeftInactive(requests, id, venue)))
  }

  lemma LeftStep(s: State, requests: seq<Request>, r: Request, id: int, venue: string)
    requires Invariant(s) && HonestLookup(s, r) && Left(s, requests, id, venue)
    ensures Left(Apply(s, r).0, requests + [r], id, venue)
  {
    var more := requests + [r];
    assert more[..|requests|] == requests;
    LastWordStep(more, id, venue);
    RequestTouches(s, r, id);
    RequestKeepsInvariant(s, r);
    assert Delete(id) in more <==> Delete(id) in requests || r == Delete(id);
  }

  lemma {:induction false} WhatIsLeft(st: State, requests: seq<Request>, id: int)
    requires Invariant(st) && HonestRun(st, requests) && id in st.rows && st.rows[id].active
    ensures Left(RunAll(st, requests), requests, id, st.rows[id].venue)
  {
    if requests != [] {
      var n := |requests| - 1;
      HonestPrefix(st, requests, n);
      WhatIsLeft(st, requests[..n], id);
      ReachableStates(st, requests[..n]);
      LeftStep(RunAll(st, requests[..n]), requests[..n], requests[n], id, st.rows[id].venue);
      assert requests == requests[..n] + [requests[n]];
    }
  }

  /** Which requests remove a row or change its `active` flag. */
  lemma RequestTouches(st: State, r: Request, id: int)
    requires Invariant(st) && id < st.nextId
    ensures var s := Apply(st, r).0;
            && id < s.nextId
            && (id in s.rows <==> id in st.rows && r != Delete(id))
            && (id in s.rows && id in st.rows ==>
                  s.rows[id].active == if Sets(r, id, st.rows[id].venue, true) then true
                                       else if Sets(r, id, st.rows[id].venue, false) then false
                                       else st.rows[id].active)
  {
  }

  lemma HonestPrefix(st: State, requests: seq<Request>, n: nat)
    requires HonestRun(st, requests) && n <= |requests|
    ensures HonestRun(st, requests[..n])
  {
    forall i | 0 <= i < n ensures HonestLookup(RunAll(st, requests[..n][..i]), requests[..n][i]) {
      assert requests[..n][..i] == requests[..i];
    }
  }

  /** Activation reads the row and writes it in two database calls. With other requests in between, the write
      keeps the invariants exactly when those requests do not leave the profile inactive. */
  lemma ActivationRaceIff(st: State, between: seq<Request>, id: int)
    requires Invariant(st) && HonestRun(st, between) && id in st.rows && st.rows[id].active
    ensures Invariant(SelectWrite(RunAll(st, between), id)) <==> !LeftInactive(between, id, st.rows[id].venue)
  {
    ReachableStates(st, between);
    WhatIsLeft(st, between, id);
    SelectWriteKeepsIff(RunAll(st, between), id);
  }

  lemma SelectWriteKeepsIff(st: State, id: int)
    requires Invariant(st)
    ensures Invariant(SelectWrite(st, id)) <==> (id in st.rows ==> st.rows[id].active)
  {
    if id in st.rows {
      var t := SelectWrite(st, id);
      assert t.rows[id].selected && t.rows[id].active == st.rows[id].active;
    }
  }

  /** The second database call of an activation: an update that matches no row changes nothing. */
  function SelectWrite(st: State, id: int): State {
    if id in st.rows then st.(rows := st.rows[id := st.rows[id].(selected := true)]) else st
  }

  /** A deactivation slipping in between leaves an inactive profile selected for trading. */
  lemma ActivationRaceExists(st: State, id: int)
    requires Invariant(st) && id in st.rows && st.rows[id].active
    ensures var between := [Update(id, Patch(None, None, None, None, Some(false), false))];
            HonestRun(st, between) && !Invariant(SelectWrite(RunAll(st, between), id))
  {
    var r := Update(id, Patch(None, None, None, None, Some(false), false));
    var between := [r];
    assert between[..0] == [];
    assert RunAll(st, between) == Apply(RunAll(st, []), r).0;
    forall i | 0 <= i < |between| ensures HonestLookup(RunAll(st, between[..i]), between[i]) {
      assert between[i] == r;
    }
    ActivationRaceIff(st, between, id);
  }
}
