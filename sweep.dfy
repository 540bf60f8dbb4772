/** What `checkExpired` does to each member entry, and to the whole
 *  `members` collection, as functions of the roster, the entries as they
 *  were read, the order of their keys and today's date. */
module Sweep {
  import opened Optional
  import opened Dates
  import opened Identity
  import opened Roles
  import opened Guilds
  import opened Records

  /** Whether the entry is deleted, and the role calls sent for it. */
  datatype Outcome = Outcome(drop: bool, calls: seq<RoleCall>)

  /** One key of the sweep. An expired entry whose user is unknown is deleted
   *  without role calls. A known user in no guild makes the callback throw
   *  (`guild.members` of `undefined`), and the entry stays. Otherwise the
   *  member's tier roles are all removed and the entry is deleted once
   *  `replaceRole` has resolved; when it rejects, the entry stays. */
  function ExpiryOutcome(tierNames: set<string>, r: Roster, id: string, e: MemberEntry, today: Date): (o: Outcome)
    ensures o.drop ==> Expired(e, today)
    ensures !o.drop ==> o.calls == []
  {
    if !Expired(e, today) then Outcome(false, [])
    else
      match LookupByParts(r.users, id)
      case None => Outcome(true, [])
      case Some(u) =>
        match GuildOf(r, u.id)
        case None => Outcome(false, [])
        case Some(g) =>
          var m := g.members[u.id];
          Outcome(Reconcile(tierNames, g.roles, m.roles, None).Some?, ReplaceRoleCalls(tierNames, g, m, None))
  }

  /** The keys `checkExpired` deletes. */
  function Dropped(tierNames: set<string>, r: Roster, snapshot: map<string, MemberEntry>, today: Date, keys: seq<string>): set<string> {
    set k | k in keys && k in snapshot && ExpiryOutcome(tierNames, r, k, snapshot[k], today).drop
  }

  /** The keys deleted among the first `n` keys. */
  function DroppedUpTo(tierNames: set<string>, r: Roster, snapshot: map<string, MemberEntry>, today: Date, keys: seq<string>, n: nat): set<string>
    requires n <= |keys|
    decreases n
  {
    if n == 0 then {}
    else
      var k := keys[n - 1];
      DroppedUpTo(tierNames, r, snapshot, today, keys, n - 1)
      + (if k in snapshot && ExpiryOutcome(tierNames, r, k, snapshot[k], today).drop then {k} else {})
  }

  /** Key by key, the sweep deletes the keys `Dropped` names for the keys
   *  visited so far. */
  lemma {:induction false} DroppedUpToSpec(tierNames: set<string>, r: Roster, snapshot: map<string, MemberEntry>, today: Date, keys: seq<string>, n: nat)
    requires n <= |keys|
    ensures DroppedUpTo(tierNames, r, snapshot, today, keys, n) == Dropped(tierNames, r, snapshot, today, keys[..n])
    decreases n
  {
    if n == 0 {
      assert Dropped(tierNames, r, snapshot, today, keys[..0]) == {};
    } else {
      DroppedUpToSpec(tierNames, r, snapshot, today, keys, n - 1);
      assert keys[..n] == keys[..n - 1] + [keys[n - 1]];
    }
  }

  /** `os` holds, for each key present in the snapshot, the outcome of that
   *  key's callback. */
  predicate OutcomesOf(tierNames: set<string>, r: Roster, snapshot: map<string, MemberEntry>, today: Date, keys: seq<string>, os: seq<Outcome>) {
    && |os| == |keys|
    && forall j {:trigger ExpiryOutcome(tierNames, r, keys[j], snapshot[keys[j]], today)} ::
         0 <= j < |keys| && keys[j] in snapshot ==> os[j] == ExpiryOutcome(tierNames, r, keys[j], snapshot[keys[j]], today)
  }

  /** The outcome of every key's callback, computed before the sweep. */
  function Outcomes(tierNames: set<string>, r: Roster, snapshot: map<string, MemberEntry>, today: Date, keys: seq<string>): (os: seq<Outcome>)
    ensures OutcomesOf(tierNames, r, snapshot, today, keys, os)
  {
    seq(|keys|, j requires 0 <= j < |keys| =>
      if keys[j] in snapshot then ExpiryOutcome(tierNames, r, keys[j], snapshot[keys[j]], today) else Outcome(false, []))
  }

  /** The keys deleted among the first `n`, read off the outcomes `os`. */
  function DroppedBy(os: seq<Outcome>, snapshot: map<string, MemberEntry>, keys: seq<string>, n: nat): set<string>
    requires n <= |keys| == |os|
    decreases n
  {
    if n == 0 then {}
    else DroppedBy(os, snapshot, keys, n - 1) + (if keys[n - 1] in snapshot && os[n - 1].drop then {keys[n - 1]} else {})
  }

  /** The role calls sent for the first `n` keys, read off the outcomes `os`. */
  function CallsBy(os: seq<Outcome>, snapshot: map<string, MemberEntry>, keys: seq<string>, n: nat): seq<RoleCall>
    requires n <= |keys| == |os|
    decreases n
  {
    if n == 0 then []
    else CallsBy(os, snapshot, keys, n - 1) + (if keys[n - 1] in snapshot then os[n - 1].calls else [])
  }

  /** Read off the callbacks' outcomes, the running totals are the sweep's. */
  lemma {:induction false} ByOutcomes(tierNames: set<string>, r: Roster, snapshot: map<string, MemberEntry>, today: Date, keys: seq<string>, os: seq<Outcome>, n: nat)
    requires OutcomesOf(tierNames, r, snapshot, today, keys, os) && n <= |keys|
    ensures DroppedBy(os, snapshot, keys, n) == DroppedUpTo(tierNames, r, snapshot, today, keys, n)
    ensures CallsBy(os, snapshot, keys, n) == CallsUpTo(tierNames, r, snapshot, today, keys, n)
    decreases n
  {
    if n > 0 {
      ByOutcomes(tierNames, r, snapshot, today, keys, os, n - 1);
    }
  }

  /** The role calls `checkExpired` sends, key by key. */
  function SweepCalls(tierNames: set<string>, r: Roster, snapshot: map<string, MemberEntry>, today: Date, keys: seq<string>): seq<RoleCall> {
    CallsUpTo(tierNames, r, snapshot, today, keys, |keys|)
  }

  /** The role calls sent for the first `n` keys. */
  function CallsUpTo(tierNames: set<string>, r: Roster, snapshot: map<string, MemberEntry>, today: Date, keys: seq<string>, n: nat): seq<RoleCall>
    requires n <= |keys|
    decreases n
  {
    if n == 0 then []
    else
      var k := keys[n - 1];
      CallsUpTo(tierNames, r, snapshot, today, keys, n - 1)
      + (if k in snapshot then ExpiryOutcome(tierNames, r, k, snapshot[k], today).calls else [])
  }

  /** The member's tier roles can be revoked: the user is unknown (nothing to
   *  revoke), or is in a guild whose catalogue names every role it holds. */
  predicate Revocable(tierNames: set<string>, r: Roster, id: string) {
    match LookupByParts(r.users, id)
    case None => true
    case Some(u) =>
      match GuildOf(r, u.id)
      case None => false
      case Some(g) => Reconcile(tierNames, g.roles, g.members[u.id].roles, None).Some?
  }

  /** The sweep deletes exactly the expired entries whose roles can be
   *  revoked, whether or not their user is still known; every entry it keeps
   *  is kept unchanged. */
  lemma SweepDeletesExpired(tierNames: set<string>, r: Roster, snapshot: map<string, MemberEntry>, today: Date, keys: seq<string>)
    requires forall k :: k in snapshot ==> k in keys
    ensures forall k :: k in Dropped(tierNames, r, snapshot, today, keys) <==>
      k in snapshot && Expired(snapshot[k], today) && Revocable(tierNames, r, k)
    ensures forall k :: k in snapshot && Expired(snapshot[k], today) && LookupByParts(r.users, k).None? ==>
      k in Dropped(tierNames, r, snapshot, today, keys)
    ensures var after := snapshot - Dropped(tierNames, r, snapshot, today, keys);
      forall k :: k in after ==> after[k] == snapshot[k] && (!Expired(after[k], today) || !Revocable(tierNames, r, k))
  {
  }

  /** The calls sent for one key remove tier roles of the member's guild. */
  lemma OutcomeOnlyRemovesTierRoles(tierNames: set<string>, r: Roster, id: string, e: MemberEntry, today: Date, n: nat)
    requires n < |ExpiryOutcome(tierNames, r, id, e, today).calls|
    ensures var c := ExpiryOutcome(tierNames, r, id, e, today).calls[n];
      && c.RemoveRole?
      && exists g :: g in r.guilds && g.id == c.guild && IsTierRole(tierNames, g.roles, c.role)
  {
    var u := LookupByParts(r.users, id).value;
    var g := GuildOf(r, u.id).value;
    var m := g.members[u.id];
    var diff := Reconcile(tierNames, g.roles, m.roles, None).value;
    DiffCallsSpec(g.id, m.user.id, diff, n);
  }

  /** Every call the sweep sends removes a tier role of the guild it is sent
   *  to: the sweep never adds a role and never touches any other role. */
  lemma SweepOnlyRemovesTierRoles(tierNames: set<string>, r: Roster, snapshot: map<string, MemberEntry>, today: Date, keys: seq<string>, j: nat)
    requires j < |SweepCalls(tierNames, r, snapshot, today, keys)|
    ensures var c := SweepCalls(tierNames, r, snapshot, today, keys)[j];
      && c.RemoveRole?
      && exists g :: g in r.guilds && g.id == c.guild && IsTierRole(tierNames, g.roles, c.role)
  {
    CallsUpToOnlyRemove(tierNames, r, snapshot, today, keys, |keys|, j);
  }

  lemma {:induction false} CallsUpToOnlyRemove(tierNames: set<string>, r: Roster, snapshot: map<string, MemberEntry>, today: Date, keys: seq<string>, n: nat, j: nat)
    requires n <= |keys| && j < |CallsUpTo(tierNames, r, snapshot, today, keys, n)|
    ensures var c := CallsUpTo(tierNames, r, snapshot, today, keys, n)[j];
      && c.RemoveRole?
      && exists g :: g in r.guilds && g.id == c.guild && IsTierRole(tierNames, g.roles, c.role)
    decreases n
  {
    var k := keys[n - 1];
    var prefix := CallsUpTo(tierNames, r, snapshot, today, keys, n - 1);
    if j < |prefix| {
      CallsUpToOnlyRemove(tierNames, r, snapshot, today, keys, n - 1, j);
    } else {
      OutcomeOnlyRemovesTierRoles(tierNames, r, k, snapshot[k], today, j - |prefix|);
    }
  }

  /** No calls are sent for keys whose entries the sweep keeps. */
  lemma {:induction false} NoCallsWhenNothingDropped(tierNames: set<string>, r: Roster, snapshot: map<string, MemberEntry>, today: Date, keys: seq<string>, n: nat)
    requires n <= |keys|
    requires forall i :: 0 <= i < n && keys[i] in snapshot ==> !ExpiryOutcome(tierNames, r, keys[i], snapshot[keys[i]], today).drop
    ensures CallsUpTo(tierNames, r, snapshot, today, keys, n) == []
    decreases n
  {
    if n > 0 {
      NoCallsWhenNothingDropped(tierNames, r, snapshot, today, keys, n - 1);
    }
  }

  /** A member whose expired entry is deleted loses every tier role it
   *  holds: the callback sends a removal for each. */
  lemma ExpiryRemovesEveryTierRole(tierNames: set<string>, r: Roster, id: string, e: MemberEntry, today: Date, u: User, roleId: string)
    requires ExpiryOutcome(tierNames, r, id, e, today).drop
    requires LookupByParts(r.users, id) == Some(u) && GuildOf(r, u.id).Some?
    requires var g := GuildOf(r, u.id).value;
      roleId in g.members[u.id].roles && IsTierRole(tierNames, g.roles, roleId)
    ensures var g := GuildOf(r, u.id).value;
      RemoveRole(g.id, g.members[u.id].user.id, roleId) in ExpiryOutcome(tierNames, r, id, e, today).calls
  {
    var g := GuildOf(r, u.id).value;
    var m := g.members[u.id];
    assert ExpiryOutcome(tierNames, r, id, e, today).calls == ReplaceRoleCalls(tierNames, g, m, None);
    var diff := Reconcile(tierNames, g.roles, m.roles, None).value;
    assert roleId in diff.remove;
    var k :| 0 <= k < |diff.remove| && diff.remove[k] == roleId;
    RemoveCallsLength(g.id, m.user.id, diff.remove);
    RemoveCallsAt(g.id, m.user.id, diff.remove, k);
    assert DiffCalls(g.id, m.user.id, diff) == RemoveCalls(g.id, m.user.id, diff.remove);
  }

  /** Read off the outcomes `os`, the calls sent for the first `n` keys
   *  include every call of each of those keys. */
  lemma {:induction false} CallsByHas(os: seq<Outcome>, snapshot: map<string, MemberEntry>, keys: seq<string>, n: nat, i: nat, c: RoleCall)
    requires i < n <= |keys| == |os| && keys[i] in snapshot && c in os[i].calls
    ensures c in CallsBy(os, snapshot, keys, n)
    decreases n
  {
    if i < n - 1 {
      CallsByHas(os, snapshot, keys, n - 1, i, c);
    }
  }

  /** Every member the sweep deletes, when found in a guild, loses every tier
   *  role it holds there. */
  lemma SweepRemovesEveryTierRole(tierNames: set<string>, r: Roster, snapshot: map<string, MemberEntry>, today: Date, keys: seq<string>, i: nat, u: User, roleId: string)
    requires i < |keys| && keys[i] in Dropped(tierNames, r, snapshot, today, keys)
    requires LookupByParts(r.users, keys[i]) == Some(u) && GuildOf(r, u.id).Some?
    requires var g := GuildOf(r, u.id).value;
      roleId in g.members[u.id].roles && IsTierRole(tierNames, g.roles, roleId)
    ensures var g := GuildOf(r, u.id).value;
      RemoveRole(g.id, g.members[u.id].user.id, roleId) in SweepCalls(tierNames, r, snapshot, today, keys)
  {
    var k := keys[i];
    var g := GuildOf(r, u.id).value;
    var c := RemoveRole(g.id, g.members[u.id].user.id, roleId);
    ExpiryRemovesEveryTierRole(tierNames, r, k, snapshot[k], today, u, roleId);
    var os := Outcomes(tierNames, r, snapshot, today, keys);
    assert os[i] == ExpiryOutcome(tierNames, r, keys[i], snapshot[keys[i]], today);
    CallsByHas(os, snapshot, keys, |keys|, i, c);
    ByOutcomes(tierNames, r, snapshot, today, keys, os, |keys|);
  }

  /** A second sweep on the same day, against the same roster, deletes
   *  nothing and sends no role call. */
  lemma SweepIdempotent(tierNames: set<string>, r: Roster, snapshot: map<string, MemberEntry>, today: Date, keys: seq<string>, keys2: seq<string>)
    requires forall k :: k in snapshot ==> k in keys
    ensures var after := snapshot - Dropped(tierNames, r, snapshot, today, keys);
      && Dropped(tierNames, r, after, today, keys2) == {}
      && SweepCalls(tierNames, r, after, today, keys2) == []
  {
    var after := snapshot - Dropped(tierNames, r, snapshot, today, keys);
    assert forall i :: 0 <= i < |keys2| && keys2[i] in after ==> !ExpiryOutcome(tierNames, r, keys2[i], after[keys2[i]], today).drop;
    NoCallsWhenNothingDropped(tierNames, r, after, today, keys2, |keys2|);
  }

  /** What the comment on `checkExpired` promises: every expired entry is
   *  deleted, whatever becomes of its roles. */
  function IntendedDropped(snapshot: map<string, MemberEntry>, today: Date, keys: seq<string>): set<string> {
    set k | k in keys && k in snapshot && Expired(snapshot[k], today)
  }

  /** The intended sweep deletes exactly the expired entries and keeps the
   *  others unchanged. */
  lemma IntendedDeletesExpired(snapshot: map<string, MemberEntry>, today: Date, keys: seq<string>)
    requires forall k :: k in snapshot ==> k in keys
    ensures forall k :: k in IntendedDropped(snapshot, today, keys) <==> k in snapshot && Expired(snapshot[k], today)
    ensures var after := snapshot - IntendedDropped(snapshot, today, keys);
      forall k :: k in snapshot ==> (k in after <==> !Expired(snapshot[k], today)) && (k in after ==> after[k] == snapshot[k])
  {
  }

  /** The code deletes no more than intended, and all that is intended only
   *  when every expired entry's roles can be revoked. */
  lemma DroppedWithinIntended(tierNames: set<string>, r: Roster, snapshot: map<string, MemberEntry>, today: Date, keys: seq<string>)
    ensures Dropped(tierNames, r, snapshot, today, keys) <= IntendedDropped(snapshot, today, keys)
    ensures Dropped(tierNames, r, snapshot, today, keys) == IntendedDropped(snapshot, today, keys) <==>
      forall k :: k in keys && k in snapshot && Expired(snapshot[k], today) ==> Revocable(tierNames, r, k)
  {
    var d, i := Dropped(tierNames, r, snapshot, today, keys), IntendedDropped(snapshot, today, keys);
    if d == i {
      forall k | k in keys && k in snapshot && Expired(snapshot[k], today) ensures Revocable(tierNames, r, k) {
        assert k in i;
      }
    }
  }

  /** The example member of the kept-entry lemmas: carol#9999, known to the
   *  bot, whose entry expired on 1 January 2024. */
  const Carol := User("c1", "carol", "9999")
  const CarolEntry := map["carol#9999" := MemberEntry(Date(2024, 0, 1), 5)]

  lemma CarolFound(users: seq<User>)
    requires users == [Carol]
    ensures LookupByParts(users, "carol#9999") == Some(Carol)
  {
    assert Lower("carol") == "carol";
    assert UserId(Carol) == "carol#9999";
    LookupByPartsAgrees(users, "carol", "9999");
  }

  /** A sweep over one key deletes it exactly when its outcome says so. */
  lemma OneKey(tierNames: set<string>, r: Roster, snapshot: map<string, MemberEntry>, today: Date, k: string)
    requires k in snapshot
    ensures Dropped(tierNames, r, snapshot, today, [k]) ==
      if ExpiryOutcome(tierNames, r, k, snapshot[k], today).drop then {k} else {}
    ensures IntendedDropped(snapshot, today, [k]) == if Expired(snapshot[k], today) then {k} else {}
  {
  }

  lemma NoGuildOutcome(tierNames: set<string>)
    ensures !ExpiryOutcome(tierNames, Roster([Carol], []), "carol#9999", CarolEntry["carol#9999"], Date(2024, 5, 1)).drop
  {
    CarolFound([Carol]);
  }

  /** As written, a known user who is in no guild makes the callback throw
   *  before the delete: on 1 June 2024 the expired entry is kept. */
  lemma ExpiredKeptInNoGuild(tierNames: set<string>)
    ensures var r, today := Roster([Carol], []), Date(2024, 5, 1);
      && Expired(CarolEntry["carol#9999"], today)
      && Dropped(tierNames, r, CarolEntry, today, ["carol#9999"]) == {}
      && IntendedDropped(CarolEntry, today, ["carol#9999"]) == {"carol#9999"}
  {
    NoGuildOutcome(tierNames);
    OneKey(tierNames, Roster([Carol], []), CarolEntry, Date(2024, 5, 1), "carol#9999");
  }

  /** Carol's guild, where she holds a role id its catalogue lacks. */
  const StaleGuild := Guild("g1", [], map["c1" := Member(Carol, ["r7"])])

  lemma RoleMissingOutcome(tierNames: set<string>)
    ensures !ExpiryOutcome(tierNames, Roster([Carol], [StaleGuild]), "carol#9999", CarolEntry["carol#9999"], Date(2024, 5, 1)).drop
  {
    CarolFound([Carol]);
    assert GuildOf(Roster([Carol], [StaleGuild]), "c1") == Some(StaleGuild);
    assert Reconcile(tierNames, StaleGuild.roles, ["r7"], None).None?;
  }

  /** As written, a held role id missing from the guild's catalogue makes
   *  `replaceRole` reject, so the `.then` that deletes never runs: the
   *  expired entry is kept. */
  lemma ExpiredKeptWhenRoleMissing(tierNames: set<string>)
    ensures var r, today := Roster([Carol], [StaleGuild]), Date(2024, 5, 1);
      && Expired(CarolEntry["carol#9999"], today)
      && Dropped(tierNames, r, CarolEntry, today, ["carol#9999"]) == {}
      && IntendedDropped(CarolEntry, today, ["carol#9999"]) == {"carol#9999"}
  {
    RoleMissingOutcome(tierNames);
    OneKey(tierNames, Roster([Carol], [StaleGuild]), CarolEntry, Date(2024, 5, 1), "carol#9999");
  }
}
