/** The bot's handlers over the membership document: the `unknown` list, the
 *  `pending` and `members` maps, the role calls sent to the platform and the
 *  number of times the document has been written. */
module Handlers {
  import opened Optional
  import opened Dates
  import opened Tiers
  import opened Identity
  import opened Roles
  import opened Guilds
  import opened Records
  import opened Sweep
  import opened Routing

  class Bot {
    /** The configured tiers, in configuration order. */
    const tiers: seq<Tier>
    /** `db['unknown']`: donations whose message named nobody. */
    var unknown: seq<PendingEntry>
    /** `db['pending']`: donations by people who are in no guild yet, by tag. */
    var pending: map<string, PendingEntry>
    /** `db['members']`: donations by guild members, by user id. */
    var members: map<string, MemberEntry>
    /** Every `addRole`/`removeRole` call sent, in order. */
    var roleCalls: seq<RoleCall>
    /** How many times the document has been written back. */
    var writes: nat

    /** Every stored date is a calendar date and every pending key is a tag
     *  as found in a donation message. */
    predicate Valid()
      reads this
    {
      && (forall i :: 0 <= i < |unknown| ==> Dates.Valid(unknown[i].expireDate))
      && (forall k :: k in pending ==> IsTag(k) && Dates.Valid(pending[k].expireDate))
      && (forall k :: k in members ==> Dates.Valid(members[k].expireDate))
    }

    constructor (tiers: seq<Tier>)
      ensures this.tiers == tiers
      ensures unknown == [] && pending == map[] && members == map[]
      ensures roleCalls == [] && writes == 0
      ensures Valid()
    {
      this.tiers := tiers;
      unknown := [];
      pending := map[];
      members := map[];
      roleCalls := [];
      writes := 0;
    }

    /** `replaceRole`: reconcile the member's tier roles towards `desired`.
     *  `ok` is false when a held role is missing from the guild's catalogue:
     *  the tier-role filter throws and no call is sent. */
    method ReplaceRole(guild: Guild, member: Member, desired: Option<Role>) returns (ok: bool)
      modifies this`roleCalls
      ensures ok == Reconcile(Names(tiers), guild.roles, member.roles, desired).Some?
      ensures roleCalls == old(roleCalls) + ReplaceRoleCalls(Names(tiers), guild, member, desired)
    {
      var diff := Reconcile(Names(tiers), guild.roles, member.roles, desired);
      if diff.None? {
        return false;
      }
      SendDiff(guild.id, member.user.id, diff.value);
      return true;
    }

    /** The calls for a reconciliation: `member.addRole` first when there is a
     *  role to add, then the removals. */
    method SendDiff(guildId: string, userId: string, d: RoleDiff)
      modifies this`roleCalls
      ensures roleCalls == old(roleCalls) + DiffCalls(guildId, userId, d)
    {
      if d.add.Some? {
        roleCalls := roleCalls + [AddRole(guildId, userId, d.add.value)];
      }
      SendRemovals(guildId, userId, d.remove);
    }

    /** `rolesToRemove.forEach(...)`: one `removeRole` call per id, in order. */
    method SendRemovals(guildId: string, userId: string, ids: seq<string>)
      modifies this`roleCalls
      ensures roleCalls == old(roleCalls) + RemoveCalls(guildId, userId, ids)
    {
      var i := 0;
      while i < |ids|
        invariant 0 <= i <= |ids|
        invariant roleCalls == old(roleCalls) + RemoveCalls(guildId, userId, ids[..i])
      {
        assert ids[..i + 1][..i] == ids[..i];
        roleCalls := roleCalls + [RemoveRole(guildId, userId, ids[i])];
        i := i + 1;
      }
      assert ids[..i] == ids;
    }

    /** `registerUnknown`: append the donation to `unknown`. */
    method RegisterUnknown(paid: Date, amount: int)
      requires Valid() && Dates.Valid(paid)
      modifies this`unknown, this`writes
      ensures unknown == old(unknown) + [PendingEntry(TierName(tiers, amount), ExpireDate(paid), amount)]
      ensures writes == old(writes) + 1
      ensures Valid()
    {
      var tier := GetTier(tiers, amount);
      unknown := unknown + [PendingEntry(tier, ExpireDate(paid), amount)];
      writes := writes + 1;
    }

    /** `registerPending`: store the donation under the tag, replacing any
     *  earlier pending donation of that tag. */
    method RegisterPending(paid: Date, amount: int, key: string)
      requires Valid() && Dates.Valid(paid) && IsTag(key)
      modifies this`pending, this`writes
      ensures pending == old(pending)[key := PendingEntry(TierName(tiers, amount), ExpireDate(paid), amount)]
      ensures writes == old(writes) + 1
      ensures Valid()
    {
      var tier := GetTier(tiers, amount);
      pending := pending[key := PendingEntry(tier, ExpireDate(paid), amount)];
      writes := writes + 1;
    }

    /** `registerMember`: reconcile the member's roles towards the role named
     *  after the tier the amount reaches (towards none when no tier qualifies
     *  or the guild has no such role), and store the donation under the
     *  member's user id, replacing any earlier one. */
    method RegisterMember(guild: Guild, member: Member, paid: Date, amount: int)
      requires Valid() && Dates.Valid(paid)
      modifies this`members, this`roleCalls, this`writes
      ensures members == old(members)[UserId(member.user) := MemberEntry(ExpireDate(paid), amount)]
      ensures roleCalls == old(roleCalls)
        + ReplaceRoleCalls(Names(tiers), guild, member, DesiredRole(guild, TierName(tiers, amount)))
      ensures writes == old(writes) + 1
      ensures Valid()
    {
      var userId := UserId(member.user);
      var tierStr := GetTier(tiers, amount);
      var expireDate := ExpireDate(paid);
      var desired: Option<Role>;
      // `!tierStr` in JavaScript also holds for a tier named "", which is
      // looked up here instead; no role can be named "", so both give None.
      if tierStr.None? {
        desired := None;
      } else {
        var newRole := RoleByName(guild.roles, tierStr.value);
        if newRole.None? {
          desired := None;
        } else {
          desired := newRole;
        }
      }
      var _ := ReplaceRole(guild, member, desired);
      members := members[userId := MemberEntry(expireDate, amount)];
      writes := writes + 1;
    }

    /** The `guildMemberAdd` handler: a joining member with a pending
     *  donation gets the role of the tier its amount reaches, and the
     *  donation moves from `pending` to `members`; otherwise nothing is
     *  stored. */
    method GuildMemberAdd(guild: Guild, member: Member)
      requires Valid()
      modifies this`pending, this`members, this`roleCalls, this`writes
      ensures var key := UserId(member.user);
        if key in old(pending) then
          var e := old(pending)[key];
          && members == old(members)[key := MemberEntry(e.expireDate, e.paymentAmount)]
          && pending == old(pending) - {key}
          && roleCalls == old(roleCalls)
             + ReplaceRoleCalls(Names(tiers), guild, member, DesiredRole(guild, TierName(tiers, e.paymentAmount)))
          && writes == old(writes) + 1
        else
          && members == old(members) && pending == old(pending)
          && roleCalls == old(roleCalls) && writes == old(writes)
      ensures UserId(member.user) in old(pending) ==> UserId(member.user) !in pending && UserId(member.user) in members
      ensures unknown == old(unknown)
      ensures Valid()
    {
      var userId := UserId(member.user);
      if userId in pending {
        Promote(guild, member, userId);
      }
    }

    /** The joining member's pending donation `key`: grant the tier role,
     *  move the entry to `members` and write the document. */
    method Promote(guild: Guild, member: Member, key: string)
      requires Valid() && key in pending
      modifies this`pending, this`members, this`roleCalls, this`writes
      ensures var e := old(pending)[key];
        && members == old(members)[key := MemberEntry(e.expireDate, e.paymentAmount)]
        && pending == old(pending) - {key}
        && roleCalls == old(roleCalls)
           + ReplaceRoleCalls(Names(tiers), guild, member, DesiredRole(guild, TierName(tiers, e.paymentAmount)))
        && writes == old(writes) + 1
      ensures Valid()
    {
      var entry := pending[key];
      var tierName := GetTier(tiers, entry.paymentAmount);
      var role := DesiredRole(guild, tierName);
      var _ := ReplaceRole(guild, member, role);
      members := members[key := MemberEntry(entry.expireDate, entry.paymentAmount)];
      pending := pending - {key};
      writes := writes + 1;
    }

    /** `checkExpired`: visit the member keys in `order` (the order of
     *  `Object.keys`, each key once), revoke the tier roles of every expired
     *  member and delete the entries as `ExpiryOutcome` decides; then write
     *  once. */
    method CheckExpired(r: Roster, today: Date, order: seq<string>)
      requires Valid()
      requires forall k :: k in members <==> k in order
      requires forall i, j :: 0 <= i < j < |order| ==> order[i] != order[j]
      modifies this`members, this`roleCalls, this`writes
      ensures members == old(members) - Dropped(Names(tiers), r, old(members), today, order)
      ensures roleCalls == old(roleCalls) + SweepCalls(Names(tiers), r, old(members), today, order)
      ensures writes == old(writes) + 1
      ensures Valid()
    {
      ghost var snapshot, start := members, roleCalls;
      ghost var os := Outcomes(Names(tiers), r, members, today, order);
      SweepKeys(r, today, order, os);
      SweepFinished(Names(tiers), r, snapshot, today, order, os, start);
      writes := writes + 1;
    }

    /** The `forEach` over the member keys; `os` are the callbacks'
     *  outcomes, as `OutcomesOf` relates them to the entries. */
    method SweepKeys(r: Roster, today: Date, order: seq<string>, ghost os: seq<Outcome>)
      requires forall j :: 0 <= j < |order| ==> order[j] in members
      requires OutcomesOf(Names(tiers), r, members, today, order, os)
      modifies this`members, this`roleCalls
      ensures members == old(members) - DroppedBy(os, old(members), order, |order|)
      ensures roleCalls == old(roleCalls) + CallsBy(os, old(members), order, |order|)
    {
      var snapshot := members;
      ghost var start := roleCalls;
      var i := 0;
      SweepStarted(os, snapshot, order);
      while i < |order|
        invariant 0 <= i <= |order|
        invariant members == snapshot - DroppedBy(os, snapshot, order, i)
        invariant roleCalls == start + CallsBy(os, snapshot, order, i)
      {
        SweepStep(r, today, snapshot, order, os, i, start);
        i := i + 1;
      }
    }

    /** The sweep's step for `order[i]`, after the keys before it. */
    method SweepStep(r: Roster, today: Date, snapshot: map<string, MemberEntry>, order: seq<string>, ghost os: seq<Outcome>, i: nat, ghost start: seq<RoleCall>)
      requires OutcomesOf(Names(tiers), r, snapshot, today, order, os)
      requires i < |order| && order[i] in snapshot
      requires members == snapshot - DroppedBy(os, snapshot, order, i)
      requires roleCalls == start + CallsBy(os, snapshot, order, i)
      modifies this`members, this`roleCalls
      ensures members == snapshot - DroppedBy(os, snapshot, order, i + 1)
      ensures roleCalls == start + CallsBy(os, snapshot, order, i + 1)
    {
      var key := order[i];
      ghost var gone := DroppedBy(os, snapshot, order, i);
      ghost var done := CallsBy(os, snapshot, order, i);
      assert os[i] == ExpiryOutcome(Names(tiers), r, key, snapshot[key], today);
      MapRemoveStep(snapshot, gone, key);
      ExpireOne(r, today, key, snapshot[key]);
      AppendAssoc(start, done, os[i].calls);
    }

    /** The callback `checkExpired` runs for one key: an expired entry whose
     *  user is unknown is deleted at once; a known user in no guild makes the
     *  callback throw; otherwise the member's tier roles are revoked and the
     *  entry is deleted once that has succeeded. */
    method ExpireOne(r: Roster, today: Date, key: string, entry: MemberEntry)
      modifies this`members, this`roleCalls
      ensures var o := ExpiryOutcome(Names(tiers), r, key, entry, today);
        && members == (if o.drop then old(members) - {key} else old(members))
        && roleCalls == old(roleCalls) + o.calls
    {
      if Expired(entry, today) {
        var user := LookupByParts(r.users, key);
        if user.None? {
          members := members - {key};
        } else {
          var guild := GuildOf(r, user.value.id);
          if guild.Some? {
            var member := guild.value.members[user.value.id];
            var revoked := ReplaceRole(guild.value, member, None);
            if revoked {
              members := members - {key};
            }
          }
        }
      }
    }

    /** `onDonation`: record the donation in exactly one collection, as
     *  `Route` decides, and reconcile roles only for a guild member. */
    method OnDonation(r: Roster, paid: Date, amount: int, text: string)
      requires Valid() && Dates.Valid(paid)
      modifies this`unknown, this`pending, this`members, this`roleCalls, this`writes
      ensures writes == old(writes) + 1
      ensures Route(r, text).ToUnknown? ==>
        && unknown == old(unknown) + [PendingEntry(TierName(tiers, amount), ExpireDate(paid), amount)]
        && pending == old(pending) && members == old(members) && roleCalls == old(roleCalls)
      ensures Route(r, text).ToPending? ==>
        && pending == old(pending)[Route(r, text).key := PendingEntry(TierName(tiers, amount), ExpireDate(paid), amount)]
        && unknown == old(unknown) && members == old(members) && roleCalls == old(roleCalls)
      ensures Route(r, text).ToMember? ==>
        var g, m := Route(r, text).guild, Route(r, text).member;
        && members == old(members)[UserId(m.user) := MemberEntry(ExpireDate(paid), amount)]
        && roleCalls == old(roleCalls)
           + ReplaceRoleCalls(Names(tiers), g, m, DesiredRole(g, TierName(tiers, amount)))
        && unknown == old(unknown) && pending == old(pending)
      ensures Valid()
    {
      var destination := Route(r, text);
      match destination
      case ToUnknown =>
        RegisterUnknown(paid, amount);
      case ToPending(key) =>
        RoutePendingKeyIsTag(r, text);
        RegisterPending(paid, amount, key);
      case ToMember(g, m) =>
        RegisterMember(g, m, paid, amount);
    }
  }

  /** A fresh store receives a donation of 10 on 14 March 2024 whose message
   *  names bob#5555, who is in no guild: the store holds one pending entry
   *  under that tag, nothing else, and no role call is sent. */
  method NewcomerDonation(r: Roster, tiers: seq<Tier>) returns (bot: Bot)
    requires forall i :: 0 <= i < |r.users| && UserId(r.users[i]) == "bob#5555" ==> GuildOf(r, r.users[i].id).None?
    ensures bot.pending == map["bob#5555" := PendingEntry(TierName(tiers, 10), Date(2024, 3, 14), 10)]
    ensures bot.unknown == [] && bot.members == map[]
    ensures bot.roleCalls == [] && bot.writes == 1
  {
    bot := new Bot(tiers);
    NewcomerGoesPending(r);
    ExpireSameDayNextMonth(Date(2024, 2, 14));
    bot.OnDonation(r, Date(2024, 2, 14), 10, "support from bob#5555");
  }

  lemma AppendAssoc<T>(a: seq<T>, b: seq<T>, c: seq<T>)
    ensures (a + b) + c == a + (b + c)
  {
  }

  /** Deleting one more key from what is left of a map. */
  lemma MapRemoveStep<K, V>(m: map<K, V>, gone: set<K>, k: K)
    ensures (m - gone) - {k} == m - (gone + {k})
  {
  }

  /** Before the first key, nothing is deleted. */
  lemma SweepStarted(os: seq<Outcome>, snapshot: map<string, MemberEntry>, order: seq<string>)
    requires |os| == |order|
    ensures snapshot - DroppedBy(os, snapshot, order, 0) == snapshot
  {
  }

  /** After the last key, the sweep's running totals are the whole sweep. */
  lemma SweepFinished(tierNames: set<string>, r: Roster, snapshot: map<string, MemberEntry>, today: Date, order: seq<string>, os: seq<Outcome>, start: seq<RoleCall>)
    requires OutcomesOf(tierNames, r, snapshot, today, order, os)
    ensures snapshot - DroppedBy(os, snapshot, order, |order|) == snapshot - Dropped(tierNames, r, snapshot, today, order)
    ensures start + CallsBy(os, snapshot, order, |order|) == start + SweepCalls(tierNames, r, snapshot, today, order)
  {
    ByOutcomes(tierNames, r, snapshot, today, order, os, |order|);
    DroppedUpToSpec(tierNames, r, snapshot, today, order, |order|);
    assert order[..|order|] == order;
  }
}
