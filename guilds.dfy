/** The part of the chat platform the bot reads: the users it knows, the
 *  guilds with their role catalogues and members, and the role calls that
 *  `replaceRole` sends for a member. */
module Guilds {
  import opened Optional
  import opened Identity
  import opened Roles

  /** A guild member: its user and the ids of the roles it holds. */
  datatype Member = Member(user: User, roles: seq<string>)

  /** A guild: its id, its role catalogue, and its members by user id. */
  datatype Guild = Guild(id: string, roles: seq<Role>, members: map<string, Member>)

  /** `bot.users` and `bot.guilds`, in the client's order. */
  datatype Roster = Roster(users: seq<User>, guilds: seq<Guild>)

  /** `bot.guilds.find(guild => guild.members.has(userId))`. */
  function GuildOf(r: Roster, userId: string): (g: Option<Guild>)
    ensures g.None? <==> forall i :: 0 <= i < |r.guilds| ==> userId !in r.guilds[i].members
    ensures g.Some? ==> g.value in r.guilds && userId in g.value.members
  {
    FirstGuildWith(r.guilds, userId)
  }

  function FirstGuildWith(guilds: seq<Guild>, userId: string): (g: Option<Guild>)
    ensures g.None? <==> forall i :: 0 <= i < |guilds| ==> userId !in guilds[i].members
    ensures g.Some? ==> g.value in guilds && userId in g.value.members
  {
    if guilds == [] then None
    else if userId in guilds[0].members then Some(guilds[0])
    else FirstGuildWith(guilds[1..], userId)
  }

  /** The guild found is the first, in the client's order, that has the user. */
  lemma GuildOfFirst(r: Roster, userId: string) returns (k: nat)
    requires GuildOf(r, userId).Some?
    ensures k < |r.guilds| && r.guilds[k] == GuildOf(r, userId).value
    ensures forall j :: 0 <= j < k ==> userId !in r.guilds[j].members
  {
    k := FirstGuildWithFirst(r.guilds, userId);
  }

  lemma {:induction false} FirstGuildWithFirst(guilds: seq<Guild>, userId: string) returns (k: nat)
    requires FirstGuildWith(guilds, userId).Some?
    ensures k < |guilds| && guilds[k] == FirstGuildWith(guilds, userId).value
    ensures forall j :: 0 <= j < k ==> userId !in guilds[j].members
    decreases |guilds|
  {
    if userId in guilds[0].members {
      k := 0;
    } else {
      var rest := FirstGuildWithFirst(guilds[1..], userId);
      k := rest + 1;
    }
  }

  /** What the platform guarantees of its caches: a user id names one user,
   *  and a guild member is keyed by its user's id and is a known user. */
  predicate Coherent(r: Roster) {
    && (forall i, j :: 0 <= i < |r.users| && 0 <= j < |r.users| && r.users[i].id == r.users[j].id ==> i == j)
    && (forall g, k :: g in r.guilds && k in g.members ==> g.members[k].user.id == k && g.members[k].user in r.users)
  }

  /** The calls `replaceRole(guild, member, desired)` sends, in order. */
  function ReplaceRoleCalls(tierNames: set<string>, g: Guild, m: Member, desired: Option<Role>): seq<RoleCall> {
    match Reconcile(tierNames, g.roles, m.roles, desired)
    case None => []
    case Some(diff) => DiffCalls(g.id, m.user.id, diff)
  }

  /** The role a member is reconciled towards for a tier name: none without a
   *  tier, and none when the guild has no role of that name. */
  function DesiredRole(g: Guild, tierName: Option<string>): (r: Option<Role>)
    ensures r.None? <==> tierName.None? || forall i :: 0 <= i < |g.roles| ==> g.roles[i].name != tierName.value
    ensures r.Some? ==> r.value in g.roles && r.value.name == tierName.value
  {
    match tierName
    case None => None
    case Some(n) => RoleByName(g.roles, n)
  }

  /** The role a tier name is reconciled towards is the first catalogue
   *  role with that name. */
  lemma DesiredRoleFirst(g: Guild, tierName: Option<string>) returns (k: nat)
    requires DesiredRole(g, tierName).Some?
    ensures k < |g.roles| && g.roles[k] == DesiredRole(g, tierName).value
    ensures forall j :: 0 <= j < k ==> g.roles[j].name != tierName.value
  {
    k := RoleByNameFirst(g.roles, tierName.value);
  }
}
