/** Role reconciliation (`replaceRole`): which tier roles a member gains and
 *  loses when the desired tier role changes. Only roles whose names are
 *  configured tier names are ever removed. */
module Roles {
  import opened Optional

  /** A role of a guild's catalogue. */
  datatype Role = Role(id: string, name: string)

  /** `getRoleById` (and `guild.roles.get`): the first catalogue entry with
   *  this id. */
  function RoleById(roles: seq<Role>, id: string): (r: Option<Role>)
    ensures r.None? <==> forall i :: 0 <= i < |roles| ==> roles[i].id != id
    ensures r.Some? ==> r.value in roles && r.value.id == id
  {
    if roles == [] then None
    else if roles[0].id == id then Some(roles[0])
    else RoleById(roles[1..], id)
  }

  /** `getRoleByName`: the first catalogue entry with exactly this name. */
  function RoleByName(roles: seq<Role>, name: string): (r: Option<Role>)
    ensures r.None? <==> forall i :: 0 <= i < |roles| ==> roles[i].name != name
    ensures r.Some? ==> r.value in roles && r.value.name == name
  {
    if roles == [] then None
    else if roles[0].name == name then Some(roles[0])
    else RoleByName(roles[1..], name)
  }

  /** The lookup by id finds the first entry carrying that id. */
  lemma {:induction false} RoleByIdFirst(roles: seq<Role>, i: nat)
    requires i < |roles|
    requires forall j :: 0 <= j < i ==> roles[j].id != roles[i].id
    ensures RoleById(roles, roles[i].id) == Some(roles[i])
    decreases i
  {
    if i > 0 {
      RoleByIdFirst(roles[1..], i - 1);
    }
  }

  /** The lookup by name finds the first entry carrying that name. */
  lemma {:induction false} RoleByNameFirst(roles: seq<Role>, name: string) returns (k: nat)
    requires RoleByName(roles, name).Some?
    ensures k < |roles| && roles[k] == RoleByName(roles, name).value
    ensures forall j :: 0 <= j < k ==> roles[j].name != name
    decreases |roles|
  {
    if roles[0].name == name {
      k := 0;
    } else {
      var rest := RoleByNameFirst(roles[1..], name);
      k := rest + 1;
    }
  }

  /** Two roles may share a name: the one earlier in the catalogue is the
   *  one `getRoleByName` returns. */
  lemma RoleByNameDuplicate()
    ensures RoleByName([Role("a", "Gold"), Role("b", "Gold")], "Gold") == Some(Role("a", "Gold"))
  {
  }

  /** A role id that the catalogue names with a configured tier name. */
  predicate IsTierRole(tierNames: set<string>, roles: seq<Role>, id: string) {
    var r := RoleById(roles, id);
    r.Some? && r.value.name in tierNames
  }

  /** `member.roles.filter(...)`: the held role ids that are tier roles. The
   *  filter reads `guild.roles.get(roleId).name`, which throws when a held id
   *  is missing from the catalogue; that failure is `None`. */
  function HeldTierRoles(tierNames: set<string>, roles: seq<Role>, held: seq<string>): (r: Option<seq<string>>)
    ensures r.None? <==> exists i :: 0 <= i < |held| && RoleById(roles, held[i]).None?
    ensures r.Some? ==> forall i :: 0 <= i < |r.value| ==> r.value[i] in held && IsTierRole(tierNames, roles, r.value[i])
    ensures r.Some? ==> forall i :: 0 <= i < |held| && IsTierRole(tierNames, roles, held[i]) ==> held[i] in r.value
    decreases |held|
  {
    if held == [] then Some([])
    else
      match RoleById(roles, held[0])
      case None => None
      case Some(role) =>
        match HeldTierRoles(tierNames, roles, held[1..])
        case None => None
        case Some(rest) => Some(if role.name in tierNames then [held[0]] + rest else rest)
  }

  /** The calls `replaceRole` issues: at most one role to add, then the roles
   *  to remove, one call each. */
  datatype RoleDiff = RoleDiff(add: Option<string>, remove: seq<string>)

  /** `replaceRole(guild, member, desired)`: keep the desired tier role if it
   *  is held, add it if not, and remove every other tier role the member
   *  holds. `None` when the tier-role filter throws: then nothing is issued. */
  function Reconcile(tierNames: set<string>, roles: seq<Role>, held: seq<string>, desired: Option<Role>): (r: Option<RoleDiff>)
    ensures r.None? <==> exists i :: 0 <= i < |held| && RoleById(roles, held[i]).None?
    ensures r.Some? ==> forall id ::
      id in r.value.remove <==>
        && id in held
        && IsTierRole(tierNames, roles, id)
        && (desired.None? || id != desired.value.id)
    ensures r.Some? ==>
      r.value.add == (if desired.Some? && !(desired.value.id in held && IsTierRole(tierNames, roles, desired.value.id))
                      then Some(desired.value.id) else None)
  {
    match HeldTierRoles(tierNames, roles, held)
    case None => None
    case Some(tierHeld) =>
      if desired.Some? && desired.value.id in tierHeld then
        Some(RoleDiff(None, Without(tierHeld, desired.value.id)))
      else if desired.Some? then
        Some(RoleDiff(Some(desired.value.id), tierHeld))
      else
        Some(RoleDiff(None, tierHeld))
  }

  /** `ids.filter(id => id !== x)`: the ids other than `x`, in their order. */
  function Without(ids: seq<string>, x: string): (r: seq<string>)
    ensures forall id :: id in r <==> id in ids && id != x
    ensures |r| <= |ids|
  {
    if ids == [] then []
    else (if ids[0] == x then [] else [ids[0]]) + Without(ids[1..], x)
  }

  /** Role ids are unique in a guild's catalogue. */
  predicate UniqueIds(roles: seq<Role>) {
    forall i, j :: 0 <= i < |roles| && 0 <= j < |roles| && roles[i].id == roles[j].id ==> i == j
  }

  /** In a catalogue with unique ids, looking up a role's id finds that role. */
  lemma RoleByIdAt(roles: seq<Role>, i: nat)
    requires UniqueIds(roles) && i < |roles|
    ensures RoleById(roles, roles[i].id) == Some(roles[i])
  {
    var found := RoleById(roles, roles[i].id).value;
    var k :| 0 <= k < |roles| && roles[k] == found;
  }

  /** The roles a member holds once every issued call has succeeded. */
  function Apply(held: seq<string>, diff: RoleDiff): set<string> {
    (set id | id in held && id !in diff.remove) + (if diff.add.Some? then {diff.add.value} else {})
  }

  /** After reconciling towards a tier role of the catalogue, the member holds
   *  exactly that one tier role (none when nothing is desired), and every
   *  role that is not a tier role is held exactly as before. */
  lemma ReconcileOutcome(tierNames: set<string>, roles: seq<Role>, held: seq<string>, desired: Option<Role>)
    requires UniqueIds(roles)
    requires desired.Some? ==> desired.value in roles && desired.value.name in tierNames
    requires Reconcile(tierNames, roles, held, desired).Some?
    ensures var after := Apply(held, Reconcile(tierNames, roles, held, desired).value);
      forall id :: IsTierRole(tierNames, roles, id) ==>
        (id in after <==> desired.Some? && id == desired.value.id)
    ensures var after := Apply(held, Reconcile(tierNames, roles, held, desired).value);
      forall id :: !IsTierRole(tierNames, roles, id) ==> (id in after <==> id in held)
  {
    var diff := Reconcile(tierNames, roles, held, desired).value;
    if desired.Some? {
      var i :| 0 <= i < |roles| && roles[i] == desired.value;
      RoleByIdAt(roles, i);
    }
  }

  /** An example catalogue: tier roles Bronze, Silver and Gold and one
   *  other role; the member holds Bronze, the other role and Silver. The
   *  example holds in any catalogue where ids 1 to 4 name those roles. */
  const EXAMPLE_TIERS: set<string> := {"Bronze", "Silver", "Gold"}
  const EXAMPLE_ROLES: seq<Role> := [Role("1", "Bronze"), Role("2", "Silver"), Role("3", "Gold"), Role("4", "Moderator")]
  const EXAMPLE_HELD: seq<string> := ["1", "4", "2"]

  predicate ExampleCatalogue(roles: seq<Role>) {
    && RoleById(roles, "1") == Some(Role("1", "Bronze"))
    && RoleById(roles, "2") == Some(Role("2", "Silver"))
    && RoleById(roles, "3") == Some(Role("3", "Gold"))
    && RoleById(roles, "4") == Some(Role("4", "Moderator"))
  }

  lemma ExampleCatalogueHolds()
    ensures ExampleCatalogue(EXAMPLE_ROLES)
  {
    ExampleLookup(0);
    ExampleLookup(1);
    ExampleLookup(2);
    ExampleLookup(3);
  }

  lemma ExampleTierNames()
    ensures "Bronze" in EXAMPLE_TIERS && "Silver" in EXAMPLE_TIERS && "Gold" in EXAMPLE_TIERS
    ensures "Moderator" !in EXAMPLE_TIERS
  {
    assert |"Moderator"| == 9;
  }

  /** Each id of the example catalogue names its role. */
  lemma ExampleLookup(i: nat)
    requires i < |EXAMPLE_ROLES|
    ensures RoleById(EXAMPLE_ROLES, EXAMPLE_ROLES[i].id) == Some(EXAMPLE_ROLES[i])
  {
    var roles, id := EXAMPLE_ROLES, EXAMPLE_ROLES[i].id;
    assert forall j :: 0 <= j < i ==> roles[j].id[0] != id[0];
    RoleByIdFirst(roles, i);
  }

  /** The filter, one held id at a time. */
  lemma HeldTierRolesCons(tierNames: set<string>, roles: seq<Role>, role: Role, rest: seq<string>, tail: Option<seq<string>>)
    requires RoleById(roles, role.id) == Some(role)
    requires HeldTierRoles(tierNames, roles, rest) == tail
    ensures HeldTierRoles(tierNames, roles, [role.id] + rest) ==
      if tail.None? then None
      else if role.name in tierNames then Some([role.id] + tail.value)
      else tail
  {
    assert ([role.id] + rest)[1..] == rest;
  }

  /** The member's tier roles in the example: Bronze and Silver, in the order
   *  held. */
  lemma ExampleHeldTierRoles(roles: seq<Role>)
    requires ExampleCatalogue(roles)
    ensures HeldTierRoles(EXAMPLE_TIERS, roles, EXAMPLE_HELD) == Some(["1", "2"])
  {
    ExampleTierNames();
    ExampleHeldTail(roles);
    HeldTierRolesCons(EXAMPLE_TIERS, roles, Role("1", "Bronze"), ["4", "2"], Some(["2"]));
    assert ["1"] + ["4", "2"] == EXAMPLE_HELD;
    assert ["1"] + ["2"] == ["1", "2"];
  }

  lemma ExampleHeldTail(roles: seq<Role>)
    requires ExampleCatalogue(roles)
    ensures HeldTierRoles(EXAMPLE_TIERS, roles, ["4", "2"]) == Some(["2"])
  {
    ExampleHeldLast(roles);
    ExampleTierNames();
    HeldTierRolesCons(EXAMPLE_TIERS, roles, Role("4", "Moderator"), ["2"], Some(["2"]));
    assert ["4"] + ["2"] == ["4", "2"];
  }

  lemma ExampleHeldLast(roles: seq<Role>)
    requires ExampleCatalogue(roles)
    ensures HeldTierRoles(EXAMPLE_TIERS, roles, ["2"]) == Some(["2"])
  {
    ExampleTierNames();
    HeldTierRolesCons(EXAMPLE_TIERS, roles, Role("2", "Silver"), [], Some([]));
    assert [] + ["2"] == ["2"] && ["2"] + [] == ["2"];
  }

  /** Desired Gold, not held: add Gold, remove Bronze and Silver. */
  lemma ReconcileExampleAdd(roles: seq<Role>)
    requires ExampleCatalogue(roles)
    ensures Reconcile(EXAMPLE_TIERS, roles, EXAMPLE_HELD, Some(Role("3", "Gold")))
         == Some(RoleDiff(Some("3"), ["1", "2"]))
  {
    ExampleHeldTierRoles(roles);
  }

  /** Desired Silver, held: no add, remove Bronze only. */
  lemma ReconcileExampleKeep(roles: seq<Role>)
    requires ExampleCatalogue(roles)
    ensures Reconcile(EXAMPLE_TIERS, roles, EXAMPLE_HELD, Some(Role("2", "Silver")))
         == Some(RoleDiff(None, ["1"]))
  {
    ExampleHeldTierRoles(roles);
    assert Without(["1", "2"], "2") == ["1"];
  }

  /** Nothing desired: no add, remove Bronze and Silver. */
  lemma ReconcileExampleClear(roles: seq<Role>)
    requires ExampleCatalogue(roles)
    ensures Reconcile(EXAMPLE_TIERS, roles, EXAMPLE_HELD, None) == Some(RoleDiff(None, ["1", "2"]))
  {
    ExampleHeldTierRoles(roles);
  }

  /** A role call sent to the platform: `member.addRole` or `member.removeRole`
   *  for a member (by user id) of a guild. */
  datatype RoleCall = AddRole(guild: string, user: string, role: string)
                    | RemoveRole(guild: string, user: string, role: string)

  function RemoveCalls(guild: string, user: string, ids: seq<string>): seq<RoleCall>
    decreases |ids|
  {
    if ids == [] then []
    else RemoveCalls(guild, user, ids[..|ids| - 1]) + [RemoveRole(guild, user, ids[|ids| - 1])]
  }

  /** The calls a reconciliation issues, in order: the add, then the removals. */
  function DiffCalls(guild: string, user: string, diff: RoleDiff): seq<RoleCall> {
    (if diff.add.Some? then [AddRole(guild, user, diff.add.value)] else [])
    + RemoveCalls(guild, user, diff.remove)
  }

  /** Every call issued for a diff is an add of its role or a removal of one
   *  of its removals, addressed to the given member. */
  lemma {:induction false} DiffCallsSpec(guild: string, user: string, diff: RoleDiff, k: nat)
    requires k < |DiffCalls(guild, user, diff)|
    ensures var c := DiffCalls(guild, user, diff)[k];
      && c.guild == guild && c.user == user
      && (c.AddRole? ==> diff.add == Some(c.role))
      && (c.RemoveRole? ==> c.role in diff.remove)
  {
    var addPart := if diff.add.Some? then [AddRole(guild, user, diff.add.value)] else [];
    if k >= |addPart| {
      RemoveCallsAt(guild, user, diff.remove, k - |addPart|);
    }
  }

  lemma {:induction false} RemoveCallsAt(guild: string, user: string, ids: seq<string>, k: nat)
    requires k < |RemoveCalls(guild, user, ids)|
    ensures |RemoveCalls(guild, user, ids)| == |ids|
    ensures RemoveCalls(guild, user, ids)[k] == RemoveRole(guild, user, ids[k])
    decreases |ids|
  {
    RemoveCallsLength(guild, user, ids[..|ids| - 1]);
    if k < |ids| - 1 {
      RemoveCallsAt(guild, user, ids[..|ids| - 1], k);
    }
  }

  lemma {:induction false} RemoveCallsLength(guild: string, user: string, ids: seq<string>)
    ensures |RemoveCalls(guild, user, ids)| == |ids|
    decreases |ids|
  {
    if ids != [] {
      RemoveCallsLength(guild, user, ids[..|ids| - 1]);
    }
  }
}
