/** How `onDonation` decides where a donation is recorded: as `unknown` when
 *  its message holds no tag, as `pending` under the tag when the tag names
 *  no user who is a member of a guild, and as a member otherwise. */
module Routing {
  import opened Optional
  import opened Identity
  import opened Guilds

  datatype Destination =
    | ToUnknown
    | ToPending(key: string)
    | ToMember(guild: Guild, member: Member)

  function Route(r: Roster, text: string): (d: Destination)
    ensures d.ToUnknown? <==> FindUserInString(text).None?
    ensures d.ToPending? ==> d.key == FindUserInString(text).value
    ensures d.ToMember? ==> d.guild in r.guilds && d.member in d.guild.members.Values
  {
    match FindUserInString(text)
    case None => ToUnknown
    case Some(tag) =>
      match GetUser(r.users, tag)
      case None => ToPending(tag)
      case Some(u) =>
        match GuildOf(r, u.id)
        case None => ToPending(tag)
        case Some(g) => ToMember(g, g.members[u.id])
  }

  /** A donation goes to `unknown` exactly when no substring of its message
   *  looks like `name#0000`. */
  lemma RouteUnknownIff(r: Roster, text: string)
    ensures Route(r, text).ToUnknown? <==>
      forall a, b :: 0 <= a <= b <= |text| ==> !IsTag(text[a..b])
  {
    FindUserInStringSpec(text);
  }

  /** A pending key is always a whole tag. */
  lemma RoutePendingKeyIsTag(r: Roster, text: string)
    ensures Route(r, text).ToPending? ==> IsTag(Route(r, text).key)
  {
    FindUserInStringSpec(text);
  }

  /** A donation goes to `pending` exactly when its message has a tag that
   *  names no known user, or names one who is in no guild; the entry is kept
   *  under the tag as it was written in the message. */
  lemma RoutePendingIff(r: Roster, text: string)
    ensures Route(r, text).ToPending? <==>
      && FindUserInString(text).Some?
      && var tag := FindUserInString(text).value;
         forall i :: 0 <= i < |r.users| && UserId(r.users[i]) == tag ==>
           GuildOf(r, r.users[i].id).None? || exists j :: 0 <= j < i && UserId(r.users[j]) == tag
  {
    if FindUserInString(text).Some? {
      var tag := FindUserInString(text).value;
      if GetUser(r.users, tag).Some? {
        var k := GetUserIndex(r.users, tag);
      }
    }
  }

  /** In a coherent roster, a member's donation is recorded for the member
   *  whose `username#discriminator`, lower-cased, is the tag in the message. */
  lemma RouteMemberKey(r: Roster, text: string)
    requires Coherent(r)
    requires Route(r, text).ToMember?
    ensures var d := Route(r, text);
      && d.member.user in r.users
      && UserId(d.member.user) == FindUserInString(text).value
      && d.member.user.id in d.guild.members && d.guild.members[d.member.user.id] == d.member
  {
  }

  /** A tag whose name has a capital letter never resolves, since user ids
   *  are built from lower-cased names: the donation goes to `pending` under
   *  that tag, which is never the key of anyone who later joins. */
  lemma CapitalisedTagGoesPending(r: Roster, text: string, k: nat)
    requires FindUserInString(text).Some?
    requires var tag := FindUserInString(text).value;
      k < |tag| && IsUpper(tag[k]) && forall j :: 0 <= j <= k ==> tag[j] != '#'
    ensures Route(r, text) == ToPending(FindUserInString(text).value)
    ensures forall u: User :: UserId(u) != FindUserInString(text).value
  {
    var tag := FindUserInString(text).value;
    CapitalisedNeverResolves(r.users, tag, k);
    forall u: User ensures UserId(u) != tag {
      CapitalisedNeverResolves([u], tag, k);
      assert [u][0] == u;
    }
  }

  /** A donation from someone who is in no guild yet is kept as pending under
   *  the tag in its message. */
  lemma NewcomerGoesPending(r: Roster)
    requires forall i :: 0 <= i < |r.users| && UserId(r.users[i]) == "bob#5555" ==> GuildOf(r, r.users[i].id).None?
    ensures Route(r, "support from bob#5555") == ToPending("bob#5555")
  {
    var prefix, tag := "support from ", "bob#5555";
    assert IsTag(tag);
    TrailingTag(prefix, tag);
    assert prefix + tag == "support from bob#5555";
    var u := GetUser(r.users, tag);
    if u.Some? {
      var i :| 0 <= i < |r.users| && r.users[i] == u.value;
    }
  }
}
