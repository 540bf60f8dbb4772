# Ko-fi donation to Discord membership: a Dafny model

This project models how the bot in `src/bot.js` turns Ko-fi donations into
Discord tier roles and keeps its membership document up to date. It covers:

- **routing a donation** (`onDonation`): the first `name#0000` tag in the
  donation message decides whether the donation is stored as `unknown`, as
  `pending` under that tag, or as a guild member's donation;
- **the tier a payment earns** (`getTier`) and **its expiration date**
  (`getExpireDate`), stored as "M/D/YYYY";
- **role reconciliation** (`replaceRole`): which tier roles a member gains
  and loses, and the `addRole`/`removeRole` calls sent, in order;
- **a member joining** (`guildMemberAdd`): a pending donation is promoted to
  `members`;
- **the expiration sweep** (`checkExpired`): expired members lose their tier
  roles and their entries.

The document (`unknown`, `pending`, `members`) is the state of the class
`Handlers.Bot`. Every role call sent is appended to its `roleCalls` log, and
every document write increments `writes`. The platform's caches (`bot.users`,
`bot.guilds`, their role catalogues and members) are a value, `Guilds.Roster`,
passed to the handlers.

Modules, one file each:

- `optional.dfy` (module `Optional`): `Option`
- `seqs.dfy` (module `Seqs`): `split` at the first separator
- `decimal.dfy` (module `Decimal`): `${n}` for integers and reading it back
- `dates.dfy` (module `Dates`): calendar dates, `getExpireDate`, "M/D/YYYY"
- `tiers.dfy` (module `Tiers`): `getTier`: the stable sort and the scan
- `identity.dfy` (module `Identity`): `findUserInString`, `getUserId`, `getUser`, the sweep's lookup
- `roles.dfy` (module `Roles`): `getRoleById`, `getRoleByName`, the `replaceRole` reconciliation and its calls
- `guilds.dfy` (module `Guilds`): members, guilds, the roster
- `records.dfy` (module `Records`): the entries of the document, expiry
- `sweep.dfy` (module `Sweep`): what `checkExpired` deletes and sends, as functions
- `routing.dfy` (module `Routing`): where `onDonation` records a donation
- `bot.dfy` (module `Handlers`): the class `Bot` and its handlers

### Modelling choices

- Amounts are integers. Only `>=` comparisons are made on them.
- A date is the local calendar date a JavaScript `Date` reports: year,
  0-based month, day.
- `new Date(y, m, d)` reads a year from 0 to 99 as 1900 to 1999 and rolls a
  day past the end of the month over into the next month. `Dates.MakeDate`
  models both.
- An entry has expired once today's date reaches its stored date. This is
  because `new Date("M/D/YYYY")` is local midnight (src/bot.js:223).
- `checkExpired` visits the keys in the order of `Object.keys`. The model
  takes that order as a parameter listing exactly the member keys.
- A held role id missing from the guild's catalogue makes the tier-role
  filter of `replaceRole` throw (src/bot.js:187-189). The returned promise
  then rejects and no call is sent. `Roles.Reconcile` returns `None` in
  that case.
- `checkExpired` behaves as follows, on a runtime where an unhandled
  promise rejection is only reported (see "Left out"):
  - Each callback runs synchronously up to the `replaceRole(...).then(...)`
    chain.
  - Those chains settle before `checkExpired` resumes from its `await` and
    writes, so the deletes reach the document.
  - A user who is known but is in no guild makes the callback throw
    (`guild.members` of `undefined`, src/bot.js:235-236), so the entry is
    kept.
- The comment on `checkExpired` (src/bot.js:212-214) says every expired
  member loses its roles and its entry. The code does not: it keeps an
  expired entry when the member is in no guild, or when `replaceRole`
  rejects. The handlers follow the code (`Sweep.SweepDeletesExpired`), and
  "Findings" gives the intended sweep beside it.

## Model

| member | source | states |
|---|---|---|
| `Seqs.SplitFirst` | src/bot.js:226 | the first part has no separator; it is the whole input when the separator is absent, and otherwise input = first part + separator + rest |
| `Seqs.SplitFirstJoin` | src/bot.js:226 | splitting `a + [sep] + b` at `sep`, with `sep` not in `a`, gives back `a` and `b` |
| `Decimal.FromNat` | src/bot.js:154 | `${n}` of a natural number is a non-empty string of digits without padding: it starts with '0' exactly when `n` is 0, and then it is "0" |
| `Decimal.ToNatFromNat` | src/bot.js:154 | reading the digits back gives the number |
| `Decimal.FromInt` | src/bot.js:154 | `${i}` starts with '-' exactly when `i` is negative, has only digits after its first character, and has no leading zero |
| `Decimal.ToIntFromInt` | src/bot.js:154 | reading `${i}` back gives `i`, negative numbers included |
| `Dates.FullYear` | src/bot.js:149-151 | the year `new Date(y, m, d)` takes `y` to mean: 1900 + y for 0 to 99, otherwise `y`; never a year from 0 to 99 |
| `Dates.RollOver` | src/bot.js:150-151 | a day past the end of the month rolls over into the following months: the result is a valid date no earlier than month `m` of year `y`, and (y, m, d) itself when the month has day `d` |
| `Dates.MakeDate` | src/bot.js:149-151 | `new Date(y, m, d)` gives a valid date no earlier than month `m` of year `FullYear(y)`, and exactly (FullYear(y), m, d) when that month has day `d` (the Date range is not modelled; see Left out) |
| `Dates.ExpireTwoDigitYears` | src/bot.js:149-151 | a payment on 14 March of year 50 expires on 14 April 1950, one on 5 December of year 98 on 1 January 1999, and `new Date(0, 1, 29)` is 1 March 1900 |
| `Dates.ExpireDate` | src/bot.js:145-155 | the expiration date is a valid date strictly after the payment date, and its year is never 0 to 99 |
| `Dates.ExpireDecember` | src/bot.js:148-149 | a December payment expires on 1 January of the next year, as `FullYear` reads it |
| `Dates.ExpireSameDayNextMonth` | src/bot.js:150-151 | outside December, the same day of the next month of `FullYear` of the payment year, when that month has the day |
| `Dates.ExpireRollsOver` | src/bot.js:150-151 | otherwise the date overflows into the month after, on day 1 to 3 |
| `Dates.ExpireNotMonotone` | src/bot.js:145-155 | 31 January 2023 expires on 3 March, after 1 February 2023, which expires on 1 March |
| `Dates.ParseRender` | src/bot.js:223 | reading back the stored "M/D/YYYY" string gives the date that was rendered |
| `Dates.RenderExample` | src/bot.js:154 | an expiration on 14 April 2024 is stored as "4/14/2024": 1-based month, no padding |
| `Dates.Render` | src/bot.js:154 | the "M/D/YYYY" string of a date, with no contract of its own; `ParseRender`, `RenderExample` and the contracts of `Decimal.FromInt` give its form |
| `Dates.Parse` | src/bot.js:223 | `new Date("M/D/YYYY")` read as a calendar date, with no contract of its own; `ParseRender` states that it inverts `Render` |
| `Records.Expired` | src/bot.js:223 | `new Date() >= new Date(expireDate)` as a comparison of calendar dates, with no contract of its own; `ExpiryOutcome` and `SweepDeletesExpired` use it |
| `Tiers.Names` | src/bot.js:185 | `config.TIERS.map((tier) => tier.name)`, kept as a set because it is only used with `includes`; `Roles.IsTierRole` tests membership in it |
| `Tiers.Insert` | src/bot.js:128 | inserting a tier adds exactly that tier (multiset) and nothing else |
| `Tiers.InsertSorted` | src/bot.js:128 | inserting into a list sorted by threshold keeps it sorted |
| `Tiers.SortByAmount` | src/bot.js:128 | the stable ascending sort by threshold, with no contract of its own; `SortPermutes`, `SortSorts` and `SortStable` state that it is a stable sort |
| `Tiers.SortPermutes` | src/bot.js:128 | the sort is a permutation of the configured tiers |
| `Tiers.SortSorts` | src/bot.js:128 | the sort orders the tiers by ascending threshold |
| `Tiers.InsertStable` | src/bot.js:128 | insertion keeps the relative order of tiers with the same threshold |
| `Tiers.SortStable` | src/bot.js:128 | the sort is stable: for every threshold, the tiers with it appear in configuration order |
| `Tiers.SortKeepsTiers` | src/bot.js:128 | every configured tier is in the sorted list and every sorted tier is configured |
| `Tiers.LastQualifying` | src/bot.js:132-136 | the last position whose threshold the payment meets; none exactly when the payment is below every threshold |
| `Tiers.TierOf` | src/bot.js:127-138 | the tier `getTier` settles on, with no contract of its own; `TierOfNone`, `TierOfHighest` and `TierOfMonotone` state which tier that is |
| `Tiers.TierName` | src/bot.js:127-138 | the name of that tier, or none; `GetTier` is proved to return it |
| `Tiers.LastQualifyingStep` | src/bot.js:133-135 | scanning one more tier moves the match to it exactly when the payment meets its threshold |
| `Tiers.GetTier` | src/bot.js:127-138 | the loop over the sorted tiers returns `TierName`: the name of the last tier in sorted order whose threshold the payment meets |
| `Tiers.TierNameAt` | src/bot.js:127-138 | the tier name is the sorted list's name at the scan's last match |
| `Tiers.TierOfNone` | src/bot.js:127-138 | no tier is earned exactly when the payment is below every configured threshold |
| `Tiers.TierOfHighest` | src/bot.js:127-138 | the tier earned is configured, its threshold is met and is the highest one met, and it is the tier with that threshold configured last |
| `Tiers.TierOfAt` | src/bot.js:132-137 | the tier earned is the sorted entry at the scan's last match |
| `Tiers.TierOfMax` | src/bot.js:132-137 | no configured tier whose threshold is met has a higher threshold than the tier earned |
| `Tiers.LastQualifyingMax` | src/bot.js:132-136 | in a sorted list, the last match has the highest threshold among those met |
| `Tiers.TierOfLastConfigured` | src/bot.js:128-136 | among tiers with equal thresholds, the one configured last is earned |
| `Tiers.LastOfWithAmount` | src/bot.js:128-136 | an entry with no later entry of equal threshold is the last of its threshold |
| `Tiers.TierOfMonotone` | src/bot.js:127-138 | paying more never loses a tier and never earns a lower threshold |
| `Tiers.LastQualifyingMonotone` | src/bot.js:132-136 | in a sorted list, a larger payment's last match is no earlier and no lower |
| `Identity.IsTag` | src/bot.js:271 | a whole match of `[\w\d]+#[\d]{4}`: one or more word characters, '#', four digits |
| `Identity.FindUserInString` | src/bot.js:270-274 | the first match, with no contract of its own; `FindUserInStringSpec` states that it is the leftmost tag, or none exactly when no tag occurs |
| `Identity.MatchEnd` | src/bot.js:271 | a match attempt at one position, with no contract of its own; `MatchEndSpec` states when it succeeds |
| `Identity.SearchFrom` | src/bot.js:272 | the leftmost-match search, with no contract of its own; `SearchFromSpec` states what it finds |
| `Identity.IsWordChar` | src/bot.js:271 | `\w` without the `u` flag: ASCII letters, digits and '_' |
| `Identity.WordEnd` | src/bot.js:271 | the greedy run of `\w` characters from a position: all word characters, and followed by a non-word character or the end |
| `Identity.MatchEndSpec` | src/bot.js:271 | a match attempt at a position succeeds exactly when a tag starts there, and ends where the tag ends |
| `Identity.SearchFromSpec` | src/bot.js:272 | the search finds nothing exactly when no tag occurs; otherwise it finds a tag and none starts earlier |
| `Identity.FindUserInStringSpec` | src/bot.js:270-274 | `null` exactly when the message holds no `name#0000` tag; otherwise the leftmost tag |
| `Identity.TrailingTag` | src/bot.js:270-274 | a message whose only '#' is in a tag at its end, set off from the words before it, yields that tag |
| `Identity.TrailingTagFrom` | src/bot.js:270-274 | the search from any position before such a tag finds exactly that tag |
| `Identity.FindUserInStringExample` | src/bot.js:270-274 | "thanks - alice#1234" yields "alice#1234" |
| `Identity.Lower` | src/bot.js:281 | `toLowerCase` on ASCII names: each character is mapped by `LowerChar` and the length is kept (weaker than JavaScript beyond ASCII; see Left out) |
| `Identity.UserId` | src/bot.js:280-282 | `getUserId`, with no contract of its own; `CapitalisedIsNoUserId` and `SameSplit` state which tags it can produce and that it determines both parts |
| `Identity.GetUser` | src/bot.js:288-292 | the user found has exactly that identity; none exactly when no user has it |
| `Identity.GetUserIndex` | src/bot.js:288-292 | the user found is the first one with that identity |
| `Identity.CapitalisedNeverResolves` | src/bot.js:280-292 | a tag with an upper-case letter before its '#' matches no user |
| `Identity.CapitalisedIsNoUserId` | src/bot.js:280-282 | no identity built by `getUserId` has an upper-case letter before its first '#' |
| `Identity.LookupByParts` | src/bot.js:226-227 | the sweep's split-and-compare lookup, with no contract of its own; `LookupByPartsAgrees` states that it finds the user `getUser` finds |
| `Identity.UserByParts` | src/bot.js:227 | the user found has the lower-cased name and the discriminator; none exactly when no user has both |
| `Identity.LookupByPartsAgrees` | src/bot.js:226-227 | for an identity with exactly one '#', the sweep's split-and-compare lookup finds the user `getUser` finds |
| `Identity.ByPartsAgrees` | src/bot.js:227 | comparing the parts finds the same user as comparing the joined identity |
| `Identity.SameSplit` | src/bot.js:281 | two identities built with `getUserId` are equal only when their names and discriminators are |
| `Roles.RoleById` | src/bot.js:171-173 | the role found has that id; none exactly when no role has it |
| `Roles.RoleByName` | src/bot.js:162-164 | the role found has that name; none exactly when no role has it; `RoleByNameFirst` states that it is the first such entry |
| `Roles.RoleByNameFirst` | src/bot.js:162-164 | the role found is the first catalogue entry with that name, as `Array.prototype.find` returns |
| `Roles.RoleByNameDuplicate` | src/bot.js:162-164 | of two roles both named "Gold", the earlier one is returned |
| `Roles.RoleByIdFirst` | src/bot.js:171-173 | the lookup by id finds the first entry with that id |
| `Roles.RoleByIdAt` | src/bot.js:171-173 | in a catalogue with unique ids, looking up a role's id finds that role |
| `Roles.IsTierRole` | src/bot.js:187-188 | `tierNames.includes(guild.roles.get(roleId).name)` for a held id the catalogue has: its role's name is a configured tier name |
| `Roles.HeldTierRoles` | src/bot.js:185-189 | the filter fails exactly when a held id is missing from the catalogue; otherwise it keeps exactly the held ids that name tier roles |
| `Roles.Reconcile` | src/bot.js:182-210 | fails exactly when a held id is missing from the catalogue; otherwise it removes exactly the held tier roles other than the desired one, and adds the desired role exactly when it is not already held |
| `Roles.Without` | src/bot.js:196 | `filter(roleId => roleId !== newRole.id)` keeps exactly the other ids |
| `Roles.ReconcileOutcome` | src/bot.js:182-210 | once the calls succeed, the member holds exactly the desired tier role (none when nothing is desired), and its other roles are unchanged |
| `Roles.ExampleCatalogueHolds` | src/bot.js:171-173 | the example catalogue maps ids 1 to 4 to Bronze, Silver, Gold and Moderator |
| `Roles.ExampleTierNames` | src/bot.js:185 | Bronze, Silver and Gold are tier names and Moderator is not |
| `Roles.ExampleLookup` | src/bot.js:171-173 | each id of the example catalogue names its role |
| `Roles.HeldTierRolesCons` | src/bot.js:187-189 | the filter, one held id at a time |
| `Roles.ExampleHeldTierRoles` | src/bot.js:187-189 | holding Bronze, Moderator and Silver, the tier roles are Bronze and Silver, in that order |
| `Roles.ExampleHeldTail` | src/bot.js:187-189 | holding Moderator and Silver, the tier role is Silver |
| `Roles.ExampleHeldLast` | src/bot.js:187-189 | holding Silver, the tier role is Silver |
| `Roles.ReconcileExampleAdd` | src/bot.js:197-209 | desiring Gold: add Gold, remove Bronze and Silver |
| `Roles.ReconcileExampleKeep` | src/bot.js:193-196 | desiring Silver, which is held: no add, remove Bronze only |
| `Roles.ReconcileExampleClear` | src/bot.js:182-210 | desiring nothing: remove Bronze and Silver |
| `Roles.RemoveCalls` | src/bot.js:203-209 | the removal calls, with no contract of its own; `RemoveCallsAt` and `RemoveCallsLength` state them one by one |
| `Roles.DiffCalls` | src/bot.js:193-209 | the add, then the removals, with no contract of its own; `DiffCallsSpec` states what each call is |
| `Roles.DiffCallsSpec` | src/bot.js:197-209 | every call sent goes to the member; an add is the role to add, a removal is one of the roles to remove |
| `Roles.RemoveCallsAt` | src/bot.js:203-209 | the k-th removal call removes the k-th role of the queue |
| `Roles.RemoveCallsLength` | src/bot.js:203-209 | one removal call per queued role |
| `Guilds.GuildOf` | src/bot.js:235 | the guild found has the user as a member; none exactly when no guild has; `GuildOfFirst` states that it is the first such guild |
| `Guilds.FirstGuildWith` | src/bot.js:458 | the same, over a list of guilds |
| `Guilds.GuildOfFirst` | src/bot.js:235 | the guild found is the first, in the client's order, that has the user as a member, as `bot.guilds.find` returns |
| `Guilds.FirstGuildWithFirst` | src/bot.js:458 | the same, over a list of guilds |
| `Guilds.ReplaceRoleCalls` | src/bot.js:182-210 | the calls `replaceRole` sends: none when `Reconcile` fails, otherwise `DiffCalls`; `Handlers.Bot.ReplaceRole` is proved to send them |
| `Guilds.DesiredRole` | src/bot.js:93-107 | no role without a tier or when no role has the tier's name; otherwise a catalogue role with that name, the first one by `DesiredRoleFirst` |
| `Guilds.DesiredRoleFirst` | src/bot.js:99-105 | the role a tier is reconciled towards is the first catalogue role with the tier's name |
| `Sweep.ExpiryOutcome` | src/bot.js:220-244 | a deleted entry has expired, and a kept entry gets no role call |
| `Sweep.Dropped` | src/bot.js:216-247 | the keys deleted, with no contract of its own; `SweepDeletesExpired` states which they are |
| `Sweep.SweepCalls` | src/bot.js:216-247 | the calls sent, key by key, with no contract of its own; `SweepOnlyRemovesTierRoles` and `NoCallsWhenNothingDropped` state what they are |
| `Sweep.Revocable` | src/bot.js:226-240 | an unknown user, or a member whose `replaceRole` resolves; a known user in no guild is not revocable |
| `Sweep.DroppedUpToSpec` | src/bot.js:220-244 | the keys deleted among the first n visited are those `Dropped` names for that prefix |
| `Sweep.Outcomes` | src/bot.js:220-244 | the table of every key's callback outcome agrees with `ExpiryOutcome` |
| `Sweep.ByOutcomes` | src/bot.js:220-244 | reading the outcomes from that table gives the sweep's deletions and calls |
| `Sweep.SweepDeletesExpired` | src/bot.js:216-247 | the sweep deletes exactly the expired entries whose roles can be revoked; an expired entry whose user is unknown is always deleted; every entry it keeps is unchanged and is unexpired or not revocable |
| `Sweep.OutcomeOnlyRemovesTierRoles` | src/bot.js:235-240 | the calls for one entry only remove tier roles of the member's guild |
| `Sweep.SweepOnlyRemovesTierRoles` | src/bot.js:216-247 | every call the sweep sends removes a tier role of the guild it is sent to |
| `Sweep.ExpiryRemovesEveryTierRole` | src/bot.js:235-240 | a deleted member found in a guild gets a removal for every tier role it holds there |
| `Sweep.CallsByHas` | src/bot.js:220-244 | read off the table of outcomes, the calls of the first n keys include every call of each of them |
| `Sweep.SweepRemovesEveryTierRole` | src/bot.js:216-247 | every member the sweep deletes, when found in a guild, loses every tier role it holds there |
| `Sweep.CallsUpToOnlyRemove` | src/bot.js:220-244 | the same for the calls of the first n keys |
| `Sweep.NoCallsWhenNothingDropped` | src/bot.js:220-244 | no call is sent for keys whose entries are kept |
| `Sweep.SweepIdempotent` | src/bot.js:216-247 | a second sweep on the same day, with the same roster, deletes nothing and sends no call |
| `Sweep.IntendedDropped` | src/bot.js:212-214 | the deletions the comment on `checkExpired` promises: every expired entry |
| `Sweep.IntendedDeletesExpired` | src/bot.js:212-214 | the intended sweep deletes exactly the expired entries and keeps every other entry unchanged |
| `Sweep.DroppedWithinIntended` | src/bot.js:216-247 | the code deletes only entries the intended sweep deletes, and all of them exactly when every expired entry is revocable |
| `Sweep.OneKey` | src/bot.js:220-244 | a sweep over one key deletes it exactly when its outcome, or, as intended, its expiry, says so |
| `Sweep.CarolFound` | src/bot.js:226-227 | the stored key "carol#9999" finds the known user carol |
| `Sweep.NoGuildOutcome` | src/bot.js:235-236 | carol's expired entry is not deleted when she is in no guild |
| `Sweep.ExpiredKeptInNoGuild` | src/bot.js:235-236 | an expired entry of a known user in no guild is kept by the code, and deleted by the intended sweep |
| `Sweep.RoleMissingOutcome` | src/bot.js:187-189 | carol's expired entry is not deleted when she holds a role id the catalogue lacks |
| `Sweep.ExpiredKeptWhenRoleMissing` | src/bot.js:237-240 | an expired entry whose `replaceRole` rejects is kept by the code, and deleted by the intended sweep |
| `Routing.Route` | src/bot.js:449-470 | unknown exactly when the message has no tag; pending keeps the tag; a member is in a guild of the roster |
| `Routing.RouteUnknownIff` | src/bot.js:449-455 | a donation is unknown exactly when no substring of its message is a tag |
| `Routing.RoutePendingKeyIsTag` | src/bot.js:456-465 | a pending key is always a whole tag |
| `Routing.RoutePendingIff` | src/bot.js:456-465 | pending exactly when a tag is found and the first user with that identity is in no guild, or there is none |
| `Routing.RouteMemberKey` | src/bot.js:457-470 | in a coherent roster, the member is the known user whose identity is the tag, and is that guild's member under the user's id |
| `Routing.CapitalisedTagGoesPending` | src/bot.js:449-465 | a tag with a capital letter goes to pending, under a key no user's identity can equal |
| `Routing.NewcomerGoesPending` | src/bot.js:456-465 | a message naming bob#5555, who is in no guild, goes to pending under "bob#5555" |
| `Handlers.Bot.constructor` | src/bot.js:24-120 | an empty document, no calls, no writes |
| `Handlers.Bot.ReplaceRole` | src/bot.js:182-210 | succeeds exactly when `Reconcile` does, and appends exactly the calls of that reconciliation |
| `Handlers.Bot.SendDiff` | src/bot.js:193-209 | appends the add, if any, then the removals |
| `Handlers.Bot.SendRemovals` | src/bot.js:203-209 | appends one removal per queued role, in queue order |
| `Handlers.Bot.RegisterUnknown` | src/bot.js:24-40 | appends one entry with the tier, expiration date and amount to `unknown`, writes once, and keeps the document valid |
| `Handlers.Bot.RegisterPending` | src/bot.js:48-69 | stores the entry under the tag, replacing an earlier one; writes once |
| `Handlers.Bot.RegisterMember` | src/bot.js:78-120 | reconciles towards the role named after the tier (none without one), stores the entry under the member's id, replacing an earlier one, and writes once |
| `Handlers.Bot.GuildMemberAdd` | src/bot.js:403-429 | with a pending entry for the member: the role for its amount, the entry moved to `members`, one write; otherwise nothing changes |
| `Handlers.Bot.Promote` | src/bot.js:407-425 | the pending entry moves to `members` with its date and amount, the role call is sent, one write |
| `Handlers.Bot.CheckExpired` | src/bot.js:216-247 | deletes exactly `Dropped`, sends exactly `SweepCalls` in key order, writes once, keeps the document valid |
| `Handlers.Bot.SweepKeys` | src/bot.js:220-244 | the loop deletes and sends what the table of outcomes says, key by key |
| `Handlers.Bot.SweepStep` | src/bot.js:220-244 | one key more of the sweep |
| `Handlers.Bot.ExpireOne` | src/bot.js:221-243 | one callback: deletes the entry and sends its calls as `ExpiryOutcome` says |
| `Handlers.Bot.OnDonation` | src/bot.js:431-474 | records the donation in exactly the collection `Route` picks, sends role calls only for a member, writes once |
| `Handlers.NewcomerDonation` | src/bot.js:431-465 | from a fresh document, a donation of 10 on 14 March 2024 naming bob#5555 is stored as pending until 14 April, with nothing else stored or sent |
| `Handlers.SweepFinished` | src/bot.js:220-245 | after the last key, the loop's running totals are the whole sweep |

## Findings

| source | as written | input that shows it | evidently intended | confidence | as-written member | corrected member |
|---|---|---|---|---|---|---|
| src/bot.js:235-236 | a known user who is in no guild makes `guild.members` throw before the delete, so the expired entry stays | carol#9999, known to the bot and in no guild, expired on 1 January 2024, swept on 1 June 2024 | every expired entry is deleted (src/bot.js:212-214) | medium, not executed | `Sweep.ExpiredKeptInNoGuild` | `Sweep.IntendedDeletesExpired` |
| src/bot.js:237-240 | when `replaceRole` rejects (a held role id missing from the catalogue, src/bot.js:187-189), the `.then` that deletes never runs, so the expired entry stays | the same carol, member of a guild with an empty catalogue, holding role id "r7" | every expired entry is deleted (src/bot.js:212-214) | medium, not executed | `Sweep.ExpiredKeptWhenRoleMissing` | `Sweep.IntendedDeletesExpired` |

`Handlers.Bot.CheckExpired` keeps the behaviour as written. `Sweep.DroppedWithinIntended`
relates the two: the code deletes a subset of the intended deletions, and
all of them exactly when every expired entry is revocable.

## Left out

- Reading and writing `database.json` (`jsonUtil`). The document is the state of `Handlers.Bot`, and a write is counted in `writes`.
- Notifications and formatting (`message`, `alertError`, `formatJson`, `hl`), `logDonation`, logging, and the `Promise.all` pairing each registration with `logDonation`.
- The Eris client, the webhook listener, and the Ko-fi payload. Donations arrive as already-parsed arguments.
- Scheduling of the sweep (`queueNextExpireCheck`, `getNextTaskTime`). Today's date is a parameter of `CheckExpired`.
- Concurrency between handlers. Each handler runs to completion, with no interleaving and no lost update between two read-modify-write cycles of the document.
- The payment timestamp string and time zones. The payment date is taken as a valid local calendar date, so the `Invalid Date` path of `getExpireDate` is not modelled.
- Dates.MakeDate: the range of a JavaScript `Date` (about 275,760 years either side of 1970) is not modelled. Beyond it, `new Date(y, m, d)` is `Invalid Date` and `getExpireDate` would store "NaN/NaN/NaN". The model gives an ordinary date for every year.
- Dates.Parse: reads the year digits as written. JavaScript's parser for "M/D/Y" strings is not standardised, and it may read negative years or years far from the present differently. `ExpireDate` never stores a year from 0 to 99, the years that parser is known to shift.
- Floating-point amounts. Amounts are integers.
- Identity.Lower: lowers only 'A' to 'Z' and keeps the length. JavaScript's `toLowerCase` also lowers other letters, and some to more than one code unit ('İ' becomes two), because Unicode case mapping is not modelled.
- A message that is not a string. `findUserInString` would throw and `onDonation` would report it.
- Sweep.ExpiryOutcome: assumes a runtime on which an unhandled promise rejection is only reported, as on Node.js before 15 or with `--unhandled-rejections=warn`. Nothing catches the callback's TypeError for a known user in no guild (src/bot.js:235-236). Under the default of Node.js 15 and later, the process then exits, so neither the kept entry nor the other keys' deletions is sure to reach the write at src/bot.js:245. The source names no Node.js version, and the lost write is not modelled.
- Roles.Reconcile: the same assumption for a rejected `replaceRole` (its calls at src/bot.js:97, 103, 105, 237 and 412 have no `catch`). On Node.js 15 and later the process would exit, and the document write that follows may not complete.
- The failure of an individual `addRole`/`removeRole` call. Calls are modelled as sent, and their outcome is reported, not acted on.
- The in-place `TIERS.sort`. It is modelled as a pure stable sort of the configured tiers. Sorting again changes nothing, and the order of tier names is only used for membership tests.
- JSON dropping an `undefined` tier. `PendingEntry.tier` is `None` then.
- Handlers.Bot.RegisterPending: requires its key to be a tag, as its only caller passes (src/bot.js:463), so that the invariant "every pending key is a tag" is kept.
