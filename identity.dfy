/** Identity resolution: finding a `name#0000` tag in a donation message
 *  (`findUserInString`), deriving a user's identity (`getUserId`) and
 *  looking an identity up among the users the bot knows (`getUser`). */
module Identity {
  import opened Optional
  import Seqs
  import opened Decimal

  /** A user of the chat platform: its snowflake id, user name and four-digit
   *  discriminator. */
  datatype User = User(id: string, username: string, discriminator: string)

  /** `\w` of a JavaScript regular expression without the `u` flag. */
  predicate IsWordChar(c: char) {
    'a' <= c <= 'z' || 'A' <= c <= 'Z' || '0' <= c <= '9' || c == '_'
  }

  /** A whole match of `/[\w\d]+#[\d]{4}/`: word characters, '#', four digits. */
  predicate IsTag(t: string) {
    && |t| >= 6
    && t[|t| - 5] == '#'
    && (forall k :: 0 <= k < |t| - 5 ==> IsWordChar(t[k]))
    && (forall k :: |t| - 4 <= k < |t| ==> IsDigit(t[k]))
  }

  /** The end of the run of word characters that starts at `i`. */
  function WordEnd(s: string, i: nat): (j: nat)
    requires i <= |s|
    ensures i <= j <= |s|
    ensures forall k :: i <= k < j ==> IsWordChar(s[k])
    ensures j < |s| ==> !IsWordChar(s[j])
    decreases |s| - i
  {
    if i < |s| && IsWordChar(s[i]) then WordEnd(s, i + 1) else i
  }

  /** Where the match attempted at position `i` ends, if it succeeds: the
   *  greedy word run must be followed by '#' and four digits. */
  function MatchEnd(s: string, i: nat): Option<nat>
    requires i <= |s|
  {
    var j := WordEnd(s, i);
    if i < j && j + 5 <= |s| && s[j] == '#' && (forall k :: j + 1 <= k < j + 5 ==> IsDigit(s[k]))
    then Some(j + 5)
    else None
  }

  /** The leftmost match starting at or after `i`, as start and end positions. */
  function SearchFrom(s: string, i: nat): Option<(nat, nat)>
    requires i <= |s|
    decreases |s| - i
  {
    if i == |s| then None
    else
      match MatchEnd(s, i)
      case Some(e) => Some((i, e))
      case None => SearchFrom(s, i + 1)
  }

  /** `findUserInString`: the first `name#0000` tag in the text, or `null`. */
  function FindUserInString(text: string): Option<string> {
    match SearchFrom(text, 0)
    case None => None
    case Some((a, b)) =>
      if a <= b <= |text| then Some(text[a..b]) else None
  }

  /** A match attempt at `i` succeeds exactly when some tag starts at `i`, and
   *  then it ends where that tag ends. */
  lemma MatchEndSpec(s: string, i: nat)
    requires i <= |s|
    ensures MatchEnd(s, i).Some? ==>
      var e := MatchEnd(s, i).value; i < e <= |s| && IsTag(s[i..e])
    ensures forall b :: i <= b <= |s| && IsTag(s[i..b]) ==> MatchEnd(s, i) == Some(b)
  {
    var j := WordEnd(s, i);
    forall b | i <= b <= |s| && IsTag(s[i..b])
      ensures MatchEnd(s, i) == Some(b)
    {
      var t := s[i..b];
      assert forall k :: i <= k < b - 5 ==> IsWordChar(s[k]) by {
        forall k | i <= k < b - 5 ensures IsWordChar(s[k]) {
          assert s[k] == t[k - i];
        }
      }
      assert s[b - 5] == t[|t| - 5] == '#';
      assert j == b - 5;
      forall k | j + 1 <= k < j + 5 ensures IsDigit(s[k]) {
        assert s[k] == t[k - i];
      }
    }
  }

  /** The search from `i` finds nothing exactly when no tag starts at or after
   *  `i`; otherwise it finds a tag, and no tag starts before it. */
  lemma {:induction false} SearchFromSpec(s: string, i: nat)
    requires i <= |s|
    ensures SearchFrom(s, i).None? <==>
      forall a, b :: i <= a <= b <= |s| ==> !IsTag(s[a..b])
    ensures SearchFrom(s, i).Some? ==>
      var (a, b) := SearchFrom(s, i).value;
      && i <= a <= b <= |s|
      && IsTag(s[a..b])
      && forall a', b' :: i <= a' < a && a' <= b' <= |s| ==> !IsTag(s[a'..b'])
    decreases |s| - i
  {
    if i < |s| {
      MatchEndSpec(s, i);
      SearchFromSpec(s, i + 1);
      if MatchEnd(s, i).None? {
        forall a, b | i <= a <= b <= |s| && a == i ensures !IsTag(s[a..b]) {
        }
      }
    }
  }

  /** `findUserInString` returns nothing exactly when the text holds no tag;
   *  otherwise it returns the leftmost tag of the text. */
  lemma FindUserInStringSpec(text: string)
    ensures FindUserInString(text).None? <==>
      forall a, b :: 0 <= a <= b <= |text| ==> !IsTag(text[a..b])
    ensures FindUserInString(text).Some? ==>
      exists a, b :: 0 <= a <= b <= |text|
        && text[a..b] == FindUserInString(text).value
        && IsTag(text[a..b])
        && forall a', b' :: 0 <= a' < a && a' <= b' <= |text| ==> !IsTag(text[a'..b'])
  {
    SearchFromSpec(text, 0);
  }

  /** A message whose only '#' is in a tag at its end, set off from the words
   *  before it, resolves to that tag. */
  lemma TrailingTag(prefix: string, tag: string)
    requires IsTag(tag)
    requires forall k :: 0 <= k < |prefix| ==> prefix[k] != '#'
    requires |prefix| > 0 ==> !IsWordChar(prefix[|prefix| - 1])
    ensures FindUserInString(prefix + tag) == Some(tag)
  {
    var text := prefix + tag;
    TrailingTagFrom(prefix, tag, 0);
    assert text[|prefix|..|text|] == tag;
  }

  lemma {:induction false} TrailingTagFrom(prefix: string, tag: string, i: nat)
    requires IsTag(tag) && i <= |prefix|
    requires forall k :: 0 <= k < |prefix| ==> prefix[k] != '#'
    requires |prefix| > 0 ==> !IsWordChar(prefix[|prefix| - 1])
    ensures SearchFrom(prefix + tag, i) == Some((|prefix|, |prefix + tag|))
    decreases |prefix| - i
  {
    var text := prefix + tag;
    if i == |prefix| {
      assert text[i..|text|] == tag;
      MatchEndSpec(text, i);
    } else {
      var j := WordEnd(text, i);
      assert !IsWordChar(text[|prefix| - 1]);
      assert j < |prefix|;
      assert text[j] == prefix[j];
      TrailingTagFrom(prefix, tag, i + 1);
    }
  }

  /** A message ending in a tag resolves to that tag. */
  lemma FindUserInStringExample()
    ensures FindUserInString("thanks - alice#1234") == Some("alice#1234")
  {
    var prefix, tag := "thanks - ", "alice#1234";
    assert IsTag(tag);
    TrailingTag(prefix, tag);
    assert prefix + tag == "thanks - alice#1234";
  }

  /** ASCII lower-casing, as `toLowerCase` acts on the characters of a user name. */
  function LowerChar(c: char): char {
    if 'A' <= c <= 'Z' then (c as int - 'A' as int + 'a' as int) as char else c
  }

  function Lower(s: string): (r: string)
    ensures |r| == |s| && forall i :: 0 <= i < |s| ==> r[i] == LowerChar(s[i])
  {
    if s == [] then [] else [LowerChar(s[0])] + Lower(s[1..])
  }

  predicate IsUpper(c: char) { 'A' <= c <= 'Z' }

  /** `getUserId`: the lower-cased user name, '#', the discriminator. */
  function UserId(u: User): string {
    Lower(u.username) + "#" + u.discriminator
  }

  /** `getUser`: the first known user whose identity is exactly `id`. */
  function GetUser(users: seq<User>, id: string): (r: Option<User>)
    ensures r.None? <==> forall i :: 0 <= i < |users| ==> UserId(users[i]) != id
    ensures r.Some? ==> r.value in users && UserId(r.value) == id
  {
    if users == [] then None
    else if UserId(users[0]) == id then Some(users[0])
    else GetUser(users[1..], id)
  }

  /** The user `getUser` finds is the first one with that identity. */
  lemma {:induction false} GetUserIndex(users: seq<User>, id: string) returns (k: nat)
    requires GetUser(users, id).Some?
    ensures k < |users| && users[k] == GetUser(users, id).value
    ensures forall j :: 0 <= j < k ==> UserId(users[j]) != id
    decreases |users|
  {
    if UserId(users[0]) == id {
      k := 0;
    } else {
      var rest := GetUserIndex(users[1..], id);
      k := rest + 1;
    }
  }

  /** Identities are compared without normalising the text they come from: an
   *  identity with an upper-case letter before its first '#' matches no user. */
  lemma CapitalisedNeverResolves(users: seq<User>, id: string, k: nat)
    requires k < |id| && IsUpper(id[k])
    requires forall j :: 0 <= j <= k ==> id[j] != '#'
    ensures GetUser(users, id).None?
  {
    forall i | 0 <= i < |users| ensures UserId(users[i]) != id {
      CapitalisedIsNoUserId(users[i], id, k);
    }
  }

  /** No user's identity has an upper-case letter before its first '#'. */
  lemma CapitalisedIsNoUserId(u: User, id: string, k: nat)
    requires k < |id| && IsUpper(id[k])
    requires forall j :: 0 <= j <= k ==> id[j] != '#'
    ensures UserId(u) != id
  {
    var name, uid := Lower(u.username), UserId(u);
    if |uid| == |id| {
      if k < |name| {
        assert uid[k] == LowerChar(u.username[k]) != id[k];
      } else {
        assert uid[|name|] == '#' != id[|name|];
      }
    }
  }

  /** The lookup the expiration sweep does instead of `getUser`: split the
   *  stored identity at '#' and compare the lower-cased user name and the
   *  discriminator with the first two parts. */
  function LookupByParts(users: seq<User>, id: string): Option<User> {
    var (name, rest) := Seqs.SplitFirst(id, '#');
    var disc := if rest.None? then None else Some(Seqs.SplitFirst(rest.value, '#').0);
    UserByParts(users, name, disc)
  }

  /** The first user whose lower-cased name is `name` and whose discriminator
   *  is `disc`. */
  function UserByParts(users: seq<User>, name: string, disc: Option<string>): (r: Option<User>)
    ensures r.None? <==> forall i :: 0 <= i < |users| ==> Lower(users[i].username) != name || disc != Some(users[i].discriminator)
    ensures r.Some? ==> r.value in users && Lower(r.value.username) == name && disc == Some(r.value.discriminator)
  {
    if users == [] then None
    else if Lower(users[0].username) == name && disc == Some(users[0].discriminator) then Some(users[0])
    else UserByParts(users[1..], name, disc)
  }

  /** For an identity with exactly one '#', as `getUserId` and
   *  `findUserInString` produce for ordinary names, the sweep's lookup finds
   *  the same user as `getUser`. */
  lemma LookupByPartsAgrees(users: seq<User>, name: string, disc: string)
    requires '#' !in name && '#' !in disc
    ensures LookupByParts(users, name + "#" + disc) == GetUser(users, name + "#" + disc)
  {
    Seqs.SplitFirstJoin(name, '#', disc);
    assert Seqs.SplitFirst(disc, '#').0 == disc;
    ByPartsAgrees(users, name, disc);
  }

  lemma {:induction false} ByPartsAgrees(users: seq<User>, name: string, disc: string)
    requires '#' !in name && '#' !in disc
    ensures UserByParts(users, name, Some(disc)) == GetUser(users, name + "#" + disc)
    decreases |users|
  {
    if users != [] {
      var u := users[0];
      if UserId(u) == name + "#" + disc {
        SameSplit(Lower(u.username), u.discriminator, name, disc);
      }
      ByPartsAgrees(users[1..], name, disc);
    }
  }

  /** Two joins at '#' are equal only part by part when neither right-hand
   *  part contains '#' and one left-hand part does not. */
  lemma SameSplit(n: string, d: string, name: string, disc: string)
    requires '#' !in name && '#' !in disc
    requires n + "#" + d == name + "#" + disc
    ensures n == name && d == disc
  {
    var id := name + "#" + disc;
    assert forall j :: 0 <= j < |name| ==> id[j] != '#';
    assert forall j :: |name| < j < |id| ==> id[j] != '#';
    assert id[|n|] == '#';
    assert n == id[..|n|] == name;
    assert d == id[|n| + 1..] == disc;
  }
}
