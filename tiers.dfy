/** `getTier`: the configured tier a payment qualifies for. The source sorts
 *  the configured tiers by threshold (a stable sort) and scans them in that
 *  order, keeping the last tier whose threshold the payment meets. Amounts
 *  are whole numbers (cents): only `>=` comparisons are made on them. */
module Tiers {
  import opened Optional

  /** A configured tier: the name of the role it grants and its minimum amount. */
  datatype Tier = Tier(name: string, amount: int)

  function Names(tiers: seq<Tier>): set<string> {
    set t | t in tiers :: t.name
  }

  predicate SortedByAmount(s: seq<Tier>) {
    forall i, j :: 0 <= i < j < |s| ==> s[i].amount <= s[j].amount
  }

  /** Inserts `t` before the first element whose threshold is at least its own. */
  function Insert(t: Tier, s: seq<Tier>): (r: seq<Tier>)
    ensures multiset(r) == multiset(s) + multiset{t}
    ensures forall j :: 0 <= j < |r| ==> r[j] == t || r[j] in s
    decreases |s|
  {
    if s == [] || t.amount <= s[0].amount then [t] + s
    else
      assert s == [s[0]] + s[1..];
      [s[0]] + Insert(t, s[1..])
  }

  lemma {:induction false} InsertSorted(t: Tier, s: seq<Tier>)
    requires SortedByAmount(s)
    ensures SortedByAmount(Insert(t, s))
    decreases |s|
  {
    if s != [] && t.amount > s[0].amount {
      var rest := Insert(t, s[1..]);
      InsertSorted(t, s[1..]);
      forall j | 0 <= j < |rest|
        ensures s[0].amount <= rest[j].amount
      {
        if rest[j] != t {
          var m :| 0 <= m < |s[1..]| && s[1..][m] == rest[j];
          assert s[m + 1] == rest[j];
        }
      }
    }
  }

  /** `TIERS.sort((a, b) => a.amount - b.amount)`, a stable ascending sort. */
  function SortByAmount(tiers: seq<Tier>): seq<Tier>
    decreases |tiers|
  {
    if tiers == [] then []
    else Insert(tiers[0], SortByAmount(tiers[1..]))
  }

  /** The sort is a permutation of the configured tiers. */
  lemma {:induction false} SortPermutes(tiers: seq<Tier>)
    ensures multiset(SortByAmount(tiers)) == multiset(tiers)
    decreases |tiers|
  {
    if tiers != [] {
      SortPermutes(tiers[1..]);
      assert tiers == [tiers[0]] + tiers[1..];
    }
  }

  /** The sort orders the tiers by threshold. */
  lemma {:induction false} SortSorts(tiers: seq<Tier>)
    ensures SortedByAmount(SortByAmount(tiers))
    decreases |tiers|
  {
    if tiers != [] {
      SortSorts(tiers[1..]);
      InsertSorted(tiers[0], SortByAmount(tiers[1..]));
    }
  }

  /** The tiers of `s` with threshold `k`, in order. */
  function WithAmount(s: seq<Tier>, k: int): seq<Tier>
    decreases |s|
  {
    if s == [] then [] else (if s[0].amount == k then [s[0]] else []) + WithAmount(s[1..], k)
  }

  lemma {:induction false} WithAmountAppend(a: seq<Tier>, b: seq<Tier>, k: int)
    ensures WithAmount(a + b, k) == WithAmount(a, k) + WithAmount(b, k)
    decreases |a|
  {
    if a != [] {
      assert (a + b)[0] == a[0];
      assert (a + b)[1..] == a[1..] + b;
      WithAmountAppend(a[1..], b, k);
    } else {
      assert a + b == b;
    }
  }

  function Single(t: Tier, k: int): seq<Tier> {
    if t.amount == k then [t] else []
  }

  lemma WithAmountCons(t: Tier, s: seq<Tier>, k: int)
    ensures WithAmount([t] + s, k) == Single(t, k) + WithAmount(s, k)
  {
    assert ([t] + s)[1..] == s;
  }

  /** Tiers with different thresholds never both have threshold `k`. */
  lemma SingleSwap(a: Tier, b: Tier, w: seq<Tier>, k: int)
    requires a.amount != b.amount
    ensures Single(a, k) + (Single(b, k) + w) == Single(b, k) + (Single(a, k) + w)
  {
    if a.amount == k {
      assert Single(b, k) == [];
    }
  }

  lemma {:induction false} InsertStable(t: Tier, s: seq<Tier>, k: int)
    ensures WithAmount(Insert(t, s), k) == WithAmount([t] + s, k)
    decreases |s|
  {
    if s != [] && t.amount > s[0].amount {
      var rest := Insert(t, s[1..]);
      assert s == [s[0]] + s[1..];
      calc {
        WithAmount(Insert(t, s), k);
        WithAmount([s[0]] + rest, k);
        { WithAmountCons(s[0], rest, k); }
        Single(s[0], k) + WithAmount(rest, k);
        { InsertStable(t, s[1..], k); WithAmountCons(t, s[1..], k); }
        Single(s[0], k) + (Single(t, k) + WithAmount(s[1..], k));
        { SingleSwap(s[0], t, WithAmount(s[1..], k), k); }
        Single(t, k) + (Single(s[0], k) + WithAmount(s[1..], k));
        { WithAmountCons(s[0], s[1..], k); }
        Single(t, k) + WithAmount(s, k);
        { WithAmountCons(t, s, k); }
        WithAmount([t] + s, k);
      }
    }
  }

  /** The sort is stable: tiers with equal thresholds keep their configured order. */
  lemma {:induction false} SortStable(tiers: seq<Tier>, k: int)
    ensures WithAmount(SortByAmount(tiers), k) == WithAmount(tiers, k)
    decreases |tiers|
  {
    if tiers != [] {
      SortStable(tiers[1..], k);
      InsertStable(tiers[0], SortByAmount(tiers[1..]), k);
      WithAmountAppend([tiers[0]], SortByAmount(tiers[1..]), k);
      WithAmountAppend([tiers[0]], tiers[1..], k);
      assert tiers == [tiers[0]] + tiers[1..];
    }
  }

  /** Position of the last tier of `s` whose threshold `amount` meets: the
   *  tier the scan in `getTier` leaves in `roleName`. */
  function LastQualifying(s: seq<Tier>, amount: int): (r: Option<nat>)
    ensures r.None? <==> forall i :: 0 <= i < |s| ==> amount < s[i].amount
    ensures r.Some? ==> r.value < |s| && s[r.value].amount <= amount
    ensures r.Some? ==> forall j :: r.value < j < |s| ==> amount < s[j].amount
    decreases |s|
  {
    if s == [] then None
    else if s[|s| - 1].amount <= amount then Some(|s| - 1)
    else LastQualifying(s[..|s| - 1], amount)
  }

  /** The tier a payment of `amount` earns. */
  function TierOf(tiers: seq<Tier>, amount: int): Option<Tier> {
    var sorted := SortByAmount(tiers);
    match LastQualifying(sorted, amount)
    case None => None
    case Some(i) => Some(sorted[i])
  }

  /** The role name `getTier` returns: that of `TierOf`, or `undefined`. */
  function TierName(tiers: seq<Tier>, amount: int): Option<string> {
    match TierOf(tiers, amount)
    case None => None
    case Some(t) => Some(t.name)
  }

  /** `getTier`: sort, then scan every tier, reassigning the role name
   *  whenever the payment meets the tier's threshold. */
  method GetTier(tiers: seq<Tier>, amount: int) returns (roleName: Option<string>)
    ensures roleName == TierName(tiers, amount)
  {
    var sorted := SortByAmount(tiers);
    roleName := None;
    var i := 0;
    while i < |sorted|
      invariant 0 <= i <= |sorted|
      invariant roleName == NameAt(sorted, LastQualifying(sorted[..i], amount))
    {
      LastQualifyingStep(sorted, amount, i);
      if amount >= sorted[i].amount {
        roleName := Some(sorted[i].name);
      }
      i := i + 1;
    }
    assert sorted[..i] == sorted;
    TierNameAt(tiers, amount);
  }

  /** The name of the tier at position `k` of `s`, if any. */
  function NameAt(s: seq<Tier>, k: Option<nat>): Option<string> {
    if k.Some? && k.value < |s| then Some(s[k.value].name) else None
  }

  /** `TierName` is the name at the scan's last match in the sorted list. */
  lemma TierNameAt(tiers: seq<Tier>, amount: int)
    ensures TierName(tiers, amount) == NameAt(SortByAmount(tiers), LastQualifying(SortByAmount(tiers), amount))
  {
  }

  /** Scanning one more tier: the last match moves to it exactly when the
   *  payment meets its threshold. */
  lemma LastQualifyingStep(s: seq<Tier>, amount: int, i: nat)
    requires i < |s|
    ensures LastQualifying(s[..i + 1], amount)
         == if s[i].amount <= amount then Some(i) else LastQualifying(s[..i], amount)
  {
    assert s[..i + 1][..i] == s[..i];
  }

  /** Sorting neither loses nor invents a tier. */
  lemma SortKeepsTiers(tiers: seq<Tier>)
    ensures forall i :: 0 <= i < |tiers| ==> tiers[i] in SortByAmount(tiers)
    ensures forall j :: 0 <= j < |SortByAmount(tiers)| ==> SortByAmount(tiers)[j] in tiers
  {
    forall i | 0 <= i < |tiers| ensures tiers[i] in SortByAmount(tiers) {
      var _ := ElemSorted(tiers, i);
    }
    forall j | 0 <= j < |SortByAmount(tiers)| ensures SortByAmount(tiers)[j] in tiers {
      SortedElem(tiers, j);
    }
  }

  /** Each tier of the sorted list is a configured tier. */
  lemma SortedElem(tiers: seq<Tier>, j: nat)
    requires j < |SortByAmount(tiers)|
    ensures SortByAmount(tiers)[j] in tiers
  {
    SortPermutes(tiers);
    assert SortByAmount(tiers)[j] in multiset(SortByAmount(tiers));
  }

  /** Where a configured tier sits in the sorted list. */
  lemma ElemSorted(tiers: seq<Tier>, i: nat) returns (j: nat)
    requires i < |tiers|
    ensures j < |SortByAmount(tiers)| && SortByAmount(tiers)[j] == tiers[i]
  {
    SortPermutes(tiers);
    assert tiers[i] in multiset(SortByAmount(tiers));
    j :| 0 <= j < |SortByAmount(tiers)| && SortByAmount(tiers)[j] == tiers[i];
  }

  /** No tier is found exactly when the payment is below every threshold. */
  lemma TierOfNone(tiers: seq<Tier>, amount: int)
    ensures TierOf(tiers, amount).None? <==> forall i :: 0 <= i < |tiers| ==> amount < tiers[i].amount
  {
    var sorted := SortByAmount(tiers);
    SortKeepsTiers(tiers);
    if LastQualifying(sorted, amount).None? {
      forall i | 0 <= i < |tiers| ensures amount < tiers[i].amount {
        var j :| 0 <= j < |sorted| && sorted[j] == tiers[i];
      }
    }
  }

  /** The tier found is a configured one whose threshold the payment meets,
   *  no qualifying tier has a higher threshold, and among the tiers with that
   *  threshold it is the one configured last. */
  lemma TierOfHighest(tiers: seq<Tier>, amount: int)
    requires TierOf(tiers, amount).Some?
    ensures var t := TierOf(tiers, amount).value;
      && t in tiers
      && t.amount <= amount
      && (forall i :: 0 <= i < |tiers| && tiers[i].amount <= amount ==> tiers[i].amount <= t.amount)
      && (var same := WithAmount(tiers, t.amount); |same| > 0 && same[|same| - 1] == t)
  {
    var sorted := SortByAmount(tiers);
    var k := LastQualifying(sorted, amount).value;
    TierOfAt(tiers, amount, k);
    SortedElem(tiers, k);
    TierOfMax(tiers, amount, k);
    TierOfLastConfigured(tiers, amount, k);
  }

  /** The tier found is the sorted list's entry at the scan's last match. */
  lemma TierOfAt(tiers: seq<Tier>, amount: int, k: nat)
    requires LastQualifying(SortByAmount(tiers), amount) == Some(k)
    ensures TierOf(tiers, amount) == Some(SortByAmount(tiers)[k])
  {
  }

  lemma TierOfMax(tiers: seq<Tier>, amount: int, k: nat)
    requires LastQualifying(SortByAmount(tiers), amount) == Some(k)
    ensures forall i :: 0 <= i < |tiers| && tiers[i].amount <= amount ==> tiers[i].amount <= SortByAmount(tiers)[k].amount
  {
    var sorted := SortByAmount(tiers);
    SortSorts(tiers);
    LastQualifyingMax(sorted, amount, k);
    forall i | 0 <= i < |tiers| && tiers[i].amount <= amount
      ensures tiers[i].amount <= sorted[k].amount
    {
      var j := ElemSorted(tiers, i);
    }
  }

  /** In a sorted list, the last tier a payment qualifies for has the highest
   *  threshold among those it qualifies for. */
  lemma LastQualifyingMax(s: seq<Tier>, amount: int, k: nat)
    requires SortedByAmount(s) && LastQualifying(s, amount) == Some(k)
    ensures forall j :: 0 <= j < |s| && s[j].amount <= amount ==> s[j].amount <= s[k].amount
  {
  }

  lemma TierOfLastConfigured(tiers: seq<Tier>, amount: int, k: nat)
    requires LastQualifying(SortByAmount(tiers), amount) == Some(k)
    ensures var t := SortByAmount(tiers)[k];
      var same := WithAmount(tiers, t.amount); |same| > 0 && same[|same| - 1] == t
  {
    var sorted := SortByAmount(tiers);
    assert forall j :: k < j < |sorted| ==> sorted[j].amount != sorted[k].amount;
    LastOfWithAmount(sorted, k);
    SortStable(tiers, sorted[k].amount);
  }

  /** If no element after position `k` has `s[k]`'s threshold, then `s[k]`
   *  is the last of the elements with that threshold. */
  lemma {:induction false} LastOfWithAmount(s: seq<Tier>, k: nat)
    requires k < |s|
    requires forall j :: k < j < |s| ==> s[j].amount != s[k].amount
    ensures var same := WithAmount(s, s[k].amount); |same| > 0 && same[|same| - 1] == s[k]
  {
    var a := s[k].amount;
    assert s == s[..k] + [s[k]] + s[k + 1..];
    WithAmountAppend(s[..k] + [s[k]], s[k + 1..], a);
    WithAmountAppend(s[..k], [s[k]], a);
    NoneWithAmount(s[k + 1..], a);
  }

  lemma {:induction false} NoneWithAmount(s: seq<Tier>, k: int)
    requires forall j :: 0 <= j < |s| ==> s[j].amount != k
    ensures WithAmount(s, k) == []
    decreases |s|
  {
    if s != [] {
      NoneWithAmount(s[1..], k);
    }
  }

  /** `getTier` is monotone: paying more never loses a tier, and never earns a
   *  tier with a lower threshold. */
  lemma TierOfMonotone(tiers: seq<Tier>, a1: int, a2: int)
    requires a1 <= a2
    requires TierOf(tiers, a1).Some?
    ensures TierOf(tiers, a2).Some?
    ensures TierOf(tiers, a1).value.amount <= TierOf(tiers, a2).value.amount
  {
    var sorted := SortByAmount(tiers);
    var k1 := LastQualifying(sorted, a1).value;
    SortSorts(tiers);
    LastQualifyingMonotone(sorted, a1, a2);
    var k2 := LastQualifying(sorted, a2).value;
    TierOfAt(tiers, a1, k1);
    TierOfAt(tiers, a2, k2);
  }

  /** In a sorted list, a larger payment's last match is no earlier and has
   *  no lower threshold. */
  lemma LastQualifyingMonotone(s: seq<Tier>, a1: int, a2: int)
    requires SortedByAmount(s) && a1 <= a2 && LastQualifying(s, a1).Some?
    ensures LastQualifying(s, a2).Some?
    ensures LastQualifying(s, a1).value <= LastQualifying(s, a2).value
    ensures s[LastQualifying(s, a1).value].amount <= s[LastQualifying(s, a2).value].amount
  {
    var k1 := LastQualifying(s, a1).value;
    assert s[k1].amount <= a2;
  }
}
