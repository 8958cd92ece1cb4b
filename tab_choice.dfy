/** Choosing the tab to harvest: the first tab whose title mentions the
    shop, otherwise the first tab, otherwise none. */
module TabChoice {
  import opened Wrappers

  /** `sub` occurs in `s` starting at index `i`. */
  predicate OccursAt(s: string, sub: string, i: int)
  {
    0 <= i && i + |sub| <= |s| && s[i..i + |sub|] == sub
  }

  /** Python's `sub in s` on strings. */
  predicate Contains(s: string, sub: string)
    decreases |s|
  {
    |sub| <= |s| && (s[..|sub|] == sub || (|s| > 0 && Contains(s[1..], sub)))
  }

  lemma {:induction false} ContainsIffOccurs(s: string, sub: string)
    ensures Contains(s, sub) <==> exists i :: OccursAt(s, sub, i)
    decreases |s|
  {
    if |sub| > |s| {
      assert forall i :: !OccursAt(s, sub, i);
    } else if s[..|sub|] == sub {
      assert OccursAt(s, sub, 0);
    } else {
      ContainsIffOccurs(s[1..], sub);
      if Contains(s[1..], sub) {
        var i :| OccursAt(s[1..], sub, i);
        assert s[1..][i..i + |sub|] == s[i + 1..i + 1 + |sub|];
        assert OccursAt(s, sub, i + 1);
      } else {
        forall i | OccursAt(s, sub, i) ensures false {
          if i > 0 {
            assert s[1..][i - 1..i - 1 + |sub|] == s[i..i + |sub|];
            assert OccursAt(s[1..], sub, i - 1);
          }
        }
      }
    }
  }

  /** The shop's Korean name, as the source spells it. */
  const ShopNameKorean: string := "쿠팡"
  /** The shop's Latin name. */
  const ShopNameLatin: string := "Coupang"

  predicate IsShopTitle(title: string)
  {
    Contains(title, ShopNameKorean) || Contains(title, ShopNameLatin)
  }

  /** The first index at or after `k` whose title names the shop. */
  function FirstShopTabFrom(titles: seq<string>, k: nat): (r: Option<nat>)
    ensures r.Some? ==> k <= r.value < |titles| && IsShopTitle(titles[r.value])
    decreases |titles| - k
  {
    if k >= |titles| then None
    else if IsShopTitle(titles[k]) then Some(k)
    else FirstShopTabFrom(titles, k + 1)
  }

  /** The index of the tab the harvester uses, None when there is no tab. */
  function ChosenTab(titles: seq<string>): (r: Option<nat>)
    ensures r.Some? ==> r.value < |titles|
  {
    match FirstShopTabFrom(titles, 0)
    case Some(i) => Some(i)
    case None => if titles == [] then None else Some(0)
  }

  lemma {:induction false} FirstShopTabFromIsFirst(titles: seq<string>, k: nat)
    ensures FirstShopTabFrom(titles, k).None? <==>
      forall j :: k <= j < |titles| ==> !IsShopTitle(titles[j])
    ensures FirstShopTabFrom(titles, k).Some? ==>
      forall j :: k <= j < FirstShopTabFrom(titles, k).value ==> !IsShopTitle(titles[j])
    decreases |titles| - k
  {
    if k < |titles| && !IsShopTitle(titles[k]) {
      FirstShopTabFromIsFirst(titles, k + 1);
    }
  }

  /** The tab choice: with no tab there is no choice; if some title names the
      shop the first such tab is chosen; otherwise the first tab. */
  lemma ChosenTabIsFirstShopTab(titles: seq<string>)
    ensures ChosenTab(titles).None? <==> titles == []
    ensures (exists i :: 0 <= i < |titles| && IsShopTitle(titles[i])) ==>
      var c := ChosenTab(titles).value;
      IsShopTitle(titles[c]) && forall j :: 0 <= j < c ==> !IsShopTitle(titles[j])
    ensures titles != [] && (forall i :: 0 <= i < |titles| ==> !IsShopTitle(titles[i])) ==>
      ChosenTab(titles) == Some(0)
  {
    FirstShopTabFromIsFirst(titles, 0);
  }

  /** The tab search loop: scan the titles in order and stop at the first
      one that names the shop; fall back to the first tab. */
  method ChooseTab(titles: seq<string>) returns (choice: Option<nat>)
    ensures choice == ChosenTab(titles)
  {
    choice := None;
    var i := 0;
    while i < |titles|
      invariant i <= |titles|
      invariant FirstShopTabFrom(titles, i) == FirstShopTabFrom(titles, 0)
    {
      var title := titles[i];
      if Contains(title, ShopNameKorean) || Contains(title, ShopNameLatin) {
        choice := Some(i);
        break;
      }
      i := i + 1;
    }
    if choice.None? && |titles| > 0 {
      choice := Some(0);
    }
  }
}
