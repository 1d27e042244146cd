/** The order of the social cards (app/components/Socials.tsx): the enabled
    entries of the configuration, with the featured one moved to the middle
    slot of the three-column row. */
module Socials {

  import opened Wrappers

  /** One configured social profile. */
  datatype Social = Social(platform: string, handle: string, href: string, enabled: bool, featured: bool)

  /** `socials.filter((social) => social.enabled)`. */
  function ActiveSocials(socials: seq<Social>): (r: seq<Social>)
    ensures forall x | x in r :: x in socials && x.enabled
    ensures forall x | x in socials && x.enabled :: x in r
    ensures |r| <= |socials|
  {
    if socials == [] then []
    else (if socials[0].enabled then [socials[0]] else []) + ActiveSocials(socials[1..])
  }

  /** Filtering keeps the configured order: it distributes over
      concatenation, so an entry before another stays before it. */
  lemma {:induction false} ActiveSocialsConcat(a: seq<Social>, b: seq<Social>)
    ensures ActiveSocials(a + b) == ActiveSocials(a) + ActiveSocials(b)
    decreases |a|
  {
    if a == [] {
      assert a + b == b;
    } else {
      assert (a + b)[1..] == a[1..] + b;
      ActiveSocialsConcat(a[1..], b);
    }
  }

  /** The index of the first entry with `featured` set. */
  function FirstFeatured(s: seq<Social>): (r: Option<nat>)
    ensures r.Some? ==> r.value < |s| && s[r.value].featured
    ensures r.Some? ==> forall j | 0 <= j < r.value :: !s[j].featured
    ensures r.None? ==> forall j | 0 <= j < |s| :: !s[j].featured
  {
    if s == [] then None
    else if s[0].featured then Some(0)
    else match FirstFeatured(s[1..])
      case None => None
      case Some(i) => Some(i + 1)
  }

  /** `active.find((social) => social.featured)`: the first featured
      entry, if any. */
  function FeaturedSocial(active: seq<Social>): (r: Option<Social>)
    ensures r.Some? ==> r.value in active && r.value.featured
    ensures r.None? <==> forall x | x in active :: !x.featured
  {
    match FirstFeatured(active)
    case None => None
    case Some(i) => Some(active[i])
  }

  /** `find` looks at the head first. */
  lemma FeaturedSocialCons(x: Social, t: seq<Social>)
    ensures FeaturedSocial([x] + t) == if x.featured then Some(x) else FeaturedSocial(t)
  {
    assert ([x] + t)[1..] == t;
  }

  /** `active.filter((social) => social.platform !== platform)`, order
      kept. */
  function OtherPlatforms(active: seq<Social>, platform: string): (r: seq<Social>)
    ensures forall x | x in r :: x in active && x.platform != platform
    ensures forall x | x in active && x.platform != platform :: x in r
    ensures |r| <= |active|
  {
    if active == [] then []
    else
      (if active[0].platform != platform then [active[0]] else [])
      + OtherPlatforms(active[1..], platform)
  }

  /** Filtering by platform distributes over concatenation, so the other
      cards keep their configured order. */
  lemma {:induction false} OtherPlatformsConcat(a: seq<Social>, b: seq<Social>, platform: string)
    ensures OtherPlatforms(a + b, platform) == OtherPlatforms(a, platform) + OtherPlatforms(b, platform)
    decreases |a|
  {
    if a == [] {
      assert a + b == b;
    } else {
      assert (a + b)[0] == a[0];
      assert (a + b)[1..] == a[1..] + b;
      OtherPlatformsConcat(a[1..], b, platform);
    }
  }

  /** `orderedSocials`: without a featured entry, the enabled entries as
      they are; with one, the first other-platform entry, then the featured
      entry, then the remaining other-platform entries. */
  function OrderedSocials(socials: seq<Social>): (r: seq<Social>)
    ensures forall x | x in r :: x in socials && x.enabled
  {
    var active := ActiveSocials(socials);
    match FeaturedSocial(active)
    case None => active
    case Some(featured) =>
      Arrange(OtherPlatforms(active, featured.platform), featured)
  }

  /** The slot the featured card takes among `others` and itself. */
  function Slot(others: seq<Social>): nat {
    if others == [] then 0 else 1
  }

  /** `[...others.slice(0, 1), featured, ...others.slice(1)]`: the featured
      card at `Slot(others)`, the other cards around it in their order. */
  function Arrange(others: seq<Social>, featured: Social): (r: seq<Social>)
    ensures |r| == |others| + 1
    ensures r[Slot(others)] == featured
    ensures r[..Slot(others)] + r[Slot(others) + 1..] == others
  {
    var r := if others == [] then [featured] else [others[0], featured] + others[1..];
    assert others != [] ==> r[..1] + r[2..] == [others[0]] + others[1..];
    r
  }

  /** Every card but the featured one comes from `others`, and every entry
      of `others` is a card. */
  lemma ArrangeMembers(others: seq<Social>, featured: Social)
    ensures var r := Arrange(others, featured);
      && (forall i | 0 <= i < |r| && i != Slot(others) :: r[i] in others)
      && (forall x | x in others :: x in r)
  {
    var r := Arrange(others, featured);
    var slot := Slot(others);
    assert r[..slot] + r[slot + 1..] == others;
    forall i | 0 <= i < |r| && i != slot
      ensures r[i] in others
    {
      if i < slot {
        assert others[i] == r[i];
      } else {
        assert others[i - 1] == r[i];
      }
    }
    forall x | x in others
      ensures x in r
    {
      var k :| 0 <= k < |others| && others[k] == x;
      if k < slot {
        assert r[k] == x;
      } else {
        assert r[k + 1] == x;
      }
    }
  }

  /** The medium-screen order classes, by the `order` value they set. */
  const OrderClasses := ["md:order-1", "md:order-2", "md:order-3"]

  /** `orderClass` of the card at `index`: the class setting the card's
      CSS `order` value. */
  function OrderClass(index: nat): (r: string)
    ensures r == OrderClasses[OrderValue(index) - 1]
    ensures r in OrderClasses
  {
    if index == 1 then "md:order-2" else if index == 0 then "md:order-1" else "md:order-3"
  }

  /** The CSS `order` value of the card at `index`. */
  function OrderValue(index: nat): (v: nat)
    ensures 1 <= v <= 3
    ensures index <= 1 ==> v == index + 1
    ensures index >= 2 ==> v == 3
  {
    if index == 1 then 2 else if index == 0 then 1 else 3
  }

  /** The order classes never move a card ahead of an earlier one, so the
      medium-screen layout shows the cards in list order: the first card in
      slot one, the second in slot two, every later card after them. */
  lemma OrderClassKeepsListOrder(i: nat, j: nat)
    requires i <= j
    ensures OrderValue(i) <= OrderValue(j)
    ensures i < j && i <= 1 ==> OrderValue(i) < OrderValue(j)
  {
  }

  /** With no featured entry the cards are the enabled entries in their
      configured order. */
  lemma NoFeaturedKeepsOrder(socials: seq<Social>)
    requires forall x | x in socials && x.enabled :: !x.featured
    ensures OrderedSocials(socials) == ActiveSocials(socials)
  {
  }

  /** With a featured entry, it sits at slot 1 when an enabled entry of
      another platform exists and at slot 0 otherwise; the other cards are
      the other-platform entries in their configured order, the first of
      them before the featured card and the rest after it. */
  lemma FeaturedPlacement(socials: seq<Social>, featured: Social)
    requires FeaturedSocial(ActiveSocials(socials)) == Some(featured)
    ensures var others := OtherPlatforms(ActiveSocials(socials), featured.platform);
      var r := OrderedSocials(socials);
      && |r| == |others| + 1
      && r[if others == [] then 0 else 1] == featured
      && r[..Slot(others)] + r[Slot(others) + 1..] == others
  {
  }

  /** The featured card appears once, and it is the only card of its
      platform: enabled entries sharing the featured platform are dropped,
      every enabled entry of another platform is kept. */
  lemma FeaturedPlatformOnce(socials: seq<Social>, featured: Social)
    requires FeaturedSocial(ActiveSocials(socials)) == Some(featured)
    ensures var others := OtherPlatforms(ActiveSocials(socials), featured.platform);
      var r := OrderedSocials(socials);
      && (forall i | 0 <= i < |r| :: r[i].platform == featured.platform <==> i == Slot(others))
      && (forall x | x in socials && x.enabled && x.platform != featured.platform :: x in r)
  {
    var others := OtherPlatforms(ActiveSocials(socials), featured.platform);
    ArrangeMembers(others, featured);
  }

  /** The index of the first entry that is both enabled and featured. */
  function FirstEnabledFeatured(s: seq<Social>): (r: Option<nat>)
    ensures r.Some? ==> r.value < |s| && s[r.value].enabled && s[r.value].featured
    ensures r.Some? ==> forall j | 0 <= j < r.value :: !(s[j].enabled && s[j].featured)
    ensures r.None? ==> forall j | 0 <= j < |s| :: !(s[j].enabled && s[j].featured)
  {
    if s == [] then None
    else if s[0].enabled && s[0].featured then Some(0)
    else match FirstEnabledFeatured(s[1..])
      case None => None
      case Some(i) => Some(i + 1)
  }

  /** The featured card is the first configured entry that is both enabled
      and featured, and there is none exactly when no such entry exists. */
  lemma {:induction false} FeaturedIsFirstEnabledFeatured(socials: seq<Social>)
    ensures FeaturedSocial(ActiveSocials(socials)) ==
      match FirstEnabledFeatured(socials)
      case None => None
      case Some(i) => Some(socials[i])
  {
    if socials != [] {
      var x, t := socials[0], socials[1..];
      assert socials == [x] + t;
      var rest := ActiveSocials(t);
      if x.enabled {
        assert ActiveSocials(socials) == [x] + rest;
        FeaturedSocialCons(x, rest);
      } else {
        assert ActiveSocials(socials) == rest;
      }
      FeaturedIsFirstEnabledFeatured(t);
    }
  }

  /** Without an enabled featured entry there is no featured card. */
  lemma NoEnabledFeatured(socials: seq<Social>)
    requires forall x | x in socials && x.enabled :: !x.featured
    ensures FeaturedSocial(ActiveSocials(socials)) == None
  {
  }
}
