/** The home page data: the hero's social links copied from the master profile, and the
    skills carousel, which takes the slugs of the first eight programming-language,
    framework and library skills and looks them up in the skills catalogue. */
module Home {
  import opened Text
  import opened Skills

  /** The carousel holds at most this many slugs. */
  const CarouselSize: nat := 8

  /** The categories whose skills may appear in the carousel. */
  const CarouselCategories: seq<string> := ["pro-lang", "framework", "library"]

  /** A master skill qualifies when its category (with a missing one read as `""`) is one
      of the carousel categories. */
  predicate Qualifies(s: RawSkill) {
    s.category in CarouselCategories
  }

  /** The slugs of the qualifying skills, in master order. */
  function QualifyingSlugs(raws: seq<RawSkill>): (r: seq<string>)
    ensures |r| <= |raws|
    ensures forall t :: t in r ==> exists i :: 0 <= i < |raws| && raws[i].slug == t && Qualifies(raws[i])
  {
    if |raws| == 0 then []
    else
      var rest := QualifyingSlugs(raws[1..]);
      assert forall i :: 1 <= i < |raws| ==> raws[i] == raws[1..][i - 1];
      (if Qualifies(raws[0]) then [raws[0].slug] else []) + rest
  }

  /** The slug list handed to `getSkills`: the first eight qualifying slugs. */
  function CarouselSlugs(raws: seq<RawSkill>): (r: seq<string>)
    ensures |r| <= CarouselSize
    ensures forall t :: t in r ==> exists i :: 0 <= i < |raws| && raws[i].slug == t && Qualifies(raws[i])
  {
    var q := QualifyingSlugs(raws);
    var r := if |q| <= CarouselSize then q else q[..CarouselSize];
    assert forall t :: t in r ==> t in q;
    r
  }

  /** `carousel`: the catalogue skills whose slug is among the carousel slugs. */
  function Carousel(items: seq<Skill>, raws: seq<RawSkill>): (r: seq<Skill>)
    ensures |r| <= |items|
    ensures forall x :: x in r <==> x in items && (|CarouselSlugs(raws)| == 0 || x.slug in CarouselSlugs(raws))
  {
    GetSkills(items, CarouselSlugs(raws))
  }

  /** The qualifying slugs of consecutive runs of master skills are those of the first run
      followed by those of the second, and one skill contributes its slug exactly when it
      qualifies: the selection keeps master order. */
  lemma {:induction false} QualifyingSlugsAppend(a: seq<RawSkill>, b: seq<RawSkill>)
    ensures QualifyingSlugs(a + b) == QualifyingSlugs(a) + QualifyingSlugs(b)
    ensures forall s :: QualifyingSlugs([s]) == if Qualifies(s) then [s.slug] else []
  {
    if |a| > 0 {
      assert (a + b)[1..] == a[1..] + b;
      assert (a + b)[0] == a[0];
      QualifyingSlugsAppend(a[1..], b);
      AppendAssoc(if Qualifies(a[0]) then [a[0].slug] else [], QualifyingSlugs(a[1..]), QualifyingSlugs(b));
    } else {
      assert a + b == b;
    }
    forall s ensures QualifyingSlugs([s]) == if Qualifies(s) then [s.slug] else [] {
      assert [s][1..] == [];
    }
  }

  /** The carousel slugs are the first eight qualifying slugs: all of them when there are
      at most eight, else exactly eight, in master order. */
  lemma CarouselSlugsArePrefix(raws: seq<RawSkill>)
    ensures var (c, q) := (CarouselSlugs(raws), QualifyingSlugs(raws));
      |c| == (if |q| < CarouselSize then |q| else CarouselSize) && c == q[..|c|]
  {
  }

  /** No qualifying skill, no slug. */
  lemma {:induction false} NoQualifyingSlugs(raws: seq<RawSkill>)
    requires forall i :: 0 <= i < |raws| ==> !Qualifies(raws[i])
    ensures QualifyingSlugs(raws) == []
  {
    if |raws| > 0 {
      assert !Qualifies(raws[0]);
      assert forall i :: 0 <= i < |raws[1..]| ==> raws[1..][i] == raws[i + 1];
      NoQualifyingSlugs(raws[1..]);
    }
  }

  /** When no master skill qualifies there is no slug, and the carousel is the whole
      catalogue in catalogue order. */
  lemma NoneQualifyGivesAll(items: seq<Skill>, raws: seq<RawSkill>)
    requires forall i :: 0 <= i < |raws| ==> !Qualifies(raws[i])
    ensures CarouselSlugs(raws) == []
    ensures Carousel(items, raws) == items
  {
    NoQualifyingSlugs(raws);
    GetSkillsNoSlugs(items);
  }

  /** The carousel follows the catalogue order, not the slug order: for consecutive runs of
      catalogue skills it is the carousel of the first followed by that of the second. */
  lemma CarouselFollowsCatalogue(a: seq<Skill>, b: seq<Skill>, raws: seq<RawSkill>)
    ensures Carousel(a + b, raws) == Carousel(a, raws) + Carousel(b, raws)
  {
    GetSkillsAppend(a, b, CarouselSlugs(raws));
  }

  // ---------------------------------------------------------------------------------
  // hero.socialLinks
  // ---------------------------------------------------------------------------------

  /** A social link as the page uses it; `caption` is its `label`. */
  datatype Link = Link(caption: string, href: string, icon: string)

  /** A social link as the master profile lists it, with whatever else it carries. */
  datatype RawLink = RawLink(caption: string, href: string, icon: string, extra: seq<(string, string)>)

  /** `hero.socialLinks`: label, href and icon of every master link, in master order. */
  function SocialLinks(raws: seq<RawLink>): (r: seq<Link>)
    ensures |r| == |raws|
    ensures forall i :: 0 <= i < |r| ==> r[i].caption == raws[i].caption && r[i].href == raws[i].href && r[i].icon == raws[i].icon
  {
    seq(|raws|, i requires 0 <= i < |raws| => Link(raws[i].caption, raws[i].href, raws[i].icon))
  }

  /** Two page links are equal exactly when their master links agree on label, href and
      icon: the copy keeps those three fields and drops everything else. */
  lemma SocialLinksKeepFields(raws: seq<RawLink>, i: nat, j: nat)
    requires i < |raws| && j < |raws|
    ensures SocialLinks(raws)[i] == SocialLinks(raws)[j] <==>
      raws[i].caption == raws[j].caption && raws[i].href == raws[j].href && raws[i].icon == raws[j].icon
  {
  }
}
