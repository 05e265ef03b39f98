/** The media of a deleted user: their links, their rows, and the descriptions that mention their files. */
module MediaDeletion {
  import opened Prelude
  import opened AssignmentSpec
  import opened Descriptions

  datatype Asset = Asset(owner: int, kind: string, location: string)

  /** The smaller tables, one constructor each. The deletion never visits those of the last line:
      `asset_attribute`, `performance_config`, `live_performance_mqtt_config`, and the three
      profile tables `apple_profile`, `facebook_profile` and `google_profile`. */
  datatype Ref =
    | LoginSession(user: int) | OneTimeCode(user: int) | Usage(asset: int, user: int) | Tag(asset: int) | Licence(asset: int)
    | AssetAttribute(asset: int) | PerformanceConfig(user: int) | MqttConfig(performance: int, user: int) | Profile(user: int)

  const PLACEHOLDER_FILE_LOCATION := "prop/upstage_deleted_media_placeholder.svg"
  const NON_SUBSTITUTABLE_MEDIA_TYPES := {"audio", "video", "stream"}

  // Media links.

  predicate PairAt(links: map<int, Link>, l: int, stage: int, asset: int) {
    l in links && links[l].stage == stage && links[l].asset == asset
  }

  ghost predicate Shows(links: map<int, Link>, stage: int, asset: int) {
    exists l :: PairAt(links, l, stage, asset)
  }

  ghost predicate PairsUnique(links: map<int, Link>) {
    forall l, m :: l in links && m in links && links[l].stage == links[m].stage && links[l].asset == links[m].asset ==> l == m
  }

  /** What _substitute_placeholder makes of the links: one on a stage that already shows the
      placeholder goes, any other is repointed and keeps its id and settings. */
  ghost function Substituted(links: map<int, Link>, asset: int, placeholder: int): map<int, Link> {
    map l | l in links && !(links[l].asset == asset && Shows(links, links[l].stage, placeholder))
      :: if links[l].asset == asset then links[l].(asset := placeholder) else links[l]
  }

  ghost function WithoutAsset(links: map<int, Link>, asset: int): map<int, Link> {
    map l | l in links && links[l].asset != asset :: links[l]
  }

  /** The link is of the first substituted asset that its stage shows, and the stage had no placeholder. */
  ghost predicate Heir(was: map<int, Link>, substituted: set<int>, placeholder: int, l: int) {
    && l in was && was[l].asset in substituted && !Shows(was, was[l].stage, placeholder)
    && forall a :: a in substituted && Shows(was, was[l].stage, a) ==> was[l].asset <= a
  }

  /** What removing a set of assets in id order leaves of the links, some of the assets substituted. */
  ghost function LinksLeft(was: map<int, Link>, gone: set<int>, substituted: set<int>, placeholder: int): map<int, Link> {
    map l | l in was && (was[l].asset !in gone || Heir(was, substituted, placeholder, l))
      :: if was[l].asset in gone then was[l].(asset := placeholder) else was[l]
  }

  lemma NothingRemoved(links: map<int, Link>, placeholder: int)
    ensures LinksLeft(links, {}, {}, placeholder) == links
  {
  }

  /** A stage that shows any of the assets shows a first one. */
  lemma {:induction false} FirstShown(links: map<int, Link>, stage: int, assets: set<int>, x: int) returns (first: int)
    requires x in assets && Shows(links, stage, x)
    ensures first in assets && Shows(links, stage, first)
    ensures forall a :: a in assets && Shows(links, stage, a) ==> first <= a
    decreases |assets|
  {
    var rest := assets - {x};
    if y :| y in rest && Shows(links, stage, y) {
      first := FirstShown(links, stage, rest, y);
      if x < first {
        first := x;
      }
    } else {
      first := x;
    }
  }

  /** After some substitutions a stage shows the placeholder if it did before or showed a substituted asset. */
  lemma PlaceholderShown(was: map<int, Link>, gone: set<int>, substituted: set<int>, placeholder: int, stage: int)
    requires placeholder !in gone && substituted <= gone
    ensures Shows(LinksLeft(was, gone, substituted, placeholder), stage, placeholder)
       <==> Shows(was, stage, placeholder) || exists x :: x in substituted && Shows(was, stage, x)
  {
    var mid := LinksLeft(was, gone, substituted, placeholder);
    if l :| PairAt(was, l, stage, placeholder) {
      assert PairAt(mid, l, stage, placeholder);
    } else if x :| x in substituted && Shows(was, stage, x) {
      var first := FirstShown(was, stage, substituted, x);
      var l :| PairAt(was, l, stage, first);
      assert Heir(was, substituted, placeholder, l);
      assert PairAt(mid, l, stage, placeholder);
    }
    if l :| PairAt(mid, l, stage, placeholder) {
      assert PairAt(was, l, stage, was[l].asset);
    }
  }

  /** Substituting one more asset, the next in id order, then removing its other links. */
  lemma SubstituteNext(was: map<int, Link>, gone: set<int>, substituted: set<int>, placeholder: int, a: int)
    requires placeholder !in gone && substituted <= gone && a !in gone && a != placeholder
    requires forall x :: x in substituted ==> x < a
    ensures var mid := LinksLeft(was, gone, substituted, placeholder);
      WithoutAsset(Substituted(mid, a, placeholder), a) == LinksLeft(was, gone + {a}, substituted + {a}, placeholder)
  {
    var mid := LinksLeft(was, gone, substituted, placeholder);
    var next := WithoutAsset(Substituted(mid, a, placeholder), a);
    var all := LinksLeft(was, gone + {a}, substituted + {a}, placeholder);
    forall l | l in was
      ensures l in next <==> l in all
      ensures l in next ==> next[l] == all[l]
    {
      PlaceholderShown(was, gone, substituted, placeholder, was[l].stage);
      assert PairAt(was, l, was[l].stage, was[l].asset);
      HeirOfMore(was, substituted, placeholder, a, l);
    }
  }

  lemma HeirOfMore(was: map<int, Link>, substituted: set<int>, placeholder: int, a: int, l: int)
    requires l in was && forall x :: x in substituted ==> x < a
    ensures was[l].asset != a ==>
      (Heir(was, substituted + {a}, placeholder, l) <==> Heir(was, substituted, placeholder, l))
    ensures was[l].asset == a ==>
      (Heir(was, substituted + {a}, placeholder, l) <==>
       !Shows(was, was[l].stage, placeholder) && !exists x :: x in substituted && Shows(was, was[l].stage, x))
  {
  }

  lemma RemoveNext(was: map<int, Link>, gone: set<int>, substituted: set<int>, placeholder: int, a: int)
    requires placeholder !in gone && substituted <= gone && a !in gone && a != placeholder
    ensures WithoutAsset(LinksLeft(was, gone, substituted, placeholder), a) == LinksLeft(was, gone + {a}, substituted, placeholder)
  {
  }

  /** Without a placeholder on the stage yet, it gets one placeholder link exactly when the asset was linked there once. */
  ghost predicate AtMostOnce(links: map<int, Link>, stage: int, asset: int) {
    forall l, m :: PairAt(links, l, stage, asset) && PairAt(links, m, stage, asset) ==> l == m
  }

  lemma SubstitutedOnce(links: map<int, Link>, asset: int, placeholder: int, stage: int)
    requires asset != placeholder && !Shows(links, stage, placeholder)
    ensures AtMostOnce(Substituted(links, asset, placeholder), stage, placeholder) <==> AtMostOnce(links, stage, asset)
  {
    var now := Substituted(links, asset, placeholder);
    forall l ensures PairAt(now, l, stage, placeholder) <==> PairAt(links, l, stage, asset) {
      assert !PairAt(links, l, stage, placeholder);
    }
  }

  /** A pair linked twice gives two placeholder links. */
  lemma PairTwiceGivesTwo()
    ensures var links := map[1 := Link(1, 10, 5, None, None), 2 := Link(2, 10, 5, None, None)];
      !AtMostOnce(LinksLeft(links, {5}, {5}, 9), 10, 9)
  {
    var links := map[1 := Link(1, 10, 5, None, None), 2 := Link(2, 10, 5, None, None)];
    var left := LinksLeft(links, {5}, {5}, 9);
    assert !Shows(links, 10, 9);
    assert Heir(links, {5}, 9, 1) && Heir(links, {5}, 9, 2);
    assert PairAt(left, 1, 10, 9) && PairAt(left, 2, 10, 9);
  }

  /** Where a stage's placeholder links come from: the placeholder itself, or the first substituted asset shown there. */
  ghost predicate IsSource(was: map<int, Link>, substituted: set<int>, placeholder: int, stage: int, source: int) {
    if Shows(was, stage, placeholder) then source == placeholder
    else source in substituted && Shows(was, stage, source)
         && forall a :: a in substituted && Shows(was, stage, a) ==> source <= a
  }

  /** Over all removed assets together: the placeholder links of a stage are exactly the links it had of
      their source, so as many as there were, and one exactly when there was one. */
  lemma PlaceholderLinksAreSourceLinks(was: map<int, Link>, gone: set<int>, substituted: set<int>, placeholder: int,
                                       stage: int, source: int)
    requires placeholder !in gone && substituted <= gone && IsSource(was, substituted, placeholder, stage, source)
    ensures var now := LinksLeft(was, gone, substituted, placeholder);
      && (forall l :: PairAt(now, l, stage, placeholder) <==> PairAt(was, l, stage, source))
      && (AtMostOnce(now, stage, placeholder) <==> AtMostOnce(was, stage, source))
  {
    var now := LinksLeft(was, gone, substituted, placeholder);
    forall l ensures PairAt(now, l, stage, placeholder) <==> PairAt(was, l, stage, source) {
      if PairAt(now, l, stage, placeholder) {
        assert PairAt(was, l, stage, was[l].asset);
      }
    }
  }

  /** Pairs that were unique stay so, and nothing refers to a removed asset. */
  lemma LinksLeftUnique(was: map<int, Link>, gone: set<int>, substituted: set<int>, placeholder: int)
    requires placeholder !in gone && substituted <= gone && PairsUnique(was)
    ensures PairsUnique(LinksLeft(was, gone, substituted, placeholder))
  {
    var now := LinksLeft(was, gone, substituted, placeholder);
    forall l, m | l in now && m in now && now[l].stage == now[m].stage && now[l].asset == now[m].asset ensures l == m {
      assert PairAt(was, l, was[l].stage, was[l].asset) && PairAt(was, m, was[m].stage, was[m].asset);
    }
  }

  // Assets.

  /** Deleted with its owner; the placeholder never is. */
  predicate Doomed(a: Asset, user: int, keep: set<string>) {
    a.owner == user && a.location != PLACEHOLDER_FILE_LOCATION && a.kind !in keep
  }

  /** Handed to the canonical admin instead. */
  predicate Reassigned(a: Asset, user: int, keep: set<string>) {
    a.owner == user && a.location != PLACEHOLDER_FILE_LOCATION && a.kind in keep
  }

  ghost function Gone(assets: map<int, Asset>, user: int, keep: set<string>, below: int): set<int> {
    set a | a in assets && a < below && Doomed(assets[a], user, keep)
  }

  ghost function Swapped(assets: map<int, Asset>, user: int, keep: set<string>, below: int): set<int> {
    set a | a in assets && a < below && Doomed(assets[a], user, keep) && assets[a].kind !in NON_SUBSTITUTABLE_MEDIA_TYPES
  }

  ghost function AssetsAfter(assets: map<int, Asset>, user: int, admin: int, keep: set<string>, below: int): map<int, Asset> {
    map a | a in assets && !(a < below && Doomed(assets[a], user, keep))
      :: if a < below && Reassigned(assets[a], user, keep) then assets[a].(owner := admin) else assets[a]
  }

  predicate OfAsset(r: Ref, gone: set<int>) {
    (r.Tag? || r.Licence? || r.Usage?) && r.asset in gone
  }

  predicate OfUser(r: Ref, user: int) {
    (r.LoginSession? || r.OneTimeCode? || r.Usage?) && r.user == user
  }

  function RefsWithoutAssets(refs: map<int, Ref>, gone: set<int>): map<int, Ref> {
    map r | r in refs && !OfAsset(refs[r], gone) :: refs[r]
  }

  lemma RefsWithoutMore(refs: map<int, Ref>, gone: set<int>, more: set<int>)
    ensures RefsWithoutAssets(RefsWithoutAssets(refs, gone), more) == RefsWithoutAssets(refs, gone + more)
  {
    forall r | r in refs ensures OfAsset(refs[r], gone + more) <==> OfAsset(refs[r], gone) || OfAsset(refs[r], more) {}
  }

  // The media loop, one asset at a time.

  ghost function DoomedOne(assets: map<int, Asset>, user: int, keep: set<string>, a: int): set<int> {
    if a in assets && Doomed(assets[a], user, keep) then {a} else {}
  }

  ghost function SwappedOne(assets: map<int, Asset>, user: int, keep: set<string>, a: int): set<int> {
    if a in assets && Doomed(assets[a], user, keep) && assets[a].kind !in NON_SUBSTITUTABLE_MEDIA_TYPES then {a} else {}
  }

  ghost function AssetOne(assets: map<int, Asset>, user: int, admin: int, keep: set<string>, a: int): map<int, Asset> {
    if a !in assets then assets
    else if Doomed(assets[a], user, keep) then assets - {a}
    else if Reassigned(assets[a], user, keep) then assets[a := assets[a].(owner := admin)]
    else assets
  }

  ghost function LinksOne(links: map<int, Link>, assets: map<int, Asset>, user: int, keep: set<string>, placeholder: int, a: int)
    : map<int, Link>
  {
    if a !in assets || !Doomed(assets[a], user, keep) then links
    else if assets[a].kind in NON_SUBSTITUTABLE_MEDIA_TYPES then WithoutAsset(links, a)
    else WithoutAsset(Substituted(links, a, placeholder), a)
  }

  // The descriptions.

  /** A doomed asset has the rows that mention its file rewritten, and goes. */
  ghost function DescriptionsOne(ds: map<int, Description>, assets: map<int, Asset>, user: int, keep: set<string>,
                                 dumps: (string, seq<Frame>) -> string, a: int): map<int, Description>
  {
    if a in assets && Doomed(assets[a], user, keep) then RewriteAll(ds, assets[a].location, dumps) - {a} else ds
  }

  /** The doomed assets one after the other, in id order. */
  ghost function DescriptionsBelow(ds: map<int, Description>, assets: map<int, Asset>, user: int, keep: set<string>,
                                   dumps: (string, seq<Frame>) -> string, below: nat): map<int, Description>
  {
    if below == 0 then ds
    else DescriptionsOne(DescriptionsBelow(ds, assets, user, keep, dumps, below - 1), assets, user, keep, dumps, below - 1)
  }

  /** The same rows, each as it was or rewritten. */
  ghost predicate AllKin(was: map<int, Description>, now: map<int, Description>) {
    && (forall b :: b in now <==> b in was)
    && (forall b :: b in was && b in now ==> Kin(was[b], now[b]))
  }

  lemma OneKeepsKin(was: map<int, Description>, now: map<int, Description>, location: string,
                    dumps: (string, seq<Frame>) -> string, a: int)
    requires AllKin(was, now)
    ensures AllKin(was - {a}, RewriteAll(now, location, dumps) - {a})
  {
    forall b | b in now && Rewritable(now[b]) ensures Kin(was[b], Rewrite(now[b], location, dumps)) {
      RewriteIsKin(was[b], now[b], location, dumps);
    }
  }

  /** What is left are the rows of the assets that are left, each as it was or rewritten. */
  lemma {:induction false} DescriptionsLeft(ds: map<int, Description>, assets: map<int, Asset>, user: int, keep: set<string>,
                                            dumps: (string, seq<Frame>) -> string, below: nat)
    requires forall a :: a in assets ==> 0 < a
    ensures AllKin(ds - Gone(assets, user, keep, below), DescriptionsBelow(ds, assets, user, keep, dumps, below))
    decreases below
  {
    if below == 0 {
      assert Gone(assets, user, keep, 0) == {};
      assert ds - {} == ds;
    } else {
      var a := below - 1;
      DescriptionsLeft(ds, assets, user, keep, dumps, a);
      GoneStep(assets, user, keep, a);
      if a in assets && Doomed(assets[a], user, keep) {
        OneKeepsKin(ds - Gone(assets, user, keep, a), DescriptionsBelow(ds, assets, user, keep, dumps, a), assets[a].location, dumps, a);
        assert ds - Gone(assets, user, keep, a) - {a} == ds - Gone(assets, user, keep, below);
      } else {
        assert Gone(assets, user, keep, below) == Gone(assets, user, keep, a);
      }
    }
  }

  lemma GoneStep(assets: map<int, Asset>, user: int, keep: set<string>, a: int)
    ensures Gone(assets, user, keep, a + 1) == Gone(assets, user, keep, a) + DoomedOne(assets, user, keep, a)
  {
  }

  /** A description that mentions none of the files that go is never rewritten. */
  lemma {:induction false} UnmentioningStays(ds: map<int, Description>, assets: map<int, Asset>, user: int, keep: set<string>,
                                             dumps: (string, seq<Frame>) -> string, below: nat, b: int)
    requires b in ds && b !in Gone(assets, user, keep, below)
    requires forall a :: a in Gone(assets, user, keep, below) ==> !Mentions(ds[b], assets[a].location)
    ensures b in DescriptionsBelow(ds, assets, user, keep, dumps, below)
    ensures DescriptionsBelow(ds, assets, user, keep, dumps, below)[b] == ds[b]
    decreases below
  {
    if below > 0 {
      GoneStep(assets, user, keep, below - 1);
      UnmentioningStays(ds, assets, user, keep, dumps, below - 1, b);
      assert below - 1 in assets && Doomed(assets[below - 1], user, keep) ==> below - 1 in Gone(assets, user, keep, below);
    }
  }

  // When removing media fails.

  predicate AttributeOf(refs: map<int, Ref>, r: int, a: int) {
    r in refs && refs[r] == AssetAttribute(a)
  }

  ghost predicate Attributed(refs: map<int, Ref>, a: int) {
    exists r :: AttributeOf(refs, r, a)
  }

  /** Removing an asset raises nowhere: its own description can be read, by the substitution if there is one and by the
      cleanup, every description that mentions its file can be rewritten, nothing outside the tables fails, and no
      `asset_attribute` holds its row. */
  ghost predicate Removable(a: int, asset: Asset, ds: map<int, Description>, refs: map<int, Ref>, stuck: set<int>) {
    && (asset.kind in NON_SUBSTITUTABLE_MEDIA_TYPES || !TokensRaise(DescriptionOf(ds, a)))
    && !OwnRaises(DescriptionOf(ds, a)) && AllRewritable(ds, asset.location)
    && a !in stuck && !Attributed(refs, a)
  }

  /** As the tables were before the deletion, without the assets that go first. */
  ghost predicate RemovableInTurn(assets: map<int, Asset>, ds: map<int, Description>, refs: map<int, Ref>,
                                  user: int, keep: set<string>, stuck: set<int>, a: int)
  {
    a in assets && Doomed(assets[a], user, keep) ==> Removable(a, assets[a], ds - Gone(assets, user, keep, a), refs, stuck)
  }

  ghost predicate AllRemovable(assets: map<int, Asset>, ds: map<int, Description>, refs: map<int, Ref>,
                               user: int, keep: set<string>, stuck: set<int>)
  {
    forall a :: a in assets ==> RemovableInTurn(assets, ds, refs, user, keep, stuck, a)
  }

  ghost predicate RemovableBelow(m: Media, user: int, keep: set<string>, stuck: set<int>, below: int) {
    forall a :: a in m.assets && a < below ==> RemovableInTurn(m.assets, m.descriptions, m.refs, user, keep, stuck, a)
  }

  lemma KinRewritable(was: map<int, Description>, now: map<int, Description>, location: string)
    requires AllKin(was, now)
    ensures AllRewritable(was, location) <==> AllRewritable(now, location)
  {
    forall b | b in was
      ensures Mentions(was[b], location) && !Rewritable(was[b]) <==> Mentions(now[b], location) && !Rewritable(now[b])
    {
      assert Kin(was[b], now[b]);
    }
  }

  /** Rewriting rows on the way does not change whether a removal raises. */
  lemma KinRemovable(a: int, asset: Asset, was: map<int, Description>, now: map<int, Description>,
                     refs: map<int, Ref>, left: map<int, Ref>, stuck: set<int>)
    requires AllKin(was, now) && (Attributed(refs, a) <==> Attributed(left, a))
    ensures Removable(a, asset, was, refs, stuck) <==> Removable(a, asset, now, left, stuck)
  {
    KinRewritable(was, now, asset.location);
    if a in was {
      assert Kin(was[a], now[a]);
    }
  }

  lemma AttributesKept(refs: map<int, Ref>, gone: set<int>, a: int)
    ensures Attributed(RefsWithoutAssets(refs, gone), a) <==> Attributed(refs, a)
  {
    forall r ensures AttributeOf(RefsWithoutAssets(refs, gone), r, a) <==> AttributeOf(refs, r, a) {}
  }

  // The media loop over all its tables.

  /** The tables the media loop writes. */
  datatype Media = Media(assets: map<int, Asset>, links: map<int, Link>, refs: map<int, Ref>, descriptions: map<int, Description>)

  predicate HasPlaceholder(assets: map<int, Asset>, placeholder: int) {
    placeholder in assets && assets[placeholder].location == PLACEHOLDER_FILE_LOCATION
  }

  ghost predicate AnyPlaceholder(assets: map<int, Asset>) {
    exists a :: HasPlaceholder(assets, a)
  }

  ghost predicate OneVisited(was: Media, now: Media, user: int, admin: int, keep: set<string>, placeholder: int,
                             dumps: (string, seq<Frame>) -> string, a: int)
  {
    && now.assets == AssetOne(was.assets, user, admin, keep, a)
    && now.links == LinksOne(was.links, was.assets, user, keep, placeholder, a)
    && now.refs == RefsWithoutAssets(was.refs, DoomedOne(was.assets, user, keep, a))
    && now.descriptions == DescriptionsOne(was.descriptions, was.assets, user, keep, dumps, a)
  }

  ghost predicate AllVisited(was: Media, now: Media, user: int, admin: int, keep: set<string>, placeholder: int,
                             dumps: (string, seq<Frame>) -> string, below: nat)
  {
    && now.assets == AssetsAfter(was.assets, user, admin, keep, below)
    && now.links == LinksLeft(was.links, Gone(was.assets, user, keep, below), Swapped(was.assets, user, keep, below), placeholder)
    && now.refs == RefsWithoutAssets(was.refs, Gone(was.assets, user, keep, below))
    && now.descriptions == DescriptionsBelow(was.descriptions, was.assets, user, keep, dumps, below)
  }

  ghost predicate Passes(m: Media, user: int, keep: set<string>, stuck: set<int>, a: int) {
    a in m.assets && Doomed(m.assets[a], user, keep) ==> Removable(a, m.assets[a], m.descriptions, m.refs, stuck)
  }

  /** A visit in the middle of the loop raises exactly when the tables before the loop say so. */
  lemma PassesInTurn(was: Media, mid: Media, user: int, admin: int, keep: set<string>, placeholder: int, stuck: set<int>,
                     dumps: (string, seq<Frame>) -> string, a: nat)
    requires forall b :: b in was.assets ==> 0 < b
    requires AllVisited(was, mid, user, admin, keep, placeholder, dumps, a) && RemovableBelow(was, user, keep, stuck, a)
    ensures Passes(mid, user, keep, stuck, a) <==> RemovableBelow(was, user, keep, stuck, a + 1)
  {
    AssetsStep(was.assets, user, admin, keep, a);
    if a in was.assets {
      DescriptionsLeft(was.descriptions, was.assets, user, keep, dumps, a);
      AttributesKept(was.refs, Gone(was.assets, user, keep, a), a);
      KinRemovable(a, was.assets[a], was.descriptions - Gone(was.assets, user, keep, a), mid.descriptions, was.refs, mid.refs, stuck);
    }
  }

  lemma RemovableAtEnd(m: Media, user: int, keep: set<string>, stuck: set<int>, next: int)
    requires forall a :: a in m.assets ==> 0 < a < next
    ensures RemovableBelow(m, user, keep, stuck, 0)
    ensures RemovableBelow(m, user, keep, stuck, next) <==> AllRemovable(m.assets, m.descriptions, m.refs, user, keep, stuck)
    ensures forall a :: !RemovableBelow(m, user, keep, stuck, a) ==> !AllRemovable(m.assets, m.descriptions, m.refs, user, keep, stuck)
  {
  }

  lemma NoRefsOfNothing(refs: map<int, Ref>)
    ensures RefsWithoutAssets(refs, {}) == refs
  {
    forall r | r in refs ensures !OfAsset(refs[r], {}) {}
  }

  lemma NoneVisited(was: Media, user: int, admin: int, keep: set<string>, placeholder: int, dumps: (string, seq<Frame>) -> string)
    requires forall a :: a in was.assets ==> 0 < a
    ensures AllVisited(was, was, user, admin, keep, placeholder, dumps, 0)
  {
    assert Gone(was.assets, user, keep, 0) == {} && Swapped(was.assets, user, keep, 0) == {};
    NoRefsOfNothing(was.refs);
    NothingRemoved(was.links, placeholder);
  }

  lemma AssetsStep(assets: map<int, Asset>, user: int, admin: int, keep: set<string>, a: int)
    ensures a !in Gone(assets, user, keep, a)
    ensures a in AssetsAfter(assets, user, admin, keep, a) <==> a in assets
    ensures a in assets ==> AssetsAfter(assets, user, admin, keep, a)[a] == assets[a]
    ensures AssetsAfter(assets, user, admin, keep, a + 1) == AssetOne(AssetsAfter(assets, user, admin, keep, a), user, admin, keep, a)
    ensures Gone(assets, user, keep, a + 1) == Gone(assets, user, keep, a) + DoomedOne(assets, user, keep, a)
    ensures Swapped(assets, user, keep, a + 1) == Swapped(assets, user, keep, a) + SwappedOne(assets, user, keep, a)
  {
  }

  lemma LinksStep(links: map<int, Link>, assets: map<int, Asset>, user: int, keep: set<string>, placeholder: int, a: int)
    requires placeholder in assets ==> assets[placeholder].location == PLACEHOLDER_FILE_LOCATION
    ensures LinksOne(LinksLeft(links, Gone(assets, user, keep, a), Swapped(assets, user, keep, a), placeholder),
                     assets, user, keep, placeholder, a)
         == LinksLeft(links, Gone(assets, user, keep, a) + DoomedOne(assets, user, keep, a),
                      Swapped(assets, user, keep, a) + SwappedOne(assets, user, keep, a), placeholder)
  {
    var gone, swapped := Gone(assets, user, keep, a), Swapped(assets, user, keep, a);
    if a in assets && Doomed(assets[a], user, keep) {
      if assets[a].kind in NON_SUBSTITUTABLE_MEDIA_TYPES {
        RemoveNext(links, gone, swapped, placeholder, a);
        assert swapped + {} == swapped;
      } else {
        SubstituteNext(links, gone, swapped, placeholder, a);
      }
    } else {
      assert gone + {} == gone && swapped + {} == swapped;
    }
  }

  lemma VisitOneMore(was: Media, mid: Media, now: Media, user: int, admin: int, keep: set<string>, placeholder: int,
                     dumps: (string, seq<Frame>) -> string, a: nat)
    requires HasPlaceholder(mid.assets, placeholder)
    requires AllVisited(was, mid, user, admin, keep, placeholder, dumps, a)
    requires OneVisited(mid, now, user, admin, keep, placeholder, dumps, a)
    ensures AllVisited(was, now, user, admin, keep, placeholder, dumps, a + 1)
  {
    AssetsStep(was.assets, user, admin, keep, a);
    LinksStep(was.links, was.assets, user, keep, placeholder, a);
    RefsWithoutMore(was.refs, Gone(was.assets, user, keep, a), DoomedOne(mid.assets, user, keep, a));
  }
}
