/** What deleting a user guarantees: valid references, placeholder links, untouched bystanders, permissions. */
module UserDeletionTheorems {
  import opened Prelude
  import opened Text
  import opened TopicMatch
  import opened AccessLists
  import opened MediaDeletion
  import opened UserDeletionSpec
  import D = Descriptions
  import EventLog

  /** The tables a deletion starts from, with the admin account and the placeholder in them, and what it leaves. */
  datatype Deletion = Deletion(was: Tables, user: nat, admin: int, placeholder: int, keep: set<string>, top: nat,
                               outside: Outside, now: Tables) {

    ghost function Dead(): set<int> { StagesOf(was.stages, user) }

    ghost function Removed(): set<int> { Gone(was.assets, user, keep, top) }

    ghost predicate Happened() {
      && Intact(was) && user in was.users && admin in was.users && user != admin
      && HasPlaceholder(was.assets, placeholder) && (forall a :: a in was.assets ==> 0 < a < top)
      && UserDeleted(was, user, admin, placeholder, keep, top, outside, now)
    }

    /** A stage that survives. */
    ghost predicate Bystander(s: int) {
      s in was.stages && was.stages[s].owner != user
    }
  }

  lemma PreparedIntact(t: Tables, admin: int, placeholder: int, outside: Outside)
    requires Intact(t)
    ensures Intact(Prepared(t, admin, placeholder, outside))
  {
    var was := Prepared(t, admin, placeholder, outside);
    assert forall u :: u in t.users ==> u in was.users;
    assert admin in was.users;
    forall r | r in was.refs ensures RefValid(was, was.refs[r]) {
      assert RefValid(t, t.refs[r]);
    }
  }

  lemma PreparedKeys(t: Tables, nextUser: nat, nextAsset: nat, user: nat, admin: int, placeholder: int, top: nat, outside: Outside)
    requires user in t.users && t.users[user].name != CANONICAL_ADMIN_USERNAME && Below(t.users, nextUser) && Below(t.assets, nextAsset)
    requires IsAdmin(t.users, nextUser, admin) && IsPlaceholder(t.assets, nextAsset, placeholder)
    requires nextAsset <= top && placeholder < top
    ensures var was := Prepared(t, admin, placeholder, outside);
      && user in was.users && admin in was.users && user != admin
      && HasPlaceholder(was.assets, placeholder) && forall a :: a in was.assets ==> 0 < a < top
  {
  }

  /** A successful DeleteUser on tables with valid references is such a deletion. */
  lemma DeleteUserHappens(t: Tables, nextUser: nat, nextAsset: nat, user: nat, admin: int, placeholder: int,
                          keep: set<string>, top: nat, outside: Outside, now: Tables)
    requires Intact(t) && user in t.users && t.users[user].name != CANONICAL_ADMIN_USERNAME
    requires Below(t.users, nextUser) && Below(t.assets, nextAsset)
    requires IsAdmin(t.users, nextUser, admin) && IsPlaceholder(t.assets, nextAsset, placeholder)
    requires nextAsset <= top && placeholder < top
    requires UserDeleted(Prepared(t, admin, placeholder, outside), user, admin, placeholder, keep, top, outside, now)
    ensures Deletion(Prepared(t, admin, placeholder, outside), user, admin, placeholder, keep, top, outside, now).Happened()
  {
    PreparedIntact(t, admin, placeholder, outside);
    PreparedKeys(t, nextUser, nextAsset, user, admin, placeholder, top, outside);
  }

  // Referential integrity.

  ghost predicate NoRowNames(t: Tables, user: int) {
    user !in t.users && Unnamed(t.stages, t.assets, t.scenes, t.refs, user)
  }

  lemma RemovedAssets(d: Deletion, a: int)
    requires d.Happened()
    ensures a in d.now.assets <==> a in d.was.assets && a !in d.Removed()
    ensures a in d.Removed() <==> a in d.was.assets && Doomed(d.was.assets[a], d.user, d.keep)
    ensures a in d.now.assets ==> d.now.assets[a].owner == d.was.assets[a].owner || d.now.assets[a].owner == d.admin
    ensures a in d.now.assets && d.now.assets[a].owner == d.user ==>
      a in d.was.assets && d.was.assets[a].owner == d.user && d.was.assets[a].location == PLACEHOLDER_FILE_LOCATION
    ensures a in d.was.assets && d.was.assets[a].owner == d.user && d.was.assets[a].location == PLACEHOLDER_FILE_LOCATION ==>
      a in d.now.assets && d.now.assets[a].owner == d.user
  {
  }

  lemma StagesStayIntact(d: Deletion)
    requires d.Happened()
    ensures forall s :: s in d.now.stages ==> d.now.stages[s].owner in d.now.users && d.now.stages[s].owner != d.user
    ensures forall c :: c in d.now.scenes ==>
      d.now.scenes[c].owner in d.now.users && d.now.scenes[c].owner != d.user && d.now.scenes[c].stage in d.now.stages
    ensures forall p :: p in d.now.performances ==> d.now.performances[p] in d.now.stages
    ensures forall b :: b in d.now.attributes ==> d.now.attributes[b].stage in d.now.stages
    ensures forall e :: e in d.now.events && d.now.events[e].perf.Some? ==> d.now.events[e].perf.value in d.now.performances
  {
  }

  lemma LinksStayIntact(d: Deletion)
    requires d.Happened()
    ensures forall l :: l in d.now.links ==> d.now.links[l].stage in d.now.stages && d.now.links[l].asset in d.now.assets
  {
    RemovedAssets(d, d.placeholder);
    forall l | l in d.now.links ensures d.now.links[l].stage in d.now.stages && d.now.links[l].asset in d.now.assets {
      assert l in LinksWithout(d.was.links, d.Dead());
      RemovedAssets(d, d.now.links[l].asset);
    }
  }

  lemma RefsStayIntact(d: Deletion, r: int)
    requires d.Happened() && r in d.now.refs
    ensures r in d.was.refs && d.now.refs[r] == d.was.refs[r]
    ensures RefValid(d.now, d.now.refs[r]) && !NamesUser(d.now.refs[r], d.user) <==> !Stranded(d.was.refs[r], d.was, d.user, d.keep)
  {
    var ref := d.was.refs[r];
    assert RefValid(d.was, ref);
    if ref.Usage? || ref.Tag? || ref.Licence? || ref.AssetAttribute? {
      RemovedAssets(d, ref.asset);
    }
  }

  lemma StrandedStays(d: Deletion, r: int)
    requires d.Happened() && r in d.was.refs && Stranded(d.was.refs[r], d.was, d.user, d.keep)
    ensures r in d.now.refs
  {
  }

  lemma AssetsIntactUnless(d: Deletion)
    requires d.Happened()
    ensures (forall a :: a in d.now.assets ==> d.now.assets[a].owner in d.now.users)
       <==> (forall a :: a in d.was.assets && d.was.assets[a].owner == d.user ==> d.was.assets[a].location != PLACEHOLDER_FILE_LOCATION)
  {
    forall a
      ensures a in d.now.assets && d.now.assets[a].owner == d.user <==>
        a in d.was.assets && d.was.assets[a].owner == d.user && d.was.assets[a].location == PLACEHOLDER_FILE_LOCATION
      ensures a in d.now.assets ==> d.now.assets[a].owner in d.was.users
    {
      RemovedAssets(d, a);
    }
  }

  lemma RefsIntactUnless(d: Deletion)
    requires d.Happened()
    ensures (forall r :: r in d.now.refs ==> RefValid(d.now, d.now.refs[r]) && !NamesUser(d.now.refs[r], d.user))
       <==> (forall r :: r in d.was.refs ==> !Stranded(d.was.refs[r], d.was, d.user, d.keep))
  {
    forall r | r in d.now.refs
      ensures r in d.was.refs && d.now.refs[r] == d.was.refs[r]
      ensures RefValid(d.now, d.now.refs[r]) && !NamesUser(d.now.refs[r], d.user) <==> !Stranded(d.was.refs[r], d.was, d.user, d.keep)
    {
      RefsStayIntact(d, r);
    }
    forall r | r in d.was.refs && Stranded(d.was.refs[r], d.was, d.user, d.keep) ensures r in d.now.refs {
      StrandedStays(d, r);
    }
  }

  /** By what it does to the rows, valid references stay valid and none names the user exactly when there are no leftovers. */
  lemma DeletionKeepsReferences(d: Deletion)
    requires d.Happened()
    ensures Intact(d.now) && NoRowNames(d.now, d.user) <==> NoLeftovers(d.was, d.user, d.keep)
  {
    StagesStayIntact(d);
    LinksStayIntact(d);
    AssetsIntactUnless(d);
    RefsIntactUnless(d);
  }

  lemma PreparedLeftovers(t: Tables, user: nat, admin: int, placeholder: int, keep: set<string>, outside: Outside)
    requires NoLeftovers(t, user, keep) && user != admin
    ensures NoLeftovers(Prepared(t, admin, placeholder, outside), user, keep)
  {
    var was := Prepared(t, admin, placeholder, outside);
    forall r | r in t.refs ensures !Stranded(t.refs[r], was, user, keep) {
      assert !Stranded(t.refs[r], t, user, keep);
    }
  }

  /** So they do in every deletion that goes through: the foreign keys turn the others away. */
  lemma DeletableKeepsReferences(t: Tables, caller: nat, isAdmin: bool, d: Deletion)
    requires Deletable(t, d.user, caller, isAdmin, d.keep, d.outside)
    requires d.was == Prepared(t, d.admin, d.placeholder, d.outside) && d.Happened()
    ensures Intact(d.now) && NoRowNames(d.now, d.user)
  {
    PreparedLeftovers(t, d.user, d.admin, d.placeholder, d.keep, d.outside);
    DeletionKeepsReferences(d);
  }

  // Descriptions.

  /** Every description left is of an asset that is left, and is as it was or rewritten; one that mentions no file that
      goes is as it was. */
  lemma DescriptionsKept(d: Deletion, b: int)
    requires d.Happened()
    ensures b in d.now.descriptions <==> b in d.was.descriptions && b !in d.Removed()
    ensures b in d.now.descriptions ==> D.Kin(d.was.descriptions[b], d.now.descriptions[b])
    ensures b in d.now.descriptions && (forall a :: a in d.Removed() ==> !D.Mentions(d.was.descriptions[b], d.was.assets[a].location)) ==>
      d.now.descriptions[b] == d.was.descriptions[b]
  {
    DescriptionsLeft(d.was.descriptions, d.was.assets, d.user, d.keep, d.outside.mediaText, d.top);
    if b in d.now.descriptions && forall a :: a in d.Removed() ==> !D.Mentions(d.was.descriptions[b], d.was.assets[a].location) {
      UnmentioningStays(d.was.descriptions, d.was.assets, d.user, d.keep, d.outside.mediaText, d.top, b);
    }
  }

  // Media links.

  ghost function Substituted(d: Deletion): set<int> {
    Swapped(d.was.assets, d.user, d.keep, d.top)
  }

  lemma RemovedFacts(d: Deletion)
    requires d.Happened()
    ensures d.placeholder !in d.Removed() && Substituted(d) <= d.Removed()
  {
  }

  /** The exact placeholder links of every surviving stage: the rows it had of the placeholder, or else of the
      first substituted item it showed; so one of them exactly when there was one of those. */
  lemma PlaceholderLinksExactly(d: Deletion, stage: int, source: int)
    requires d.Happened() && d.Bystander(stage)
    requires IsSource(d.was.links, Substituted(d), d.placeholder, stage, source)
    ensures forall l :: PairAt(d.now.links, l, stage, d.placeholder) <==> PairAt(d.was.links, l, stage, source)
    ensures AtMostOnce(d.now.links, stage, d.placeholder) <==> AtMostOnce(d.was.links, stage, source)
  {
    var left := LinksWithout(d.was.links, d.Dead());
    RemovedFacts(d);
    forall l, a ensures PairAt(left, l, stage, a) <==> PairAt(d.was.links, l, stage, a) {}
    forall a ensures Shows(left, stage, a) <==> Shows(d.was.links, stage, a) {
      if l :| PairAt(d.was.links, l, stage, a) {
        assert PairAt(left, l, stage, a);
      }
    }
    PlaceholderLinksAreSourceLinks(left, d.Removed(), Substituted(d), d.placeholder, stage, source);
  }

  /** With no pair twice, no pair is twice afterwards, and a surviving stage that showed substituted
      media has exactly one placeholder link. */
  lemma OnePlaceholderEach(d: Deletion, stage: int, asset: int)
    requires d.Happened() && PairsUnique(d.was.links)
    requires d.Bystander(stage) && Shows(d.was.links, stage, asset)
    requires Doomed(d.was.assets[asset], d.user, d.keep) && d.was.assets[asset].kind !in NON_SUBSTITUTABLE_MEDIA_TYPES
    ensures PairsUnique(d.now.links) && Shows(d.now.links, stage, d.placeholder) && AtMostOnce(d.now.links, stage, d.placeholder)
  {
    var left := LinksWithout(d.was.links, d.Dead());
    RemovedFacts(d);
    LinksLeftUnique(left, d.Removed(), Substituted(d), d.placeholder);
    var l :| PairAt(d.was.links, l, stage, asset);
    assert PairAt(left, l, stage, asset) && asset in Substituted(d);
    PlaceholderShown(left, d.Removed(), Substituted(d), d.placeholder, stage);
  }

  /** A link to surviving media on a surviving stage keeps its row; any other link left is a
      repointed one, with its id, stage and settings. */
  lemma SurvivingLinksUntouched(d: Deletion, l: int)
    requires d.Happened()
    ensures l in d.was.links && d.Bystander(d.was.links[l].stage) && d.was.links[l].asset !in d.Removed() ==>
      l in d.now.links && d.now.links[l] == d.was.links[l]
    ensures l in d.now.links ==> l in d.was.links && d.Bystander(d.was.links[l].stage)
    ensures l in d.now.links && d.now.links[l] != d.was.links[l] ==>
      d.was.links[l].asset in d.Removed() && d.now.links[l] == d.was.links[l].(asset := d.placeholder)
  {
    var left := LinksWithout(d.was.links, d.Dead());
    if l in d.was.links {
      assert d.was.links[l].stage in d.was.stages;
      assert l in left <==> d.Bystander(d.was.links[l].stage);
    }
    assert l in d.now.links ==> l in left;
  }

  // Bystanders.

  ghost predicate RecordedElsewhere(d: Deletion, e: Event) {
    e.perf.Some? && e.perf.value in d.was.performances && d.Bystander(d.was.performances[e.perf.value])
  }

  /** Other people's stages, media, scenes, recordings and grants are the same rows as before. */
  lemma BystandersUntouched(d: Deletion)
    requires d.Happened()
    ensures forall s :: d.Bystander(s) ==> s in d.now.stages && d.now.stages[s] == d.was.stages[s]
    ensures forall a :: a in d.was.assets && d.was.assets[a].owner != d.user ==> a in d.now.assets && d.now.assets[a] == d.was.assets[a]
    ensures forall c :: c in d.was.scenes && d.was.scenes[c].owner != d.user && d.Bystander(d.was.scenes[c].stage) ==>
      c in d.now.scenes && d.now.scenes[c] == d.was.scenes[c]
    ensures forall p :: p in d.was.performances && d.Bystander(d.was.performances[p]) ==>
      p in d.now.performances && d.now.performances[p] == d.was.performances[p]
    ensures forall e :: e in d.was.events && RecordedElsewhere(d, d.was.events[e]) ==>
      e in d.now.events && d.now.events[e] == d.was.events[e]
    ensures forall r :: r in d.was.refs && !OfUser(d.was.refs[r], d.user) && !OfAsset(d.was.refs[r], d.Removed()) ==>
      r in d.now.refs && d.now.refs[r] == d.was.refs[r]
  {
  }

  /** Plain text without a slash, or a lone `%`; the stage form takes any text. */
  predicate SimpleSlug(slug: string) {
    slug == "%" || (Plain(slug) && SlashFree(slug))
  }

  ghost predicate MatchedBy(d: Deletion, s: int, topic: string) {
    s in d.was.stages && d.was.stages[s].owner == d.user && Like(StagePattern(d.was.stages[s].slug), topic)
  }

  /** A live event goes exactly when the pattern of a stage of the deleted user matches its topic: for simple slugs, exactly
      when its middle part answers to one, and every middle part answers to `%`. Other people's slugs do not matter. */
  lemma LiveEventsLost(d: Deletion, e: int, space: string, mid: string, leaf: string)
    requires d.Happened() && LiveRow(d.was, e, Topic(space, mid, leaf))
    requires SlashFree(space) && SlashFree(mid) && SlashFree(leaf)
    ensures e !in d.now.events <==> exists s :: MatchedBy(d, s, Topic(space, mid, leaf))
    ensures (forall s :: s in d.Dead() ==> SimpleSlug(d.was.stages[s].slug)) ==>
      (e !in d.now.events <==> exists s :: AnswersTo(d, s, mid))
  {
    var topic := Topic(space, mid, leaf);
    LiveEventsMatched(d, e, topic);
    if forall s :: s in d.Dead() ==> SimpleSlug(d.was.stages[s].slug) {
      forall s ensures MatchedBy(d, s, topic) <==> AnswersTo(d, s, mid) {
        if s in d.Dead() {
          AnswersExactly(d.was.stages[s].slug, space, mid, leaf);
        }
      }
    }
  }

  lemma AnswersExactly(slug: string, space: string, mid: string, leaf: string)
    requires SimpleSlug(slug) && SlashFree(space) && SlashFree(mid) && SlashFree(leaf)
    ensures Like(StagePattern(slug), Topic(space, mid, leaf)) <==> slug == "%" || Agrees(slug, mid)
  {
    if slug == "%" {
      TopicHasTwoSlashes(space, mid, leaf);
      PercentSlug(Topic(space, mid, leaf));
    } else {
      StageOfTopic(slug, space, mid, leaf);
    }
  }

  lemma LiveEventsMatched(d: Deletion, e: int, topic: string)
    requires d.Happened() && LiveRow(d.was, e, topic)
    ensures e !in d.now.events <==> exists s :: MatchedBy(d, s, topic)
  {
    forall s ensures SlugOf(d.was.stages, d.Dead(), s, topic) <==> MatchedBy(d, s, topic) {}
    if s :| MatchedBy(d, s, topic) {
      assert SlugOf(d.was.stages, d.Dead(), s, topic);
    }
    assert e in d.now.events <==> !SlugDies(d.was.stages, d.Dead(), topic);
  }

  predicate LiveRow(t: Tables, e: int, topic: string) {
    e in t.events && t.events[e].perf.None? && t.events[e].topic == topic
  }

  ghost predicate AnswersTo(d: Deletion, s: int, mid: string) {
    s in d.was.stages && d.was.stages[s].owner == d.user && (d.was.stages[s].slug == "%" || Agrees(d.was.stages[s].slug, mid))
  }

  /** Deleting the owner of the slug "a_b" takes the live rows of somebody else's surviving stage "axb". */
  lemma UnderscoreTakesOthersRows(d: Deletion, mine: int, theirs: int, e: int, space: string, leaf: string)
    requires d.Happened() && SlashFree(space) && SlashFree(leaf)
    requires mine in d.Dead() && d.was.stages[mine].slug == "a_b" && d.Bystander(theirs) && d.was.stages[theirs].slug == "axb"
    requires LiveRow(d.was, e, Topic(space, "axb", leaf))
    ensures theirs in d.now.stages && e !in d.now.events
  {
    assert SlashFree("a_b") && Plain("a_b") && SlashFree("axb") && Agrees("a_b", "axb");
    StageOfTopic("a_b", space, "axb", leaf);
    assert SlugOf(d.was.stages, d.Dead(), mine, Topic(space, "axb", leaf));
  }

  /** Deleting the owner of the slug "%" takes every live row whose topic has two slashes, and of those of other shapes
      only what another of their slugs takes. */
  lemma PercentTakesEveryRow(d: Deletion, mine: int, e: int)
    requires d.Happened() && mine in d.Dead() && d.was.stages[mine].slug == "%"
    requires e in d.was.events && d.was.events[e].perf.None?
    ensures TwoSlashes(d.was.events[e].topic) ==> e !in d.now.events
    ensures !TwoSlashes(d.was.events[e].topic) && d.Dead() == {mine} ==> e in d.now.events
  {
    var topic := d.was.events[e].topic;
    PercentSlug(topic);
    assert SlugOf(d.was.stages, d.Dead(), mine, topic) <==> TwoSlashes(topic);
    assert d.Dead() == {mine} ==> (SlugDies(d.was.stages, d.Dead(), topic) <==> TwoSlashes(topic));
    assert e in d.now.events <==> !SlugDies(d.was.stages, d.Dead(), topic);
  }

  /** User 7 owns a stage with the slug; somebody else owns the stage "axb", with one live row. */
  function Slugged(slug: string): Tables {
    Tables(map[1 := Account("admin", None), 7 := Account("eve", None)], map[1 := Stage(7, slug), 2 := Stage(1, "axb")],
           map[9 := Asset(1, "prop", PLACEHOLDER_FILE_LOCATION)], map[], map[], map[], map[],
           map[1 := EventLog.Event(1, Topic("performance", "axb", "board"), None, None, EventLog.Payload("", None), 0.0)],
           map[], map[])
  }

  ghost function DeletionOfSeven(t: Tables, outside: Outside): Deletion {
    Deletion(t, 7, 1, 9, {}, 10, outside, Outcome(t, 7, 1, 9, {}, 10, outside))
  }

  lemma SevenIsDeleted(t: Tables, outside: Outside)
    requires Intact(t) && 7 in t.users && 1 in t.users && HasPlaceholder(t.assets, 9) && forall a :: a in t.assets ==> 0 < a < 10
    ensures DeletionOfSeven(t, outside).Happened()
  {
    OutcomeIsDeletion(t, 7, 1, 9, {}, 10, outside);
  }

  lemma SluggedFacts(slug: string)
    ensures Intact(Slugged(slug)) && 1 in StagesOf(Slugged(slug).stages, 7)
    ensures LiveRow(Slugged(slug), 1, Topic("performance", "axb", "board"))
    ensures SlashFree("performance") && SlashFree("board") && TwoSlashes(Topic("performance", "axb", "board"))
  {
    TopicHasTwoSlashes("performance", "axb", "board");
  }

  lemma UnderscoredDeletion(outside: Outside)
    ensures var d := DeletionOfSeven(Slugged("a_b"), outside);
      d.Happened() && 2 in d.now.stages && 1 !in d.now.events
  {
    SluggedFacts("a_b");
    SevenIsDeleted(Slugged("a_b"), outside);
    UnderscoreTakesOthersRows(DeletionOfSeven(Slugged("a_b"), outside), 1, 2, 1, "performance", "board");
  }

  lemma PercentDeletion(outside: Outside)
    ensures var d := DeletionOfSeven(Slugged("%"), outside);
      d.Happened() && 2 in d.now.stages && 1 !in d.now.events
  {
    SluggedFacts("%");
    SevenIsDeleted(Slugged("%"), outside);
    PercentTakesEveryRow(DeletionOfSeven(Slugged("%"), outside), 1, 1);
  }

  // Access lists.

  ghost function PermissionOn(t: Tables, stage: int, userId: Option<nat>): Result<Permission, string>
    requires stage in t.stages
  {
    ResolvePermission(userId, Some(InfoOf(t.stages, t.attributes, stage)))
  }

  lemma AccessScrubbed(d: Deletion, stage: int)
    requires d.Happened() && d.Bystander(stage)
    ensures AccessOf(d.now.attributes, stage)
         == match AccessOf(d.was.attributes, stage)
            case None => None
            case Some(stored) => Some(Cleaned(stored, Decimal(d.user), d.outside.accessText))
  {
    SameAccess(d.was.attributes, d.now.attributes, stage);
    if b :| IsAccessRow(d.was.attributes, stage, b) {
      assert d.now.attributes[b].stored == Cleaned(d.was.attributes[b].stored, Decimal(d.user), d.outside.accessText);
    }
  }

  /** On every surviving stage everyone else may do what they could before. */
  lemma PermissionsOfOthersStay(d: Deletion, stage: int, other: Option<nat>)
    requires d.Happened() && d.Bystander(stage) && other != Some(d.user)
    ensures stage in d.now.stages && PermissionOn(d.now, stage, other) == PermissionOn(d.was, stage, other)
  {
    AccessScrubbed(d, stage);
    match AccessOf(d.was.attributes, stage)
    case None =>
    case Some(stored) => ScrubSparesOthers(d.user, other, d.was.stages[stage].owner, stored, d.outside.accessText);
  }

  /** The deleted id is left with audience exactly when the stored list shuts it out: the parser did not hit a limit, and
      each consulted group is a list in a row whose stored text quotes the id, or does not name it. */
  lemma DeletedUserIsAudience(d: Deletion, stage: int)
    requires d.Happened() && d.Bystander(stage)
    ensures stage in d.now.stages
    ensures PermissionOn(d.now, stage, Some(d.user)) == Ok(Audience)
       <==> (match AccessOf(d.was.attributes, stage)
             case None => true
             case Some(stored) => d.user == 0 || ShutOut(stored, d.user))
  {
    AccessScrubbed(d, stage);
    match AccessOf(d.was.attributes, stage)
    case None =>
    case Some(stored) => ScrubShutsOut(d.user, d.was.stages[stage].owner, stored, d.outside.accessText);
  }

  /** User 7 keeps the role of player on a surviving stage whose stored list escapes the 7. */
  lemma EscapedUserStaysPlayer(d: Deletion, stage: int)
    requires d.Happened() && d.Bystander(stage) && d.user == 7 && AccessOf(d.was.attributes, stage) == Some(EscapedSeven())
    ensures stage in d.now.stages && PermissionOn(d.now, stage, Some(7)) == Ok(Player)
  {
    AccessScrubbed(d, stage);
    EscapedIdEscapes(d.was.stages[stage].owner, d.outside.accessText);
  }

  /** On a surviving stage whose stored list holds a number beyond the digit limit every lookup keeps raising. */
  lemma LongNumberKeepsRaising(d: Deletion, stage: int)
    requires d.Happened() && d.Bystander(stage) && d.user == 7 && AccessOf(d.was.attributes, stage) == Some(LongNumber())
    ensures stage in d.now.stages && PermissionOn(d.now, stage, Some(7)) == Err("ValueError")
  {
    AccessScrubbed(d, stage);
    LongNumberRaises(d.was.stages[stage].owner, 7, true, d.outside.accessText);
  }

  // Why the foreign keys have to refuse.

  /** User 7 owns stage 1, whose performance 1 user 8 has an MQTT configuration for. */
  function Configured(): Tables {
    Tables(map[1 := Account("admin", None), 7 := Account("eve", None), 8 := Account("bob", None)], map[1 := Stage(7, "hall")],
           map[9 := Asset(1, "prop", PLACEHOLDER_FILE_LOCATION)], map[], map[], map[], map[1 := 1], map[], map[],
           map[1 := MqttConfig(1, 8)])
  }

  /** Done row by row, deleting user 7 would leave user 8's row pointing at a performance that is gone. */
  lemma ConfigurationDangles(outside: Outside)
    ensures var d := DeletionOfSeven(Configured(), outside);
      d.Happened() && !Intact(d.now)
  {
    var t := Configured();
    assert RefValid(t, t.refs[1]);
    SevenIsDeleted(t, outside);
    var d := DeletionOfSeven(t, outside);
    StrandedStays(d, 1);
    assert 1 in StagesOf(t.stages, 7);
    assert !RefValid(d.now, d.now.refs[1]);
  }
}
