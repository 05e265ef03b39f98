/** `delete_user` over mutable tables: the loops of studio.py, stage.py and asset.py,
    proved to leave what UserDeletionSpec says. */
module UserDeletion {
  import opened Prelude
  import opened Text
  import opened TopicMatch
  import opened AccessLists
  import opened AssignmentSpec
  import D = Descriptions
  import opened MediaDeletion
  import opened UserDeletionSpec

  /** The two event deletes of a stage remove exactly the events that go with it. */
  lemma BothEventDeletes(stages: map<int, Stage>, performances: map<int, int>, events: map<int, Event>, s: int, left: map<int, Event>)
    requires s in stages
    requires forall e :: e in left ==> e in events && left[e] == events[e]
    requires forall e :: e in events ==> (e in left <==>
      !(events[e].perf.None? && Like(StagePattern(stages[s].slug), events[e].topic))
      && !(events[e].perf.Some? && events[e].perf.value in performances && performances[events[e].perf.value] == s))
    ensures left == EventsWithout(stages, performances, events, {s})
  {
    var all := EventsWithout(stages, performances, events, {s});
    forall e | e in events ensures e in left <==> e in all {
      assert SlugOf(stages, {s}, s, events[e].topic) <==> Like(StagePattern(stages[s].slug), events[e].topic);
    }
    assert forall e :: e in left <==> e in all;
    assert forall e :: e in left ==> left[e] == all[e];
    assert left == all;
  }

  class Database {
    var users: map<int, Account>
    var stages: map<int, Stage>
    var assets: map<int, Asset>
    var descriptions: map<int, D.Description>
    var links: map<int, Link>
    var scenes: map<int, Scene>
    var performances: map<int, int>
    var events: map<int, Event>
    var attributes: map<int, Attribute>
    var refs: map<int, Ref>
    var nextUser: nat
    var nextStage: nat
    var nextAsset: nat
    var nextLink: nat
    var nextAttribute: nat

    ghost function View(): Tables
      reads this
    {
      Tables(users, stages, assets, descriptions, links, scenes, performances, events, attributes, refs)
    }

    ghost function MediaView(): Media
      reads this
    {
      Media(assets, links, refs, descriptions)
    }

    /** Primary keys are positive and below the next one handed out. */
    ghost predicate Valid()
      reads this
    {
      && Below(users, nextUser) && Below(stages, nextStage) && Below(assets, nextAsset) && Below(descriptions, nextAsset)
      && Below(links, nextLink) && Below(attributes, nextAttribute)
    }

    ghost predicate MediaBelow()
      reads this
    {
      Below(assets, nextAsset) && Below(descriptions, nextAsset) && Below(links, nextLink)
    }

    /** Matches by username only, and never modifies an existing row; a new one may find its email taken. */
    method EnsureAdminUser() returns (r: Result<int, string>)
      requires Below(users, nextUser)
      modifies this`users, this`nextUser
      ensures Below(users, nextUser)
      ensures r.Ok? <==> AdminToBeHad(old(users))
      ensures r.Ok? ==> IsAdmin(old(users), old(nextUser), r.value) && users == WithAdmin(old(users), r.value)
      ensures r.Err? ==> users == old(users) && nextUser == old(nextUser)
    {
      for u := 0 to nextUser
        invariant forall v :: v < u ==> !AdminAt(users, v)
      {
        if AdminAt(users, u) {
          return Ok(u);
        }
      }
      forall u ensures !AdminAt(users, u) {}
      for u := 0 to nextUser
        invariant forall v :: v < u ==> !HoldsAdminEmail(users, v)
      {
        if HoldsAdminEmail(users, u) {
          return Err("IntegrityError");
        }
      }
      forall u | u in users ensures users[u].name != CANONICAL_ADMIN_USERNAME {
        assert !AdminAt(users, u);
      }
      users := users[nextUser := Account(CANONICAL_ADMIN_USERNAME, Some(CANONICAL_ADMIN_EMAIL))];
      nextUser := nextUser + 1;
      return Ok(nextUser - 1);
    }

    /** A failed copy of the placeholder's file only matters when there is no row yet. */
    method EnsurePlaceholderAsset(owner: int, outside: Outside) returns (r: Result<int, string>)
      requires Below(assets, nextAsset) && Below(descriptions, nextAsset)
      modifies this`assets, this`descriptions, this`nextAsset
      ensures Below(assets, nextAsset) && Below(descriptions, nextAsset) && old(nextAsset) <= nextAsset
      ensures r.Ok? <==> outside.file || AnyPlaceholder(old(assets))
      ensures r.Err? ==> assets == old(assets) && descriptions == old(descriptions)
      ensures r.Ok? ==> HasPlaceholder(assets, r.value) && IsPlaceholder(old(assets), old(nextAsset), r.value)
      ensures r.Ok? ==> assets == WithPlaceholder(old(assets), owner, r.value)
      ensures r.Ok? ==> descriptions == WithPlaceholderText(old(descriptions), old(assets), r.value, outside.mediaText)
    {
      for a := 0 to nextAsset
        invariant forall b :: b < a ==> !HasPlaceholder(assets, b)
      {
        if HasPlaceholder(assets, a) {
          return Ok(a);
        }
      }
      if !outside.file {
        return Err("OSError");
      }
      forall a | a in assets ensures assets[a].location != PLACEHOLDER_FILE_LOCATION {
        assert !HasPlaceholder(assets, a);
      }
      assets := assets[nextAsset := Asset(owner, "prop", PLACEHOLDER_FILE_LOCATION)];
      descriptions := descriptions[nextAsset := PlaceholderDescription(outside.mediaText)];
      nextAsset := nextAsset + 1;
      return Ok(nextAsset - 1);
    }

    /** The access lists, row by row. */
    method ScrubAccessLists(user: nat, dumps: Access -> string) returns (r: Result<(), string>)
      requires Below(attributes, nextAttribute)
      modifies this`attributes
      ensures r.Ok? <==> ScrubPasses(old(attributes), user)
      ensures r.Ok? ==> attributes == Scrubbed(old(attributes), user, dumps)
    {
      var was, token := attributes, Decimal(user);
      ScrubEnds(was, user, dumps, nextAttribute);
      for b := 0 to nextAttribute
        invariant attributes == ScrubbedBelow(was, user, dumps, b)
        invariant forall c :: c < b ==> !ScrubRaisesAt(was, user, c)
      {
        ScrubStep(was, user, dumps, b);
        if b in was && was[b].name == "playerAccess" {
          var row := CleanRow(was[b].stored, token, dumps);
          if row.Err? {
            assert ScrubRaisesAt(was, user, b);
            return Err(row.error);
          }
          attributes := attributes[b := was[b].(stored := row.value)];
        }
      }
      forall b ensures !ScrubRaisesAt(was, user, b) {}
      return Ok(());
    }

    method CleanupUserReferences(user: nat, dumps: Access -> string) returns (r: Result<(), string>)
      requires Below(attributes, nextAttribute)
      modifies this`refs, this`attributes
      ensures r.Ok? <==> ScrubPasses(old(attributes), user)
      ensures refs == RefsWithoutUser(old(refs), user)
      ensures r.Ok? ==> attributes == Scrubbed(old(attributes), user, dumps)
    {
      var left := map r | r in refs && !(refs[r].LoginSession? && refs[r].user == user) :: refs[r];
      left := map r | r in left && !(left[r].OneTimeCode? && left[r].user == user) :: left[r];
      left := map r | r in left && !(left[r].Usage? && left[r].user == user) :: left[r];
      forall r | r in refs ensures OfUser(refs[r], user) <==> r !in left {}
      refs := left;
      r := ScrubAccessLists(user, dumps);
    }

    /** `.first()` of a stage's playerAccess attributes. */
    method PlayerAccess(s: int) returns (stored: Option<Stored>)
      requires Below(attributes, nextAttribute)
      ensures stored == AccessOf(attributes, s)
    {
      for b := 0 to nextAttribute
        invariant forall c :: c in attributes && c < b ==> !(attributes[c].stage == s && attributes[c].name == "playerAccess")
      {
        if b in attributes && attributes[b].stage == s && attributes[b].name == "playerAccess" {
          assert IsAccessRow(attributes, s, b);
          return Some(attributes[b].stored);
        }
      }
      return None;
    }

    /** The stage's live and chat rows, tied to it only by their topic. */
    method DeleteLiveEvents(s: int)
      requires s in stages
      modifies this`events
      ensures events == map e | e in old(events)
        && !(old(events)[e].perf.None? && Like(StagePattern(stages[s].slug), old(events)[e].topic)) :: old(events)[e]
    {
      events := map e | e in events
        && !(events[e].perf.None? && Like(StagePattern(stages[s].slug), events[e].topic)) :: events[e];
    }

    /** The recorded events of a stage's performances. */
    method DeleteRecordedEvents(s: int)
      modifies this`events
      ensures events == map e | e in old(events)
        && !(old(events)[e].perf.Some? && old(events)[e].perf.value in performances
             && performances[old(events)[e].perf.value] == s) :: old(events)[e]
    {
      var doomed := set p | p in performances && performances[p] == s;
      events := map e | e in events && !(events[e].perf.Some? && events[e].perf.value in doomed) :: events[e];
    }

    /** The live rows go first; then delete_stage asks for the caller's permission, and its lookup may raise. Deleting
        the performances fails on a configuration that refers to one. */
    method DeleteStage(s: int, caller: nat, isAdmin: bool) returns (r: Result<(), string>)
      requires Below(attributes, nextAttribute) && s in stages
      modifies this`stages, this`links, this`scenes, this`performances, this`events, this`attributes
      ensures r.Ok? <==> MayDelete(old(stages), old(attributes), caller, isAdmin, s) && !Pinned(old(performances), refs, s)
      ensures r.Ok? ==> stages == StagesWithout(old(stages), {s}) && links == LinksWithout(old(links), {s})
      ensures r.Ok? ==> scenes == ScenesWithout(old(scenes), {s}) && performances == PerformancesWithout(old(performances), {s})
      ensures r.Ok? ==> events == EventsWithout(old(stages), old(performances), old(events), {s})
      ensures r.Ok? ==> attributes == AttributesWithout(old(attributes), {s})
    {
      DeleteLiveEvents(s);
      var stored := PlayerAccess(s);
      var info := StageInfo(stages[s].owner, ValueOf(stored));
      PermissionGranted(caller, isAdmin, info);
      var permission := ExtractPermission(caller, isAdmin, info);
      if permission.Err? {
        return Err(permission.error);
      }
      attributes := AttributesWithout(attributes, {s});
      links := LinksWithout(links, {s});
      scenes := ScenesWithout(scenes, {s});
      DeleteRecordedEvents(s);
      BothEventDeletes(old(stages), old(performances), old(events), s, events);
      r := DeletePerformances(s);
      if r.Ok? {
        stages := StagesWithout(stages, {s});
      }
    }

    /** `live_performance_mqtt_config` has a foreign key to the performances. */
    method DeletePerformances(s: int) returns (r: Result<(), string>)
      modifies this`performances
      ensures r.Ok? <==> !Pinned(old(performances), refs, s)
      ensures r.Ok? ==> performances == PerformancesWithout(old(performances), {s})
    {
      var pins := set r | r in refs && PinAt(performances, refs, s, r);
      if pin :| pin in pins {
        assert PinAt(performances, refs, s, pin);
        return Err("IntegrityError");
      }
      forall x ensures !PinAt(performances, refs, s, x) {
        assert x !in pins;
      }
      performances := PerformancesWithout(performances, {s});
      return Ok(());
    }

    method DeleteStagesOf(user: int, caller: nat, isAdmin: bool) returns (r: Result<(), string>)
      requires Below(stages, nextStage) && Below(attributes, nextAttribute)
      modifies this`stages, this`links, this`scenes, this`performances, this`events, this`attributes
      ensures r.Ok? <==> && MayDeleteAll(old(stages), old(attributes), user, caller, isAdmin)
                         && NonePinned(old(stages), old(performances), refs, user)
      ensures r.Ok? ==> stages == StagesWithout(old(stages), StagesOf(old(stages), user))
      ensures r.Ok? ==> links == LinksWithout(old(links), StagesOf(old(stages), user))
      ensures r.Ok? ==> scenes == ScenesWithout(old(scenes), StagesOf(old(stages), user))
      ensures r.Ok? ==> performances == PerformancesWithout(old(performances), StagesOf(old(stages), user))
      ensures r.Ok? ==> events == EventsWithout(old(stages), old(performances), old(events), StagesOf(old(stages), user))
      ensures r.Ok? ==> attributes == AttributesWithout(old(attributes), StagesOf(old(stages), user))
    {
      ghost var dead: set<int> := {};
      WithoutNoEvents(stages, performances, events);
      TablesWithoutNone(stages, links, scenes, performances, attributes);
      for s := 0 to nextStage
        invariant dead == StagesBelow(old(stages), user, s)
        invariant forall x :: x in dead ==> MayDelete(old(stages), old(attributes), caller, isAdmin, x)
        invariant forall x :: x in dead ==> !Pinned(old(performances), refs, x)
        invariant stages == StagesWithout(old(stages), dead) && links == LinksWithout(old(links), dead)
        invariant scenes == ScenesWithout(old(scenes), dead) && performances == PerformancesWithout(old(performances), dead)
        invariant events == EventsWithout(old(stages), old(performances), old(events), dead)
        invariant attributes == AttributesWithout(old(attributes), dead)
      {
        StagesStep(old(stages), user, s);
        AttributesStayBelow(old(attributes), nextAttribute, dead);
        if s in stages && stages[s].owner == user {
          EventsWithoutMore(old(stages), old(performances), old(events), dead, s);
          TablesWithoutMore(old(stages), old(links), old(scenes), old(performances), old(attributes), dead, s);
          DeletesKeepMayDelete(old(stages), old(attributes), dead, caller, isAdmin, s);
          DeletesKeepPins(old(performances), refs, dead, s);
          assert s in StagesOf(old(stages), user);
          r := DeleteStage(s, caller, isAdmin);
          if r.Err? {
            return;
          }
          dead := dead + {s};
        }
      }
      assert dead == StagesOf(old(stages), user);
      return Ok(());
    }

    /** `.first()` of the placeholder links of a stage. */
    method AlreadyThere(was: map<int, Link>, stage: int, placeholder: int) returns (found: bool)
      requires Below(was, nextLink)
      ensures found <==> Shows(was, stage, placeholder)
    {
      for l := 0 to nextLink
        invariant forall m :: m < l ==> !PairAt(was, m, stage, placeholder)
      {
        if PairAt(was, l, stage, placeholder) {
          return true;
        }
      }
      return false;
    }

    /** With autoflush off every query of the loop sees the links as they were before it. */
    method SubstitutePlaceholder(asset: int, placeholder: int)
      requires Below(links, nextLink) && asset != placeholder
      modifies this`links
      ensures Below(links, nextLink) && links == Substituted(old(links), asset, placeholder)
    {
      var was := links;
      for l := 0 to nextLink
        invariant links == map m | m in was && !(m < l && was[m].asset == asset && Shows(was, was[m].stage, placeholder))
                             :: if m < l && was[m].asset == asset then was[m].(asset := placeholder) else was[m]
      {
        if l in was && was[l].asset == asset {
          var there := AlreadyThere(was, was[l].stage, placeholder);
          if there {
            links := links - {l};
          } else {
            links := links[l := links[l].(asset := placeholder)];
          }
        }
      }
    }

    /** The loop over the rows whose description mentions a file. */
    method RewriteMentions(location: string, dumps: (string, seq<D.Frame>) -> string) returns (r: Result<(), string>)
      requires Below(descriptions, nextAsset)
      modifies this`descriptions
      ensures r.Ok? <==> D.AllRewritable(old(descriptions), location)
      ensures r.Ok? ==> descriptions == D.RewriteAll(old(descriptions), location, dumps)
    {
      var was := descriptions;
      D.RewriteNone(was, location, dumps);
      for b := 0 to nextAsset
        invariant descriptions == D.RewriteBelow(was, location, dumps, b)
        invariant forall c :: c in was && c < b && D.Mentions(was[c], location) ==> D.Rewritable(was[c])
      {
        D.RewriteStep(was, location, dumps, b);
        if b in was && D.Mentions(was[b], location) {
          var row := D.RewriteRow(was[b], location, dumps);
          if row.Err? {
            return Err(row.error);
          }
          descriptions := descriptions[b := row.value];
        }
      }
      D.RewriteEnds(was, location, dumps, nextAsset);
      return Ok(());
    }

    /** The asset's own description, its rows in the small tables, the descriptions that mention its file. */
    method CleanupAssets(a: int, asset: Asset, dumps: (string, seq<D.Frame>) -> string) returns (r: Result<(), string>)
      requires Below(descriptions, nextAsset)
      modifies this`links, this`refs, this`descriptions
      ensures r.Ok? <==> && !D.OwnRaises(D.DescriptionOf(old(descriptions), a))
                         && D.AllRewritable(old(descriptions), asset.location)
      ensures r.Ok? ==> links == WithoutAsset(old(links), a) && refs == RefsWithoutAssets(old(refs), {a})
      ensures r.Ok? ==> descriptions == D.RewriteAll(old(descriptions), asset.location, dumps)
    {
      r := D.LookUpFrames(D.DescriptionOf(descriptions, a));
      if r.Err? {
        return;
      }
      links := map l | l in links && links[l].asset != a :: links[l];
      refs := map r | r in refs && !(refs[r].Tag? && refs[r].asset == a) :: refs[r];
      refs := map r | r in refs && !(refs[r].Licence? && refs[r].asset == a) :: refs[r];
      refs := map r | r in refs && !(refs[r].Usage? && refs[r].asset == a) :: refs[r];
      forall r | r in old(refs) ensures OfAsset(old(refs)[r], {a}) <==> r !in refs {}
      r := RewriteMentions(asset.location, dumps);
    }

    /** `session.delete(asset)` and the flush: `asset_attribute` has a foreign key to the asset. */
    method DeleteAssetRow(a: int) returns (r: Result<(), string>)
      modifies this`assets, this`descriptions
      ensures r.Ok? <==> !Attributed(refs, a)
      ensures r.Ok? ==> assets == old(assets) - {a} && descriptions == old(descriptions) - {a}
    {
      var holders := set r | r in refs && AttributeOf(refs, r, a);
      if holder :| holder in holders {
        assert AttributeOf(refs, holder, a);
        return Err("IntegrityError");
      }
      forall x ensures !AttributeOf(refs, x, a) {
        assert x !in holders;
      }
      assets, descriptions := assets - {a}, descriptions - {a};
      return Ok(());
    }

    /** One media item that goes: its links become placeholder links unless its kind cannot be substituted. */
    method RemoveAsset(a: int, placeholder: int, outside: Outside) returns (r: Result<(), string>)
      requires MediaBelow() && a in assets && a != placeholder
      modifies this`assets, this`links, this`refs, this`descriptions
      ensures r.Ok? <==> Removable(a, old(assets)[a], old(descriptions), old(refs), outside.stuck)
      ensures r.Ok? ==> MediaBelow() && assets == old(assets) - {a} && refs == RefsWithoutAssets(old(refs), {a})
      ensures r.Ok? ==> descriptions == D.RewriteAll(old(descriptions), old(assets)[a].location, outside.mediaText) - {a}
      ensures r.Ok? ==> links == if old(assets)[a].kind in NON_SUBSTITUTABLE_MEDIA_TYPES then WithoutAsset(old(links), a)
                                 else WithoutAsset(Substituted(old(links), a, placeholder), a)
    {
      var asset := assets[a];
      if asset.kind !in NON_SUBSTITUTABLE_MEDIA_TYPES {
        SubstitutePlaceholder(a, placeholder);
        r := D.TokenFrames(D.DescriptionOf(descriptions, a));
        if r.Err? {
          return;
        }
      }
      AttributesKept(refs, {a}, a);
      r := CleanupAssets(a, asset, outside.mediaText);
      if r.Err? {
        return;
      }
      if a in outside.stuck {
        return Err("failure outside the tables");
      }
      r := DeleteAssetRow(a);
    }

    /** The body of the media loop: kept kinds go to the admin, the rest is removed. */
    method VisitAsset(a: int, user: int, admin: int, placeholder: int, keep: set<string>, outside: Outside)
      returns (r: Result<(), string>)
      requires MediaBelow() && HasPlaceholder(assets, placeholder)
      modifies this`assets, this`links, this`refs, this`descriptions
      ensures r.Ok? <==> Passes(old(MediaView()), user, keep, outside.stuck, a)
      ensures r.Ok? ==> MediaBelow() && HasPlaceholder(assets, placeholder)
      ensures r.Ok? ==> OneVisited(old(MediaView()), MediaView(), user, admin, keep, placeholder, outside.mediaText, a)
    {
      if a in assets && assets[a].owner == user && assets[a].location != PLACEHOLDER_FILE_LOCATION {
        if assets[a].kind !in keep {
          r := RemoveAsset(a, placeholder, outside);
          return;
        }
        assets := assets[a := assets[a].(owner := admin)];
      }
      NoRefsOfNothing(refs);
      return Ok(());
    }

    /** One turn of the media loop, which began with the tables `was`. */
    method VisitInTurn(ghost was: Media, a: nat, user: int, admin: int, placeholder: int, keep: set<string>, outside: Outside)
      returns (r: Result<(), string>)
      requires MediaBelow() && HasPlaceholder(assets, placeholder) && forall b :: b in was.assets ==> 0 < b
      requires AllVisited(was, MediaView(), user, admin, keep, placeholder, outside.mediaText, a)
      requires RemovableBelow(was, user, keep, outside.stuck, a)
      modifies this`assets, this`links, this`refs, this`descriptions
      ensures r.Ok? <==> RemovableBelow(was, user, keep, outside.stuck, a + 1)
      ensures r.Ok? ==> MediaBelow() && HasPlaceholder(assets, placeholder)
      ensures r.Ok? ==> AllVisited(was, MediaView(), user, admin, keep, placeholder, outside.mediaText, a + 1)
    {
      ghost var mid := MediaView();
      PassesInTurn(was, mid, user, admin, keep, placeholder, outside.stuck, outside.mediaText, a);
      r := VisitAsset(a, user, admin, placeholder, keep, outside);
      if r.Ok? {
        VisitOneMore(was, mid, MediaView(), user, admin, keep, placeholder, outside.mediaText, a);
      }
    }

    method DeleteAssetsOf(user: int, admin: int, placeholder: int, keep: set<string>, outside: Outside)
      returns (r: Result<(), string>)
      requires MediaBelow() && HasPlaceholder(assets, placeholder)
      modifies this`assets, this`links, this`refs, this`descriptions
      ensures r.Ok? <==> AllRemovable(old(assets), old(descriptions), old(refs), user, keep, outside.stuck)
      ensures r.Ok? ==> MediaBelow()
      ensures r.Ok? ==> AllVisited(old(MediaView()), MediaView(), user, admin, keep, placeholder, outside.mediaText, nextAsset)
    {
      ghost var was := MediaView();
      NoneVisited(was, user, admin, keep, placeholder, outside.mediaText);
      RemovableAtEnd(was, user, keep, outside.stuck, nextAsset);
      for a := 0 to nextAsset
        invariant MediaBelow() && HasPlaceholder(assets, placeholder)
        invariant AllVisited(was, MediaView(), user, admin, keep, placeholder, outside.mediaText, a)
        invariant RemovableBelow(was, user, keep, outside.stuck, a)
      {
        r := VisitInTurn(was, a, user, admin, placeholder, keep, outside);
        if r.Err? {
          return;
        }
      }
      return Ok(());
    }

    /** Scenes on other people's stages go too. */
    method DeleteScenesOf(user: int)
      modifies this`scenes
      ensures scenes == ScenesWithoutUser(old(scenes), user)
    {
      scenes := map c | c in scenes && scenes[c].owner != user :: scenes[c];
    }

    method DeleteStagesAndScenesOf(user: int, caller: nat, isAdmin: bool) returns (r: Result<(), string>)
      requires Below(stages, nextStage) && Below(attributes, nextAttribute)
      modifies this`stages, this`links, this`scenes, this`performances, this`events, this`attributes
      ensures r.Ok? <==> && MayDeleteAll(old(stages), old(attributes), user, caller, isAdmin)
                         && NonePinned(old(stages), old(performances), refs, user)
      ensures r.Ok? ==> stages == StagesWithout(old(stages), StagesOf(old(stages), user))
      ensures r.Ok? ==> links == LinksWithout(old(links), StagesOf(old(stages), user))
      ensures r.Ok? ==> scenes == ScenesWithoutUser(ScenesWithout(old(scenes), StagesOf(old(stages), user)), user)
      ensures r.Ok? ==> performances == PerformancesWithout(old(performances), StagesOf(old(stages), user))
      ensures r.Ok? ==> events == EventsWithout(old(stages), old(performances), old(events), StagesOf(old(stages), user))
      ensures r.Ok? ==> attributes == AttributesWithout(old(attributes), StagesOf(old(stages), user))
    {
      r := DeleteStagesOf(user, caller, isAdmin);
      if r.Ok? {
        DeleteScenesOf(user);
      }
    }

    /** Stages, then scenes on other people's stages, then media. */
    method DeleteOwned(user: nat, admin: int, placeholder: int, caller: nat, isAdmin: bool, keep: set<string>, outside: Outside)
      returns (r: Result<(), string>)
      requires MediaBelow() && HasPlaceholder(assets, placeholder) && Below(stages, nextStage) && Below(attributes, nextAttribute)
      modifies this`stages, this`links, this`scenes, this`performances, this`events, this`attributes,
               this`assets, this`descriptions, this`refs
      ensures r.Ok? <==> && MayDeleteAll(old(stages), old(attributes), user, caller, isAdmin)
                         && NonePinned(old(stages), old(performances), old(refs), user)
                         && AllRemovable(old(assets), old(descriptions), old(refs), user, keep, outside.stuck)
      ensures r.Ok? ==> stages == StagesWithout(old(stages), StagesOf(old(stages), user))
      ensures r.Ok? ==> scenes == ScenesWithoutUser(ScenesWithout(old(scenes), StagesOf(old(stages), user)), user)
      ensures r.Ok? ==> performances == PerformancesWithout(old(performances), StagesOf(old(stages), user))
      ensures r.Ok? ==> events == EventsWithout(old(stages), old(performances), old(events), StagesOf(old(stages), user))
      ensures r.Ok? ==> attributes == AttributesWithout(old(attributes), StagesOf(old(stages), user))
      ensures r.Ok? ==> AllVisited(Media(old(assets), LinksWithout(old(links), StagesOf(old(stages), user)), old(refs), old(descriptions)),
                                   MediaView(), user, admin, keep, placeholder, outside.mediaText, nextAsset)
    {
      LinksStayBelow(links, nextLink, StagesOf(stages, user));
      r := DeleteStagesAndScenesOf(user, caller, isAdmin);
      if r.Err? {
        return;
      }
      r := DeleteAssetsOf(user, admin, placeholder, keep, outside);
    }

    method DeleteUserContent(user: nat, admin: int, caller: nat, isAdmin: bool, keep: set<string>, outside: Outside)
      returns (r: Result<int, string>)
      requires MediaBelow() && Below(stages, nextStage) && Below(attributes, nextAttribute)
      modifies this`stages, this`links, this`scenes, this`performances, this`events, this`attributes,
               this`assets, this`descriptions, this`refs, this`nextAsset
      ensures old(nextAsset) <= nextAsset
      ensures r.Ok? <==> && (outside.file || AnyPlaceholder(old(assets)))
                         && MayDeleteAll(old(stages), old(attributes), user, caller, isAdmin)
                         && NonePinned(old(stages), old(performances), old(refs), user)
                         && AllRemovable(old(assets), old(descriptions), old(refs), user, keep, outside.stuck)
      ensures r.Ok? ==> IsPlaceholder(old(assets), old(nextAsset), r.value) && r.value < nextAsset
      ensures r.Ok? ==> stages == StagesWithout(old(stages), StagesOf(old(stages), user))
      ensures r.Ok? ==> scenes == ScenesWithoutUser(ScenesWithout(old(scenes), StagesOf(old(stages), user)), user)
      ensures r.Ok? ==> performances == PerformancesWithout(old(performances), StagesOf(old(stages), user))
      ensures r.Ok? ==> events == EventsWithout(old(stages), old(performances), old(events), StagesOf(old(stages), user))
      ensures r.Ok? ==> attributes == AttributesWithout(old(attributes), StagesOf(old(stages), user))
      ensures r.Ok? ==> AllVisited(Media(WithPlaceholder(old(assets), admin, r.value),
                                         LinksWithout(old(links), StagesOf(old(stages), user)), old(refs),
                                         WithPlaceholderText(old(descriptions), old(assets), r.value, outside.mediaText)),
                                   MediaView(), user, admin, keep, r.value, outside.mediaText, nextAsset)
    {
      r := EnsurePlaceholderAsset(admin, outside);
      if r.Err? {
        return;
      }
      PlaceholderIsHarmless(old(assets), old(descriptions), refs, user, keep, outside.stuck, admin, r.value, outside.mediaText);
      var deleted := DeleteOwned(user, admin, r.value, caller, isAdmin, keep, outside);
      if deleted.Err? {
        return Err(deleted.error);
      }
    }

    /** The account's own row, which the foreign keys hold back while another row names it. */
    method DeleteUserRow(user: nat) returns (r: Result<(), string>)
      modifies this`users
      ensures r.Ok? <==> Unnamed(stages, assets, scenes, refs, user)
      ensures r.Ok? ==> users == old(users) - {user}
    {
      if !Unnamed(stages, assets, scenes, refs, user) {
        return Err("IntegrityError");
      }
      users := users - {user};
      return Ok(());
    }

    /** The account's references, then its content. */
    method EraseContent(user: nat, admin: int, caller: nat, isAdmin: bool, keep: set<string>, outside: Outside)
      returns (r: Result<int, string>)
      requires MediaBelow() && Below(stages, nextStage) && Below(attributes, nextAttribute)
      requires user != admin && caller != user
      modifies this`stages, this`links, this`scenes, this`performances, this`events, this`attributes,
               this`assets, this`descriptions, this`refs, this`nextAsset
      ensures old(nextAsset) <= nextAsset
      ensures r.Ok? <==> ContentErasable(old(View()), user, caller, isAdmin, keep, outside)
      ensures r.Ok? ==> IsPlaceholder(old(assets), old(nextAsset), r.value) && r.value < nextAsset
      ensures r.Ok? ==> ContentDeleted(Prepared(old(View()), admin, r.value, outside), user, admin, r.value, keep, nextAsset,
                                       outside, View())
    {
      ScrubKeepsMayDeleteAll(stages, attributes, user, outside.accessText, caller, isAdmin);
      ScrubbedStaysBelow(attributes, nextAttribute, user, outside.accessText);
      UserRefsBlockNothing(View(), user, keep, outside.stuck);
      var cleaned := CleanupUserReferences(user, outside.accessText);
      if cleaned.Err? {
        return Err(cleaned.error);
      }
      r := DeleteUserContent(user, admin, caller, isAdmin, keep, outside);
    }

    /** After the guards: references, content, and the account's own row. */
    method EraseUser(user: nat, admin: int, caller: nat, isAdmin: bool, keep: set<string>, outside: Outside)
      returns (r: Result<int, string>)
      requires MediaBelow() && Below(stages, nextStage) && Below(attributes, nextAttribute)
      requires user != admin && admin in users && caller != user
      modifies this
      ensures Counters(old(nextUser), old(nextStage), nextAsset, old(nextLink), old(nextAttribute)) && old(nextAsset) <= nextAsset
      ensures r.Ok? <==> ContentErasable(old(View()), user, caller, isAdmin, keep, outside) && NoLeftovers(old(View()), user, keep)
      ensures r.Ok? ==> IsPlaceholder(old(assets), old(nextAsset), r.value) && r.value < nextAsset
      ensures r.Ok? ==> UserDeleted(Prepared(old(View()), admin, r.value, outside), user, admin, r.value, keep, nextAsset,
                                    outside, View())
    {
      ghost var was := View();
      r := EraseContent(user, admin, caller, isAdmin, keep, outside);
      if r.Err? {
        return;
      }
      ContentDeletedUnnamed(was, user, admin, r.value, keep, nextAsset, outside, View());
      var gone := DeleteUserRow(user);
      if gone.Err? {
        return Err(gone.error);
      }
    }

    ghost predicate Counters(users: nat, stages: nat, assets: nat, links: nat, attributes: nat)
      reads this
    {
      nextUser == users && nextStage == stages && nextAsset == assets && nextLink == links && nextAttribute == attributes
    }

    /** The admin account is found or created, and the user erased. */
    method EraseForAdmin(user: nat, caller: nat, isAdmin: bool, keep: set<string>, outside: Outside)
      returns (r: Result<int, string>, ghost admin: int)
      requires Valid() && user in users && users[user].name != CANONICAL_ADMIN_USERNAME && user != caller
      modifies this
      ensures r.Ok? ==> Valid()
      ensures r.Ok? <==> && AdminToBeHad(old(users))
                         && ContentErasable(old(View()), user, caller, isAdmin, keep, outside) && NoLeftovers(old(View()), user, keep)
      ensures r.Ok? ==> IsAdmin(old(users), old(nextUser), admin) && IsPlaceholder(old(assets), old(nextAsset), r.value)
      ensures r.Ok? ==> old(nextAsset) <= nextAsset && r.value < nextAsset
      ensures r.Ok? ==> UserDeleted(Prepared(old(View()), admin, r.value, outside), user, admin, r.value, keep, nextAsset,
                                    outside, View())
    {
      admin := 0;
      r := EnsureAdminUser();
      if r.Err? {
        return;
      }
      var id := r.value;
      admin := id;
      ghost var was, next := View(), nextAsset;
      r := EraseUser(user, id, caller, isAdmin, keep, outside);
      if r.Ok? {
        BelowMore(was.assets, next, nextAsset);
        BelowMore(was.descriptions, next, nextAsset);
        DeletionStaysBelow(was, user, id, r.value, keep, nextAsset, outside,
                           View(), nextUser, nextStage, nextLink, nextAttribute);
      }
    }

    /** The three guards, then the deletion. */
    method DeleteUser(user: nat, caller: nat, isAdmin: bool, deleteAll: bool, outside: Outside)
      returns (r: Result<int, string>, ghost admin: int)
      requires Valid()
      modifies this
      ensures r.Ok? ==> Valid()
      ensures r.Ok? <==> Deletable(old(View()), user, caller, isAdmin, KeepKinds(deleteAll), outside)
      ensures r.Ok? ==> IsAdmin(old(users), old(nextUser), admin) && IsPlaceholder(old(assets), old(nextAsset), r.value)
      ensures r.Ok? ==> old(nextAsset) <= nextAsset && r.value < nextAsset
      ensures r.Ok? ==> UserDeleted(Prepared(old(View()), admin, r.value, outside), user, admin, r.value, KeepKinds(deleteAll),
                                    nextAsset, outside, View())
      ensures r.Ok? && deleteAll ==> Discarded(old(assets), assets, user)
      ensures r.Ok? && !deleteAll ==> HandedOver(old(assets), assets, user, admin)
    {
      admin := 0;
      if user !in users {
        return Err("User not found!"), admin;
      }
      if users[user].name == CANONICAL_ADMIN_USERNAME {
        return Err("The default admin account cannot be deleted."), admin;
      }
      if user == caller {
        return Err("You cannot delete your own account."), admin;
      }
      ghost var was, next := View(), nextAsset;
      r, admin := EraseForAdmin(user, caller, isAdmin, KeepKinds(deleteAll), outside);
      if r.Ok? {
        BelowMore(was.assets, next, nextAsset);
        ContentActionMeans(was, user, admin, r.value, deleteAll, nextAsset, outside, View());
      }
    }

    method RestoreOwned(t: Tables)
      modifies this`users, this`stages, this`assets, this`descriptions, this`links, this`scenes
      ensures users == t.users && stages == t.stages && assets == t.assets && descriptions == t.descriptions
      ensures links == t.links && scenes == t.scenes
    {
      users, stages := t.users, t.stages;
      assets, descriptions := t.assets, t.descriptions;
      links, scenes := t.links, t.scenes;
    }

    method RestoreRecorded(t: Tables)
      modifies this`performances, this`events, this`attributes, this`refs
      ensures performances == t.performances && events == t.events && attributes == t.attributes && refs == t.refs
    {
      performances := t.performances;
      events := t.events;
      attributes := t.attributes;
      refs := t.refs;
    }

    method RestoreCounters(nu: nat, ns: nat, na: nat, nl: nat, nb: nat)
      modifies this`nextUser, this`nextStage, this`nextAsset, this`nextLink, this`nextAttribute
      ensures Counters(nu, ns, na, nl, nb)
    {
      nextUser, nextStage, nextAsset, nextLink, nextAttribute := nu, ns, na, nl, nb;
    }

    /** The mutation as the boundary settles it: whatever a failed deletion wrote is rolled back. */
    method DeleteUserMutation(user: nat, caller: nat, isAdmin: bool, deleteAll: bool, outside: Outside)
      returns (r: Result<int, string>, ghost admin: int)
      requires Valid()
      modifies this
      ensures Valid()
      ensures r.Ok? <==> Deletable(old(View()), user, caller, isAdmin, KeepKinds(deleteAll), outside)
      ensures r.Err? ==> View() == old(View())
      ensures r.Ok? ==> UserDeleted(Prepared(old(View()), admin, r.value, outside), user, admin, r.value, KeepKinds(deleteAll),
                                    nextAsset, outside, View())
      ensures r.Ok? && deleteAll ==> Discarded(old(assets), assets, user)
      ensures r.Ok? && !deleteAll ==> HandedOver(old(assets), assets, user, admin)
    {
      var before := Tables(users, stages, assets, descriptions, links, scenes, performances, events, attributes, refs);
      var nu, ns, na, nl, nb := nextUser, nextStage, nextAsset, nextLink, nextAttribute;
      r, admin := DeleteUser(user, caller, isAdmin, deleteAll, outside);
      if r.Err? {
        RestoreOwned(before);
        RestoreRecorded(before);
        RestoreCounters(nu, ns, na, nl, nb);
      }
    }
  }
}
