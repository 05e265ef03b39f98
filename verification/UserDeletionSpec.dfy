/** The tables a user deletion touches, as values, and what deleting a user leaves of them. */
module UserDeletionSpec {
  import opened Prelude
  import opened Text
  import opened TopicMatch
  import opened AccessLists
  import opened AssignmentSpec
  import D = Descriptions
  import opened MediaDeletion
  import EventLog

  datatype Account = Account(name: string, email: Option<string>)
  datatype Stage = Stage(owner: int, slug: string)
  datatype Scene = Scene(owner: int, stage: int)
  type Event = EventLog.Event
  datatype Attribute = Attribute(stage: int, name: string, stored: Stored)

  /** Rows by id; `descriptions` is a column of the assets, without the rows where it is NULL. */
  datatype Tables = Tables(
    users: map<int, Account>,
    stages: map<int, Stage>,
    assets: map<int, Asset>,
    descriptions: map<int, D.Description>,
    links: map<int, Link>,
    scenes: map<int, Scene>,
    performances: map<int, int>,
    events: map<int, Event>,
    attributes: map<int, Attribute>,
    refs: map<int, Ref>)

  /** What does not come from the tables: whether the placeholder's file is in place or can be copied, the media on which
      a file removal or the payload rewriting fails, and how `json.dumps` prints access lists and descriptions. */
  datatype Outside = Outside(file: bool, stuck: set<int>, accessText: Access -> string,
                             mediaText: (string, seq<D.Frame>) -> string)

  const CANONICAL_ADMIN_USERNAME := "admin"
  const CANONICAL_ADMIN_EMAIL := "support@upstage.live"
  const KEEP_MEDIA_TYPES_ON_REASSIGN := {"avatar", "prop", "backdrop"}

  // Foreign references.

  ghost predicate RefValid(t: Tables, r: Ref) {
    match r
    case LoginSession(user) => user in t.users
    case OneTimeCode(user) => user in t.users
    case Usage(asset, user) => asset in t.assets && user in t.users
    case Tag(asset) => asset in t.assets
    case Licence(asset) => asset in t.assets
    case AssetAttribute(asset) => asset in t.assets
    case PerformanceConfig(user) => user in t.users
    case MqttConfig(performance, user) => performance in t.performances && user in t.users
    case Profile(user) => user in t.users
  }

  /** Every foreign reference points at a row. */
  ghost predicate Intact(t: Tables) {
    && (forall s :: s in t.stages ==> t.stages[s].owner in t.users)
    && (forall a :: a in t.assets ==> t.assets[a].owner in t.users)
    && (forall l :: l in t.links ==> t.links[l].stage in t.stages && t.links[l].asset in t.assets)
    && (forall c :: c in t.scenes ==> t.scenes[c].owner in t.users && t.scenes[c].stage in t.stages)
    && (forall p :: p in t.performances ==> t.performances[p] in t.stages)
    && (forall e :: e in t.events && t.events[e].perf.Some? ==> t.events[e].perf.value in t.performances)
    && (forall b :: b in t.attributes ==> t.attributes[b].stage in t.stages)
    && (forall r :: r in t.refs ==> RefValid(t, t.refs[r]))
  }

  // Stages.

  ghost predicate SlugOf(stages: map<int, Stage>, dead: set<int>, s: int, topic: string) {
    s in dead && s in stages && Like(StagePattern(stages[s].slug), topic)
  }

  ghost predicate SlugDies(stages: map<int, Stage>, dead: set<int>, topic: string) {
    exists s :: SlugOf(stages, dead, s, topic)
  }

  /** Recorded with a performance of a dead stage, or live and matching its topic pattern. */
  ghost predicate EventGoes(stages: map<int, Stage>, performances: map<int, int>, dead: set<int>, e: Event) {
    match e.perf
    case Some(p) => p in performances && performances[p] in dead
    case None => SlugDies(stages, dead, e.topic)
  }

  function PerformancesWithout(performances: map<int, int>, dead: set<int>): map<int, int> {
    map p | p in performances && performances[p] !in dead :: performances[p]
  }

  function StagesWithout(stages: map<int, Stage>, dead: set<int>): map<int, Stage> {
    map s | s in stages && s !in dead :: stages[s]
  }

  function LinksWithout(links: map<int, Link>, dead: set<int>): map<int, Link> {
    map l | l in links && links[l].stage !in dead :: links[l]
  }

  function ScenesWithout(scenes: map<int, Scene>, dead: set<int>): map<int, Scene> {
    map c | c in scenes && scenes[c].stage !in dead :: scenes[c]
  }

  function AttributesWithout(attributes: map<int, Attribute>, dead: set<int>): map<int, Attribute> {
    map b | b in attributes && attributes[b].stage !in dead :: attributes[b]
  }

  ghost function EventsWithout(stages: map<int, Stage>, performances: map<int, int>,
                               events: map<int, Event>, dead: set<int>): map<int, Event> {
    map e | e in events && !EventGoes(stages, performances, dead, events[e]) :: events[e]
  }

  lemma EventGoesWithMore(stages: map<int, Stage>, performances: map<int, int>, dead: set<int>, s: int, e: Event)
    requires s !in dead && s in stages
    ensures EventGoes(stages, performances, dead + {s}, e)
       <==> EventGoes(stages, performances, dead, e)
            || EventGoes(StagesWithout(stages, dead), PerformancesWithout(performances, dead), {s}, e)
  {
    if e.perf.None? {
      var left := StagesWithout(stages, dead);
      assert SlugOf(left, {s}, s, e.topic) <==> SlugOf(stages, dead + {s}, s, e.topic);
      forall x | x != s ensures SlugOf(stages, dead + {s}, x, e.topic) <==> SlugOf(stages, dead, x, e.topic) {}
      if SlugDies(stages, dead, e.topic) {
        var x :| SlugOf(stages, dead, x, e.topic);
        assert SlugOf(stages, dead + {s}, x, e.topic);
      }
    }
  }

  lemma EventsWithoutMore(stages: map<int, Stage>, performances: map<int, int>, events: map<int, Event>, dead: set<int>, s: int)
    requires s !in dead && s in stages
    ensures EventsWithout(StagesWithout(stages, dead), PerformancesWithout(performances, dead),
                          EventsWithout(stages, performances, events, dead), {s})
         == EventsWithout(stages, performances, events, dead + {s})
  {
    forall e: Event
      ensures EventGoes(stages, performances, dead + {s}, e)
         <==> EventGoes(stages, performances, dead, e)
              || EventGoes(StagesWithout(stages, dead), PerformancesWithout(performances, dead), {s}, e)
    {
      EventGoesWithMore(stages, performances, dead, s, e);
    }
  }

  lemma WithoutNoEvents(stages: map<int, Stage>, performances: map<int, int>, events: map<int, Event>)
    ensures EventsWithout(stages, performances, events, {}) == events
  {
    forall e | e in events ensures !EventGoes(stages, performances, {}, events[e]) {
      assert !SlugDies(stages, {}, events[e].topic);
    }
  }

  lemma TablesWithoutMore(stages: map<int, Stage>, links: map<int, Link>, scenes: map<int, Scene>, performances: map<int, int>,
                          attributes: map<int, Attribute>, dead: set<int>, s: int)
    ensures StagesWithout(StagesWithout(stages, dead), {s}) == StagesWithout(stages, dead + {s})
    ensures LinksWithout(LinksWithout(links, dead), {s}) == LinksWithout(links, dead + {s})
    ensures ScenesWithout(ScenesWithout(scenes, dead), {s}) == ScenesWithout(scenes, dead + {s})
    ensures PerformancesWithout(PerformancesWithout(performances, dead), {s}) == PerformancesWithout(performances, dead + {s})
    ensures AttributesWithout(AttributesWithout(attributes, dead), {s}) == AttributesWithout(attributes, dead + {s})
  {
  }

  lemma TablesWithoutNone(stages: map<int, Stage>, links: map<int, Link>, scenes: map<int, Scene>, performances: map<int, int>,
                          attributes: map<int, Attribute>)
    ensures StagesWithout(stages, {}) == stages && LinksWithout(links, {}) == links && ScenesWithout(scenes, {}) == scenes
    ensures PerformancesWithout(performances, {}) == performances && AttributesWithout(attributes, {}) == attributes
  {
  }

  /** The keys of a table are positive and below the next one. */
  ghost predicate Below<T>(table: map<int, T>, next: nat) {
    0 < next && forall k :: k in table ==> 0 < k < next
  }

  lemma AttributesStayBelow(attributes: map<int, Attribute>, next: nat, dead: set<int>)
    requires Below(attributes, next)
    ensures Below(AttributesWithout(attributes, dead), next)
  {
  }

  lemma LinksStayBelow(links: map<int, Link>, next: nat, dead: set<int>)
    requires Below(links, next)
    ensures Below(LinksWithout(links, dead), next)
  {
  }

  // Accounts and access lists.

  function RefsWithoutUser(refs: map<int, Ref>, user: int): map<int, Ref> {
    map r | r in refs && !OfUser(refs[r], user) :: refs[r]
  }

  /** Every player access attribute after its turn of the scrub. */
  function Scrubbed(attributes: map<int, Attribute>, user: nat, dumps: Access -> string): map<int, Attribute> {
    map b | b in attributes :: if attributes[b].name == "playerAccess"
      then attributes[b].(stored := Cleaned(attributes[b].stored, Decimal(user), dumps)) else attributes[b]
  }

  /** The rows below an id after their turn. */
  function ScrubbedBelow(attributes: map<int, Attribute>, user: nat, dumps: Access -> string, below: int): map<int, Attribute> {
    map b | b in attributes :: if b < below && attributes[b].name == "playerAccess"
      then attributes[b].(stored := Cleaned(attributes[b].stored, Decimal(user), dumps)) else attributes[b]
  }

  lemma ScrubStep(attributes: map<int, Attribute>, user: nat, dumps: Access -> string, b: int)
    ensures b !in attributes || attributes[b].name != "playerAccess" ==>
      ScrubbedBelow(attributes, user, dumps, b + 1) == ScrubbedBelow(attributes, user, dumps, b)
    ensures b in attributes && attributes[b].name == "playerAccess" ==>
      ScrubbedBelow(attributes, user, dumps, b + 1)
      == ScrubbedBelow(attributes, user, dumps, b)[b := attributes[b].(stored := Cleaned(attributes[b].stored, Decimal(user), dumps))]
  {
  }

  lemma ScrubEnds(attributes: map<int, Attribute>, user: nat, dumps: Access -> string, next: nat)
    requires Below(attributes, next)
    ensures ScrubbedBelow(attributes, user, dumps, 0) == attributes
    ensures ScrubbedBelow(attributes, user, dumps, next) == Scrubbed(attributes, user, dumps)
  {
  }

  /** A row that the scrub fetches and whose nesting is beyond the parser: the one error the scrub does not catch. */
  predicate ScrubRaisesAt(attributes: map<int, Attribute>, user: nat, b: int) {
    && b in attributes && attributes[b].name == "playerAccess"
    && Quotes(attributes[b].stored.text, Decimal(user)) && attributes[b].stored.value.TooDeep?
  }

  ghost predicate ScrubPasses(attributes: map<int, Attribute>, user: nat) {
    forall b :: !ScrubRaisesAt(attributes, user, b)
  }

  ghost predicate IsAccessRow(attributes: map<int, Attribute>, stage: int, b: int) {
    && b in attributes && attributes[b].stage == stage && attributes[b].name == "playerAccess"
    && forall c :: c in attributes && attributes[c].stage == stage && attributes[c].name == "playerAccess" ==> b <= c
  }

  /** The stage's `playerAccess` attribute, the first by id. */
  ghost function AccessOf(attributes: map<int, Attribute>, stage: int): Option<Stored> {
    if b :| IsAccessRow(attributes, stage, b) then Some(attributes[b].stored) else None
  }

  lemma SameAccess(attributes: map<int, Attribute>, others: map<int, Attribute>, stage: int)
    requires forall b :: b in attributes && attributes[b].stage == stage <==> b in others && others[b].stage == stage
    requires forall b :: b in attributes && b in others && attributes[b].stage == stage ==>
      others[b].name == attributes[b].name
    ensures forall b :: IsAccessRow(attributes, stage, b) <==> IsAccessRow(others, stage, b)
    ensures AccessOf(attributes, stage).None? <==> AccessOf(others, stage).None?
    ensures forall b :: IsAccessRow(attributes, stage, b) ==>
      AccessOf(attributes, stage) == Some(attributes[b].stored) && AccessOf(others, stage) == Some(others[b].stored)
  {
    if b :| IsAccessRow(attributes, stage, b) {
      assert IsAccessRow(others, stage, b);
    }
    if b :| IsAccessRow(others, stage, b) {
      assert IsAccessRow(attributes, stage, b);
    }
  }

  function ValueOf(stored: Option<Stored>): Option<Access> {
    if stored.Some? then Some(stored.value.value) else None
  }

  /** What resolve_permission and extract_permission read of a stage. */
  ghost function InfoOf(stages: map<int, Stage>, attributes: map<int, Attribute>, stage: int): StageInfo
    requires stage in stages
  {
    StageInfo(stages[stage].owner, ValueOf(AccessOf(attributes, stage)))
  }

  /** delete_stage lets the caller through. */
  ghost predicate MayDelete(stages: map<int, Stage>, attributes: map<int, Attribute>, caller: nat, isAdmin: bool, stage: int) {
    stage in stages && Granted(caller, isAdmin, InfoOf(stages, attributes, stage))
  }

  lemma ScrubKeepsRole(stages: map<int, Stage>, attributes: map<int, Attribute>, user: nat, dumps: Access -> string,
                       other: Option<nat>, stage: int)
    requires other != Some(user) && stage in stages
    ensures ResolvePermission(other, Some(InfoOf(stages, Scrubbed(attributes, user, dumps), stage)))
         == ResolvePermission(other, Some(InfoOf(stages, attributes, stage)))
  {
    SameAccess(attributes, Scrubbed(attributes, user, dumps), stage);
    if b :| IsAccessRow(attributes, stage, b) {
      ScrubSparesOthers(user, other, stages[stage].owner, attributes[b].stored, dumps);
    }
  }

  /** The scrub of one user does not change what anyone else may delete. */
  lemma ScrubKeepsMayDelete(stages: map<int, Stage>, attributes: map<int, Attribute>, user: nat, dumps: Access -> string,
                            caller: nat, isAdmin: bool, stage: int)
    requires caller != user
    ensures MayDelete(stages, Scrubbed(attributes, user, dumps), caller, isAdmin, stage)
       <==> MayDelete(stages, attributes, caller, isAdmin, stage)
  {
    if stage in stages {
      ScrubKeepsRole(stages, attributes, user, dumps, Some(caller), stage);
      PermissionGranted(caller, isAdmin, InfoOf(stages, attributes, stage));
      PermissionGranted(caller, isAdmin, InfoOf(stages, Scrubbed(attributes, user, dumps), stage));
    }
  }

  /** Deleting other stages does not either. */
  lemma DeletesKeepMayDelete(stages: map<int, Stage>, attributes: map<int, Attribute>, dead: set<int>,
                             caller: nat, isAdmin: bool, stage: int)
    requires stage !in dead
    ensures MayDelete(StagesWithout(stages, dead), AttributesWithout(attributes, dead), caller, isAdmin, stage)
       <==> MayDelete(stages, attributes, caller, isAdmin, stage)
  {
    SameAccess(attributes, AttributesWithout(attributes, dead), stage);
    if b :| IsAccessRow(attributes, stage, b) {
      assert AttributesWithout(attributes, dead)[b] == attributes[b];
    }
  }

  /** An MQTT configuration for a performance of the stage, which the cascade does not visit. */
  predicate PinAt(performances: map<int, int>, refs: map<int, Ref>, s: int, r: int) {
    r in refs && refs[r].MqttConfig? && refs[r].performance in performances && performances[refs[r].performance] == s
  }

  ghost predicate Pinned(performances: map<int, int>, refs: map<int, Ref>, s: int) {
    exists r :: PinAt(performances, refs, s, r)
  }

  lemma DeletesKeepPins(performances: map<int, int>, refs: map<int, Ref>, dead: set<int>, s: int)
    requires s !in dead
    ensures Pinned(PerformancesWithout(performances, dead), refs, s) <==> Pinned(performances, refs, s)
  {
    forall r ensures PinAt(PerformancesWithout(performances, dead), refs, s, r) <==> PinAt(performances, refs, s, r) {}
  }

  function ScenesWithoutUser(scenes: map<int, Scene>, user: int): map<int, Scene> {
    map c | c in scenes && scenes[c].owner != user :: scenes[c]
  }

  ghost function StagesBelow(stages: map<int, Stage>, user: int, below: int): set<int> {
    set s | s in stages && s < below && stages[s].owner == user
  }

  lemma StagesStep(stages: map<int, Stage>, user: int, s: int)
    ensures s !in StagesBelow(stages, user, s)
    ensures StagesBelow(stages, user, s + 1)
         == StagesBelow(stages, user, s) + if s in stages && stages[s].owner == user then {s} else {}
  {
  }

  ghost function StagesOf(stages: map<int, Stage>, user: int): set<int> {
    set s | s in stages && stages[s].owner == user
  }

  /** No stage of the user raises for the caller or refuses them. */
  ghost predicate MayDeleteAll(stages: map<int, Stage>, attributes: map<int, Attribute>, user: int, caller: nat, isAdmin: bool) {
    forall s :: s in StagesOf(stages, user) ==> MayDelete(stages, attributes, caller, isAdmin, s)
  }

  ghost predicate NonePinned(stages: map<int, Stage>, performances: map<int, int>, refs: map<int, Ref>, user: int) {
    forall s :: s in StagesOf(stages, user) ==> !Pinned(performances, refs, s)
  }

  lemma ScrubKeepsMayDeleteAll(stages: map<int, Stage>, attributes: map<int, Attribute>, user: nat, dumps: Access -> string,
                               caller: nat, isAdmin: bool)
    requires caller != user
    ensures MayDeleteAll(stages, Scrubbed(attributes, user, dumps), user, caller, isAdmin)
       <==> MayDeleteAll(stages, attributes, user, caller, isAdmin)
  {
    forall s ensures MayDelete(stages, Scrubbed(attributes, user, dumps), caller, isAdmin, s)
                <==> MayDelete(stages, attributes, caller, isAdmin, s) {
      ScrubKeepsMayDelete(stages, attributes, user, dumps, caller, isAdmin, s);
    }
  }

  lemma ScrubbedStaysBelow(attributes: map<int, Attribute>, next: nat, user: nat, dumps: Access -> string)
    requires Below(attributes, next)
    ensures Below(Scrubbed(attributes, user, dumps), next)
  {
  }

  // The admin account and the placeholder.

  function KeepKinds(deleteAll: bool): set<string> {
    if deleteAll then {} else KEEP_MEDIA_TYPES_ON_REASSIGN
  }

  predicate AdminAt(users: map<int, Account>, u: int) {
    u in users && users[u].name == CANONICAL_ADMIN_USERNAME
  }

  predicate HoldsAdminEmail(users: map<int, Account>, u: int) {
    u in users && users[u].email == Some(CANONICAL_ADMIN_EMAIL)
  }

  /** The canonical admin is there, or the email it is created with is free: emails are unique. */
  ghost predicate AdminToBeHad(users: map<int, Account>) {
    (exists u :: AdminAt(users, u)) || (forall u :: !HoldsAdminEmail(users, u))
  }

  /** The account found under the canonical name, or a new one when there is none. */
  ghost predicate IsAdmin(users: map<int, Account>, next: int, admin: int) {
    if admin in users then users[admin].name == CANONICAL_ADMIN_USERNAME
    else admin == next && forall u :: u in users ==> users[u].name != CANONICAL_ADMIN_USERNAME
  }

  ghost predicate IsPlaceholder(assets: map<int, Asset>, next: int, placeholder: int) {
    if placeholder in assets then assets[placeholder].location == PLACEHOLDER_FILE_LOCATION
    else placeholder == next && forall a :: a in assets ==> assets[a].location != PLACEHOLDER_FILE_LOCATION
  }

  function WithAdmin(users: map<int, Account>, admin: int): map<int, Account> {
    if admin in users then users else users[admin := Account(CANONICAL_ADMIN_USERNAME, Some(CANONICAL_ADMIN_EMAIL))]
  }

  function WithPlaceholder(assets: map<int, Asset>, admin: int, placeholder: int): map<int, Asset> {
    if placeholder in assets then assets
    else assets[placeholder := Asset(admin, "prop", PLACEHOLDER_FILE_LOCATION)]
  }

  /** The placeholder's description: an object whose list of frames is empty, printed from no earlier text. */
  function PlaceholderDescription(dumps: (string, seq<D.Frame>) -> string): D.Description {
    D.Description("{" + dumps("", []), D.Object(D.List([])))
  }

  function WithPlaceholderText(ds: map<int, D.Description>, assets: map<int, Asset>, placeholder: int,
                               dumps: (string, seq<D.Frame>) -> string): map<int, D.Description>
  {
    if placeholder in assets then ds else ds[placeholder := PlaceholderDescription(dumps)]
  }

  /** A new placeholder never stands in the way. */
  lemma PlaceholderIsHarmless(assets: map<int, Asset>, ds: map<int, D.Description>, refs: map<int, Ref>, user: int, keep: set<string>,
                              stuck: set<int>, admin: int, placeholder: int, dumps: (string, seq<D.Frame>) -> string)
    requires placeholder !in assets ==> placeholder !in ds
    ensures AllRemovable(WithPlaceholder(assets, admin, placeholder), WithPlaceholderText(ds, assets, placeholder, dumps),
                         refs, user, keep, stuck)
       <==> AllRemovable(assets, ds, refs, user, keep, stuck)
  {
    if placeholder !in assets {
      var more := WithPlaceholder(assets, admin, placeholder);
      var texts := WithPlaceholderText(ds, assets, placeholder, dumps);
      forall a | a in assets
        ensures RemovableInTurn(more, texts, refs, user, keep, stuck, a) <==> RemovableInTurn(assets, ds, refs, user, keep, stuck, a)
      {
        HarmlessInTurn(assets, ds, refs, user, keep, stuck, more, placeholder, PlaceholderDescription(dumps), a);
      }
    }
  }

  lemma HarmlessInTurn(assets: map<int, Asset>, ds: map<int, D.Description>, refs: map<int, Ref>, user: int, keep: set<string>,
                       stuck: set<int>, more: map<int, Asset>, placeholder: int, d: D.Description, a: int)
    requires placeholder !in assets && placeholder !in ds && D.Rewritable(d) && a in assets
    requires more.Keys == assets.Keys + {placeholder} && (forall x :: x in assets ==> more[x] == assets[x])
    requires more[placeholder].location == PLACEHOLDER_FILE_LOCATION
    ensures RemovableInTurn(more, ds[placeholder := d], refs, user, keep, stuck, a)
       <==> RemovableInTurn(assets, ds, refs, user, keep, stuck, a)
  {
    var gone := Gone(assets, user, keep, a);
    assert Gone(more, user, keep, a) == gone;
    HarmlessRow(ds - gone, ds[placeholder := d] - gone, assets[a].location, placeholder, d);
  }

  lemma HarmlessRow(ds: map<int, D.Description>, more: map<int, D.Description>, location: string, placeholder: int, d: D.Description)
    requires placeholder !in ds && more == ds[placeholder := d] && D.Rewritable(d)
    ensures D.AllRewritable(more, location) <==> D.AllRewritable(ds, location)
  {
    forall b | b in ds ensures more[b] == ds[b] {}
  }

  // When the deletion goes through.

  predicate NamesUser(r: Ref, user: int) {
    (r.LoginSession? || r.OneTimeCode? || r.Usage? || r.PerformanceConfig? || r.MqttConfig? || r.Profile?) && r.user == user
  }

  /** No row holds a foreign key to the user. */
  predicate Unnamed(stages: map<int, Stage>, assets: map<int, Asset>, scenes: map<int, Scene>, refs: map<int, Ref>, user: int) {
    && (forall s :: s in stages ==> stages[s].owner != user)
    && (forall a :: a in assets ==> assets[a].owner != user)
    && (forall c :: c in scenes ==> scenes[c].owner != user)
    && (forall r :: r in refs ==> !NamesUser(refs[r], user))
  }

  /** A row of a table the deletion never visits that points at something the deletion removes. */
  ghost predicate Stranded(r: Ref, t: Tables, user: int, keep: set<string>) {
    match r
    case AssetAttribute(asset) => asset in t.assets && Doomed(t.assets[asset], user, keep)
    case PerformanceConfig(u) => u == user
    case MqttConfig(performance, u) =>
      u == user || (performance in t.performances && t.performances[performance] in t.stages
                    && t.stages[t.performances[performance]].owner == user)
    case Profile(u) => u == user
    case _ => false
  }

  /** The user does not own the placeholder, and no unvisited row points at what goes. */
  ghost predicate NoLeftovers(t: Tables, user: int, keep: set<string>) {
    && (forall a :: a in t.assets && t.assets[a].owner == user ==> t.assets[a].location != PLACEHOLDER_FILE_LOCATION)
    && (forall r :: r in t.refs ==> !Stranded(t.refs[r], t, user, keep))
  }

  /** The scrub meets no text nested too deep, there is a placeholder, the caller may delete every stage of the user, no
      configuration holds one of their performances, and every media item that goes can be removed. */
  ghost predicate ContentErasable(t: Tables, user: nat, caller: nat, isAdmin: bool, keep: set<string>, outside: Outside) {
    && ScrubPasses(t.attributes, user)
    && (outside.file || AnyPlaceholder(t.assets))
    && MayDeleteAll(t.stages, t.attributes, user, caller, isAdmin)
    && NonePinned(t.stages, t.performances, t.refs, user)
    && AllRemovable(t.assets, t.descriptions, t.refs, user, keep, outside.stuck)
  }

  /** When a deletion goes through, said of the tables before it. */
  ghost predicate Deletable(t: Tables, user: nat, caller: nat, isAdmin: bool, keep: set<string>, outside: Outside) {
    && user in t.users && t.users[user].name != CANONICAL_ADMIN_USERNAME && user != caller
    && AdminToBeHad(t.users)
    && ContentErasable(t, user, caller, isAdmin, keep, outside)
    && NoLeftovers(t, user, keep)
  }

  // What it leaves.

  /** The tables with the admin account and the placeholder in them. */
  ghost function Prepared(t: Tables, admin: int, placeholder: int, outside: Outside): Tables {
    t.(users := WithAdmin(t.users, admin),
       assets := WithPlaceholder(t.assets, admin, placeholder),
       descriptions := WithPlaceholderText(t.descriptions, t.assets, placeholder, outside.mediaText))
  }

  /** What deleting `user` leaves, table by table; the admin and the placeholder are there. */
  ghost predicate UserDeleted(was: Tables, user: nat, admin: int, placeholder: int, keep: set<string>, top: nat,
                              outside: Outside, now: Tables)
  {
    now.users == was.users - {user} && ContentDeleted(was, user, admin, placeholder, keep, top, outside, now)
  }

  ghost predicate ContentDeleted(was: Tables, user: nat, admin: int, placeholder: int, keep: set<string>, top: nat,
                                 outside: Outside, now: Tables)
  {
    var dead := StagesOf(was.stages, user);
    && now.stages == StagesWithout(was.stages, dead)
    && now.scenes == ScenesWithoutUser(ScenesWithout(was.scenes, dead), user)
    && now.performances == PerformancesWithout(was.performances, dead)
    && now.events == EventsWithout(was.stages, was.performances, was.events, dead)
    && now.attributes == AttributesWithout(Scrubbed(was.attributes, user, outside.accessText), dead)
    && AllVisited(Media(was.assets, LinksWithout(was.links, dead), RefsWithoutUser(was.refs, user), was.descriptions),
                  Media(now.assets, now.links, now.refs, now.descriptions), user, admin, keep, placeholder, outside.mediaText, top)
  }

  /** The tables a deletion leaves, computed. */
  ghost function Outcome(was: Tables, user: nat, admin: int, placeholder: int, keep: set<string>, top: nat, outside: Outside): Tables {
    var dead, gone := StagesOf(was.stages, user), Gone(was.assets, user, keep, top);
    Tables(was.users - {user},
           StagesWithout(was.stages, dead),
           AssetsAfter(was.assets, user, admin, keep, top),
           DescriptionsBelow(was.descriptions, was.assets, user, keep, outside.mediaText, top),
           LinksLeft(LinksWithout(was.links, dead), gone, Swapped(was.assets, user, keep, top), placeholder),
           ScenesWithoutUser(ScenesWithout(was.scenes, dead), user),
           PerformancesWithout(was.performances, dead),
           EventsWithout(was.stages, was.performances, was.events, dead),
           AttributesWithout(Scrubbed(was.attributes, user, outside.accessText), dead),
           RefsWithoutAssets(RefsWithoutUser(was.refs, user), gone))
  }

  lemma OutcomeIsDeletion(was: Tables, user: nat, admin: int, placeholder: int, keep: set<string>, top: nat, outside: Outside)
    ensures UserDeleted(was, user, admin, placeholder, keep, top, outside,
                        Outcome(was, user, admin, placeholder, keep, top, outside))
  {
  }

  /** What the content action means for the media of the user, other than the placeholder. */
  lemma ContentActionMeans(t: Tables, user: nat, admin: int, placeholder: int, deleteAll: bool, top: nat, outside: Outside, now: Tables)
    requires UserDeleted(Prepared(t, admin, placeholder, outside), user, admin, placeholder, KeepKinds(deleteAll), top, outside, now)
    requires Below(t.assets, top)
    ensures deleteAll ==> Discarded(t.assets, now.assets, user)
    ensures !deleteAll ==> HandedOver(t.assets, now.assets, user, admin)
  {
  }

  /** None of them is left. */
  ghost predicate Discarded(was: map<int, Asset>, now: map<int, Asset>, user: int) {
    forall a :: a in was && was[a].owner == user && was[a].location != PLACEHOLDER_FILE_LOCATION ==> a !in now
  }

  /** Avatars, props and backdrops are left as they were, but for their owner; the rest is gone. */
  ghost predicate HandedOver(was: map<int, Asset>, now: map<int, Asset>, user: int, admin: int) {
    forall a :: a in was && was[a].owner == user && was[a].location != PLACEHOLDER_FILE_LOCATION ==>
      if was[a].kind == "avatar" || was[a].kind == "prop" || was[a].kind == "backdrop"
      then a in now && now[a] == Asset(admin, was[a].kind, was[a].location) else a !in now
  }

  /** Keys stay below the next ones. */
  lemma DeletionStaysBelow(t: Tables, user: nat, admin: int, placeholder: int, keep: set<string>, top: nat, outside: Outside,
                           now: Tables, nextUser: nat, nextStage: nat, nextLink: nat, nextAttribute: nat)
    requires UserDeleted(Prepared(t, admin, placeholder, outside), user, admin, placeholder, keep, top, outside, now)
    requires Below(WithAdmin(t.users, admin), nextUser) && Below(t.stages, nextStage)
    requires Below(t.links, nextLink) && Below(t.attributes, nextAttribute)
    requires Below(t.assets, top) && Below(t.descriptions, top) && 0 < placeholder < top
    ensures Below(now.users, nextUser) && Below(now.stages, nextStage) && Below(now.assets, top) && Below(now.descriptions, top)
    ensures Below(now.links, nextLink) && Below(now.attributes, nextAttribute)
  {
    var was := Prepared(t, admin, placeholder, outside);
    DescriptionsLeft(was.descriptions, was.assets, user, keep, outside.mediaText, top);
  }

  lemma BelowMore<T>(table: map<int, T>, next: nat, top: nat)
    requires Below(table, next) && next <= top
    ensures Below(table, top)
  {
  }

  lemma StrandedNamesUser(t: Tables, user: nat, keep: set<string>, stuck: set<int>, r: int)
    requires r in t.refs && NonePinned(t.stages, t.performances, t.refs, user)
    requires AllRemovable(t.assets, t.descriptions, t.refs, user, keep, stuck)
    ensures Stranded(t.refs[r], t, user, keep) <==> NamesUser(t.refs[r], user) && !OfUser(t.refs[r], user)
  {
    match t.refs[r]
    case AssetAttribute(asset) =>
      assert AttributeOf(t.refs, r, asset);
      assert asset in t.assets ==> RemovableInTurn(t.assets, t.descriptions, t.refs, user, keep, stuck, asset);
    case MqttConfig(performance, u) =>
      if performance in t.performances {
        assert PinAt(t.performances, t.refs, t.performances[performance], r);
        assert t.performances[performance] !in StagesOf(t.stages, user);
      }
    case _ =>
  }

  lemma RefsLeft(was: Tables, user: nat, keep: set<string>, stuck: set<int>, gone: set<int>, left: map<int, Ref>)
    requires AllRemovable(was.assets, was.descriptions, was.refs, user, keep, stuck)
    requires NonePinned(was.stages, was.performances, was.refs, user)
    requires left == RefsWithoutAssets(RefsWithoutUser(was.refs, user), gone)
    ensures (forall r :: r in left ==> !NamesUser(left[r], user)) <==> (forall r :: r in was.refs ==> !Stranded(was.refs[r], was, user, keep))
  {
    forall r | r in was.refs
      ensures r in left && NamesUser(left[r], user) <==> Stranded(was.refs[r], was, user, keep)
    {
      StrandedNamesUser(was, user, keep, stuck, r);
    }
  }

  /** The content gone, some row still names the account exactly when there were leftovers. */
  lemma ContentDeletedUnnamed(was: Tables, user: nat, admin: int, placeholder: int, keep: set<string>, top: nat,
                              outside: Outside, now: Tables)
    requires user != admin && (forall a :: a in was.assets ==> a < top)
    requires AllRemovable(was.assets, was.descriptions, was.refs, user, keep, outside.stuck)
    requires NonePinned(was.stages, was.performances, was.refs, user)
    requires ContentDeleted(Prepared(was, admin, placeholder, outside), user, admin, placeholder, keep, top, outside, now)
    ensures Unnamed(now.stages, now.assets, now.scenes, now.refs, user) <==> NoLeftovers(was, user, keep)
  {
    var assets := WithPlaceholder(was.assets, admin, placeholder);
    OwnedLeft(was.assets, user, admin, placeholder, keep, top);
    assert now.assets == AssetsAfter(assets, user, admin, keep, top);
    RefsLeft(was, user, keep, outside.stuck, Gone(assets, user, keep, top), now.refs);
    StagesLeft(was.stages, was.scenes, user);
  }

  lemma StagesLeft(stages: map<int, Stage>, scenes: map<int, Scene>, user: nat)
    ensures forall s :: s in StagesWithout(stages, StagesOf(stages, user)) ==> stages[s].owner != user
    ensures forall c :: c in ScenesWithoutUser(scenes, user) ==> ScenesWithoutUser(scenes, user)[c].owner != user
  {
  }

  lemma OwnedLeft(assets: map<int, Asset>, user: nat, admin: int, placeholder: int, keep: set<string>, top: nat)
    requires user != admin && (forall a :: a in assets ==> a < top)
    ensures var left := AssetsAfter(WithPlaceholder(assets, admin, placeholder), user, admin, keep, top);
      (forall a :: a in left ==> left[a].owner != user)
      <==> (forall a :: a in assets && assets[a].owner == user ==> assets[a].location != PLACEHOLDER_FILE_LOCATION)
  {
    var left := AssetsAfter(WithPlaceholder(assets, admin, placeholder), user, admin, keep, top);
    forall a | a in assets
      ensures a in left && left[a].owner == user <==> assets[a].owner == user && assets[a].location == PLACEHOLDER_FILE_LOCATION {}
  }

  /** The account's own references stand in nobody's way. */
  lemma UserRefsBlockNothing(t: Tables, user: nat, keep: set<string>, stuck: set<int>)
    ensures AllRemovable(t.assets, t.descriptions, RefsWithoutUser(t.refs, user), user, keep, stuck)
       <==> AllRemovable(t.assets, t.descriptions, t.refs, user, keep, stuck)
    ensures NonePinned(t.stages, t.performances, RefsWithoutUser(t.refs, user), user)
       <==> NonePinned(t.stages, t.performances, t.refs, user)
  {
    var left := RefsWithoutUser(t.refs, user);
    forall a ensures Attributed(left, a) <==> Attributed(t.refs, a) {
      forall r ensures AttributeOf(left, r, a) <==> AttributeOf(t.refs, r, a) {}
    }
    forall a | a in t.assets
      ensures RemovableInTurn(t.assets, t.descriptions, left, user, keep, stuck, a)
         <==> RemovableInTurn(t.assets, t.descriptions, t.refs, user, keep, stuck, a) {}
    forall s ensures Pinned(t.performances, left, s) <==> Pinned(t.performances, t.refs, s) {
      forall r ensures PinAt(t.performances, left, s, r) <==> PinAt(t.performances, t.refs, s, r) {}
    }
  }
}
