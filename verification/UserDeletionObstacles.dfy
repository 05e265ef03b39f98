/** What keeps a user from being deleted, at an input of each kind, beside an ordinary account that goes. */
module UserDeletionObstacles {
  import opened Prelude
  import opened Text
  import opened TopicMatch
  import opened AccessLists
  import opened MediaDeletion
  import opened UserDeletionSpec
  import D = Descriptions

  /** User 7 owns a stage with a performance and a sound; user 8 owns a stage and a prop. */
  function Ordinary(): Tables {
    Tables(map[1 := Account("admin", None), 7 := Account("eve", None), 8 := Account("bob", None)],
           map[1 := Stage(7, "hall"), 2 := Stage(8, "attic")],
           map[3 := Asset(7, "audio", "audio/x.mp3"), 4 := Asset(8, "prop", "prop/y.png"), 9 := Asset(1, "prop", PLACEHOLDER_FILE_LOCATION)],
           map[], map[], map[], map[1 := 1, 2 := 2], map[], map[], map[])
  }

  lemma NothingAttached(t: Tables, user: int, keep: set<string>, stuck: set<int>)
    requires t.descriptions == map[] && t.refs == map[] && stuck == {}
    ensures AllRemovable(t.assets, t.descriptions, t.refs, user, keep, stuck)
    ensures NonePinned(t.stages, t.performances, t.refs, user)
  {
  }

  lemma NoListNoQuestion(t: Tables, user: nat, caller: nat)
    requires t.attributes == map[]
    ensures ScrubPasses(t.attributes, user) && MayDeleteAll(t.stages, t.attributes, user, caller, true)
  {
  }

  /** An administrator can delete user 7, with or without the media. */
  lemma OrdinaryGoes(deleteAll: bool, outside: Outside)
    requires outside.stuck == {}
    ensures Intact(Ordinary()) && Deletable(Ordinary(), 7, 1, true, KeepKinds(deleteAll), outside)
  {
    var t := Ordinary();
    NothingAttached(t, 7, KeepKinds(deleteAll), outside.stuck);
    NoListNoQuestion(t, 7, 1);
    assert HasPlaceholder(t.assets, 9) && AdminAt(t.users, 1);
  }

  // Media.

  /** A description typed as plain text. */
  function Hello(): D.Description {
    D.Description("hello", D.NotJson)
  }

  /** A media item that goes and whose description does not parse. */
  lemma PlainTextBlocks(t: Tables, user: nat, caller: nat, isAdmin: bool, keep: set<string>, outside: Outside, a: int)
    requires a in t.assets && Doomed(t.assets[a], user, keep) && D.DescriptionOf(t.descriptions, a) == Some(Hello())
    ensures !Deletable(t, user, caller, isAdmin, keep, outside)
  {
    assert D.DescriptionOf(t.descriptions - Gone(t.assets, user, keep, a), a) == Some(Hello());
    assert !RemovableInTurn(t.assets, t.descriptions, t.refs, user, keep, outside.stuck, a);
  }

  lemma HelloBlocks(deleteAll: bool, outside: Outside)
    ensures !Deletable(Ordinary().(descriptions := map[3 := Hello()]), 7, 1, true, KeepKinds(deleteAll), outside)
  {
    PlainTextBlocks(Ordinary().(descriptions := map[3 := Hello()]), 7, 1, true, KeepKinds(deleteAll), outside, 3);
  }

  /** What saving a note without frames stores. */
  function NoteOn(location: string): D.Description {
    D.Description("{\"note\": \"see " + location + "\"}", D.Object(D.NoKey))
  }

  lemma NoteMentions(location: string)
    requires Plain(location)
    ensures D.Mentions(NoteOn(location), location) && !D.Rewritable(NoteOn(location))
  {
    var head, text := "{\"note\": \"see ", NoteOn(location).text;
    LikeSomewhere(location, text);
    assert text == head + location + "\"}";
    assert text[|head|..|head| + |location|] == location;
    assert AgreesAt(location, text, |head|);
  }

  /** Anybody's surviving media with a note that names the file of a media item that goes. */
  lemma NoteBlocks(t: Tables, user: nat, caller: nat, isAdmin: bool, keep: set<string>, outside: Outside, a: int, b: int)
    requires a in t.assets && Doomed(t.assets[a], user, keep) && Plain(t.assets[a].location)
    requires b in t.assets && !Doomed(t.assets[b], user, keep)
    requires b in t.descriptions && t.descriptions[b] == NoteOn(t.assets[a].location)
    ensures !Deletable(t, user, caller, isAdmin, keep, outside)
  {
    NoteMentions(t.assets[a].location);
    var ds := t.descriptions - Gone(t.assets, user, keep, a);
    assert b in ds && ds[b] == t.descriptions[b];
    assert !RemovableInTurn(t.assets, t.descriptions, t.refs, user, keep, outside.stuck, a);
  }

  lemma SomeonesNoteBlocks(deleteAll: bool, outside: Outside)
    ensures !Deletable(Ordinary().(descriptions := map[4 := NoteOn("audio/x.mp3")]), 7, 1, true, KeepKinds(deleteAll), outside)
  {
    NoteBlocks(Ordinary().(descriptions := map[4 := NoteOn("audio/x.mp3")]), 7, 1, true, KeepKinds(deleteAll), outside, 3, 4);
  }

  // The admin account.

  /** No account is called "admin" any more, and user 8 holds its email. */
  lemma TakenEmailBlocks(caller: nat, isAdmin: bool, keep: set<string>, outside: Outside)
    ensures var users := map[1 := Account("root", None), 7 := Account("eve", None), 8 := Account("bob", Some(CANONICAL_ADMIN_EMAIL))];
      !Deletable(Ordinary().(users := users), 7, caller, isAdmin, keep, outside)
  {
    var users := map[1 := Account("root", None), 7 := Account("eve", None), 8 := Account("bob", Some(CANONICAL_ADMIN_EMAIL))];
    assert HoldsAdminEmail(users, 8);
    assert forall u :: !AdminAt(users, u);
  }

  // Rows the cascade does not visit.

  /** A performance configuration of the user's own, or somebody else's MQTT configuration for their performance. */
  lemma ConfigurationBlocks(ref: Ref, caller: nat, isAdmin: bool, keep: set<string>, outside: Outside)
    requires ref == PerformanceConfig(7) || ref == MqttConfig(1, 8)
    ensures Intact(Ordinary().(refs := map[1 := ref])) && !Deletable(Ordinary().(refs := map[1 := ref]), 7, caller, isAdmin, keep, outside)
  {
    var t := Ordinary().(refs := map[1 := ref]);
    assert RefValid(t, ref) && Stranded(t.refs[1], t, 7, keep);
  }

  // Access lists.

  /** A scalar in the access list of one of their stages, even for an administrator. */
  lemma ScalarGroupBlocks(t: Tables, user: nat, caller: nat, isAdmin: bool, keep: set<string>, outside: Outside,
                          stage: int, b: int, second: Group)
    requires stage in t.stages && t.stages[stage].owner == user && caller != 0
    requires IsAccessRow(t.attributes, stage, b) && t.attributes[b].stored.value == Groups([Scalar, second])
    ensures !Deletable(t, user, caller, isAdmin, keep, outside)
  {
    SameAccess(t.attributes, t.attributes, stage);
    assert caller != user ==> !MayDelete(t.stages, t.attributes, caller, isAdmin, stage);
    assert stage in StagesOf(t.stages, user);
  }

  /** A number beyond the parser's digit limit in one of their stages' lists. */
  lemma LongNumberBlocks(t: Tables, user: nat, caller: nat, isAdmin: bool, keep: set<string>, outside: Outside, stage: int, b: int)
    requires stage in t.stages && t.stages[stage].owner == user && caller != 0
    requires IsAccessRow(t.attributes, stage, b) && t.attributes[b].stored == LongNumber()
    ensures !Deletable(t, user, caller, isAdmin, keep, outside)
  {
    SameAccess(t.attributes, t.attributes, stage);
    assert caller != user ==> !MayDelete(t.stages, t.attributes, caller, isAdmin, stage);
    assert stage in StagesOf(t.stages, user);
  }

  function Brackets(n: nat): string {
    seq(n, i => '[')
  }

  /** The text `[["7"], [[[...` nested a hundred thousand deep. */
  function DeepList(): Stored {
    Stored("[[" + Quoted("7") + ("], " + Brackets(100000)), TooDeep)
  }

  /** A list nested too deep that quotes the id stops the scrub, on anybody's stage. */
  lemma DeepListBlocks(t: Tables, caller: nat, isAdmin: bool, keep: set<string>, outside: Outside, b: int)
    requires b in t.attributes && t.attributes[b].name == "playerAccess" && t.attributes[b].stored == DeepList()
    ensures !Deletable(t, 7, caller, isAdmin, keep, outside)
  {
    assert Decimal(7) == "7";
    QuotesInside("[[", "7", "], " + Brackets(100000));
    assert ScrubRaisesAt(t.attributes, 7, b);
  }
}
