/** A stage's stored player access: `resolve_permission` and the scrub that user deletion applies. */
module AccessLists {
  import opened Prelude
  import opened Text
  import opened TopicMatch

  /** An entry of a group: a string, or any other JSON value (never equal to a string). */
  datatype Entry = Str(s: string) | Other

  /** A JSON element of the access list. `in` means membership, substring or key; a scalar raises. */
  datatype Group = Ids(entries: seq<Entry>) | Text(s: string) | Keys(keys: seq<string>) | Scalar

  /** What `json.loads` makes of a stored text: a decoding error, one of the parser's two limits (a number
      with too many digits raises a plain ValueError, deep nesting a RecursionError), or a value. */
  datatype Access = BadJson | DigitLimit | TooDeep | NotList | Groups(groups: seq<Group>)

  datatype Permission = Audience | Owner | Player | Editor

  /** `token in group`, or the TypeError of testing membership in a scalar. */
  function In(token: string, g: Group): Result<bool, string> {
    match g
    case Ids(entries) => Ok(Str(token) in entries)
    case Text(s) => Ok(Occurs(token, s))
    case Keys(keys) => Ok(token in keys)
    case Scalar => Err("TypeError")
  }

  datatype StageInfo = StageInfo(owner: int, access: Option<Access>)

  /** `access` is the stage's playerAccess attribute, None when there is none. */
  function ResolvePermission(userId: Option<nat>, stage: Option<StageInfo>): Result<Permission, string> {
    if stage.None? then Ok(Audience)
    else if userId.None? || userId.value == 0 then Ok(Audience)
    else if stage.value.owner == userId.value then Ok(Owner)
    else match stage.value.access
      case Some(Groups(groups)) =>
        if |groups| != 2 then Ok(Audience) else
          var token := Decimal(userId.value);
          (match In(token, groups[0])
           case Err(e) => Err(e)
           case Ok(true) => Ok(Player)
           case Ok(false) =>
             match In(token, groups[1])
             case Err(e) => Err(e)
             case Ok(editor) => Ok(if editor then Editor else Audience))
      case Some(DigitLimit) => Err("ValueError")
      case Some(TooDeep) => Err("RecursionError")
      case _ => Ok(Audience)
  }

  /** The stored values on which the lookup raises: the parser gives up, the first group is a scalar, or the
      first does not name the user and the second is one. */
  predicate Unreadable(access: Access, userId: nat) {
    match access
    case DigitLimit => true
    case TooDeep => true
    case Groups(groups) =>
      |groups| == 2 && (groups[0].Scalar? || (groups[1].Scalar? && !Names(groups[0], userId)))
    case _ => false
  }

  predicate Names(g: Group, userId: nat) {
    In(Decimal(userId), g) == Ok(true)
  }

  /** The lookup raises exactly for a user other than the owner on such a value. */
  lemma LookupRaises(userId: nat, stage: StageInfo)
    ensures ResolvePermission(Some(userId), Some(stage)).Err?
       <==> userId != 0 && stage.owner != userId && stage.access.Some? && Unreadable(stage.access.value, userId)
    ensures userId != 0 && stage.owner != userId && stage.access.Some? && Unreadable(stage.access.value, userId) ==>
      ResolvePermission(Some(userId), Some(stage)) == match stage.access.value
        case DigitLimit => Err("ValueError") case TooDeep => Err("RecursionError") case _ => Err("TypeError")
  {
  }

  /** The roles: nobody and strangers to a missing stage are audience; the owner is the owner, whatever is stored;
      anyone else is a player when the first of two groups names them, and an editor when the first does not and the second does. */
  lemma RolesExactly(userId: nat, stage: StageInfo)
    ensures ResolvePermission(None, Some(stage)) == Ok(Audience) && ResolvePermission(Some(0), Some(stage)) == Ok(Audience)
    ensures ResolvePermission(Some(userId), None) == Ok(Audience)
    ensures userId != 0 ==> (ResolvePermission(Some(userId), Some(stage)) == Ok(Owner) <==> stage.owner == userId)
    ensures userId != 0 && stage.owner != userId && stage.access.Some? ==>
      && (ResolvePermission(Some(userId), Some(stage)) == Ok(Player) <==> NamedFirst(stage.access.value, Decimal(userId)))
      && (ResolvePermission(Some(userId), Some(stage)) == Ok(Editor) <==> NamedSecond(stage.access.value, Decimal(userId)))
    ensures stage.owner != userId && stage.access.None? ==> ResolvePermission(Some(userId), Some(stage)) == Ok(Audience)
  {
  }

  /** The group names the token: as a member, a substring or a key. */
  predicate InGroup(g: Group, token: string) {
    match g
    case Ids(entries) => Str(token) in entries
    case Text(s) => Occurs(token, s)
    case Keys(keys) => token in keys
    case Scalar => false
  }

  predicate NamedFirst(access: Access, token: string) {
    access.Groups? && |access.groups| == 2 && InGroup(access.groups[0], token)
  }

  predicate NamedSecond(access: Access, token: string) {
    && access.Groups? && |access.groups| == 2 && !access.groups[0].Scalar?
    && !InGroup(access.groups[0], token) && InGroup(access.groups[1], token)
  }

  /** The stored values that make the user an editor. */
  predicate MakesEditor(access: Access, userId: nat) {
    access.Groups? && |access.groups| == 2
    && In(Decimal(userId), access.groups[0]) == Ok(false) && Names(access.groups[1], userId)
  }

  const NOT_AUTHORIZED := "You are not authorized to update this stage"

  /** `extract_permission` on an existing stage: the stored access is consulted first, and may raise, whoever asks. */
  function ExtractPermission(userId: nat, isAdmin: bool, stage: StageInfo): Result<Permission, string> {
    match ResolvePermission(Some(userId), Some(stage))
    case Err(e) => Err(e)
    case Ok(permission) =>
      if stage.owner != userId && !isAdmin && permission != Editor && permission != Owner then Err(NOT_AUTHORIZED)
      else Ok(permission)
  }

  /** Who may change a stage: its owner; an administrator for whom its stored access can be read; and whoever it makes an editor. */
  predicate Granted(userId: nat, isAdmin: bool, stage: StageInfo) {
    || stage.owner == userId
    || ((userId == 0 || stage.access.None? || !Unreadable(stage.access.value, userId))
        && (isAdmin || (userId != 0 && stage.access.Some? && MakesEditor(stage.access.value, userId))))
  }

  lemma PermissionGranted(userId: nat, isAdmin: bool, stage: StageInfo)
    ensures ExtractPermission(userId, isAdmin, stage).Ok? <==> Granted(userId, isAdmin, stage)
  {
    LookupRaises(userId, stage);
  }

  /** `[entry for entry in group if entry != token]` */
  function Filtered(entries: seq<Entry>, token: string): seq<Entry> {
    if entries == [] then []
    else (if entries[0] == Str(token) then [] else [entries[0]]) + Filtered(entries[1..], token)
  }

  function CleanGroup(g: Group, token: string): Group {
    if g.Ids? then Ids(Filtered(g.entries, token)) else g
  }

  function CleanGroups(groups: seq<Group>, token: string): seq<Group> {
    seq(|groups|, i requires 0 <= i < |groups| => CleanGroup(groups[i], token))
  }

  /** The new attribute value; what is not a JSON list is left alone. */
  function Scrub(access: Access, token: string): Access {
    match access
    case Groups(groups) => Groups(CleanGroups(groups, token))
    case _ => access
  }

  lemma {:induction false} FilteredMembers(entries: seq<Entry>, token: string, e: Entry)
    ensures e in Filtered(entries, token) <==> e in entries && e != Str(token)
  {
    if entries != [] {
      FilteredMembers(entries[1..], token, e);
      assert entries == [entries[0]] + entries[1..];
    }
  }

  /** A stored attribute: the text of the column, and what `json.loads` makes of it. The stage form
      stores its text unread, so the two need not be what `json.dumps` would pair. */
  datatype Stored = Stored(text: string, value: Access)

  function Quoted(token: string): string {
    "\"" + token + "\""
  }

  /** The query's `description.contains('"<id>"')`. */
  predicate Quotes(text: string, token: string) {
    Occurs(Quoted(token), text)
  }

  ghost predicate SplitAround(text: string, token: string, head: string, tail: string) {
    text == head + "\"" + token + "\"" + tail
  }

  /** The query selects a text exactly when the id stands in it between two quotation marks. */
  lemma QuotesExactly(text: string, token: string)
    ensures Quotes(text, token) <==> exists head, tail :: SplitAround(text, token, head, tail)
  {
    if Quotes(text, token) {
      var i :| 0 <= i <= |text| && Quoted(token) <= text[i..];
      assert text == text[..i] + Quoted(token) + text[i..][|Quoted(token)|..];
      assert SplitAround(text, token, text[..i], text[i..][|Quoted(token)|..]);
    }
    if head, tail :| SplitAround(text, token, head, tail) {
      assert text[|head|..] == Quoted(token) + tail;
      assert Quoted(token) <= text[|head|..];
    }
  }

  /** One turn of the scrub: a row that the query selects and whose list changes is written back. */
  function Cleaned(s: Stored, token: string, dumps: Access -> string): Stored {
    if Quotes(s.text, token) && Scrub(s.value, token) != s.value
    then Stored(dumps(Scrub(s.value, token)), Scrub(s.value, token))
    else s
  }

  /** The body of the scrub's loop: a row whose text does not quote the id is not fetched, one that does not decode or is not
      a list is skipped, one nested too deep raises, and one that the scrub leaves as it was is not written. */
  method CleanRow(s: Stored, token: string, dumps: Access -> string) returns (r: Result<Stored, string>)
    ensures r.Err? <==> Quotes(s.text, token) && s.value.TooDeep?
    ensures r.Ok? ==> r.value == Cleaned(s, token, dumps)
    ensures r.Err? ==> r.error == "RecursionError"
  {
    if !Quotes(s.text, token) {
      return Ok(s);
    }
    match s.value {
      case TooDeep =>
        return Err("RecursionError");
      case Groups(groups) =>
        var cleaned := CleanGroups(groups, token);
        return Ok(if cleaned != groups then Stored(dumps(Groups(cleaned)), Groups(cleaned)) else s);
      case _ =>
        return Ok(s);
    }
  }

  lemma ScrubKeepsMembership(token: string, doomed: string, g: Group)
    ensures token != doomed ==> In(token, CleanGroup(g, doomed)) == In(token, g)
    ensures In(doomed, CleanGroup(g, doomed)) == if g.Ids? then Ok(false) else In(doomed, g)
  {
    if g.Ids? {
      FilteredMembers(g.entries, doomed, Str(token));
      FilteredMembers(g.entries, doomed, Str(doomed));
    }
  }

  /** Nobody else's permission changes, on any stage and for any stored text and value. */
  lemma ScrubSparesOthers(doomed: nat, other: Option<nat>, owner: int, s: Stored, dumps: Access -> string)
    requires other != Some(doomed)
    ensures ResolvePermission(other, Some(StageInfo(owner, Some(Cleaned(s, Decimal(doomed), dumps).value))))
         == ResolvePermission(other, Some(StageInfo(owner, Some(s.value))))
  {
    if other.Some? && s.value.Groups? && |s.value.groups| == 2 {
      if Decimal(other.value) == Decimal(doomed) {
        DecimalInjective(other.value, doomed);
      }
      ScrubKeepsMembership(Decimal(other.value), Decimal(doomed), s.value.groups[0]);
      ScrubKeepsMembership(Decimal(other.value), Decimal(doomed), s.value.groups[1]);
    }
  }

  /** A group that no longer names the token: a list whose row the query found, or one that never did. */
  predicate Shut(text: string, g: Group, token: string) {
    (g.Ids? && Quotes(text, token)) || In(token, g) == Ok(false)
  }

  /** What leaves a user without a role: the parser fails plainly or reads no list of two groups, or both groups are shut. */
  predicate ShutOut(s: Stored, userId: nat) {
    match s.value
    case DigitLimit => false
    case TooDeep => false
    case Groups(groups) =>
      |groups| != 2 || (Shut(s.text, groups[0], Decimal(userId)) && Shut(s.text, groups[1], Decimal(userId)))
    case _ => true
  }

  /** The deleted id is audience exactly when the parser did not hit a limit and both consulted groups are shut: each a
      list in a row whose text quotes the id, or a group that does not name it (and does not raise). */
  lemma ScrubShutsOut(doomed: nat, owner: int, s: Stored, dumps: Access -> string)
    requires owner != doomed
    ensures ResolvePermission(Some(doomed), Some(StageInfo(owner, Some(Cleaned(s, Decimal(doomed), dumps).value)))) == Ok(Audience)
       <==> doomed == 0 || ShutOut(s, doomed)
  {
    if s.value.Groups? && |s.value.groups| == 2 {
      ScrubKeepsMembership(Decimal(doomed), Decimal(doomed), s.value.groups[0]);
      ScrubKeepsMembership(Decimal(doomed), Decimal(doomed), s.value.groups[1]);
    }
  }

  /** The text `[["\u0037"], []]`: JSON for a list whose only id is "7", without the id in quotes. */
  function EscapedSeven(): Stored {
    Stored(@"[[""\u0037""], []]", Groups([Ids([Str("7")]), Ids([])]))
  }

  predicate QuotedAt(text: string, i: int, digit: char) {
    0 <= i < |text| - 1 && text[i] == '"' && text[i + 1] == digit
  }

  lemma QuotedDigit(text: string, digit: char)
    requires Quotes(text, [digit])
    ensures exists i :: QuotedAt(text, i, digit)
  {
    var w := Quoted([digit]);
    var i :| 0 <= i <= |text| && w <= text[i..];
    assert text[i..][0] == w[0] == '"' && text[i..][1] == w[1] == digit;
    assert QuotedAt(text, i, digit);
  }

  /** An id escaped in the stored text is missed by the query, and keeps its permission. */
  lemma EscapedIdEscapes(owner: int, dumps: Access -> string)
    requires owner != 7
    ensures Cleaned(EscapedSeven(), Decimal(7), dumps) == EscapedSeven()
    ensures ResolvePermission(Some(7), Some(StageInfo(owner, Some(EscapedSeven().value)))) == Ok(Player)
  {
    assert Decimal(7) == ['7'];
    assert forall i :: !QuotedAt(EscapedSeven().text, i, '7');
    if Quotes(EscapedSeven().text, ['7']) {
      QuotedDigit(EscapedSeven().text, '7');
    }
    assert Str("7") in [Str("7")];
  }

  /** A scalar where a group is expected makes every lookup raise, the administrator's included. */
  lemma ScalarGroupRaises(userId: nat, isAdmin: bool, owner: int, second: Group)
    requires userId != 0 && userId != owner
    ensures ExtractPermission(userId, isAdmin, StageInfo(owner, Some(Groups([Scalar, second])))) == Err("TypeError")
  {
  }

  function Ones(n: nat): string {
    seq(n, i => '1')
  }

  /** The text `[["7"], [11...1]]` with 5000 digits. */
  function LongNumber(): Stored {
    Stored("[[" + Quoted("7") + ("], [" + Ones(5000) + "]]"), DigitLimit)
  }

  lemma QuotesInside(head: string, token: string, tail: string)
    ensures Quotes(head + Quoted(token) + tail, token)
  {
    var text := head + Quoted(token) + tail;
    assert text[|head|..] == Quoted(token) + tail;
    assert Quoted(token) <= text[|head|..];
  }

  /** A number beyond the digit limit keeps a row from being scrubbed, and makes every lookup on it raise. */
  lemma LongNumberRaises(owner: int, userId: nat, isAdmin: bool, dumps: Access -> string)
    requires userId != 0 && userId != owner
    ensures Quotes(LongNumber().text, Decimal(7)) && Cleaned(LongNumber(), Decimal(7), dumps) == LongNumber()
    ensures ExtractPermission(userId, isAdmin, StageInfo(owner, Some(LongNumber().value))) == Err("ValueError")
  {
    assert Decimal(7) == "7";
    QuotesInside("[[", "7", "], [" + Ones(5000) + "]]");
  }
}
