/** A media row's JSON description, as cleanup_assets and _substitution_tokens read and rewrite it. */
module Descriptions {
  import opened Prelude
  import opened TopicMatch

  /** An element of `frames`: a string, or another value with the fate of looking it up as a file
      and of looking for a question mark in it. */
  datatype Frame = Str(s: string) | Strange(lookup: bool, scan: bool)

  /** The `frames` of an object: no such key, a number, boolean or null, or a list. */
  datatype Frames = NoKey | Plain(truthy: bool) | List(frames: seq<Frame>)

  /** What `json.loads` makes of a text: a ValueError, a RecursionError, a number, boolean or null, a list or
      string that contains "frames" or does not, or an object. */
  datatype Parse = NotJson | TooDeep | Scalar | Container(named: bool) | Object(frames: Frames)

  /** The text of the column beside its parse; a row without a description has none. */
  datatype Description = Description(text: string, parse: Parse)

  /** The empty text never parses. */
  function ParseOf(d: Description): Parse {
    if d.text == "" then NotJson else d.parse
  }

  predicate AllStrings(fs: seq<Frame>) {
    forall i :: 0 <= i < |fs| ==> fs[i].Str?
  }

  predicate AllLookUp(fs: seq<Frame>) {
    forall i :: 0 <= i < |fs| ==> fs[i].Str? || fs[i].lookup
  }

  predicate AllScan(fs: seq<Frame>) {
    forall i :: 0 <= i < |fs| ==> fs[i].Str? || fs[i].scan
  }

  /** `_substitution_tokens` raises: a value that is not an object has no `get`, and a frame must be a string. */
  predicate TokensRaise(d: Option<Description>) {
    d.Some? && d.value.text != "" &&
    match d.value.parse
    case NotJson => false
    case TooDeep => true
    case Scalar => true
    case Container(_) => true
    case Object(NoKey) => false
    case Object(Plain(truthy)) => truthy
    case Object(List(fs)) => !AllStrings(fs)
  }

  /** The first part of cleanup_assets raises on the media's own description. */
  predicate OwnRaises(d: Option<Description>) {
    d.Some? && d.value.text != "" &&
    match d.value.parse
    case NotJson => true
    case TooDeep => true
    case Scalar => true
    case Container(named) => named
    case Object(NoKey) => false
    case Object(Plain(_)) => true
    case Object(List(fs)) => !AllLookUp(fs)
  }

  /** The first part of cleanup_assets: parse the description, test for the key, look every frame up. */
  method LookUpFrames(d: Option<Description>) returns (r: Result<(), string>)
    ensures r.Ok? <==> !OwnRaises(d)
  {
    if d.None? || d.value.text == "" {
      return Ok(());
    }
    match d.value.parse {
      case NotJson =>
        return Err("ValueError");
      case TooDeep =>
        return Err("RecursionError");
      case Scalar =>
        return Err("TypeError");
      case Container(named) =>
        return if named then Err("TypeError") else Ok(());
      case Object(frames) =>
        if frames.NoKey? {
          return Ok(());
        }
        if frames.Plain? {
          return Err("TypeError");
        }
        for i := 0 to |frames.frames|
          invariant forall k :: 0 <= k < i ==> frames.frames[k].Str? || frames.frames[k].lookup
        {
          if frames.frames[i].Strange? && !frames.frames[i].lookup {
            return Err("ProgrammingError");
          }
        }
        return Ok(());
    }
  }

  /** The reading part of `_substitution_tokens`: what does not decode counts as an object without frames; the frames are
      looked up with `get`, nothing falsy is iterated, and every frame is split. */
  method TokenFrames(d: Option<Description>) returns (r: Result<(), string>)
    ensures r.Ok? <==> !TokensRaise(d)
  {
    if d.None? || d.value.text == "" {
      return Ok(());
    }
    match d.value.parse {
      case NotJson =>
        return Ok(());
      case TooDeep =>
        return Err("RecursionError");
      case Scalar =>
        return Err("AttributeError");
      case Container(_) =>
        return Err("AttributeError");
      case Object(frames) =>
        if frames.NoKey? || (frames.Plain? && !frames.truthy) {
          return Ok(());
        }
        if frames.Plain? {
          return Err("TypeError");
        }
        for i := 0 to |frames.frames|
          invariant forall k :: 0 <= k < i ==> frames.frames[k].Str?
        {
          if !frames.frames[i].Str? {
            return Err("AttributeError");
          }
        }
        return Ok(());
    }
  }

  /** A description that cleanup_assets can rewrite: an object with a list of frames it can search. */
  predicate Rewritable(d: Description) {
    ParseOf(d).Object? && ParseOf(d).frames.List? && AllScan(ParseOf(d).frames.frames)
  }

  /** The rows that cleanup_assets fetches for a file: `description LIKE '%<location>%'`. */
  predicate Mentions(d: Description, location: string) {
    Like("%" + location + "%", d.text)
  }

  /** `frame[: frame.index("?")]` where there is one. */
  function BeforeMark(s: string): string {
    if s == "" || s[0] == '?' then "" else [s[0]] + BeforeMark(s[1..])
  }

  function Trimmed(f: Frame): Frame {
    if f.Str? then Str(BeforeMark(f.s)) else f
  }

  /** `list.remove`: the first occurrence only. */
  function WithoutFirst(fs: seq<Frame>, location: string): seq<Frame> {
    if fs == [] then []
    else if fs[0] == Str(location) then fs[1..]
    else [fs[0]] + WithoutFirst(fs[1..], location)
  }

  function TrimmedAll(fs: seq<Frame>): (r: seq<Frame>)
    ensures |r| == |fs| && forall i :: 0 <= i < |fs| ==> r[i] == Trimmed(fs[i])
  {
    seq(|fs|, i requires 0 <= i < |fs| => Trimmed(fs[i]))
  }

  /** The rewritten row; `dumps` prints the rest of the object of the old text with the new frames. */
  function Rewrite(d: Description, location: string, dumps: (string, seq<Frame>) -> string): Description
    requires Rewritable(d)
  {
    var fs := WithoutFirst(TrimmedAll(d.parse.frames.frames), location);
    Description("{" + dumps(d.text, fs), Object(List(fs)))
  }

  lemma {:induction false} BeforeMarkIsPrefix(s: string)
    ensures BeforeMark(s) <= s && '?' !in BeforeMark(s)
    ensures BeforeMark(s) == s <==> '?' !in s
    ensures '?' in s ==> |BeforeMark(s)| < |s| && s[|BeforeMark(s)|] == '?'
  {
    if s != "" && s[0] != '?' {
      BeforeMarkIsPrefix(s[1..]);
      assert s == [s[0]] + s[1..];
    }
  }

  /** Removing a string leaves the strange elements, and so every fate that depends on them. */
  lemma {:induction false} WithoutFirstKeepsStrange(fs: seq<Frame>, location: string, f: Frame)
    ensures f in WithoutFirst(fs, location) ==> f in fs
    ensures f.Strange? ==> (f in WithoutFirst(fs, location) <==> f in fs)
  {
    if fs != [] && fs[0] != Str(location) {
      WithoutFirstKeepsStrange(fs[1..], location, f);
      assert fs == [fs[0]] + fs[1..];
    } else if fs != [] {
      assert fs == [fs[0]] + fs[1..];
    }
  }

  lemma TrimmedKeepsStrange(fs: seq<Frame>, f: Frame)
    requires f.Strange?
    ensures f in TrimmedAll(fs) <==> f in fs
  {
    if f in fs {
      var i :| 0 <= i < |fs| && fs[i] == f;
      assert TrimmedAll(fs)[i] == f;
    }
  }

  predicate SameStrange(fs: seq<Frame>, gs: seq<Frame>) {
    (forall i :: 0 <= i < |fs| && fs[i].Strange? ==> fs[i] in gs) && (forall i :: 0 <= i < |gs| && gs[i].Strange? ==> gs[i] in fs)
  }

  lemma RewriteKeepsStrange(fs: seq<Frame>, location: string)
    ensures SameStrange(fs, WithoutFirst(TrimmedAll(fs), location))
  {
    var gs := WithoutFirst(TrimmedAll(fs), location);
    forall f: Frame | f.Strange? ensures f in gs <==> f in fs {
      WithoutFirstKeepsStrange(TrimmedAll(fs), location, f);
      TrimmedKeepsStrange(fs, f);
    }
  }

  lemma SameStrangeSameFate(fs: seq<Frame>, gs: seq<Frame>)
    requires SameStrange(fs, gs)
    ensures AllStrings(fs) <==> AllStrings(gs)
    ensures AllLookUp(fs) <==> AllLookUp(gs)
    ensures AllScan(fs) <==> AllScan(gs)
  {
    OneWayFate(fs, gs);
    OneWayFate(gs, fs);
  }

  lemma OneWayFate(fs: seq<Frame>, gs: seq<Frame>)
    requires forall i :: 0 <= i < |fs| && fs[i].Strange? ==> fs[i] in gs
    ensures AllStrings(gs) ==> AllStrings(fs)
    ensures AllLookUp(gs) ==> AllLookUp(fs)
    ensures AllScan(gs) ==> AllScan(fs)
  {
    forall i | 0 <= i < |fs| && fs[i].Strange? ensures exists j :: 0 <= j < |gs| && gs[j] == fs[i] {
      assert fs[i] in gs;
    }
  }

  /** A rewritten row has the fate it had: it stays rewritable, and raises for itself exactly when it did. */
  predicate Kin(was: Description, now: Description) {
    now == was
    || (Rewritable(was) && Rewritable(now) && (OwnRaises(Some(was)) <==> OwnRaises(Some(now)))
        && (TokensRaise(Some(was)) <==> TokensRaise(Some(now))))
  }

  lemma RewriteIsKin(was: Description, now: Description, location: string, dumps: (string, seq<Frame>) -> string)
    requires Kin(was, now) && Rewritable(now)
    ensures Kin(was, Rewrite(now, location, dumps))
  {
    var fs := now.parse.frames.frames;
    var gs := WithoutFirst(TrimmedAll(fs), location);
    RewriteKeepsStrange(fs, location);
    SameStrangeSameFate(fs, gs);
    assert Rewrite(now, location, dumps).parse == Object(List(gs));
  }

  /** The file goes from the list once: a second mention of it stays. */
  lemma {:induction false} RemovesOne(fs: seq<Frame>, location: string)
    ensures multiset(WithoutFirst(fs, location)) == multiset(fs) - multiset{Str(location)}
  {
    if fs != [] {
      assert fs == [fs[0]] + fs[1..];
      if fs[0] != Str(location) {
        RemovesOne(fs[1..], location);
      }
    }
  }

  /** A frame up to its first question mark; a value that is not a string stays. */
  predicate CutOf(cut: Frame, was: Frame) {
    if was.Strange? then cut == was
    else cut.Str? && '?' !in cut.s && (cut.s == was.s || cut.s + "?" <= was.s)
  }

  lemma {:induction false} WithoutFirstExactly(fs: seq<Frame>, location: string) returns (k: nat)
    ensures Str(location) !in fs ==> WithoutFirst(fs, location) == fs
    ensures Str(location) in fs ==>
      k < |fs| && fs[k] == Str(location) && Str(location) !in fs[..k] && WithoutFirst(fs, location) == fs[..k] + fs[k + 1..]
  {
    k := 0;
    if fs != [] {
      assert fs == [fs[0]] + fs[1..];
      if fs[0] == Str(location) {
        assert fs[..0] + fs[1..] == fs[1..];
      } else {
        k := WithoutFirstExactly(fs[1..], location);
        if Str(location) in fs {
          assert fs[..k + 1] == [fs[0]] + fs[1..][..k] && fs[k + 2..] == fs[1..][k + 1..];
          k := k + 1;
        }
      }
    }
  }

  /** The frames of a rewritten row: each cut at its question mark, and the first that is then the file taken out. */
  lemma RewrittenFrames(d: Description, location: string, dumps: (string, seq<Frame>) -> string) returns (cuts: seq<Frame>, k: nat)
    requires Rewritable(d)
    ensures var now := Rewrite(d, location, dumps);
      && now.parse.Object? && now.parse.frames.List? && |cuts| == |d.parse.frames.frames|
      && (forall i :: 0 <= i < |cuts| ==> CutOf(cuts[i], d.parse.frames.frames[i]))
      && (if Str(location) in cuts
          then k < |cuts| && cuts[k] == Str(location) && Str(location) !in cuts[..k] && now.parse.frames.frames == cuts[..k] + cuts[k + 1..]
          else now.parse.frames.frames == cuts)
  {
    var was := d.parse.frames.frames;
    cuts := TrimmedAll(was);
    k := WithoutFirstExactly(cuts, location);
    forall i | 0 <= i < |cuts| ensures CutOf(cuts[i], was[i]) {
      if was[i].Str? {
        BeforeMarkIsPrefix(was[i].s);
      }
    }
  }

  /** The body of the loop over the fetched rows: cut every query part, drop the file once, print. */
  method RewriteRow(d: Description, location: string, dumps: (string, seq<Frame>) -> string) returns (r: Result<Description, string>)
    ensures r.Ok? <==> Rewritable(d)
    ensures r.Ok? ==> r.value == Rewrite(d, location, dumps)
    ensures r.Err? ==> r.error == if ParseOf(d).NotJson? then "ValueError" else if ParseOf(d).TooDeep? then "RecursionError"
                                  else if ParseOf(d) == Object(NoKey) then "KeyError" else "TypeError"
  {
    match ParseOf(d) {
      case NotJson =>
        return Err("ValueError");
      case TooDeep =>
        return Err("RecursionError");
      case Object(NoKey) =>
        return Err("KeyError");
      case Object(List(_)) =>
      case _ =>
        return Err("TypeError");
    }
    var frames := d.parse.frames.frames;
    for i := 0 to |frames|
      invariant |frames| == |d.parse.frames.frames|
      invariant forall k :: 0 <= k < i ==> frames[k] == Trimmed(d.parse.frames.frames[k])
      invariant forall k :: i <= k < |frames| ==> frames[k] == d.parse.frames.frames[k]
      invariant forall k :: 0 <= k < i ==> d.parse.frames.frames[k].Str? || d.parse.frames.frames[k].scan
    {
      if frames[i].Strange? && !frames[i].scan {
        return Err("TypeError");
      }
      if frames[i].Str? && '?' in frames[i].s {
        frames := frames[i := Str(BeforeMark(frames[i].s))];
      } else if frames[i].Str? {
        BeforeMarkIsPrefix(frames[i].s);
      }
    }
    assert frames == TrimmedAll(d.parse.frames.frames);
    frames := WithoutFirst(frames, location);
    return Ok(Description("{" + dumps(d.text, frames), Object(List(frames))));
  }

  // The column as a table.

  /** What one cleanup does to the fetched rows. */
  function RewriteAll(ds: map<int, Description>, location: string, dumps: (string, seq<Frame>) -> string): map<int, Description> {
    map b | b in ds :: if Mentions(ds[b], location) && Rewritable(ds[b]) then Rewrite(ds[b], location, dumps) else ds[b]
  }

  /** The rows below an id after their turn. */
  function RewriteBelow(ds: map<int, Description>, location: string, dumps: (string, seq<Frame>) -> string, below: int)
    : map<int, Description>
  {
    map b | b in ds :: if b < below && Mentions(ds[b], location) && Rewritable(ds[b]) then Rewrite(ds[b], location, dumps) else ds[b]
  }

  lemma RewriteNone(ds: map<int, Description>, location: string, dumps: (string, seq<Frame>) -> string)
    requires forall b :: b in ds ==> 0 < b
    ensures RewriteBelow(ds, location, dumps, 0) == ds
  {
  }

  lemma RewriteEnds(ds: map<int, Description>, location: string, dumps: (string, seq<Frame>) -> string, next: nat)
    requires forall b :: b in ds ==> b < next
    ensures RewriteBelow(ds, location, dumps, next) == RewriteAll(ds, location, dumps)
  {
  }

  lemma RewriteStep(ds: map<int, Description>, location: string, dumps: (string, seq<Frame>) -> string, b: int)
    ensures b in ds && Mentions(ds[b], location) && Rewritable(ds[b]) ==>
      RewriteBelow(ds, location, dumps, b + 1) == RewriteBelow(ds, location, dumps, b)[b := Rewrite(ds[b], location, dumps)]
    ensures b !in ds || !Mentions(ds[b], location) || !Rewritable(ds[b]) ==>
      RewriteBelow(ds, location, dumps, b + 1) == RewriteBelow(ds, location, dumps, b)
  {
  }

  function DescriptionOf(ds: map<int, Description>, a: int): Option<Description> {
    if a in ds then Some(ds[a]) else None
  }

  /** No fetched row raises. */
  ghost predicate AllRewritable(ds: map<int, Description>, location: string) {
    forall b :: b in ds && Mentions(ds[b], location) ==> Rewritable(ds[b])
  }
}
