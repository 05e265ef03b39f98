/** How the services find a stage's events: SQL LIKE and ILIKE on `%/slug/%`. */
module TopicMatch {
  import opened Text

  /** SQL LIKE: `%` is any text, `_` any one character, `\` takes the next character literally. */
  predicate Like(p: string, s: string)
    decreases |p|, |s|
  {
    if p == "" then s == ""
    else if p[0] == '%' then Like(p[1..], s) || (s != "" && Like(p, s[1..]))
    else if p[0] == '\\' then |p| > 1 && s != "" && s[0] == p[1] && Like(p[2..], s[1..])
    else s != "" && (p[0] == '_' || p[0] == s[0]) && Like(p[1..], s[1..])
  }

  /** ILIKE compares with case folded on both sides. */
  predicate ILike(p: string, s: string) {
    Like(Lower(p), Lower(s))
  }

  function StagePattern(slug: string): string {
    "%/" + slug + "/%"
  }

  /** Free of the wildcard that stretches and of the escape; an underscore may remain. */
  predicate Plain(s: string) {
    '%' !in s && '\\' !in s
  }

  predicate Literal(s: string) {
    Plain(s) && '_' !in s
  }

  /** What a plain pattern matches: text of its length that equals it wherever it is not an underscore. */
  predicate Agrees(p: string, s: string) {
    |p| == |s| && forall i :: 0 <= i < |p| ==> p[i] == '_' || p[i] == s[i]
  }

  predicate SlashFree(s: string) {
    '/' !in s
  }

  predicate Occurs(w: string, s: string) {
    exists i :: 0 <= i <= |s| && w <= s[i..]
  }

  function Topic(space: string, slug: string, leaf: string): string {
    space + "/" + slug + "/" + leaf
  }

  lemma {:induction false} LikeAny(s: string)
    ensures Like("%", s)
    decreases |s|
  {
    if s != "" {
      LikeAny(s[1..]);
    }
  }

  /** A leading `%` may swallow any prefix. */
  lemma {:induction false} LikePercent(q: string, s: string)
    ensures Like("%" + q, s) <==> exists i :: 0 <= i <= |s| && Like(q, s[i..])
    decreases |s|
  {
    var p := "%" + q;
    assert p[1..] == q && s[0..] == s;
    if s != "" {
      LikePercent(q, s[1..]);
      forall i | 0 <= i <= |s[1..]| ensures s[1..][i..] == s[i + 1..] {}
      if i :| 0 <= i <= |s| && Like(q, s[i..]) {
        if i > 0 {
          assert s[1..][i - 1..] == s[i..];
        }
      }
      if Like(p, s[1..]) {
        var i :| 0 <= i <= |s[1..]| && Like(q, s[1..][i..]);
        assert s[i + 1..] == s[1..][i..];
      }
    }
  }

  /** A leading plain part must be met character by character. */
  lemma {:induction false} LikePlain(w: string, q: string, s: string)
    requires Plain(w)
    ensures Like(w + q, s) <==> |w| <= |s| && Agrees(w, s[..|w|]) && Like(q, s[|w|..])
    decreases |w|
  {
    if w == "" {
      assert w + q == q && s[0..] == s;
    } else {
      assert (w + q)[1..] == w[1..] + q;
      assert w[0] != '%' && w[0] != '\\';
      if s != "" {
        LikePlain(w[1..], q, s[1..]);
        if |w| <= |s| {
          assert s[1..][..|w| - 1] == s[..|w|][1..] && s[1..][|w| - 1..] == s[|w|..];
          AgreesFirst(w, s[..|w|]);
        }
      }
    }
  }

  lemma AgreesFirst(p: string, s: string)
    requires p != "" && |p| == |s|
    ensures Agrees(p, s) <==> (p[0] == '_' || p[0] == s[0]) && Agrees(p[1..], s[1..])
  {
    if Agrees(p[1..], s[1..]) {
      forall i | 1 <= i < |p| ensures p[i] == '_' || p[i] == s[i] {
        assert p[1..][i - 1] == p[i] && s[1..][i - 1] == s[i];
      }
    }
  }

  ghost predicate AgreesAt(w: string, s: string, i: int) {
    0 <= i <= |s| - |w| && Agrees(w, s[i..i + |w|])
  }

  /** A plain text between two `%` means "somewhere a stretch agrees with it". */
  lemma LikeSomewhere(w: string, s: string)
    requires Plain(w)
    ensures Like("%" + w + "%", s) <==> exists i :: AgreesAt(w, s, i)
  {
    assert "%" + w + "%" == "%" + (w + "%");
    LikePercent(w + "%", s);
    forall i | 0 <= i <= |s| ensures Like(w + "%", s[i..]) <==> AgreesAt(w, s, i) {
      LikePlain(w, "%", s[i..]);
      if |w| <= |s[i..]| {
        assert s[i..][..|w|] == s[i..i + |w|];
        LikeAny(s[i..][|w|..]);
      }
    }
    if i :| AgreesAt(w, s, i) {
      assert Like(w + "%", s[i..]);
    }
  }

  lemma LikeStagePattern(slug: string, s: string)
    requires Plain(slug)
    ensures Like(StagePattern(slug), s) <==> exists i :: AgreesAt("/" + slug + "/", s, i)
  {
    assert StagePattern(slug) == "%" + ("/" + slug + "/") + "%";
    LikeSomewhere("/" + slug + "/", s);
  }

  /** In a three-part topic only the middle part stands between two slashes. */
  lemma AgreesInTopic(slug: string, space: string, mid: string, leaf: string)
    requires SlashFree(slug) && SlashFree(space) && SlashFree(mid) && SlashFree(leaf)
    ensures (exists i :: AgreesAt("/" + slug + "/", Topic(space, mid, leaf), i)) <==> Agrees(slug, mid)
  {
    var t, w := Topic(space, mid, leaf), "/" + slug + "/";
    var m := |space|;
    var n := m + 1 + |mid|;
    assert forall k :: 0 <= k < |t| && t[k] == '/' ==> k == m || k == n;
    if Agrees(slug, mid) {
      var part := t[m..m + |w|];
      assert part[0] == '/' && part[|w| - 1] == '/';
      forall k | 0 <= k < |w| ensures w[k] == '_' || w[k] == part[k] {
        if 0 < k < |w| - 1 {
          assert w[k] == slug[k - 1] && part[k] == mid[k - 1];
        }
      }
      assert AgreesAt(w, t, m);
    }
    if i :| AgreesAt(w, t, i) {
      var part := t[i..i + |w|];
      assert w[0] == '/' && w[|w| - 1] == '/';
      assert part[0] == '/' && part[|w| - 1] == '/';
      assert t[i] == '/' && t[i + |w| - 1] == '/';
      assert i == m && i + |w| - 1 == n;
      forall k | 0 <= k < |slug| ensures slug[k] == '_' || slug[k] == mid[k] {
        assert w[k + 1] == slug[k] && part[k + 1] == mid[k];
      }
    }
  }

  lemma LowerSlashFree(s: string)
    requires SlashFree(s)
    ensures SlashFree(Lower(s))
  {
    forall i | 0 <= i < |s| ensures Lower(s)[i] != '/' {
      assert s[i] in s;
    }
  }

  lemma LowerPlain(s: string)
    requires Plain(s)
    ensures Plain(Lower(s))
  {
    forall i | 0 <= i < |s| ensures Lower(s)[i] != '%' && Lower(s)[i] != '\\' {
      assert s[i] in s;
    }
  }

  lemma LowerTopic(space: string, mid: string, leaf: string)
    ensures Lower(Topic(space, mid, leaf)) == Topic(Lower(space), Lower(mid), Lower(leaf))
  {
  }

  lemma LowerPattern(slug: string)
    ensures Lower(StagePattern(slug)) == StagePattern(Lower(slug))
  {
  }

  /** Reads (LIKE) see exactly the rows whose middle segment agrees with the slug;
      sweeps and saves (ILIKE) take exactly those that agree with it up to case. */
  lemma StageOfTopic(slug: string, space: string, mid: string, leaf: string)
    requires Plain(slug) && SlashFree(slug)
    requires SlashFree(space) && SlashFree(mid) && SlashFree(leaf)
    ensures Like(StagePattern(slug), Topic(space, mid, leaf)) <==> Agrees(slug, mid)
    ensures ILike(StagePattern(slug), Topic(space, mid, leaf)) <==> Agrees(Lower(slug), Lower(mid))
  {
    LikeStagePattern(slug, Topic(space, mid, leaf));
    AgreesInTopic(slug, space, mid, leaf);
    LowerPlain(slug);
    LowerSlashFree(slug);
    LowerSlashFree(space);
    LowerSlashFree(mid);
    LowerSlashFree(leaf);
    LowerPattern(slug);
    LowerTopic(space, mid, leaf);
    LikeStagePattern(Lower(slug), Lower(Topic(space, mid, leaf)));
    AgreesInTopic(Lower(slug), Lower(space), Lower(mid), Lower(leaf));
  }

  predicate SlashAt(s: string, i: int) {
    0 <= i < |s| && s[i] == '/'
  }

  ghost predicate TwoSlashes(s: string) {
    exists i, j :: i < j && SlashAt(s, i) && SlashAt(s, j)
  }

  lemma TopicHasTwoSlashes(space: string, mid: string, leaf: string)
    ensures TwoSlashes(Topic(space, mid, leaf))
  {
    assert SlashAt(Topic(space, mid, leaf), |space|) && SlashAt(Topic(space, mid, leaf), |space| + 1 + |mid|);
  }

  /** A slash somewhere, and then the rest of the pattern. */
  lemma LikeSlash(q: string, s: string)
    ensures Like("%/" + q, s) <==> exists i :: SlashAt(s, i) && Like(q, s[i + 1..])
  {
    assert "%/" + q == "%" + ("/" + q);
    LikePercent("/" + q, s);
    forall i | 0 <= i <= |s| ensures Like("/" + q, s[i..]) <==> SlashAt(s, i) && Like(q, s[i + 1..]) {
      assert ("/" + q)[1..] == q;
      if i < |s| {
        assert s[i..][0] == s[i] && s[i..][1..] == s[i + 1..];
      }
    }
    if i :| SlashAt(s, i) && Like(q, s[i + 1..]) {
      assert Like("/" + q, s[i..]);
    }
  }

  /** The slug "%" answers to every topic with two slashes. */
  lemma PercentSlug(s: string)
    ensures Like(StagePattern("%"), s) <==> TwoSlashes(s)
  {
    assert StagePattern("%") == "%/" + ("%/" + "%");
    LikeSlash("%/" + "%", s);
    forall i | SlashAt(s, i) ensures Like("%/" + "%", s[i + 1..]) <==> exists j :: i < j && SlashAt(s, j) {
      var rest := s[i + 1..];
      LikeSlash("%", rest);
      if k :| SlashAt(rest, k) {
        LikeAny(rest[k + 1..]);
        assert SlashAt(s, i + 1 + k);
      }
      if j :| i < j && SlashAt(s, j) {
        assert SlashAt(rest, j - i - 1);
        LikeAny(rest[j - i - 1 + 1..]);
      }
    }
  }

  /** Folding case only ever adds matches: a sweep takes every row that a read shows. */
  lemma {:induction false} LikeImpliesILike(p: string, s: string)
    requires Like(p, s)
    ensures ILike(p, s)
    decreases |p|, |s|
  {
    var lp, ls := Lower(p), Lower(s);
    if p == "" {
    } else if p[0] == '%' {
      assert lp[0] == '%';
      if Like(p[1..], s) {
        LikeImpliesILike(p[1..], s);
        assert Lower(p[1..]) == lp[1..];
      } else {
        LikeImpliesILike(p, s[1..]);
        assert Lower(s[1..]) == ls[1..];
      }
    } else if p[0] == '\\' {
      LikeImpliesILike(p[2..], s[1..]);
      assert lp[0] == '\\' && lp[1] == ls[0];
      assert Lower(p[2..]) == lp[2..] && Lower(s[1..]) == ls[1..];
    } else {
      LikeImpliesILike(p[1..], s[1..]);
      assert Lower(p[1..]) == lp[1..] && Lower(s[1..]) == ls[1..];
      assert lp[0] != '%' && lp[0] != '\\';
    }
  }

  /** A slug typed into the stage form may hold an underscore, and its pattern
      then also reaches the topics of every stage that differs there. */
  lemma UnderscoreLeaks(u: string, v: string, c: char, space: string, leaf: string)
    requires Plain(u) && Plain(v)
    ensures Like(StagePattern(u + "_" + v), Topic(space, u + [c] + v, leaf))
  {
    var slug, mid, t := u + "_" + v, u + [c] + v, Topic(space, u + [c] + v, leaf);
    LikeStagePattern(slug, t);
    assert t[|space|..|space| + |mid| + 2] == "/" + mid + "/";
    assert AgreesAt("/" + slug + "/", t, |space|);
  }
}
