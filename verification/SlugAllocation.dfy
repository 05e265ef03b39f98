/** stages/services/stage.py, get_short_name: the URL slug of a duplicated stage. */
module SlugAllocation {
  import opened Text

  predicate KeptChar(c: char) {
    'A' <= c <= 'Z' || 'a' <= c <= 'z' || '0' <= c <= '9' || c == ' '
  }

  /** `re.sub("[^A-Za-z0-9 ]+", "", name)` */
  function Strip(name: string): string {
    if name == "" then ""
    else if KeptChar(name[0]) then [name[0]] + Strip(name[1..])
    else Strip(name[1..])
  }

  /** `re.sub(r"\s+", "-", s)`; after Strip the only white space left is the blank. */
  function Hyphenate(s: string): string {
    if s == "" then ""
    else if s[0] != ' ' then [s[0]] + Hyphenate(s[1..])
    else if |s| > 1 && s[1] == ' ' then Hyphenate(s[1..])
    else "-" + Hyphenate(s[1..])
  }

  function ShortName(name: string): string {
    Lower(Hyphenate(Strip(name)))
  }

  /** Lower-case letters, digits and hyphens. */
  predicate SlugChar(c: char) {
    'a' <= c <= 'z' || '0' <= c <= '9' || c == '-'
  }

  ghost predicate SlugText(s: string) {
    forall i :: 0 <= i < |s| ==> SlugChar(s[i])
  }

  ghost predicate KeptText(s: string) {
    forall i :: 0 <= i < |s| ==> KeptChar(s[i])
  }

  ghost predicate NoBlank(s: string) {
    forall i :: 0 <= i < |s| ==> s[i] == '-' || (KeptChar(s[i]) && s[i] != ' ')
  }

  ghost predicate NoDoubleHyphen(s: string) {
    forall i, j :: 0 <= i < |s| && j == i + 1 && j < |s| ==> !(s[i] == '-' && s[j] == '-')
  }

  lemma {:induction false} StripKeeps(name: string)
    ensures KeptText(Strip(name))
  {
    if name != "" {
      StripKeeps(name[1..]);
    }
  }

  /** Hyphenating leaves no blank and never two hyphens in a row. */
  lemma {:induction false} HyphenateShape(s: string)
    requires KeptText(s)
    ensures NoBlank(Hyphenate(s)) && NoDoubleHyphen(Hyphenate(s))
    ensures s != "" && s[0] != ' ' ==> Hyphenate(s) != "" && Hyphenate(s)[0] != '-'
  {
    if s != "" {
      var rest := s[1..];
      assert KeptChar(s[0]) && forall i :: 0 <= i < |rest| ==> rest[i] == s[i + 1];
      HyphenateShape(rest);
      var t := Hyphenate(rest);
      if s[0] != ' ' {
        assert Hyphenate(s) == [s[0]] + t;
      } else if |s| > 1 && s[1] == ' ' {
        assert Hyphenate(s) == t;
      } else {
        assert Hyphenate(s) == "-" + t;
      }
    }
  }

  lemma ShortNameShape(name: string)
    ensures SlugText(ShortName(name)) && NoDoubleHyphen(ShortName(name))
  {
    StripKeeps(name);
    HyphenateShape(Strip(name));
    var h := Hyphenate(Strip(name));
    forall i, j | 0 <= i < |h| && j == i + 1 && j < |h|
      ensures !(ShortName(name)[i] == '-' && ShortName(name)[j] == '-')
    {
      assert !(h[i] == '-' && h[j] == '-');
    }
  }

  predicate Alphanumeric(c: char) {
    'A' <= c <= 'Z' || 'a' <= c <= 'z' || '0' <= c <= '9'
  }

  /** The letters and digits of a text, in order. */
  function LettersAndDigits(s: string): string {
    if s == "" then "" else (if Alphanumeric(s[0]) then [s[0]] else "") + LettersAndDigits(s[1..])
  }

  lemma {:induction false} StripLetters(name: string)
    ensures LettersAndDigits(Strip(name)) == LettersAndDigits(name)
  {
    if name != "" {
      StripLetters(name[1..]);
    }
  }

  lemma {:induction false} HyphenateLetters(s: string)
    ensures LettersAndDigits(Hyphenate(s)) == LettersAndDigits(s)
  {
    if s != "" {
      HyphenateLetters(s[1..]);
    }
  }

  lemma {:induction false} LowerLetters(s: string)
    ensures LettersAndDigits(Lower(s)) == Lower(LettersAndDigits(s))
  {
    if s != "" {
      LowerLetters(s[1..]);
      assert Lower(s)[1..] == Lower(s[1..]);
      assert s == [s[0]] + s[1..];
    }
  }

  /** Every letter and digit of the name is in the slug, in order and in lower case. */
  lemma ShortNameKeepsLetters(name: string)
    ensures LettersAndDigits(ShortName(name)) == Lower(LettersAndDigits(name))
  {
    LowerLetters(Hyphenate(Strip(name)));
    HyphenateLetters(Strip(name));
    StripLetters(name);
  }

  ghost predicate IsWord(s: string) {
    forall i :: 0 <= i < |s| ==> Alphanumeric(s[i])
  }

  function Blanks(n: nat): string {
    seq(n, i => ' ')
  }

  lemma {:induction false} StripAppend(a: string, b: string)
    ensures Strip(a + b) == Strip(a) + Strip(b)
  {
    if a == "" {
      assert a + b == b;
    } else {
      assert (a + b)[1..] == a[1..] + b;
      StripAppend(a[1..], b);
    }
  }

  lemma {:induction false} StripKept(s: string)
    requires KeptText(s)
    ensures Strip(s) == s
  {
    if s != "" {
      StripKept(s[1..]);
      assert s == [s[0]] + s[1..];
    }
  }

  lemma {:induction false} HyphenateBlanks(n: nat, tail: string)
    requires n > 0 && (tail == "" || tail[0] != ' ')
    ensures Hyphenate(Blanks(n) + tail) == "-" + Hyphenate(tail)
  {
    var s := Blanks(n) + tail;
    if n == 1 {
      assert s[1..] == tail;
    } else {
      assert s[1..] == Blanks(n - 1) + tail;
      HyphenateBlanks(n - 1, tail);
    }
  }

  lemma {:induction false} HyphenateWord(word: string, tail: string)
    requires IsWord(word)
    ensures Hyphenate(word + tail) == word + Hyphenate(tail)
  {
    if word == "" {
      assert word + tail == tail;
    } else {
      assert Alphanumeric(word[0]) && (word + tail)[1..] == word[1..] + tail;
      HyphenateWord(word[1..], tail);
      assert word == [word[0]] + word[1..];
    }
  }

  lemma LowerAppend(a: string, b: string)
    ensures Lower(a + b) == Lower(a) + Lower(b)
  {
  }

  lemma StripWord(word: string, n: nat, rest: string)
    requires IsWord(word)
    ensures Strip(word) == word && Strip(word + Blanks(n) + rest) == word + (Blanks(n) + Strip(rest))
  {
    StripAppend(word + Blanks(n), rest);
    StripKept(word + Blanks(n));
    StripKept(word);
    assert word + Blanks(n) + Strip(rest) == word + (Blanks(n) + Strip(rest));
  }

  /** Word by word: a word is lower-cased, the blanks after it become one hyphen, and then comes the slug of the rest. */
  lemma ShortNameByWords(word: string, n: nat, rest: string)
    requires IsWord(word) && n > 0 && (Strip(rest) == "" || Strip(rest)[0] != ' ')
    ensures ShortName(word) == Lower(word)
    ensures ShortName(word + Blanks(n) + rest) == Lower(word) + ("-" + ShortName(rest))
  {
    StripWord(word, n, rest);
    HyphenateWord(word, Blanks(n) + Strip(rest));
    HyphenateWord(word, "");
    HyphenateBlanks(n, Strip(rest));
    assert word + "" == word;
    LowerAppend(word, "-" + Hyphenate(Strip(rest)));
    LowerAppend("-", Hyphenate(Strip(rest)));
    assert Lower("-") == "-";
  }

  /** The k-th slug tried: the base itself, then base1, base2, ... */
  function Candidate(base: string, k: nat): string {
    if k == 0 then base else base + Decimal(k)
  }

  lemma CandidatesDiffer(base: string, i: nat, j: nat)
    requires Candidate(base, i) == Candidate(base, j)
    ensures i == j
  {
    DecimalRoundTrip(i);
    DecimalRoundTrip(j);
    if i != 0 && j != 0 {
      assert Decimal(i) == Candidate(base, i)[|base|..] == Candidate(base, j)[|base|..] == Decimal(j);
    }
  }

  lemma CandidateShape(base: string, k: nat)
    requires SlugText(base)
    ensures SlugText(Candidate(base, k))
  {
    DecimalRoundTrip(k);
  }

  /** The least k whose candidate is free, which a finite table always has. */
  ghost predicate LeastFree(base: string, taken: set<string>, k: nat) {
    && Candidate(base, k) !in taken
    && forall j: nat :: j < k ==> Candidate(base, j) in taken
  }

  /** The search loop; it stops because every miss uses up another existing slug. */
  method GetShortName(name: string, taken: set<string>) returns (slug: string, ghost k: nat)
    ensures slug !in taken && SlugText(slug)
    ensures slug == Candidate(ShortName(name), k)
    ensures LeastFree(ShortName(name), taken, k)
    ensures k <= |taken|
  {
    var shortName := ShortName(name);
    var suffix: nat := 0;
    slug := shortName;
    ghost var tried: set<string> := {};
    while slug in taken
      invariant slug == Candidate(shortName, suffix)
      invariant forall s :: s in tried ==> exists j: nat :: j < suffix && s == Candidate(shortName, j)
      invariant forall j: nat :: j < suffix ==> Candidate(shortName, j) in tried
      invariant tried <= taken && |tried| == suffix
      decreases |taken| - suffix
    {
      if slug in tried {
        var j: nat :| j < suffix && slug == Candidate(shortName, j);
        CandidatesDiffer(shortName, suffix, j);
        assert false;
      }
      tried := tried + {slug};
      Bounded(tried, taken);
      suffix := suffix + 1;
      slug := shortName + Decimal(suffix);
    }
    k := suffix;
    Bounded(tried, taken);
    ShortNameShape(name);
    CandidateShape(shortName, suffix);
  }

  lemma Bounded(a: set<string>, b: set<string>)
    requires a <= b
    ensures |a| <= |b|
  {
    assert b == a + (b - a);
  }
}
