/** `sanitizeFilename` of the content-automation tool: the file-name slug made
    from a generated title. The text is lower-cased and trimmed, every run of
    characters outside `[a-z0-9]` becomes one hyphen, hyphens at either end are
    removed, and the result is cut to fifty characters. */
module Naming {
  import opened Text

  /** The longest file name `substring(0, 50)` keeps. */
  const MaxLength: nat := 50

  /** `[a-z0-9-]`: the characters a file name can hold. */
  predicate IsSlugChar(c: char) { IsLowerAlnum(c) || c == '-' }

  /** Well-formed slug text: slug characters, no two hyphens side by side, no
      hyphen at either end. */
  predicate IsSlug(s: seq<char>) {
    && AllIn(s, IsSlugChar)
    && NoAdjacent(s, IsHyphen)
    && (s != [] ==> s[0] != '-' && s[|s| - 1] != '-')
  }

  /** Lower-case, trim, and replace each run of `[^a-z0-9]` by one hyphen. */
  function Hyphenated(text: seq<char>): (r: seq<char>)
    ensures |r| <= |text|
    ensures AllIn(r, IsSlugChar)
    ensures NoAdjacent(r, IsHyphen)
    ensures Drop(r, IsHyphen) == Drop(ToLower(text), IsNotLowerAlnum)
  {
    var t := Trim(ToLower(text));
    HyphenRunsShape(t);
    HyphenRunsKeep(t);
    StripKeepsRest(ToLower(text), IsSpace, IsNotLowerAlnum);
    ReplaceRuns(t, IsNotLowerAlnum, "-")
  }

  /** One hyphen per run of `[^a-z0-9]` leaves slug characters and single hyphens. */
  lemma HyphenRunsShape(t: seq<char>)
    ensures AllIn(ReplaceRuns(t, IsNotLowerAlnum, "-"), IsSlugChar)
    ensures NoAdjacent(ReplaceRuns(t, IsNotLowerAlnum, "-"), IsHyphen)
  {
    ReplaceRunsSeparates(t, IsNotLowerAlnum, '-');
    ReplaceRunsClass(t, IsNotLowerAlnum, "-", IsSlugChar);
  }

  /** The hyphens replace exactly the characters outside `[a-z0-9]`. */
  lemma HyphenRunsKeep(t: seq<char>)
    ensures Drop(ReplaceRuns(t, IsNotLowerAlnum, "-"), IsHyphen) == Drop(t, IsNotLowerAlnum)
  {
    ReplaceRunsThenDrop(t, IsNotLowerAlnum, "-", IsHyphen);
    assert NoneIn(Drop(t, IsNotLowerAlnum), IsHyphen);
  }

  /** The slug before truncation: `Hyphenated` without leading and trailing
      hyphens. It is well formed, and it keeps exactly the lower-cased letters and
      digits of the text, in order; it is empty exactly when the text has none. */
  function Slug(text: seq<char>): (r: seq<char>)
    ensures |r| <= |text|
    ensures IsSlug(r)
    ensures Drop(r, IsHyphen) == Drop(ToLower(text), IsNotLowerAlnum)
    ensures r == [] <==> AllIn(ToLower(text), IsNotLowerAlnum)
  {
    var h := Hyphenated(text);
    var r := Strip(h, IsHyphen);
    StripKeepsRest(h, IsHyphen, IsHyphen);
    StripKeepsClasses(h, IsHyphen, IsSlugChar);
    StripKeepsClasses(h, IsHyphen, IsHyphen);
    DropEmpty(ToLower(text), IsNotLowerAlnum);
    assert r != [] ==> Drop(r, IsHyphen) != [];
    r
  }

  /** `sanitizeFilename(text)`: the slug cut to at most fifty characters. The
      result is a prefix of the slug, as long as the slug or fifty characters,
      starts with no hyphen and holds no double hyphen; it is empty exactly when
      the text has no letter or digit. */
  function SanitizeFilename(text: seq<char>): (r: seq<char>)
    ensures |r| <= MaxLength
    ensures |r| == if |Slug(text)| <= MaxLength then |Slug(text)| else MaxLength
    ensures r == Slug(text)[..|r|]
    ensures AllIn(r, IsSlugChar)
    ensures NoAdjacent(r, IsHyphen)
    ensures r != [] ==> r[0] != '-'
    ensures r == [] <==> AllIn(ToLower(text), IsNotLowerAlnum)
  {
    var s := Slug(text);
    var n := if |s| <= MaxLength then |s| else MaxLength;
    CutSlug(s, n);
    s[..n]
  }

  /** A prefix of a well-formed slug keeps everything but the rule about its
      last character. */
  lemma CutSlug(s: seq<char>, n: nat)
    requires IsSlug(s) && n <= |s|
    ensures AllIn(s[..n], IsSlugChar)
    ensures NoAdjacent(s[..n], IsHyphen)
    ensures n > 0 ==> s[..n][0] != '-'
    ensures s[..n] == [] <==> n == 0
  {
    NoAdjacentSlice(s, IsHyphen, 0, n);
    assert forall i :: 0 <= i < n ==> s[..n][i] == s[i];
  }

  /** A well-formed slug is its own slug. */
  lemma SlugFixesSlugs(s: seq<char>)
    requires IsSlug(s)
    ensures Slug(s) == s
  {
    assert Trim(ToLower(s)) == s by {
      SlugIsLower(s);
      ToLowerFixesLower(s);
      StripNothing(s, IsSpace);
    }
    assert Hyphenated(s) == s by {
      SlugRunsFixed(s);
    }
    StripNothing(s, IsHyphen);
  }

  lemma SlugIsLower(s: seq<char>)
    requires IsSlug(s)
    ensures NoneIn(s, IsUpper)
    ensures s != [] ==> !IsSpace(s[0]) && !IsSpace(s[|s| - 1])
  {
    forall i | 0 <= i < |s| ensures !IsUpper(s[i]) {
      assert IsSlugChar(s[i]);
    }
    if s != [] {
      assert IsSlugChar(s[0]) && IsSlugChar(s[|s| - 1]);
    }
  }

  /** In a slug the characters outside `[a-z0-9]` are single hyphens. */
  lemma SlugRunsAreSingle(s: seq<char>)
    requires IsSlug(s)
    ensures forall i :: 0 <= i < |s| ==> IsNotLowerAlnum(s[i]) ==> s[i] == '-'
    ensures NoAdjacent(s, IsNotLowerAlnum)
  {
    forall i | 0 <= i < |s| ensures IsNotLowerAlnum(s[i]) ==> s[i] == '-' {
      assert IsSlugChar(s[i]);
    }
    forall i | 0 <= i < |s| - 1 ensures !(IsNotLowerAlnum(s[i]) && IsNotLowerAlnum(s[i + 1])) {
      assert IsSlugChar(s[i]) && IsSlugChar(s[i + 1]);
      assert !(IsHyphen(s[i]) && IsHyphen(s[i + 1]));
    }
  }

  /** Two slugs joined by any run of characters outside `[a-z0-9]` (and no
      upper-case letter) give one slug with a single hyphen at the joint: the run
      becomes exactly one hyphen and neither side loses anything. */
  lemma SlugJoins(a: seq<char>, sep: seq<char>, b: seq<char>)
    requires a != [] && b != [] && IsSlug(a) && IsSlug(b)
    requires sep != [] && AllIn(sep, IsNotLowerAlnum) && NoneIn(sep, IsUpper)
    ensures Slug(a + sep + b) == a + "-" + b
  {
    var t := a + sep + b;
    JoinIsClean(a, sep, b);
    JoinRuns(a, sep, b);
    assert Hyphenated(t) == a + "-" + b;
    var h := a + "-" + b;
    assert h[0] == a[0] && h[|h| - 1] == b[|b| - 1];
    StripNothing(h, IsHyphen);
  }

  /** Such a join has no upper-case letter and no white space at either end. */
  lemma JoinIsClean(a: seq<char>, sep: seq<char>, b: seq<char>)
    requires a != [] && b != [] && IsSlug(a) && IsSlug(b)
    requires NoneIn(sep, IsUpper)
    ensures Trim(ToLower(a + sep + b)) == a + sep + b
  {
    var t := a + sep + b;
    SlugIsLower(a);
    SlugIsLower(b);
    forall i | 0 <= i < |t| ensures !IsUpper(t[i]) {
      if i < |a| {
        assert t[i] == a[i];
      } else if i < |a| + |sep| {
        assert t[i] == sep[i - |a|];
      } else {
        assert t[i] == b[i - |a| - |sep|];
      }
    }
    ToLowerFixesLower(t);
    assert t[0] == a[0] && t[|t| - 1] == b[|b| - 1];
    StripNothing(t, IsSpace);
  }

  /** The run between the two slugs becomes one hyphen; the slugs' own hyphens
      are single already. */
  lemma JoinRuns(a: seq<char>, sep: seq<char>, b: seq<char>)
    requires a != [] && b != [] && IsSlug(a) && IsSlug(b)
    requires sep != [] && AllIn(sep, IsNotLowerAlnum)
    ensures ReplaceRuns(a + sep + b, IsNotLowerAlnum, "-") == a + "-" + b
  {
    assert IsSlugChar(a[|a| - 1]) && IsSlugChar(b[0]);
    assert a + sep + b == a + (sep + b);
    ReplaceRunsAppend(a, sep + b, IsNotLowerAlnum, "-");
    ReplaceRunsRun(sep, b, IsNotLowerAlnum, "-");
    SlugRunsFixed(a);
    SlugRunsFixed(b);
  }

  /** A slug's hyphens are single already, so hyphenating it changes nothing. */
  lemma SlugRunsFixed(s: seq<char>)
    requires IsSlug(s)
    ensures ReplaceRuns(s, IsNotLowerAlnum, "-") == s
  {
    SlugRunsAreSingle(s);
    ReplaceRunsFixesSingles(s, IsNotLowerAlnum, '-');
  }

  /** Two slugs joined by such a run, short enough together, are the file name
      with one hyphen between them. */
  lemma SanitizeJoins(a: seq<char>, sep: seq<char>, b: seq<char>)
    requires a != [] && b != [] && IsSlug(a) && IsSlug(b)
    requires sep != [] && AllIn(sep, IsNotLowerAlnum) && NoneIn(sep, IsUpper)
    requires |a| + 1 + |b| <= MaxLength
    ensures SanitizeFilename(a + sep + b) == a + "-" + b
  {
    SlugJoins(a, sep, b);
  }

  /** Sanitising a sanitised name changes it exactly when the fifty-character cut
      left a hyphen at its end. */
  lemma SanitizeTwice(text: seq<char>)
    ensures var r := SanitizeFilename(text);
      SanitizeFilename(r) == r <==> (r == [] || r[|r| - 1] != '-')
  {
    SanitizedFixpoint(SanitizeFilename(text));
  }

  /** Short text that is a slug except perhaps for a hyphen at its end is fixed
      by sanitising exactly when it does not end with a hyphen. */
  lemma SanitizedFixpoint(r: seq<char>)
    requires |r| <= MaxLength && AllIn(r, IsSlugChar) && NoAdjacent(r, IsHyphen)
    requires r != [] ==> r[0] != '-'
    ensures SanitizeFilename(r) == r <==> (r == [] || r[|r| - 1] != '-')
  {
    SanitizeShort(r);
    if r == [] || r[|r| - 1] != '-' {
      assert IsSlug(r);
      SlugFixesSlugs(r);
    } else {
      SlugEnds(r);
    }
  }

  /** Text no longer than the limit is not cut. */
  lemma SanitizeShort(t: seq<char>)
    requires |t| <= MaxLength
    ensures SanitizeFilename(t) == Slug(t)
  {
  }

  lemma SlugEnds(t: seq<char>)
    ensures Slug(t) == [] || Slug(t)[|Slug(t)| - 1] != '-'
  {
    assert IsSlug(Slug(t));
  }

  /** A slug that is short enough is the file name, so then sanitising again
      changes nothing. */
  lemma SanitizeIdempotentWhenShort(text: seq<char>)
    requires |Slug(text)| <= MaxLength
    ensures SanitizeFilename(text) == Slug(text)
    ensures SanitizeFilename(SanitizeFilename(text)) == SanitizeFilename(text)
  {
    var r := SanitizeFilename(text);
    assert r == Slug(text);
    SlugEnds(text);
    SanitizeTwice(text);
  }

  /** The cut comes after the hyphens are stripped, so it can leave one at the
      end: forty-nine letters or digits followed by " b" become those characters
      and a hyphen, and sanitising that again drops the hyphen. */
  lemma TruncationCanEndWithHyphen(x: seq<char>)
    requires |x| == MaxLength - 1 && AllIn(x, IsLowerAlnum)
    ensures SanitizeFilename(x + " b") == x + "-"
    ensures SanitizeFilename(SanitizeFilename(x + " b")) != SanitizeFilename(x + " b")
  {
    TruncatedSpaceB(x);
    SanitizeTwice(x + " b");
  }

  lemma TruncatedSpaceB(x: seq<char>)
    requires |x| == MaxLength - 1 && AllIn(x, IsLowerAlnum)
    ensures SanitizeFilename(x + " b") == x + "-"
  {
    SlugOfSpaceB(x);
    CutLong(x + " b");
    CutAppend(x + "-", "b");
  }

  /** A slug longer than the limit is cut to exactly its first 50 characters. */
  lemma CutLong(text: seq<char>)
    requires |Slug(text)| > MaxLength
    ensures SanitizeFilename(text) == Slug(text)[..MaxLength]
  {
  }

  lemma CutAppend(a: seq<char>, b: seq<char>)
    ensures (a + b)[..|a|] == a
  {
  }

  /** Letters and digits followed by " b" make the slug with "-b" at the end. */
  lemma SlugOfSpaceB(x: seq<char>)
    requires x != [] && AllIn(x, IsLowerAlnum)
    ensures Slug(x + " b") == x + "-b"
  {
    HyphenatedSpaceB(x);
    var h := x + "-b";
    assert h[0] == x[0] && h[|h| - 1] == 'b';
    StripNothing(h, IsHyphen);
  }

  lemma HyphenatedSpaceB(x: seq<char>)
    requires x != [] && AllIn(x, IsLowerAlnum)
    ensures Hyphenated(x + " b") == x + "-b"
  {
    TrimmedSpaceB(x);
    HyphenRunsSpaceB(x);
  }

  lemma TrimmedSpaceB(x: seq<char>)
    requires x != [] && AllIn(x, IsLowerAlnum)
    ensures Trim(ToLower(x + " b")) == x + " b"
  {
    var t := x + " b";
    ToLowerFixesLower(t);
    assert t[0] == x[0] && t[|t| - 1] == 'b';
    StripNothing(t, IsSpace);
  }

  lemma HyphenRunsSpaceB(x: seq<char>)
    requires AllIn(x, IsLowerAlnum)
    ensures ReplaceRuns(x + " b", IsNotLowerAlnum, "-") == x + "-b"
  {
    ReplaceRunsPlainPrefix(x, " b", IsNotLowerAlnum, "-");
    SpaceBFacts();
  }

  lemma SpaceBFacts()
    ensures ReplaceRuns(" b", IsNotLowerAlnum, "-") == "-b"
  {
  }
}
