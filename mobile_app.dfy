/** The three name formatters of the mobile-app generator: the display name, the
    project folder name and the Android package name derived from a soundboard
    title. Each is a chain of regular-expression replacements; the model states
    the character sets, lengths and fixed parts the generated project relies on. */
module MobileAppGenerator {
  import opened Text

  const AppSuffix: seq<char> := " Soundboard"
  const PackagePrefix: seq<char> := "com.hayarsdev."

  /** `[a-z0-9_]`: what a lower-cased `\w` character is. */
  predicate IsFolderChar(c: char) { IsLowerAlnum(c) || c == '_' }

  /** What the app-name stem is made of: word characters and the plain space. */
  predicate IsStemChar(c: char) { IsWordChar(c) || c == ' ' }

  predicate IsWordOrSpace(c: char) { IsWordChar(c) || IsSpace(c) }

  predicate IsFolderOrSpace(c: char) { IsFolderChar(c) || IsSpace(c) }

  /** Words of `\w` characters separated by single spaces, with no space at
      either end: a title that the app-name rewrites leave as it is. */
  predicate IsWords(s: seq<char>) {
    && s != []
    && AllIn(s, IsStemChar)
    && NoAdjacent(s, IsSpace)
    && !IsSpace(s[0]) && !IsSpace(s[|s| - 1])
  }

  /** The text in front of the suffix: punctuation removed and white-space runs
      collapsed to one space, after trimming the title. */
  function AppNameStem(title: seq<char>): (r: seq<char>)
    ensures AllIn(r, IsStemChar)
    ensures NoAdjacent(r, IsSpace)
    ensures Drop(r, IsSpace) == Drop(Drop(title, IsPunctuation), IsSpace)
  {
    PunctuationThenSpace(Trim(title));
    PunctuationThenSpace(title);
    TrimKeepsRest(title);
    Collapsed(Trim(title))
  }

  /** `Drop` of punctuation and of white space commute, so the word characters of
      a text do not depend on which is removed first. */
  lemma {:induction false} PunctuationThenSpace(x: seq<char>)
    ensures Drop(Drop(x, IsPunctuation), IsSpace) == Drop(Drop(x, IsSpace), IsPunctuation)
  {
    if x != [] {
      PunctuationThenSpace(x[1..]);
      DropAppend([x[0]], Drop(x[1..], IsPunctuation), IsSpace);
      DropAppend([x[0]], Drop(x[1..], IsSpace), IsPunctuation);
      DropAppend(if IsPunctuation(x[0]) then [] else [x[0]], Drop(x[1..], IsPunctuation), IsSpace);
      DropAppend(if IsSpace(x[0]) then [] else [x[0]], Drop(x[1..], IsSpace), IsPunctuation);
    }
  }

  /** `_formatAppName(title)`, as written: trim, remove `[^\w\s]`, collapse `\s+`
      to one space, append " Soundboard". The result always ends with the suffix,
      the stem has only word characters and single spaces, and it keeps the
      title's word characters in order. */
  function FormatAppName(title: seq<char>): (r: seq<char>)
    ensures |r| >= |AppSuffix| && r[|r| - |AppSuffix|..] == AppSuffix
    ensures r[..|r| - |AppSuffix|] == AppNameStem(title)
  {
    AppNameStem(title) + AppSuffix
  }

  /** Trimming before the punctuation is removed lets a space that stood before
      trailing punctuation reach the suffix: for a word `w`, "w !" becomes
      "w  Soundboard", with two spaces (for example "Hello !"). */
  lemma AppNameCanDoubleSpace(w: seq<char>)
    requires w != [] && forall i :: 0 <= i < |w| ==> IsWordChar(w[i])
    ensures FormatAppName(w + " !") == w + " " + AppSuffix
    ensures !NoAdjacent(FormatAppName(w + " !"), IsSpace)
  {
    DoubleSpaceStem(w);
    SuffixFacts();
    var r := FormatAppName(w + " !");
    assert r[|w|] == ' ' && r[|w| + 1] == ' ';
  }

  /** The stem of "w !" keeps the space that stood before the "!". */
  lemma DoubleSpaceStem(w: seq<char>)
    requires w != [] && forall i :: 0 <= i < |w| ==> IsWordChar(w[i])
    ensures AppNameStem(w + " !") == w + " "
  {
    var t := w + " !";
    calc {
      AppNameStem(t);
      Collapsed(Trim(t));
      { TrimSpaceBang(w); }
      Collapsed(t);
      ReplaceRuns(Drop(t, IsPunctuation), IsSpace, " ");
      { DropSpaceBang(w); }
      ReplaceRuns(w + " ", IsSpace, " ");
      { KeepTrailingSpace(w); }
      w + " ";
    }
  }

  lemma TrimSpaceBang(w: seq<char>)
    requires w != [] && forall i :: 0 <= i < |w| ==> IsWordChar(w[i])
    ensures Trim(w + " !") == w + " !"
  {
    var t := w + " !";
    assert t[0] == w[0] && t[|t| - 1] == '!';
    StripNothing(t, IsSpace);
  }

  lemma DropSpaceBang(w: seq<char>)
    requires forall i :: 0 <= i < |w| ==> IsWordChar(w[i])
    ensures Drop(w + " !", IsPunctuation) == w + " "
  {
    DropAppend(w, " !", IsPunctuation);
    assert NoneIn(w, IsPunctuation);
    SpaceBangFacts();
  }

  lemma KeepTrailingSpace(w: seq<char>)
    requires forall i :: 0 <= i < |w| ==> IsWordChar(w[i])
    ensures ReplaceRuns(w + " ", IsSpace, " ") == w + " "
  {
    assert NoneIn(w, IsSpace);
    ReplaceRunsPlainPrefix(w, " ", IsSpace, " ");
    SpaceBangFacts();
  }

  /** The two short literals the counterexample above is made of. */
  lemma SpaceBangFacts()
    ensures Drop(" !", IsPunctuation) == " "
    ensures ReplaceRuns(" ", IsSpace, " ") == " "
  {
  }

  /** The suffix starts with its only space. */
  lemma SuffixFacts()
    ensures AppSuffix[0] == ' '
    ensures NoAdjacent(AppSuffix, IsSpace)
  {
    assert forall i :: 1 <= i < |AppSuffix| ==> !IsSpace(AppSuffix[i]);
  }

  /** The evidently intended app name: the same rewrites with the trim applied
      last, so that no white space is left next to the suffix. The whole name
      then holds no two white-space characters in a row. */
  function FormatAppNameTrimmed(title: seq<char>): (r: seq<char>)
    ensures |r| >= |AppSuffix| && r[|r| - |AppSuffix|..] == AppSuffix
    ensures AllIn(r[..|r| - |AppSuffix|], IsStemChar)
    ensures NoAdjacent(r, IsSpace)
    ensures Drop(r[..|r| - |AppSuffix|], IsSpace) == Drop(Drop(title, IsPunctuation), IsSpace)
  {
    var stem := Trim(Collapsed(title));
    TrimmedStem(title);
    SuffixFacts();
    NoAdjacentAppend(stem, AppSuffix, IsSpace);
    var r := stem + AppSuffix;
    assert r[..|r| - |AppSuffix|] == stem;
    r
  }

  /** Trimming the collapsed title keeps its character set and its single spaces. */
  lemma TrimmedStem(title: seq<char>)
    ensures var stem := Trim(Collapsed(title));
      && AllIn(stem, IsStemChar)
      && NoAdjacent(stem, IsSpace)
      && Drop(stem, IsSpace) == Drop(Drop(title, IsPunctuation), IsSpace)
  {
    StripKeepsClasses(Collapsed(title), IsSpace, IsStemChar);
    StripKeepsClasses(Collapsed(title), IsSpace, IsSpace);
    TrimKeepsRest(Collapsed(title));
  }

  /** Punctuation removed and white-space runs collapsed to one space. */
  function Collapsed(title: seq<char>): (r: seq<char>)
    ensures AllIn(r, IsStemChar)
    ensures NoAdjacent(r, IsSpace)
    ensures Drop(r, IsSpace) == Drop(Drop(title, IsPunctuation), IsSpace)
  {
    var cleaned := Drop(title, IsPunctuation);
    DropClass(title, IsPunctuation, IsWordOrSpace);
    ReplaceRunsClass(cleaned, IsSpace, " ", IsStemChar);
    ReplaceRunsSeparates(cleaned, IsSpace, ' ');
    ReplaceRunsThenDrop(cleaned, IsSpace, " ", IsSpace);
    ReplaceRuns(cleaned, IsSpace, " ")
  }

  /** A white-space run between text ending and text starting with a word
      character becomes exactly one space, and each side is collapsed on its own. */
  lemma CollapsedJoins(x: seq<char>, ws: seq<char>, y: seq<char>)
    requires ws != [] && AllIn(ws, IsSpace)
    requires x == [] || IsWordChar(x[|x| - 1])
    requires y == [] || IsWordChar(y[0])
    ensures Collapsed(x + ws + y) == Collapsed(x) + " " + Collapsed(y)
  {
    var dx := Drop(x, IsPunctuation);
    var dy := Drop(y, IsPunctuation);
    JoinDropsNoPunctuation(x, ws, y);
    WordEndsKept(x, y);
    ReplaceRunsJoin(dx, ws, dy, IsSpace, " ");
  }

  /** A word character at the end of `x` or the start of `y` survives the
      removal of punctuation, so no white space sits at the joint. */
  lemma WordEndsKept(x: seq<char>, y: seq<char>)
    requires x == [] || IsWordChar(x[|x| - 1])
    requires y == [] || IsWordChar(y[0])
    ensures var dx := Drop(x, IsPunctuation); dx == [] || !IsSpace(dx[|dx| - 1])
    ensures var dy := Drop(y, IsPunctuation); dy == [] || !IsSpace(dy[0])
  {
    if x != [] {
      DropKeepsEnds(x, IsPunctuation);
    }
    if y != [] {
      DropKeepsEnds(y, IsPunctuation);
    }
  }

  /** Removing punctuation from such a join keeps the white-space run whole. */
  lemma JoinDropsNoPunctuation(x: seq<char>, ws: seq<char>, y: seq<char>)
    requires AllIn(ws, IsSpace)
    ensures Drop(x + ws + y, IsPunctuation)
      == Drop(x, IsPunctuation) + ws + Drop(y, IsPunctuation)
  {
    DropAppend(x + ws, y, IsPunctuation);
    DropAppend(x, ws, IsPunctuation);
    assert NoneIn(ws, IsPunctuation);
  }

  /** Words separated by single spaces are their own collapsed form. */
  lemma CollapsedFixesWords(a: seq<char>)
    requires IsWords(a)
    ensures Collapsed(a) == a
  {
    assert NoneIn(a, IsPunctuation) by {
      forall i | 0 <= i < |a| ensures !IsPunctuation(a[i]) {
        assert IsStemChar(a[i]);
      }
    }
    forall i | 0 <= i < |a| ensures IsSpace(a[i]) ==> a[i] == ' ' {
      assert IsStemChar(a[i]);
    }
    ReplaceRunsFixesSingles(a, IsSpace, ' ');
  }

  /** Two such titles joined by any white-space run stem to the two joined by one
      space. */
  lemma AppNameStemJoins(a: seq<char>, ws: seq<char>, b: seq<char>)
    requires IsWords(a) && IsWords(b) && ws != [] && AllIn(ws, IsSpace)
    ensures AppNameStem(a + ws + b) == a + " " + b
    ensures FormatAppName(a + ws + b) == a + " " + b + AppSuffix
  {
    var t := a + ws + b;
    assert t[0] == a[0] && t[|t| - 1] == b[|b| - 1];
    StripNothing(t, IsSpace);
    WordsJoin(a, ws, b);
  }

  /** The corrected name of two such titles joined by white space: one space
      between them and one before the suffix. */
  lemma FormatAppNameTrimmedJoins(a: seq<char>, ws: seq<char>, b: seq<char>)
    requires IsWords(a) && IsWords(b) && ws != [] && AllIn(ws, IsSpace)
    ensures FormatAppNameTrimmed(a + ws + b) == a + " " + b + AppSuffix
  {
    WordsJoin(a, ws, b);
    var j := a + " " + b;
    assert j[0] == a[0] && j[|j| - 1] == b[|b| - 1];
    StripNothing(j, IsSpace);
  }

  lemma WordsJoin(a: seq<char>, ws: seq<char>, b: seq<char>)
    requires IsWords(a) && IsWords(b) && ws != [] && AllIn(ws, IsSpace)
    ensures Collapsed(a + ws + b) == a + " " + b
  {
    assert IsStemChar(a[|a| - 1]) && IsStemChar(b[0]);
    CollapsedJoins(a, ws, b);
    CollapsedFixesWords(a);
    CollapsedFixesWords(b);
  }

  /** `_formatFolderName(title)`: lower-case, remove `[^\w\s]`, turn each `\s+`
      run into one underscore. The result is made of `[a-z0-9_]`, is no longer
      than the title, and its letters and digits are the title's, lower-cased,
      in order. */
  function FormatFolderName(title: seq<char>): (r: seq<char>)
    ensures AllIn(r, IsFolderChar)
    ensures |r| <= |title|
    ensures Drop(r, IsUnderscore) == Drop(ToLower(title), IsNotLowerAlnum)
  {
    var lower := ToLower(title);
    var cleaned := Drop(lower, IsPunctuation);
    DropClass(lower, IsPunctuation, IsFolderOrSpace);
    ReplaceRunsClass(cleaned, IsSpace, "_", IsFolderChar);
    ReplaceRunsThenDrop(cleaned, IsSpace, "_", IsUnderscore);
    LowerLettersAndDigits(lower);
    ReplaceRuns(cleaned, IsSpace, "_")
  }

  /** A white-space run between text ending and text starting with a word
      character becomes exactly one underscore, and each side is formatted on
      its own. */
  lemma FolderNameJoins(x: seq<char>, ws: seq<char>, y: seq<char>)
    requires ws != [] && AllIn(ws, IsSpace)
    requires x == [] || IsWordChar(x[|x| - 1])
    requires y == [] || IsWordChar(y[0])
    ensures FormatFolderName(x + ws + y) == FormatFolderName(x) + "_" + FormatFolderName(y)
  {
    var lx := ToLower(x);
    var ly := ToLower(y);
    var dx := Drop(lx, IsPunctuation);
    var dy := Drop(ly, IsPunctuation);
    calc {
      FormatFolderName(x + ws + y);
      ReplaceRuns(Drop(ToLower(x + ws + y), IsPunctuation), IsSpace, "_");
      { LowerJoin(x, ws, y); }
      ReplaceRuns(Drop(lx + ws + ly, IsPunctuation), IsSpace, "_");
      { JoinDropsNoPunctuation(lx, ws, ly); }
      ReplaceRuns(dx + ws + dy, IsSpace, "_");
      { LowerJoin(x, ws, y); WordEndsKept(lx, ly); ReplaceRunsJoin(dx, ws, dy, IsSpace, "_"); }
      ReplaceRuns(dx, IsSpace, "_") + "_" + ReplaceRuns(dy, IsSpace, "_");
    }
  }

  /** Lower-casing such a join keeps the white-space run and the word characters
      at its ends. */
  lemma LowerJoin(x: seq<char>, ws: seq<char>, y: seq<char>)
    requires AllIn(ws, IsSpace)
    requires x == [] || IsWordChar(x[|x| - 1])
    requires y == [] || IsWordChar(y[0])
    ensures ToLower(x + ws + y) == ToLower(x) + ws + ToLower(y)
    ensures ToLower(x) == [] || IsWordChar(ToLower(x)[|ToLower(x)| - 1])
    ensures ToLower(y) == [] || IsWordChar(ToLower(y)[0])
  {
    ToLowerAppend(x + ws, y);
    ToLowerAppend(x, ws);
    assert ToLower(ws) == ws;
  }

  /** Lower-case word characters are their own folder name, so two of them
      joined by any white-space run give the two joined by one underscore. */
  lemma FolderNameOfWords(a: seq<char>, ws: seq<char>, b: seq<char>)
    requires a != [] && b != [] && AllIn(a, IsFolderChar) && AllIn(b, IsFolderChar)
    requires ws != [] && AllIn(ws, IsSpace)
    ensures FormatFolderName(a + ws + b) == a + "_" + b
  {
    assert IsFolderChar(a[|a| - 1]) && IsFolderChar(b[0]);
    FolderNameJoins(a, ws, b);
    FolderNameFixesFolderChars(a);
    FolderNameFixesFolderChars(b);
  }

  lemma FolderNameFixesFolderChars(s: seq<char>)
    requires AllIn(s, IsFolderChar)
    ensures FormatFolderName(s) == s
  {
    assert ToLower(s) == s;
    assert Drop(s, IsPunctuation) == s;
    assert NoneIn(s, IsSpace);
    ReplaceRunsPlainPrefix(s, [], IsSpace, "_");
    assert s + [] == s;
  }

  /** Removing punctuation, then white space, then underscores from lower-case
      text leaves exactly its letters and digits. */
  lemma {:induction false} LowerLettersAndDigits(lower: seq<char>)
    requires forall i :: 0 <= i < |lower| ==> !IsUpper(lower[i])
    ensures Drop(Drop(Drop(lower, IsPunctuation), IsSpace), IsUnderscore) == Drop(lower, IsNotLowerAlnum)
  {
    if lower != [] {
      var c := lower[0];
      LowerLettersAndDigits(lower[1..]);
      var p := if IsPunctuation(c) then [] else [c];
      DropAppend(p, Drop(lower[1..], IsPunctuation), IsSpace);
      var q := if IsPunctuation(c) || IsSpace(c) then [] else [c];
      DropAppend(q, Drop(Drop(lower[1..], IsPunctuation), IsSpace), IsUnderscore);
    }
  }

  /** A leading or trailing white-space run of the title, which is not trimmed,
      becomes a leading or trailing underscore. */
  lemma FolderNameKeepsEdgeRuns(title: seq<char>)
    requires title != []
    ensures IsSpace(title[0]) ==> FormatFolderName(title) != [] && FormatFolderName(title)[0] == '_'
    ensures IsSpace(title[|title| - 1]) ==>
      FormatFolderName(title) != [] && FormatFolderName(title)[|FormatFolderName(title)| - 1] == '_'
  {
    var lower := ToLower(title);
    var cleaned := Drop(lower, IsPunctuation);
    DropKeepsEnds(lower, IsPunctuation);
    if IsSpace(title[|title| - 1]) {
      ReplaceRunsAtEnd(cleaned, IsSpace, "_");
    }
  }

  /** The part of the package name after the prefix: lower-case, remove
      `[^\w\s]`, remove every `\s+` run. */
  function PackageSuffix(title: seq<char>): (r: seq<char>)
    ensures AllIn(r, IsFolderChar)
    ensures Drop(r, IsUnderscore) == Drop(ToLower(title), IsNotLowerAlnum)
  {
    var lower := ToLower(title);
    var cleaned := Drop(lower, IsPunctuation);
    DropClass(lower, IsPunctuation, IsFolderOrSpace);
    ReplaceRunsByNothing(cleaned, IsSpace);
    DropClass(cleaned, IsSpace, IsFolderChar);
    LowerLettersAndDigits(lower);
    ReplaceRuns(cleaned, IsSpace, "")
  }

  /** `_formatPackageName(title)`: the fixed prefix followed by a suffix with no
      white space and only `[a-z0-9_]`. */
  function FormatPackageName(title: seq<char>): (r: seq<char>)
    ensures |r| >= |PackagePrefix| && r[..|PackagePrefix|] == PackagePrefix
    ensures r[|PackagePrefix|..] == PackageSuffix(title)
    ensures AllIn(r[|PackagePrefix|..], IsFolderChar)
  {
    PackagePrefix + PackageSuffix(title)
  }

  /** Text that is already lower-case word characters is its own package suffix,
      so the suffix is idempotent. */
  lemma PackageSuffixFixesSanitised(s: seq<char>)
    requires AllIn(s, IsFolderChar)
    ensures PackageSuffix(s) == s
    ensures PackageSuffix(PackageSuffix(s)) == PackageSuffix(s)
  {
    assert ToLower(s) == s;
    assert Drop(s, IsPunctuation) == s;
    ReplaceRunsByNothing(s, IsSpace);
    assert Drop(s, IsSpace) == s;
  }

  lemma PackageSuffixIdempotent(title: seq<char>)
    ensures PackageSuffix(PackageSuffix(title)) == PackageSuffix(title)
  {
    PackageSuffixFixesSanitised(PackageSuffix(title));
  }

  /** The folder and the package name keep the same letters and digits. */
  lemma FolderAndPackageAgree(title: seq<char>)
    ensures Drop(FormatFolderName(title), IsUnderscore) == Drop(PackageSuffix(title), IsUnderscore)
  {
  }
}
