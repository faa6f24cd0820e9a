/** The string primitives the services chain together: ASCII character classes as
    JavaScript's regular expressions see them, `toLowerCase`, `trim`, a global
    `replace` of a character class (one replacement per maximal run, or none), the
    first-occurrence `replace` of a string, and the `x || null` defaults.
    Everything is stated for ASCII text; see the README for what that leaves out. */
module Text {
  import opened Common

  /** JavaScript's `\s`, which is also what `trim` removes, on ASCII: space, tab,
      line feed, vertical tab, form feed and carriage return. */
  predicate IsSpace(c: char) {
    c == ' ' || c == '\t' || c == '\n' || c == '\U{000B}' || c == '\U{000C}' || c == '\r'
  }

  predicate IsUpper(c: char) { 'A' <= c <= 'Z' }

  /** The class `[a-z0-9]`. */
  predicate IsLowerAlnum(c: char) { 'a' <= c <= 'z' || '0' <= c <= '9' }

  /** JavaScript's `\w`, that is `[A-Za-z0-9_]`. */
  predicate IsWordChar(c: char) { IsLowerAlnum(c) || IsUpper(c) || c == '_' }

  /** A character class, as the bracket expressions of the formatters' patterns. */
  type CharClass = char -> bool

  /** The class `[^\w\s]`. */
  predicate IsPunctuation(c: char) { !IsWordChar(c) && !IsSpace(c) }

  /** The class `[^a-z0-9]`. */
  predicate IsNotLowerAlnum(c: char) { !IsLowerAlnum(c) }

  predicate IsHyphen(c: char) { c == '-' }

  predicate IsUnderscore(c: char) { c == '_' }

  predicate AllIn(s: seq<char>, k: CharClass) { forall i :: 0 <= i < |s| ==> k(s[i]) }

  predicate NoneIn(s: seq<char>, k: CharClass) { forall i :: 0 <= i < |s| ==> !k(s[i]) }

  /** No character of class `k` sits right next to another one. */
  predicate NoAdjacent(s: seq<char>, k: CharClass) {
    forall i :: 0 <= i < |s| - 1 ==> !(k(s[i]) && k(s[i + 1]))
  }

  function LowerChar(c: char): char {
    if IsUpper(c) then (c as int + 32) as char else c
  }

  /** `toLowerCase` on ASCII text. */
  function ToLower(s: seq<char>): (r: seq<char>)
    ensures |r| == |s|
    ensures forall i :: 0 <= i < |r| ==> !IsUpper(r[i])
    ensures forall i :: 0 <= i < |r| ==> !IsUpper(s[i]) ==> r[i] == s[i]
    ensures forall i :: 0 <= i < |r| ==> IsUpper(s[i]) ==> r[i] as int == s[i] as int + 32
    ensures forall i :: 0 <= i < |r| ==>
      && (IsWordChar(r[i]) <==> IsWordChar(s[i]))
      && (IsSpace(r[i]) <==> IsSpace(s[i]))
      && (IsLowerAlnum(r[i]) <==> (IsLowerAlnum(s[i]) || IsUpper(s[i])))
  {
    seq(|s|, i requires 0 <= i < |s| => LowerChar(s[i]))
  }

  /** Text without upper-case letters is its own lower-case form. */
  lemma ToLowerFixesLower(s: seq<char>)
    requires NoneIn(s, IsUpper)
    ensures ToLower(s) == s
  {
  }

  /** The characters of `s` outside class `k`, in order: `replace(/k/g, '')`. */
  function Drop(s: seq<char>, k: CharClass): (r: seq<char>)
    ensures |r| <= |s|
    ensures NoneIn(r, k)
    ensures NoneIn(s, k) ==> r == s
  {
    if s == [] then [] else (if k(s[0]) then [] else [s[0]]) + Drop(s[1..], k)
  }

  /** Lower-casing works character by character, so it splits over concatenation. */
  lemma ToLowerAppend(a: seq<char>, b: seq<char>)
    ensures ToLower(a + b) == ToLower(a) + ToLower(b)
  {
  }

  /** A first or last character outside the class survives its removal, at the
      same end. */
  lemma DropKeepsEnds(s: seq<char>, k: CharClass)
    requires s != []
    ensures !k(s[0]) ==> Drop(s, k) != [] && Drop(s, k)[0] == s[0]
    ensures !k(s[|s| - 1]) ==> Drop(s, k) != [] && Drop(s, k)[|Drop(s, k)| - 1] == s[|s| - 1]
  {
    var n := |s| - 1;
    assert s == s[..n] + [s[n]];
    DropAppend(s[..n], [s[n]], k);
  }

  /** When every character of `s` is in `k` or in `k2`, what removing `k` leaves
      is all in `k2`. */
  lemma {:induction false} DropClass(s: seq<char>, k: CharClass, k2: CharClass)
    requires forall i :: 0 <= i < |s| ==> k(s[i]) || k2(s[i])
    ensures AllIn(Drop(s, k), k2)
  {
    if s != [] {
      DropClass(s[1..], k, k2);
    }
  }

  lemma {:induction false} DropAppend(a: seq<char>, b: seq<char>, k: CharClass)
    ensures Drop(a + b, k) == Drop(a, k) + Drop(b, k)
  {
    if a == [] {
      assert a + b == b;
    } else {
      var c := a + b;
      assert c[0] == a[0];
      assert c[1..] == a[1..] + b;
      DropAppend(a[1..], b, k);
      assert Drop(c, k) == (if k(a[0]) then [] else [a[0]]) + Drop(a[1..] + b, k);
    }
  }

  lemma {:induction false} DropAll(s: seq<char>, k: CharClass)
    requires AllIn(s, k)
    ensures Drop(s, k) == []
  {
    if s != [] {
      DropAll(s[1..], k);
    }
  }

  /** Removing a class leaves nothing exactly when every character is in it. */
  lemma {:induction false} DropEmpty(s: seq<char>, k: CharClass)
    ensures Drop(s, k) == [] <==> AllIn(s, k)
  {
    if AllIn(s, k) {
      DropAll(s, k);
    } else if s != [] {
      if k(s[0]) {
        DropEmpty(s[1..], k);
        assert !AllIn(s[1..], k) by {
          var j :| 0 <= j < |s| && !k(s[j]);
          assert s[1..][j - 1] == s[j];
        }
      }
    }
  }

  /** The length of the longest prefix of `s` made of class-`k` characters. */
  function LeadRun(s: seq<char>, k: CharClass): (n: nat)
    ensures n <= |s|
    ensures forall i :: 0 <= i < n ==> k(s[i])
    ensures n < |s| ==> !k(s[n])
  {
    if s != [] && k(s[0]) then 1 + LeadRun(s[1..], k) else 0
  }

  /** The length of the longest suffix of `s` made of class-`k` characters. */
  function TrailRun(s: seq<char>, k: CharClass): (n: nat)
    ensures n <= |s|
    ensures forall i :: |s| - n <= i < |s| ==> k(s[i])
    ensures n < |s| ==> !k(s[|s| - 1 - n])
  {
    if s != [] && k(s[|s| - 1]) then 1 + TrailRun(s[..|s| - 1], k) else 0
  }

  /** `s` without its longest prefix and then its longest suffix of class-`k`
      characters: a run of the class, the result, and another run of the class.
      The result neither starts nor ends with the class, and it is empty exactly
      when all of `s` is in the class. */
  function Strip(s: seq<char>, k: CharClass): (r: seq<char>)
    ensures var a := LeadRun(s, k);
      && a + |r| <= |s| && r == s[a..a + |r|]
      && (forall i :: 0 <= i < a ==> k(s[i]))
      && (forall i :: a + |r| <= i < |s| ==> k(s[i]))
    ensures r != [] ==> !k(r[0]) && !k(r[|r| - 1])
    ensures r == [] <==> AllIn(s, k)
  {
    var a := LeadRun(s, k);
    var t := s[a..];
    var b := TrailRun(t, k);
    assert forall i :: a + |t| - b <= i < |s| ==> k(s[i]) by {
      forall i | a + |t| - b <= i < |s| ensures k(s[i]) {
        assert s[i] == t[i - a];
      }
    }
    assert |t| - b > 0 ==> t[0] == s[a] && t[|t| - b - 1] == s[a + |t| - b - 1];
    t[..|t| - b]
  }

  /** `String.prototype.trim` on ASCII text. */
  function Trim(s: seq<char>): seq<char> {
    Strip(s, IsSpace)
  }

  /** Removing a class that includes the stripped one gives the same text
      whether or not the text was stripped first. */
  lemma StripKeepsRest(s: seq<char>, k: CharClass, k2: CharClass)
    requires forall c :: k(c) ==> k2(c)
    ensures Drop(Strip(s, k), k2) == Drop(s, k2)
  {
    var r := Strip(s, k);
    var a := LeadRun(s, k);
    DropLeading(s, a, k2);
    assert r == s[a..][..|r|];
    DropTrailing(s[a..], |r|, k2);
  }

  /** Removing a class ignores a prefix made of it. */
  lemma {:induction false} DropLeading(s: seq<char>, n: nat, k: CharClass)
    requires n <= |s| && forall i :: 0 <= i < n ==> k(s[i])
    ensures Drop(s, k) == Drop(s[n..], k)
  {
    if n > 0 {
      assert k(s[0]);
      DropLeading(s[1..], n - 1, k);
      assert s[1..][n - 1..] == s[n..];
    }
  }

  /** Removing a class ignores a suffix made of it. */
  lemma DropTrailing(s: seq<char>, n: nat, k: CharClass)
    requires n <= |s| && forall i :: n <= i < |s| ==> k(s[i])
    ensures Drop(s, k) == Drop(s[..n], k)
  {
    var tail := s[n..];
    assert AllIn(tail, k) by {
      forall i | 0 <= i < |tail| ensures k(tail[i]) {
        assert tail[i] == s[n + i];
      }
    }
    assert s == s[..n] + tail;
    DropAppend(s[..n], tail, k);
    DropAll(tail, k);
  }

  lemma TrimKeepsRest(s: seq<char>)
    ensures Drop(Trim(s), IsSpace) == Drop(s, IsSpace)
  {
    StripKeepsRest(s, IsSpace, IsSpace);
  }

  /** Stripping cuts a slice, which keeps a character class and the absence of
      adjacent class members. */
  lemma StripKeepsClasses(s: seq<char>, k: CharClass, k2: CharClass)
    ensures AllIn(s, k2) ==> AllIn(Strip(s, k), k2)
    ensures NoAdjacent(s, k2) ==> NoAdjacent(Strip(s, k), k2)
  {
    var r := Strip(s, k);
    var a := LeadRun(s, k);
    if NoAdjacent(s, k2) {
      NoAdjacentSlice(s, k2, a, a + |r|);
    }
    assert forall i :: 0 <= i < |r| ==> r[i] == s[a + i];
  }

  /** Stripping changes nothing when the text neither starts nor ends with the class. */
  lemma StripNothing(s: seq<char>, k: CharClass)
    requires s != [] ==> !k(s[0]) && !k(s[|s| - 1])
    ensures Strip(s, k) == s
  {
    assert LeadRun(s, k) == 0;
    assert s[0..] == s;
    assert TrailRun(s, k) == 0;
  }

  /** A global `replace(/k+/g, rep)`: every maximal run of class-`k` characters
      becomes one copy of `rep`; every other character stays. */
  function ReplaceRuns(s: seq<char>, k: CharClass, rep: seq<char>): (r: seq<char>)
    ensures |rep| <= 1 ==> |r| <= |s|
    decreases |s|
  {
    if s == [] then []
    else
      var n := if k(s[0]) then LeadRun(s, k) else 1;
      (if k(s[0]) then rep else [s[0]]) + ReplaceRuns(s[n..], k, rep)
  }

  /** When every character of `s` is in `k` or in `k2` and `rep` is in `k2`, the
      result is all in `k2`: each character is a copy of `rep` or a character of
      `s` outside `k`. */
  lemma {:induction false} ReplaceRunsClass(s: seq<char>, k: CharClass, rep: seq<char>, k2: CharClass)
    requires forall i :: 0 <= i < |s| ==> k(s[i]) || k2(s[i])
    requires AllIn(rep, k2)
    ensures AllIn(ReplaceRuns(s, k, rep), k2)
    decreases |s|
  {
    if s != [] {
      var n := if k(s[0]) then LeadRun(s, k) else 1;
      ReplaceRunsClass(s[n..], k, rep, k2);
      var head := if k(s[0]) then rep else [s[0]];
      var r := ReplaceRuns(s, k, rep);
      assert r == head + ReplaceRuns(s[n..], k, rep);
      assert AllIn(head, k2);
    }
  }

  /** Replacing runs by text of a class `k2` and then removing `k2` is removing
      `k` and then `k2`: in particular (`k2 == k`) the characters outside the
      class survive unchanged and in order. */
  lemma {:induction false} ReplaceRunsThenDrop(s: seq<char>, k: CharClass, rep: seq<char>, k2: CharClass)
    requires AllIn(rep, k2)
    ensures Drop(ReplaceRuns(s, k, rep), k2) == Drop(Drop(s, k), k2)
    decreases |s|
  {
    if s != [] {
      if k(s[0]) {
        var t := s[LeadRun(s, k)..];
        ReplaceRunsThenDrop(t, k, rep, k2);
        DropSkipsRun(s, k);
        calc {
          Drop(ReplaceRuns(s, k, rep), k2);
          Drop(rep + ReplaceRuns(t, k, rep), k2);
          { DropAppend(rep, ReplaceRuns(t, k, rep), k2); DropAll(rep, k2); }
          Drop(ReplaceRuns(t, k, rep), k2);
        }
      } else {
        ReplaceRunsThenDrop(s[1..], k, rep, k2);
        calc {
          Drop(ReplaceRuns(s, k, rep), k2);
          Drop([s[0]] + ReplaceRuns(s[1..], k, rep), k2);
          { DropAppend([s[0]], ReplaceRuns(s[1..], k, rep), k2); }
          Drop([s[0]], k2) + Drop(Drop(s[1..], k), k2);
          { DropAppend([s[0]], Drop(s[1..], k), k2); }
          Drop([s[0]] + Drop(s[1..], k), k2);
          Drop(Drop(s, k), k2);
        }
      }
    }
  }

  /** Removing a class ignores a leading run of it. */
  lemma DropSkipsRun(s: seq<char>, k: CharClass)
    ensures Drop(s, k) == Drop(s[LeadRun(s, k)..], k)
  {
    DropLeading(s, LeadRun(s, k), k);
  }

  /** A prefix with no class-`k` character passes through unchanged. */
  lemma {:induction false} ReplaceRunsPlainPrefix(x: seq<char>, y: seq<char>, k: CharClass, rep: seq<char>)
    requires NoneIn(x, k)
    ensures ReplaceRuns(x + y, k, rep) == x + ReplaceRuns(y, k, rep)
  {
    if x == [] {
      assert x + y == y;
    } else {
      assert (x + y)[0] == x[0];
      assert (x + y)[1..] == x[1..] + y;
      ReplaceRunsPlainPrefix(x[1..], y, k, rep);
    }
  }

  /** `LeadRun` is the only length whose prefix is in the class and which is
      followed by the end or by a character outside it. */
  lemma {:induction false} LeadRunUnique(s: seq<char>, n: nat, k: CharClass)
    requires n <= |s| && (forall i :: 0 <= i < n ==> k(s[i])) && (n < |s| ==> !k(s[n]))
    ensures LeadRun(s, k) == n
  {
    if n > 0 {
      LeadRunUnique(s[1..], n - 1, k);
    }
  }

  /** A run of the class followed by text that does not start with the class
      becomes one copy of `rep`. */
  lemma ReplaceRunsRun(w: seq<char>, y: seq<char>, k: CharClass, rep: seq<char>)
    requires w != [] && AllIn(w, k)
    requires y == [] || !k(y[0])
    ensures ReplaceRuns(w + y, k, rep) == rep + ReplaceRuns(y, k, rep)
  {
    var s := w + y;
    assert s[0] == w[0];
    LeadRunUnique(s, |w|, k);
    assert s[|w|..] == y;
  }

  /** Run replacement splits where the left part ends outside the class: the runs
      of `x` and of `y` are replaced separately, so no run spans the joint. */
  lemma {:induction false} ReplaceRunsAppend(x: seq<char>, y: seq<char>, k: CharClass, rep: seq<char>)
    requires x == [] || !k(x[|x| - 1])
    ensures ReplaceRuns(x + y, k, rep) == ReplaceRuns(x, k, rep) + ReplaceRuns(y, k, rep)
    decreases |x|
  {
    if x == [] {
      assert x + y == y;
    } else {
      var n := if k(x[0]) then LeadRun(x, k) else 1;
      AppendHead(x, y, k);
      ReplaceRunsAppend(x[n..], y, k, rep);
    }
  }

  /** The first step of `ReplaceRuns` on `x + y` takes the same piece as on `x`
      when `x` ends outside the class. */
  lemma AppendHead(x: seq<char>, y: seq<char>, k: CharClass)
    requires x != [] && !k(x[|x| - 1])
    ensures var n := if k(x[0]) then LeadRun(x, k) else 1;
      && 0 < n <= |x|
      && (x + y)[0] == x[0]
      && (k(x[0]) ==> LeadRun(x + y, k) == n)
      && (x + y)[n..] == x[n..] + y
      && (x[n..] == [] || !k(x[n..][|x[n..]| - 1]))
  {
    var s := x + y;
    var n := if k(x[0]) then LeadRun(x, k) else 1;
    assert s[0] == x[0];
    if k(x[0]) {
      LeadRunUnique(s, n, k);
    }
    assert s[n..] == x[n..] + y;
    var t := x[n..];
    assert t != [] ==> t[|t| - 1] == x[|x| - 1];
  }

  /** One maximal run between a class-free prefix and text that does not start
      with the class becomes exactly one copy of `rep`. */
  lemma ReplaceRunsSplit(x: seq<char>, w: seq<char>, y: seq<char>, k: CharClass, rep: seq<char>)
    requires NoneIn(x, k) && w != [] && AllIn(w, k) && (y == [] || !k(y[0]))
    ensures ReplaceRuns(x + w + y, k, rep) == x + rep + ReplaceRuns(y, k, rep)
  {
    assert x + w + y == x + (w + y);
    ReplaceRunsPlainPrefix(x, w + y, k, rep);
    ReplaceRunsRun(w, y, k, rep);
  }

  /** A maximal run between two texts becomes exactly one copy of `rep`, and
      the texts on either side are replaced on their own. */
  lemma ReplaceRunsJoin(x: seq<char>, w: seq<char>, y: seq<char>, k: CharClass, rep: seq<char>)
    requires x == [] || !k(x[|x| - 1])
    requires w != [] && AllIn(w, k)
    requires y == [] || !k(y[0])
    ensures ReplaceRuns(x + w + y, k, rep) == ReplaceRuns(x, k, rep) + rep + ReplaceRuns(y, k, rep)
  {
    calc {
      ReplaceRuns(x + w + y, k, rep);
      { assert x + w + y == x + (w + y); }
      ReplaceRuns(x + (w + y), k, rep);
      { ReplaceRunsAppend(x, w + y, k, rep); }
      ReplaceRuns(x, k, rep) + ReplaceRuns(w + y, k, rep);
      { ReplaceRunsRun(w, y, k, rep); }
      ReplaceRuns(x, k, rep) + (rep + ReplaceRuns(y, k, rep));
      ReplaceRuns(x, k, rep) + rep + ReplaceRuns(y, k, rep);
    }
  }

  /** With a one-character replacement from the class itself, the result holds
      no other class-`k` character and no two of them side by side. */
  lemma {:induction false} ReplaceRunsSeparates(s: seq<char>, k: CharClass, c: char)
    requires k(c)
    ensures forall i :: 0 <= i < |ReplaceRuns(s, k, [c])| ==>
      k(ReplaceRuns(s, k, [c])[i]) ==> ReplaceRuns(s, k, [c])[i] == c
    ensures NoAdjacent(ReplaceRuns(s, k, [c]), k)
    decreases |s|
  {
    if s != [] {
      if k(s[0]) {
        var t := s[LeadRun(s, k)..];
        ReplaceRunsSeparates(t, k, c);
        var rest := ReplaceRuns(t, k, [c]);
        assert rest != [] ==> rest[0] == t[0];
        assert ReplaceRuns(s, k, [c]) == [c] + rest;
      } else {
        ReplaceRunsSeparates(s[1..], k, c);
        assert ReplaceRuns(s, k, [c]) == [s[0]] + ReplaceRuns(s[1..], k, [c]);
      }
    }
  }

  /** Replacing runs by nothing is removing the class. */
  lemma {:induction false} ReplaceRunsByNothing(s: seq<char>, k: CharClass)
    ensures ReplaceRuns(s, k, []) == Drop(s, k)
    decreases |s|
  {
    if s != [] {
      if k(s[0]) {
        ReplaceRunsByNothing(s[LeadRun(s, k)..], k);
        DropSkipsRun(s, k);
      } else {
        ReplaceRunsByNothing(s[1..], k);
      }
    }
  }

  /** A trailing run becomes a trailing `rep`. */
  lemma {:induction false} ReplaceRunsAtEnd(s: seq<char>, k: CharClass, rep: seq<char>)
    requires s != [] && k(s[|s| - 1])
    ensures |rep| <= |ReplaceRuns(s, k, rep)|
    ensures ReplaceRuns(s, k, rep)[|ReplaceRuns(s, k, rep)| - |rep|..] == rep
    decreases |s|
  {
    if k(s[0]) {
      var t := s[LeadRun(s, k)..];
      assert ReplaceRuns(s, k, rep) == rep + ReplaceRuns(t, k, rep);
      if t != [] {
        assert t[|t| - 1] == s[|s| - 1];
        ReplaceRunsAtEnd(t, k, rep);
      }
    } else {
      assert ReplaceRuns(s, k, rep) == [s[0]] + ReplaceRuns(s[1..], k, rep);
      assert s[1..][|s[1..]| - 1] == s[|s| - 1];
      ReplaceRunsAtEnd(s[1..], k, rep);
    }
  }

  /** Text whose class-`k` characters are single copies of `c` is its own run
      replacement. */
  lemma {:induction false} ReplaceRunsFixesSingles(s: seq<char>, k: CharClass, c: char)
    requires forall i :: 0 <= i < |s| ==> k(s[i]) ==> s[i] == c
    requires NoAdjacent(s, k)
    ensures ReplaceRuns(s, k, [c]) == s
    decreases |s|
  {
    if s != [] {
      var t := s[1..];
      assert NoAdjacent(t, k) && forall i :: 0 <= i < |t| ==> k(t[i]) ==> t[i] == c by {
        NoAdjacentSlice(s, k, 1, |s|);
      }
      ReplaceRunsFixesSingles(t, k, c);
      assert ReplaceRuns(s, k, [c]) == [s[0]] + ReplaceRuns(t, k, [c]) by {
        if k(s[0]) {
          assert |s| > 1 ==> !k(s[1]);
          assert LeadRun(s, k) == 1;
        }
      }
      assert s == [s[0]] + t;
    }
  }

  lemma NoAdjacentSlice(s: seq<char>, k: CharClass, i: nat, j: nat)
    requires NoAdjacent(s, k) && i <= j <= |s|
    ensures NoAdjacent(s[i..j], k)
  {
    forall n | 0 <= n < j - i - 1 ensures !(k(s[i..j][n]) && k(s[i..j][n + 1])) {
      assert s[i..j][n] == s[i + n] && s[i..j][n + 1] == s[i + n + 1];
    }
  }

  lemma NoAdjacentAppend(a: seq<char>, b: seq<char>, k: CharClass)
    requires NoAdjacent(a, k) && NoAdjacent(b, k)
    requires a != [] && b != [] ==> !(k(a[|a| - 1]) && k(b[0]))
    ensures NoAdjacent(a + b, k)
  {
    forall n | 0 <= n < |a + b| - 1 ensures !(k((a + b)[n]) && k((a + b)[n + 1])) {
      if n + 1 < |a| {
        assert (a + b)[n] == a[n] && (a + b)[n + 1] == a[n + 1];
      } else if n + 1 == |a| {
        assert (a + b)[n] == a[|a| - 1] && (a + b)[n + 1] == b[0];
      } else {
        assert (a + b)[n] == b[n - |a|] && (a + b)[n + 1] == b[n - |a| + 1];
      }
    }
  }

  /** Whether `pat` occurs in `s` at position `i`. */
  predicate OccursAt(s: seq<char>, pat: seq<char>, i: nat) {
    i + |pat| <= |s| && s[i..i + |pat|] == pat
  }

  /** `s.indexOf(pat)`: the first position at which `pat` occurs in `s`, if any. */
  function IndexOf(s: seq<char>, pat: seq<char>): (r: Option<nat>)
    ensures r.Some? ==> OccursAt(s, pat, r.value)
    ensures r.Some? ==> forall j: nat :: j < r.value ==> !OccursAt(s, pat, j)
    ensures r.None? ==> forall j: nat :: !OccursAt(s, pat, j)
  {
    if |s| < |pat| then None
    else if s[..|pat|] == pat then Some(0)
    else
      var rest := IndexOf(s[1..], pat);
      assert forall j: nat :: OccursAt(s, pat, j) ==> j >= 1 && OccursAt(s[1..], pat, j - 1) by {
        forall j: nat | OccursAt(s, pat, j) ensures j >= 1 && OccursAt(s[1..], pat, j - 1) {
          assert j != 0;
          assert s[1..][j - 1..j - 1 + |pat|] == s[j..j + |pat|];
        }
      }
      match rest
      case None => None
      case Some(j) =>
        assert s[1..][j..j + |pat|] == s[j + 1..j + 1 + |pat|];
        Some(j + 1)
  }

  /** `s.replace(pat, rep)` with a string pattern: only the first occurrence is
      replaced. */
  function ReplaceFirst(s: seq<char>, pat: seq<char>, rep: seq<char>): (r: seq<char>)
    ensures IndexOf(s, pat).None? ==> r == s
    ensures IndexOf(s, pat).Some? ==>
      var i := IndexOf(s, pat).value;
      && |r| == |s| - |pat| + |rep|
      && r[..i] == s[..i] && r[i..i + |rep|] == rep && r[i + |rep|..] == s[i + |pat|..]
  {
    match IndexOf(s, pat)
    case None => s
    case Some(i) => s[..i] + rep + s[i + |pat|..]
  }

  /** Removing the first occurrence of a non-empty pattern leaves nothing exactly
      when the text is empty or is the pattern itself. */
  lemma ReplaceFirstByNothing(s: seq<char>, pat: seq<char>)
    requires pat != []
    ensures ReplaceFirst(s, pat, []) == [] <==> (s == [] || s == pat)
  {
    match IndexOf(s, pat)
    case None =>
    case Some(i) =>
      assert |ReplaceFirst(s, pat, [])| == |s| - |pat|;
      if |s| == |pat| {
        assert i == 0 && s[0..|pat|] == s;
      }
  }

  /** Removing a pattern from the front of a text that starts with it leaves the
      rest. */
  lemma ReplaceFirstAtFront(pat: seq<char>, rest: seq<char>)
    ensures ReplaceFirst(pat + rest, pat, []) == rest
  {
    assert (pat + rest)[..|pat|] == pat;
    assert (pat + rest)[|pat|..] == rest;
  }

  /** A text in which the pattern does not occur is left as it is. */
  lemma ReplaceFirstAbsent(s: seq<char>, pat: seq<char>, rep: seq<char>)
    requires forall j: nat :: !OccursAt(s, pat, j)
    ensures ReplaceFirst(s, pat, rep) == s
  {
  }

  /** The `attr || null` relation between an attribute and the value kept:
      null exactly for an absent or empty attribute, otherwise the attribute. */
  predicate AttributeOrNull(attr: Option<seq<char>>, r: Option<seq<char>>) {
    && (r.None? <==> (attr.None? || attr.value == []))
    && (r.Some? ==> r == attr)
  }

  /** The `text.trim() || null` relation between a text and the value kept:
      null exactly for text that is all white space, otherwise the non-empty
      trimmed text. */
  predicate TrimmedOrNull(text: seq<char>, r: Option<seq<char>>) {
    && (r.None? <==> AllIn(text, IsSpace))
    && (r.Some? ==> r.value == Trim(text) && r.value != [])
  }

  /** `attr || null`: an absent or empty attribute is null. */
  function OrNull(a: Option<seq<char>>): (r: Option<seq<char>>)
    ensures AttributeOrNull(a, r)
  {
    if a.Some? && a.value != [] then a else None
  }

  /** `text || null`: empty text is null. */
  function TextOrNull(s: seq<char>): (r: Option<seq<char>>)
    ensures r.None? <==> s == []
    ensures r.Some? ==> r.value == s
  {
    if s == [] then None else Some(s)
  }

  /** `text.trim() || null`: null exactly for text that is all white space,
      otherwise the trimmed text. */
  function TrimOrNull(s: seq<char>): (r: Option<seq<char>>)
    ensures TrimmedOrNull(s, r)
    ensures r.Some? ==> !IsSpace(r.value[0]) && !IsSpace(r.value[|r.value| - 1])
  {
    TextOrNull(Trim(s))
  }
}
