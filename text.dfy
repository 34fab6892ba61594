/**
 * The JavaScript string operations the routes rely on: `trim`, the `\s`
 * character class, `toLowerCase` and the `replace(/\s+/g, "-")` of the
 * export file name, plus the binary string order MongoDB sorts names by.
 */
module Text {

  /** ECMAScript WhiteSpace and LineTerminator code points: what `trim`
      strips and what `\s` matches. Tab, line feed, vertical tab, form feed
      and carriage return are 9 to 13; U+2000 to U+200A are the
      typographic spaces. */
  predicate IsSpace(c: char) {
    var n := c as int;
    || n == 0x20 || 0x09 <= n <= 0x0D || n == 0xA0 || n == 0x1680
    || 0x2000 <= n <= 0x200A || n == 0x2028 || n == 0x2029 || n == 0x202F
    || n == 0x205F || n == 0x3000 || n == 0xFEFF
  }

  predicate AllSpace(s: string) {
    forall i :: 0 <= i < |s| ==> IsSpace(s[i])
  }

  predicate NoSpace(s: string) {
    forall i :: 0 <= i < |s| ==> !IsSpace(s[i])
  }

  /** Drops the leading whitespace: what is left is a suffix of `s`
      that does not start with whitespace. */
  function TrimStart(s: string): (r: string)
    ensures |r| <= |s| && r == s[|s| - |r|..]
    ensures r != [] ==> !IsSpace(r[0])
    decreases |s|
  {
    if s != [] && IsSpace(s[0]) then
      var r := TrimStart(s[1..]);
      assert s[1..][|s[1..]| - |r|..] == s[|s| - |r|..];
      r
    else
      s
  }

  /** Drops the trailing whitespace: what is left is a prefix of `s`
      that does not end with whitespace. */
  function TrimEnd(s: string): (r: string)
    ensures |r| <= |s| && r == s[..|r|]
    ensures r != [] ==> !IsSpace(r[|r| - 1])
    decreases |s|
  {
    if s != [] && IsSpace(s[|s| - 1]) then
      var r := TrimEnd(s[..|s| - 1]);
      assert s[..|s| - 1][..|r|] == s[..|r|];
      r
    else
      s
  }

  lemma AllSpaceCons(s: string)
    requires s != []
    ensures AllSpace(s) <==> IsSpace(s[0]) && AllSpace(s[1..])
  {
    if IsSpace(s[0]) && AllSpace(s[1..]) {
      forall i | 0 < i < |s|
        ensures IsSpace(s[i])
      {
        assert s[i] == s[1..][i - 1];
      }
    }
  }

  lemma AllSpaceSnoc(s: string)
    requires s != []
    ensures AllSpace(s) <==> IsSpace(s[|s| - 1]) && AllSpace(s[..|s| - 1])
  {
    if IsSpace(s[|s| - 1]) && AllSpace(s[..|s| - 1]) {
      forall i | 0 <= i < |s| - 1
        ensures IsSpace(s[i])
      {
        assert s[i] == s[..|s| - 1][i];
      }
    }
  }

  /** What `TrimStart` cuts is whitespace, and it cuts everything exactly
      when everything is whitespace. */
  lemma {:induction false} TrimStartCutsSpace(s: string)
    ensures AllSpace(s[..|s| - |TrimStart(s)|])
    ensures TrimStart(s) == [] <==> AllSpace(s)
    decreases |s|
  {
    if s != [] {
      AllSpaceCons(s);
      if IsSpace(s[0]) {
        var tail := s[1..];
        var r := TrimStart(tail);
        assert r == TrimStart(s);
        TrimStartCutsSpace(tail);
        var n := |tail| - |r|;
        var cut := s[..n + 1];
        assert cut[0] == s[0] && cut[1..] == tail[..n];
        AllSpaceCons(cut);
      }
    }
  }

  /** What `TrimEnd` cuts is whitespace, and it cuts everything exactly when
      everything is whitespace. */
  lemma {:induction false} TrimEndCutsSpace(s: string)
    ensures AllSpace(s[|TrimEnd(s)|..])
    ensures TrimEnd(s) == [] <==> AllSpace(s)
    decreases |s|
  {
    if s != [] {
      AllSpaceSnoc(s);
      if IsSpace(s[|s| - 1]) {
        var r := TrimEnd(s[..|s| - 1]);
        TrimEndCutsSpace(s[..|s| - 1]);
        var cut := s[|r|..];
        assert cut[|cut| - 1] == s[|s| - 1] && cut[..|cut| - 1] == s[..|s| - 1][|r|..];
        AllSpaceSnoc(cut);
      }
    }
  }

  /** `String.prototype.trim`: whitespace cut from both ends. The result is
      a slice of `s`: a prefix (`TrimEnd`) of a suffix (`TrimStart`), and
      `TrimStartCutsSpace`/`TrimEndCutsSpace` say that all that is cut is
      whitespace. */
  function Trim(s: string): (r: string)
    ensures |r| <= |s|
    ensures r != [] ==> !IsSpace(r[0]) && !IsSpace(r[|r| - 1])
    ensures r == [] <==> AllSpace(s)
  {
    var t := TrimStart(s);
    TrimStartCutsSpace(s);
    TrimEndCutsSpace(t);
    assert AllSpace(t) ==> t == [] by {
      if t != [] { assert !IsSpace(t[0]); }
    }
    TrimEnd(t)
  }

  lemma TrimIdempotent(s: string)
    ensures Trim(Trim(s)) == Trim(s)
  {
    var r := Trim(s);
    if r != [] {
      assert TrimStart(r) == r;
      assert TrimEnd(r) == r;
    }
  }

  /** `toLowerCase` on one character; only the ASCII letters are mapped. */
  function Lower(c: char): (r: char)
    ensures IsSpace(r) == IsSpace(c)
    ensures 'A' <= c <= 'Z' ==> r as int == c as int + 32
    ensures !('A' <= c <= 'Z') ==> r == c
  {
    if 'A' <= c <= 'Z' then (c as int + 32) as char else c
  }

  /** `toLowerCase` on a string. */
  function LowerStr(s: string): (r: string)
    ensures |r| == |s|
    ensures forall i :: 0 <= i < |s| ==> r[i] == Lower(s[i])
    decreases |s|
  {
    if s == [] then [] else [Lower(s[0])] + LowerStr(s[1..])
  }

  /** The case-insensitive comparison the routes use:
      `a.toLowerCase() === b.toLowerCase()`. */
  predicate EqualsIgnoringCase(a: string, b: string) {
    LowerStr(a) == LowerStr(b)
  }

  lemma {:induction false} LowerTrimStartCommute(s: string)
    ensures LowerStr(TrimStart(s)) == TrimStart(LowerStr(s))
    decreases |s|
  {
    if s != [] && IsSpace(s[0]) {
      assert LowerStr(s)[1..] == LowerStr(s[1..]);
      LowerTrimStartCommute(s[1..]);
    }
  }

  lemma {:induction false} LowerTrimEndCommute(s: string)
    ensures LowerStr(TrimEnd(s)) == TrimEnd(LowerStr(s))
    decreases |s|
  {
    if s != [] && IsSpace(s[|s| - 1]) {
      assert LowerStr(s)[..|s| - 1] == LowerStr(s[..|s| - 1]);
      LowerTrimEndCommute(s[..|s| - 1]);
    }
  }

  /** Lower-casing never changes what trimming removes, so the two commute. */
  lemma LowerTrimCommute(s: string)
    ensures LowerStr(Trim(s)) == Trim(LowerStr(s))
  {
    LowerTrimStartCommute(s);
    LowerTrimEndCommute(TrimStart(s));
  }

  /** Two names that differ only in letter case still do after trimming. */
  lemma TrimKeepsCaseEquality(a: string, b: string)
    requires EqualsIgnoringCase(a, b)
    ensures EqualsIgnoringCase(Trim(a), Trim(b))
    ensures Trim(a) == [] <==> Trim(b) == []
  {
    LowerTrimCommute(a);
    LowerTrimCommute(b);
    assert |Trim(a)| == |LowerStr(Trim(a))| == |LowerStr(Trim(b))| == |Trim(b)|;
  }

  /** `s.replace(/\s+/g, "-")`: every maximal run of whitespace becomes a
      single dash; other characters are copied unchanged. */
  function DashSpaceRuns(s: string): (r: string)
    ensures NoSpace(r)
    ensures |r| <= |s|
    ensures |r| == 0 <==> |s| == 0
    ensures NoSpace(s) ==> r == s
    decreases |s|
  {
    if s == [] then []
    else if IsSpace(s[0]) then
      var rest := TrimStart(s);
      assert |rest| < |s|;
      "-" + DashSpaceRuns(rest)
    else [s[0]] + DashSpaceRuns(s[1..])
  }

  lemma {:induction false} TrimStartSkipsRun(run: string, post: string)
    requires AllSpace(run)
    ensures TrimStart(run + post) == TrimStart(post)
    decreases |run|
  {
    if run != [] {
      assert (run + post)[0] == run[0];
      assert (run + post)[1..] == run[1..] + post;
      TrimStartSkipsRun(run[1..], post);
    } else {
      assert run + post == post;
    }
  }

  /** A run of whitespace, however long, gives one dash. */
  lemma DashSpaceRunsCollapses(run: string, post: string)
    requires run != [] && AllSpace(run)
    requires post == [] || !IsSpace(post[0])
    ensures DashSpaceRuns(run + post) == "-" + DashSpaceRuns(post)
  {
    var s := run + post;
    assert s[0] == run[0];
    TrimStartSkipsRun(run, post);
  }

  /** A character other than whitespace is copied as it is. */
  lemma DashSpaceRunsHead(s: string)
    requires s != [] && !IsSpace(s[0])
    ensures DashSpaceRuns(s) == [s[0]] + DashSpaceRuns(s[1..])
  {
  }

  /** Splitting the first character off a concatenation. */
  lemma SplitFirst(word: string, post: string, d: string)
    requires word != []
    ensures (word + post)[0] == word[0]
    ensures (word + post)[1..] == word[1..] + post
    ensures [word[0]] + (word[1..] + d) == word + d
  {
    assert word == [word[0]] + word[1..];
  }

  /** A word without whitespace is copied unchanged in front of whatever
      the rest becomes. */
  lemma {:induction false} DashSpaceRunsKeepsWord(word: string, post: string)
    requires NoSpace(word)
    ensures DashSpaceRuns(word + post) == word + DashSpaceRuns(post)
    decreases |word|
  {
    if word != [] {
      SplitFirst(word, post, DashSpaceRuns(post));
      DashSpaceRunsHead(word + post);
      assert NoSpace(word[1..]) by {
        forall i | 0 <= i < |word[1..]| ensures !IsSpace(word[1..][i]) {
          assert word[1..][i] == word[i + 1];
        }
      }
      DashSpaceRunsKeepsWord(word[1..], post);
    } else {
      assert word + post == post;
    }
  }

  /** Binary (code point) string order, the order MongoDB sorts plain
      string fields by under its default collation. */
  predicate LexLeq(a: string, b: string)
    decreases |a|
  {
    a == [] || (b != [] && (a[0] < b[0] || (a[0] == b[0] && LexLeq(a[1..], b[1..]))))
  }

  lemma {:induction false} LexLeqTotal(a: string, b: string)
    ensures LexLeq(a, b) || LexLeq(b, a)
    decreases |a|
  {
    if a != [] && b != [] && a[0] == b[0] {
      LexLeqTotal(a[1..], b[1..]);
    }
  }

  lemma {:induction false} LexLeqTransitive(a: string, b: string, c: string)
    requires LexLeq(a, b) && LexLeq(b, c)
    ensures LexLeq(a, c)
    decreases |a|
  {
    if a != [] && a[0] == b[0] && b[0] == c[0] {
      LexLeqTransitive(a[1..], b[1..], c[1..]);
    }
  }
}
