/** Pattern languages of the search back ends.  Elasticsearch wildcards and SQL
    LIKE are the same language with different metacharacters: one stands for any
    run of characters, one for any single character, and a backslash quotes. */
module Patterns {
  import opened Text

  datatype Chars = Chars(many: char, one: char)

  /** The three special characters differ. */
  type Syntax = x: Chars | x.many != x.one && x.many != '\\' && x.one != '\\' witness Chars('*', '?')

  const WILDCARD: Syntax := Chars('*', '?')
  const LIKE: Syntax := Chars('%', '_')

  /** Does `s` match the pattern `p` when characters are compared after `fold`?
      A backslash at the very end of a pattern stands for itself. */
  predicate Matches(x: Syntax, fold: char -> char, p: string, s: string)
    decreases |p| + |s|
  {
    if p == [] then s == []
    else if p[0] == x.many then
      Matches(x, fold, p[1..], s) || (s != [] && Matches(x, fold, p, s[1..]))
    else if p[0] == x.one then
      s != [] && Matches(x, fold, p[1..], s[1..])
    else if p[0] == '\\' && |p| > 1 then
      s != [] && fold(s[0]) == fold(p[1]) && Matches(x, fold, p[2..], s[1..])
    else
      s != [] && fold(s[0]) == fold(p[0]) && Matches(x, fold, p[1..], s[1..])
  }

  /** The escape as written: three replacements one after the other
      (backslash, then the run metacharacter, then the single one). */
  function Escape(x: Syntax, t: string): string {
    Replace(Replace(Replace(t, '\\', "\\\\"), x.many, ['\\', x.many]), x.one, ['\\', x.one])
  }

  /** The escape as intended: every special character quoted once, in one pass. */
  function QuoteEach(x: Syntax, t: string): string {
    if t == [] then []
    else QuoteOne(x, t[0]) + QuoteEach(x, t[1..])
  }

  /** The three replacements do not interfere with each other. */
  lemma {:induction false} EscapeIsSimultaneous(x: Syntax, t: string)
    ensures Escape(x, t) == QuoteEach(x, t)
  {
    if t == [] {
    } else {
      var c := t[0];
      EscapeIsSimultaneous(x, t[1..]);
      var bs := if c == '\\' then "\\\\" else [c];
      var rest1 := Replace(t[1..], '\\', "\\\\");
      assert Replace(t, '\\', "\\\\") == bs + rest1;
      ReplaceConcat(bs, rest1, x.many, ['\\', x.many]);
      var bs2 := Replace(bs, x.many, ['\\', x.many]);
      assert bs2 == if c == '\\' then "\\\\" else if c == x.many then ['\\', x.many] else [c] by {
        assert bs[1..] == if c == '\\' then ['\\'] else [];
      }
      var rest2 := Replace(rest1, x.many, ['\\', x.many]);
      ReplaceConcat(bs2, rest2, x.one, ['\\', x.one]);
      assert Replace(bs2, x.one, ['\\', x.one]) == if c in {'\\', x.many, x.one} then ['\\', c] else [c] by {
        assert |bs2| == 2 ==> bs2[1..] == [bs2[1]];
      }
    }
  }

  function QuoteOne(x: Syntax, c: char): string {
    if c in {'\\', x.many, x.one} then ['\\', c] else [c]
  }

  /** A quoted character consumes exactly that character. */
  lemma QuotedStep(x: Syntax, fold: char -> char, c: char, q: string, s: string)
    ensures Matches(x, fold, QuoteOne(x, c) + q, s) <==>
            s != [] && fold(s[0]) == fold(c) && Matches(x, fold, q, s[1..])
  {
    var p := QuoteOne(x, c) + q;
    if c in {'\\', x.many, x.one} {
      assert p[0] == '\\' && p[1] == c && p[2..] == q;
    } else {
      assert p[0] == c && p[1..] == q;
    }
  }

  /** An escaped text in front of a pattern consumes exactly that text. */
  lemma {:induction false} QuotedPrefix(x: Syntax, fold: char -> char, t: string, q: string, s: string)
    ensures Matches(x, fold, QuoteEach(x, t) + q, s) <==>
            |t| <= |s| && MapChars(fold, s[..|t|]) == MapChars(fold, t) && Matches(x, fold, q, s[|t|..])
  {
    hide Matches;
    if t == [] {
      assert QuoteEach(x, t) + q == q;
      assert s[0..] == s;
    } else {
      var tail := QuoteEach(x, t[1..]) + q;
      assert QuoteEach(x, t) + q == QuoteOne(x, t[0]) + tail;
      QuotedStep(x, fold, t[0], tail, s);
      if s != [] {
        QuotedPrefix(x, fold, t[1..], q, s[1..]);
        if |t| <= |s| {
          assert s[1..][|t| - 1..] == s[|t|..];
          assert s[..|t|][1..] == s[1..][..|t| - 1];
          FoldCons(fold, s[..|t|], t);
        }
      }
    }
  }

  lemma FoldCons(fold: char -> char, a: string, b: string)
    requires |a| == |b| > 0
    ensures MapChars(fold, a) == MapChars(fold, b) <==>
            fold(a[0]) == fold(b[0]) && MapChars(fold, a[1..]) == MapChars(fold, b[1..])
  {
    var fa, fb := MapChars(fold, a), MapChars(fold, b);
    assert MapChars(fold, a[1..]) == fa[1..];
    assert MapChars(fold, b[1..]) == fb[1..];
    assert fa == [fa[0]] + fa[1..];
    assert fb == [fb[0]] + fb[1..];
  }

  /** A run metacharacter lets the rest of the pattern start anywhere. */
  lemma {:induction false} ManyMeansAnywhere(x: Syntax, fold: char -> char, q: string, s: string)
    ensures Matches(x, fold, [x.many] + q, s) <==> exists i :: 0 <= i <= |s| && Matches(x, fold, q, s[i..])
  {
    var p := [x.many] + q;
    assert p[1..] == q;
    assert s[0..] == s;
    if s == [] {
    } else {
      ManyMeansAnywhere(x, fold, q, s[1..]);
      if j :| 0 <= j <= |s[1..]| && Matches(x, fold, q, s[1..][j..]) {
        assert s[1..][j..] == s[j + 1..];
      }
      if i :| 0 < i <= |s| && Matches(x, fold, q, s[i..]) {
        assert s[1..][i - 1..] == s[i..];
      }
    }
  }

  lemma ManyAlone(x: Syntax, fold: char -> char, s: string)
    ensures Matches(x, fold, [x.many], s)
  {
    ManyMeansAnywhere(x, fold, [], s);
    assert [x.many] + [] == [x.many];
    assert s[|s|..] == [];
  }

  /** `many esc(t) many` matches exactly the strings that contain t. */
  lemma ContainsExact(x: Syntax, fold: char -> char, t: string, s: string)
    ensures Matches(x, fold, [x.many] + Escape(x, t) + [x.many], s) <==> Occurs(MapChars(fold, t), MapChars(fold, s))
  {
    EscapeIsSimultaneous(x, t);
    var q := QuoteEach(x, t) + [x.many];
    assert [x.many] + Escape(x, t) + [x.many] == [x.many] + q;
    ManyMeansAnywhere(x, fold, q, s);
    forall i | 0 <= i <= |s|
      ensures Matches(x, fold, q, s[i..]) <==>
              i <= |s| - |t| && MapChars(fold, s)[i..][..|t|] == MapChars(fold, t)
    {
      QuotedPrefix(x, fold, t, [x.many], s[i..]);
      if |t| <= |s[i..]| {
        ManyAlone(x, fold, s[i..][|t|..]);
        FoldSlice(fold, s, i, |t|);
      }
    }
  }

  /** `esc(t) many` matches exactly the strings that start with t. */
  lemma PrefixExact(x: Syntax, fold: char -> char, t: string, s: string)
    ensures Matches(x, fold, Escape(x, t) + [x.many], s) <==> MapChars(fold, t) <= MapChars(fold, s)
  {
    EscapeIsSimultaneous(x, t);
    QuotedPrefix(x, fold, t, [x.many], s);
    if |t| <= |s| {
      ManyAlone(x, fold, s[|t|..]);
      FoldSlice(fold, s, 0, |t|);
      assert s[0..] == s;
      assert MapChars(fold, s)[0..] == MapChars(fold, s);
    }
  }

  /** `many esc(t)` matches exactly the strings that end with t. */
  lemma SuffixExact(x: Syntax, fold: char -> char, t: string, s: string)
    ensures Matches(x, fold, [x.many] + Escape(x, t), s) <==> EndsWith(MapChars(fold, s), MapChars(fold, t))
  {
    EscapeIsSimultaneous(x, t);
    var q := QuoteEach(x, t);
    ManyMeansAnywhere(x, fold, q, s);
    forall i | 0 <= i <= |s|
      ensures Matches(x, fold, q, s[i..]) <==> i == |s| - |t| && MapChars(fold, s)[i..] == MapChars(fold, t)
    {
      QuotedPrefix(x, fold, t, [], s[i..]);
      assert q + [] == q;
      if |t| <= |s[i..]| {
        FoldSlice(fold, s, i, |t|);
        if i == |s| - |t| {
          assert s[i..][|t|..] == [];
          assert MapChars(fold, s)[i..][..|t|] == MapChars(fold, s)[i..];
        }
      }
    }
  }

  lemma FoldSlice(fold: char -> char, s: string, i: nat, n: nat)
    requires i + n <= |s|
    ensures MapChars(fold, s[i..][..n]) == MapChars(fold, s)[i..][..n]
  {
  }
}
