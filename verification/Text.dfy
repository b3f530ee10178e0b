/** String vocabulary shared by the filter translators: Python's `str` operations
    that the sources use, stated on sequences of characters. */
module Text {

  datatype Option<+T> = None | Some(value: T)

  /** Character-wise image of a string. */
  function MapChars(f: char -> char, s: string): (r: string)
    ensures |r| == |s|
    ensures forall i :: 0 <= i < |s| ==> r[i] == f(s[i])
  {
    seq(|s|, i requires 0 <= i < |s| => f(s[i]))
  }

  /** `s.find(t) >= 0`: t occurs in s as a contiguous block. */
  predicate Occurs(t: string, s: string) {
    exists i :: 0 <= i <= |s| - |t| && s[i..][..|t|] == t
  }

  /** `s.endswith(t)`. */
  predicate EndsWith(s: string, t: string) {
    |t| <= |s| && s[|s| - |t|..] == t
  }

  /** `s.replace(c, r)` for a one-character needle. */
  function Replace(s: string, c: char, r: string): string {
    if s == [] then []
    else (if s[0] == c then r else [s[0]]) + Replace(s[1..], c, r)
  }

  lemma {:induction false} ReplaceConcat(a: string, b: string, c: char, r: string)
    ensures Replace(a + b, c, r) == Replace(a, c, r) + Replace(b, c, r)
  {
    if a == [] {
      assert a + b == b;
    } else {
      assert (a + b)[1..] == a[1..] + b;
      ReplaceConcat(a[1..], b, c, r);
    }
  }

  lemma {:induction false} ReplaceNothing(s: string, c: char, r: string)
    requires c !in s
    ensures Replace(s, c, r) == s
  {
    if s == [] {
    } else {
      assert s == [s[0]] + s[1..];
      ReplaceNothing(s[1..], c, r);
    }
  }

  function TrimLeft(space: char -> bool, s: string): string {
    if s != [] && space(s[0]) then TrimLeft(space, s[1..]) else s
  }

  function TrimRight(space: char -> bool, s: string): string {
    if s != [] && space(s[|s| - 1]) then TrimRight(space, s[..|s| - 1]) else s
  }

  /** `s.strip()`. */
  function Strip(space: char -> bool, s: string): string {
    TrimRight(space, TrimLeft(space, s))
  }

  lemma {:induction false} TrimLeftIsSuffix(space: char -> bool, s: string)
    ensures |TrimLeft(space, s)| <= |s| && TrimLeft(space, s) == s[|s| - |TrimLeft(space, s)|..]
    ensures TrimLeft(space, s) != [] ==> !space(TrimLeft(space, s)[0])
  {
    if s == [] || !space(s[0]) {
    } else {
      TrimLeftIsSuffix(space, s[1..]);
    }
  }

  lemma {:induction false} TrimRightIsPrefix(space: char -> bool, s: string)
    ensures TrimRight(space, s) <= s
    ensures TrimRight(space, s) != [] ==> !space(TrimRight(space, s)[|TrimRight(space, s)| - 1])
  {
    if s == [] || !space(s[|s| - 1]) {
    } else {
      TrimRightIsPrefix(space, s[..|s| - 1]);
    }
  }

  /** Stripping keeps the length only when there is nothing to strip. */
  lemma StripShorter(space: char -> bool, s: string)
    ensures |Strip(space, s)| <= |s|
    ensures |Strip(space, s)| == |s| ==> Strip(space, s) == s
  {
    TrimLeftIsSuffix(space, s);
    TrimRightIsPrefix(space, TrimLeft(space, s));
  }

  lemma StripTwice(space: char -> bool, s: string)
    ensures Strip(space, Strip(space, s)) == Strip(space, s)
  {
    var l := TrimLeft(space, s);
    var r := TrimRight(space, l);
    TrimLeftIsSuffix(space, s);
    TrimRightIsPrefix(space, l);
    if r != [] {
      assert r[0] == l[0];
    }
  }

  // ----- dotted paths -----

  /** `path.split(".")`. */
  function SplitDots(path: string, head: string): (r: seq<string>)
    ensures r != []
    decreases |path|
  {
    if path == [] then [head]
    else if path[0] == '.' then [head] + SplitDots(path[1..], [])
    else SplitDots(path[1..], head + [path[0]])
  }

  /** `".".join(keys)`. */
  function Dotted(keys: seq<string>): string {
    if keys == [] then [] else if |keys| == 1 then keys[0] else keys[0] + "." + Dotted(keys[1..])
  }

  /** A path is its keys joined by dots, and no key holds a dot: paths and key lists
      correspond one to one. */
  lemma {:induction false} SplitIsExact(path: string, head: string)
    requires '.' !in head
    ensures Dotted(SplitDots(path, head)) == head + path
    ensures forall i :: 0 <= i < |SplitDots(path, head)| ==> '.' !in SplitDots(path, head)[i]
    decreases |path|
  {
    if path == [] {
      assert head + path == head;
    } else if path[0] == '.' {
      SplitIsExact(path[1..], []);
      var rest := SplitDots(path[1..], []);
      assert ([head] + rest)[1..] == rest;
      assert [] + path[1..] == path[1..];
      assert head + "." + path[1..] == head + path;
    } else {
      SplitIsExact(path[1..], head + [path[0]]);
      assert head + [path[0]] + path[1..] == head + path;
    }
  }

  /** A path without a dot is its only key. */
  lemma {:induction false} NoDots(k: string, head: string)
    requires '.' !in k
    ensures SplitDots(k, head) == [head + k]
  {
    if k == [] {
      assert head + k == head;
    } else {
      assert k == [k[0]] + k[1..];
      NoDots(k[1..], head + [k[0]]);
      assert head + [k[0]] + k[1..] == head + k;
    }
  }
}
