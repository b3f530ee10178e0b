/** GaussDB filters on documents that store lists of texts: where the JSON text of the list
    is searched instead of its members. */
module GaussLists {
  import opened Text
  import opened Python
  import opened MetaFilter
  import opened Coercion
  import opened SqlSyntax
  import opened GaussFilter
  import opened GaussProofs
  import opened GaussMemory
  import opened TextDocs
  import Es = EsPushdown
  import ListText

  lemma Differs(h: Host, e: Engine, rd: Reading, f: Filter, xs: seq<string>)
    requires ListText.AllPlain(xs) && !Agrees(h, e, rd, f, Many(xs))
    ensures !OnLists(h, e, rd, f)
  {
    hide Agrees, ListText.AllPlain;
  }

  /** `empty` and `not empty` do not agree on lists: an empty list is no value in memory,
      and a list of an empty text is one. */
  lemma EmptyNeverOnLists(h: Host, e: Engine, rd: Reading, k: string, v: PyVal)
    requires ValidKey(k)
    ensures !OnLists(h, e, rd, Filter(k, Empty, v)) && !OnLists(h, e, rd, Filter(k, NotEmpty, v))
  {
    EmptyAsks(h, e, rd, k, v, Many([]));
    EmptyAsks(h, e, rd, k, v, Many([""]));
    OppositeEmptiness(h, "", v);
    hide Asks, Matched;
    assert ListText.AllPlain([]) && ListText.AllPlain([""]);
    Differs(h, e, rd, Filter(k, Empty, v), []);
    Differs(h, e, rd, Filter(k, NotEmpty, v), [""]);
  }

  lemma SomeIsIn(h: Host, xs: seq<string>, s: string)
    ensures SomeContains(h, xs, s) <==> ListText.InSome(h.Lower(s), LowerAll(h, xs))
  {
    hide Occurs;
    var ys := LowerAll(h, xs);
    assert forall i :: 0 <= i < |xs| ==> ys[i] == h.Lower(xs[i]);
  }

  /** The text of the whole list is searched; a member that is the value adds nothing. */
  lemma ManyContains(h: Host, e: Engine, xs: seq<string>, s: string)
    requires Alike(h, e)
    ensures Contained(h, Many(xs), s) <==> Occurs(h.Lower(s), ListText.Listed(LowerAll(h, xs)))
  {
    var w := h.Lower(s);
    LowerTwice(h, s);
    hide Alike, Occurs, ListText.Listed;
    if w in xs {
      var i :| 0 <= i < |xs| && xs[i] == w;
      Es.OccursInItself(w);
      assert LowerAll(h, xs)[i] == w;
      ListText.ItemFound(w, LowerAll(h, xs));
    }
  }

  lemma LowerSame(h: Host, e: Engine, s: string, xs: seq<string>)
    requires Alike(h, e) && ListText.AllPlain(xs) && ListText.Listed(xs) == h.Lower(s)
    ensures LowerAll(h, xs) == xs
  {
    LowerListed(h, e, xs);
    LowerTwice(h, s);
    LowerAllPlain(h, e, xs);
    ListText.ListedRead(xs);
    ListText.ListedRead(LowerAll(h, xs));
  }

  /** `contains` searches the JSON text of a list: it agrees on all lists if and only if
      the value is a text that is not read across the punctuation of one. */
  lemma ContainsOnListsIff(h: Host, e: Engine, rd: Reading, k: string, value: PyVal)
    requires Alike(h, e) && ValidKey(k) && CoerceString(h, value).Ok?
    ensures OnLists(h, e, rd, Filter(k, Contains, value)) <==>
            if value.PStr? then !ListText.Spills(h.Lower(value.s)) else !ListText.Readable(h.Lower(h.Str(value)))
  {
    var f, s := Filter(k, Contains, value), h.Str(value);
    var w := h.Lower(s);
    assert |w| == |s| > 0;
    forall xs | ListText.AllPlain(xs)
      ensures Agrees(h, e, rd, f, Many(xs)) <==>
        (Occurs(w, ListText.Listed(LowerAll(h, xs))) <==>
         value.PStr? && ListText.InSome(w, LowerAll(h, xs)))
    {
      ContainsAsks(h, e, rd, k, value, Many(xs));
      ManyInMemoryContains(h, k, value, xs);
      SomeIsIn(h, xs, s);
      ManyContains(h, e, xs, s);
      hide Alike, Asks, InMemory, Contained, Occurs, SomeContains, ListText.InSome, ListText.Listed, ListText.AllPlain;
    }
    hide Agrees, CoerceString, ValidKey, Occurs, ListText.InSome, ListText.Listed;
    if value.PStr? {
      if !ListText.Spills(w) {
        forall xs | ListText.AllPlain(xs) ensures Agrees(h, e, rd, f, Many(xs)) {
          NoSpillNoDifference(h, e, w, xs);
        }
      } else {
        var xs := LowerSpill(h, e, s);
        Differs(h, e, rd, f, xs);
      }
    } else if ListText.Readable(w) {
      ListText.FoundIff(w);
      var xs :| ListText.AllPlain(xs) && Occurs(w, ListText.Listed(xs));
      FoundLower(h, e, s, xs);
      Differs(h, e, rd, f, xs);
    } else {
      forall xs | ListText.AllPlain(xs) ensures Agrees(h, e, rd, f, Many(xs)) {
        LowerAllPlain(h, e, xs);
        ListText.FoundIff(w);
      }
    }
  }

  lemma NoSpillNoDifference(h: Host, e: Engine, w: string, xs: seq<string>)
    requires Alike(h, e) && ListText.AllPlain(xs) && w != [] && !ListText.Spills(w)
    ensures Occurs(w, ListText.Listed(LowerAll(h, xs))) <==> ListText.InSome(w, LowerAll(h, xs))
  {
    LowerAllPlain(h, e, xs);
    hide Alike, Occurs, ListText.Spills, ListText.InSome, ListText.AllPlain;
    if Occurs(w, ListText.Listed(LowerAll(h, xs))) {
      ListText.FoundInside(w, LowerAll(h, xs));
    }
    if ListText.InSome(w, LowerAll(h, xs)) {
      ListText.ItemFound(w, LowerAll(h, xs));
    }
  }

  lemma FoundLower(h: Host, e: Engine, s: string, xs: seq<string>)
    requires Alike(h, e) && Occurs(h.Lower(s), ListText.Listed(xs))
    ensures Occurs(h.Lower(s), ListText.Listed(LowerAll(h, xs)))
  {
    var w, t := h.Lower(s), ListText.Listed(xs);
    LowerListed(h, e, xs);
    LowerTwice(h, s);
    hide Alike, ListText.Listed;
    var i :| 0 <= i <= |t| - |w| && t[i..][..|w|] == w;
    assert h.Lower(t)[i..][..|w|] == h.Lower(w) by {
      forall j | 0 <= j < |w| ensures h.Lower(t)[i..][..|w|][j] == h.Lower(w)[j] {
        assert t[i..][..|w|][j] == t[i + j];
      }
    }
  }

  /** The list in which the value spills can be taken in lower case. */
  lemma LowerSpill(h: Host, e: Engine, s: string) returns (xs: seq<string>)
    requires Alike(h, e) && ListText.Spills(h.Lower(s))
    ensures ListText.AllPlain(xs)
    ensures Occurs(h.Lower(s), ListText.Listed(LowerAll(h, xs))) && !ListText.InSome(h.Lower(s), LowerAll(h, xs))
  {
    xs := ListText.SpillsAcross(h.Lower(s));
    FoundLower(h, e, s, xs);
    var w := h.Lower(s);
    if '"' in w {
      LowerAllPlain(h, e, xs);
      hide Alike, Occurs;
      forall i | 0 <= i < |xs| ensures !Occurs(w, LowerAll(h, xs)[i]) {
        ListText.QuoteNotPlain(w, LowerAll(h, xs)[i]);
      }
    } else {
      hide ListText.Listed;
      forall i | 0 <= i < |xs| ensures !Occurs(w, LowerAll(h, xs)[i]) {
        assert |LowerAll(h, xs)[i]| == |xs[i]| == 0;
      }
    }
  }

  ghost predicate SomeBegins(h: Host, xs: seq<string>, w: string) {
    exists i :: 0 <= i < |xs| && w <= h.Lower(xs[i])
  }

  ghost predicate SomeEnds(h: Host, xs: seq<string>, w: string) {
    exists i :: 0 <= i < |xs| && EndsWith(h.Lower(xs[i]), w)
  }

  predicate TextBegins(h: Host, xs: seq<string>, w: string) {
    w <= ListText.Listed(LowerAll(h, xs))
  }

  predicate TextEnds(h: Host, xs: seq<string>, w: string) {
    EndsWith(ListText.Listed(LowerAll(h, xs)), w)
  }

  lemma AffixAgrees(h: Host, e: Engine, rd: Reading, k: string, value: PyVal, xs: seq<string>)
    requires Alike(h, e) && ValidKey(k) && CoerceString(h, value).Ok? && ListText.AllPlain(xs)
    ensures var w := h.Lower(h.Str(value));
      && (Agrees(h, e, rd, Filter(k, StartWith, value), Many(xs)) <==> (TextBegins(h, xs, w) <==> SomeBegins(h, xs, w)))
      && (Agrees(h, e, rd, Filter(k, EndWith, value), Many(xs)) <==> (TextEnds(h, xs, w) <==> SomeEnds(h, xs, w)))
  {
    AffixAsks(h, e, rd, k, value, Many(xs));
    ManyInMemoryStarts(h, k, value, xs);
    hide Alike, Asks, InMemory, ListText.Listed, ListText.AllPlain, SomeBegins, SomeEnds, EndsWith, CoerceString;
  }

  /** On lists `start with` tests the JSON text, which begins with a bracket: it agrees only
      when neither side ever selects anything. */
  lemma StartOnListsIff(h: Host, e: Engine, rd: Reading, k: string, value: PyVal)
    requires Alike(h, e) && ValidKey(k) && CoerceString(h, value).Ok?
    ensures OnLists(h, e, rd, Filter(k, StartWith, value)) <==>
            var s := h.Str(value);
            !ListText.PlainText(s) && !ListText.ReadableFrom(ListText.Start, h.Lower(s))
  {
    var f, s := Filter(k, StartWith, value), h.Str(value);
    var w := h.Lower(s);
    assert |w| == |s| > 0;
    forall xs | ListText.AllPlain(xs)
      ensures Agrees(h, e, rd, f, Many(xs)) <==> (TextBegins(h, xs, w) <==> SomeBegins(h, xs, w))
    {
      AffixAgrees(h, e, rd, k, value, xs);
    }
    hide Agrees, CoerceString, ValidKey, TextBegins, SomeBegins;
    if ListText.PlainText(s) || ListText.ReadableFrom(ListText.Start, w) {
      var xs := StartsApart(h, e, s);
      Differs(h, e, rd, f, xs);
    } else {
      forall xs | ListText.AllPlain(xs) ensures Agrees(h, e, rd, f, Many(xs)) {
        StartsAlike(h, e, s, xs);
      }
    }
  }

  lemma StartsApart(h: Host, e: Engine, s: string) returns (xs: seq<string>)
    requires Alike(h, e) && s != [] && (ListText.PlainText(s) || ListText.ReadableFrom(ListText.Start, h.Lower(s)))
    ensures ListText.AllPlain(xs) && TextBegins(h, xs, h.Lower(s)) != SomeBegins(h, xs, h.Lower(s))
  {
    var w := h.Lower(s);
    if w == "[" {
      xs := [""];
      Bracketed(xs);
      EmptyIn(h, w);
    } else if ListText.PlainText(s) {
      xs := [s];
      NotBracketed(h, e, s);
      hide Alike, ListText.Listed, Host.Lower;
      assert w <= h.Lower(xs[0]);
    } else {
      ListText.BeginsIff(w);
      xs :| ListText.AllPlain(xs) && w <= ListText.Listed(xs);
      PrefixLower(h, e, s, xs);
      NoPlainStarts(h, e, s, xs);
      hide Alike, ListText.Listed, Host.Lower;
    }
  }

  lemma StartsAlike(h: Host, e: Engine, s: string, xs: seq<string>)
    requires Alike(h, e) && ListText.AllPlain(xs)
    requires !ListText.PlainText(s) && !ListText.ReadableFrom(ListText.Start, h.Lower(s))
    ensures TextBegins(h, xs, h.Lower(s)) == SomeBegins(h, xs, h.Lower(s))
  {
    NoPlainStarts(h, e, s, xs);
    LowerAllPlain(h, e, xs);
    hide Alike, ListText.Listed, Host.Lower, ListText.AllPlain;
    ListText.BeginsIff(h.Lower(s));
  }

  /** So it is with `end with`. */
  lemma EndOnListsIff(h: Host, e: Engine, rd: Reading, k: string, value: PyVal)
    requires Alike(h, e) && ValidKey(k) && CoerceString(h, value).Ok?
    ensures OnLists(h, e, rd, Filter(k, EndWith, value)) <==>
            var s := h.Str(value); !ListText.PlainText(s) && !ListText.Ending(h.Lower(s))
  {
    var f, s := Filter(k, EndWith, value), h.Str(value);
    var w := h.Lower(s);
    assert |w| == |s| > 0;
    forall xs | ListText.AllPlain(xs)
      ensures Agrees(h, e, rd, f, Many(xs)) <==> (TextEnds(h, xs, w) <==> SomeEnds(h, xs, w))
    {
      AffixAgrees(h, e, rd, k, value, xs);
    }
    hide Agrees, CoerceString, ValidKey, TextEnds, SomeEnds;
    if ListText.PlainText(s) || ListText.Ending(w) {
      var xs := EndsApart(h, e, s);
      Differs(h, e, rd, f, xs);
    } else {
      forall xs | ListText.AllPlain(xs) ensures Agrees(h, e, rd, f, Many(xs)) {
        EndsAlike(h, e, s, xs);
      }
    }
  }

  lemma EndsApart(h: Host, e: Engine, s: string) returns (xs: seq<string>)
    requires Alike(h, e) && s != [] && (ListText.PlainText(s) || ListText.Ending(h.Lower(s)))
    ensures ListText.AllPlain(xs) && TextEnds(h, xs, h.Lower(s)) != SomeEnds(h, xs, h.Lower(s))
  {
    var w := h.Lower(s);
    if w == "]" {
      xs := [""];
      Bracketed(xs);
      EmptyIn(h, w);
    } else if ListText.PlainText(s) {
      xs := [s];
      NotClosed(h, e, s);
      hide Alike, ListText.Listed, Host.Lower;
      assert EndsWith(h.Lower(xs[0]), w);
    } else {
      ListText.EndsIff(w);
      xs :| ListText.AllPlain(xs) && EndsWith(ListText.Listed(xs), w);
      SuffixLower(h, e, s, xs);
      NoPlainStarts(h, e, s, xs);
      hide Alike, ListText.Listed, Host.Lower;
    }
  }

  lemma EndsAlike(h: Host, e: Engine, s: string, xs: seq<string>)
    requires Alike(h, e) && ListText.AllPlain(xs)
    requires !ListText.PlainText(s) && !ListText.Ending(h.Lower(s))
    ensures TextEnds(h, xs, h.Lower(s)) == SomeEnds(h, xs, h.Lower(s))
  {
    NoPlainStarts(h, e, s, xs);
    LowerAllPlain(h, e, xs);
    hide Alike, ListText.Listed, Host.Lower, ListText.AllPlain, ListText.Ending, EndsWith;
    ListText.EndsIff(h.Lower(s));
  }

  lemma NotClosed(h: Host, e: Engine, s: string)
    requires Alike(h, e) && ListText.PlainText(s) && s != [] && h.Lower(s) != "]"
    ensures !EndsWith(ListText.Listed(LowerAll(h, [s])), h.Lower(s))
  {
    LowerPlain(h, e, s);
    var w, t := h.Lower(s), ListText.Listed(LowerAll(h, [s]));
    assert LowerAll(h, [s])[1..] == [];
    assert t == "[\"" + (w + ("\"" + "]"));
    var n := |t|;
    assert t[n - 1] == ']' && t[n - 2] == '"';
    assert |w| > 1 ==> w[|w| - 2] != '"';
    assert |w| == 1 ==> w == [w[0]];
    hide Alike, ListText.Listed, ListText.PlainText;
    if EndsWith(t, w) {
      SuffixChars(w, t);
    }
  }

  lemma SuffixChars(w: string, t: string)
    requires EndsWith(t, w)
    ensures |w| > 0 ==> w[|w| - 1] == t[|t| - 1]
    ensures |w| > 1 ==> w[|w| - 2] == t[|t| - 2]
  {
    assert |w| > 0 ==> t[|t| - |w|..][|w| - 1] == t[|t| - 1];
    assert |w| > 1 ==> t[|t| - |w|..][|w| - 2] == t[|t| - 2];
  }

  lemma SuffixLower(h: Host, e: Engine, s: string, xs: seq<string>)
    requires Alike(h, e) && EndsWith(ListText.Listed(xs), h.Lower(s))
    ensures EndsWith(ListText.Listed(LowerAll(h, xs)), h.Lower(s))
  {
    var w, t := h.Lower(s), ListText.Listed(xs);
    LowerListed(h, e, xs);
    LowerTwice(h, s);
    hide Alike, ListText.Listed;
    assert h.Lower(t)[|t| - |w|..] == h.Lower(t[|t| - |w|..]);
  }

  lemma ManyInMemoryStarts(h: Host, k: string, value: PyVal, xs: seq<string>)
    requires h.Sane() && CoerceString(h, value).Ok?
    ensures InMemory(h, Filter(k, StartWith, value), Many(xs)) <==> SomeBegins(h, xs, h.Lower(h.Str(value)))
    ensures InMemory(h, Filter(k, EndWith, value), Many(xs)) <==> SomeEnds(h, xs, h.Lower(h.Str(value)))
  {
    var f, g, w := Filter(k, StartWith, value), Filter(k, EndWith, value), h.Lower(h.Str(value));
    forall i | 0 <= i < |xs|
      ensures Matched(h, StartWith, xs[i], value) <==> w <= h.Lower(xs[i])
      ensures Matched(h, EndWith, xs[i], value) <==> EndsWith(h.Lower(xs[i]), w)
    {
      Es.AffixInMemory(h, value, xs[i]);
    }
    hide Matched, EndsWith, Host.Lower, Host.Sane, CoerceString;
    assert Flat(Many(xs)) == xs;
    if SomeBegins(h, xs, w) {
      var i :| 0 <= i < |xs| && w <= h.Lower(xs[i]);
      assert Matched(h, f.op, Flat(Many(xs))[i], f.value);
    }
    if SomeEnds(h, xs, w) {
      var i :| 0 <= i < |xs| && EndsWith(h.Lower(xs[i]), w);
      assert Matched(h, g.op, Flat(Many(xs))[i], g.value);
    }
  }

  lemma Bracketed(xs: seq<string>)
    ensures "[" <= ListText.Listed(xs) && EndsWith(ListText.Listed([""]), "]")
  {
    assert [""][1..] == [];
  }

  lemma EmptyIn(h: Host, w: string)
    requires w == "[" || w == "]"
    ensures ListText.AllPlain([""]) && LowerAll(h, [""]) == [""]
    ensures !SomeBegins(h, [""], w) && !SomeEnds(h, [""], w)
  {
    assert |h.Lower("")| == 0;
  }

  lemma NotBracketed(h: Host, e: Engine, s: string)
    requires Alike(h, e) && ListText.PlainText(s) && s != [] && h.Lower(s) != "["
    ensures !(h.Lower(s) <= ListText.Listed(LowerAll(h, [s])))
  {
    LowerPlain(h, e, s);
    var w, t := h.Lower(s), ListText.Listed(LowerAll(h, [s]));
    assert t[0] == '[' && t[1] == '"';
    assert |w| > 1 ==> w[1] != '"';
    assert |w| == 1 ==> w == [w[0]];
    hide Alike, ListText.Listed, ListText.PlainText;
    if w <= t {
      PrefixChars(w, t);
    }
  }

  lemma PrefixChars(w: string, t: string)
    requires w <= t
    ensures |w| > 0 ==> w[0] == t[0]
    ensures |w| > 1 ==> w[1] == t[1]
  {
  }

  lemma PrefixLower(h: Host, e: Engine, s: string, xs: seq<string>)
    requires Alike(h, e) && h.Lower(s) <= ListText.Listed(xs)
    ensures h.Lower(s) <= ListText.Listed(LowerAll(h, xs))
  {
    var w, t := h.Lower(s), ListText.Listed(xs);
    LowerListed(h, e, xs);
    LowerTwice(h, s);
    hide Alike, ListText.Listed;
    assert h.Lower(t)[..|w|] == h.Lower(t[..|w|]);
  }

  lemma NoPlainStarts(h: Host, e: Engine, s: string, xs: seq<string>)
    requires Alike(h, e) && !ListText.PlainText(s) && ListText.AllPlain(xs)
    ensures !SomeBegins(h, xs, h.Lower(s)) && !SomeEnds(h, xs, h.Lower(s))
  {
    var w := h.Lower(s);
    LowerPlain(h, e, s);
    var j :| 0 <= j < |w| && !ListText.PlainChar(w[j]);
    forall i | 0 <= i < |xs| ensures !(w <= h.Lower(xs[i])) && !EndsWith(h.Lower(xs[i]), w) {
      var x := h.Lower(xs[i]);
      LowerPlain(h, e, xs[i]);
      assert |w| <= |x| ==> x[..|w|][j] == x[j] && x[|x| - |w|..][j] == x[|x| - |w| + j];
    }
  }

  // ----- membership in lists -----

  /** A plain text with another origin differs from its own lower case. */
  lemma CasedTwin(h: Host, e: Engine, s: string) returns (x: string)
    requires Alike(h, e) && ListText.PlainText(s) && !Caseless(h, s)
    ensures ListText.PlainText(x) && h.Lower(x) == h.Lower(s) && x != h.Lower(s)
  {
    var i, c: char :| 0 <= i < |s| && h.lower(c) == h.lower(s[i]) && c != h.lower(s[i]);
    var w := h.Lower(s);
    x := w[i := c];
    LowerPlain(h, e, s);
    LowerTwice(h, s);
    assert ListText.PlainChar(s[i]) && ListText.PlainChar(h.lower(s[i]));
    assert ListText.PlainChar(c);
    forall j | 0 <= j < |x| ensures h.Lower(x)[j] == w[j] {
      assert h.Lower(w)[j] == w[j];
    }
    assert h.Lower(x) == w;
  }

  /** What equals the list of x and a text longer than any member. */
  lemma HitWithFiller(h: Host, e: Engine, ms: seq<PyVal>, x: string, y: string)
    requires Alike(h, e) && Es.AllText(ms) && Longer(y, ms)
    ensures EqualsSome(h, Many([x, y]), ms) <==> LowerHit(h, ms, x)
  {
    hide Alike, Kept, Host.Lower, Equals;
    if EqualsSome(h, Many([x, y]), ms) {
      var i :| 0 <= i < |ms| && Kept(h, ms[i].s) && Equals(h, Many([x, y]), ms[i].s);
      LongEquals(h, x, y, ms[i].s);
      assert HitBy(h, x, ms[i].s);
    }
    if LowerHit(h, ms, x) {
      var i :| 0 <= i < |ms| && HitBy(h, x, ms[i].s);
      LongEquals(h, x, y, ms[i].s);
      assert Kept(h, ms[i].s) && Equals(h, Many([x, y]), ms[i].s);
    }
  }

  lemma LongEquals(h: Host, x: string, y: string, s: string)
    requires |y| > |s|
    ensures Equals(h, Many([x, y]), s) <==> s != [] && x == h.Lower(s)
  {
    var xs := [x, y];
    ListText.ListedLonger(LowerAll(h, xs));
    SameLength(h, y);
    SameLength(h, s);
    hide ListText.Listed, Host.Lower;
    assert LowerAll(h, xs)[1] == h.Lower(y);
  }

  predicate HitBy(h: Host, x: string, m: string) {
    Kept(h, m) && m != [] && x == h.Lower(m)
  }

  /** x is, as it stands, the lower case of a member that stays a text. */
  ghost predicate LowerHit(h: Host, ms: seq<PyVal>, x: string)
    requires Es.AllText(ms)
  {
    exists i :: 0 <= i < |ms| && HitBy(h, x, ms[i].s)
  }

  lemma MembersAgree(h: Host, e: Engine, rd: Reading, k: string, ms: seq<PyVal>, xs: seq<string>)
    requires Alike(h, e) && ValidKey(k) && ms != [] && Es.AllText(ms) && ListText.AllPlain(xs)
    ensures Agrees(h, e, rd, Filter(k, In, PList(ms)), Many(xs)) <==>
            (EqualsSome(h, Many(xs), ms) <==> SomeAmong(h, ms, xs))
  {
    MembersAsk(h, e, rd, k, ms, Many(xs));
    ManyInMemoryMembers(h, k, ms, xs);
    hide Alike, Asks, InMemory, EqualsSome, SomeAmong, Es.AllText, ListText.AllPlain, ValidKey;
  }

  /** A plain member is in lower case only, and stays a text, perhaps as another member. */
  ghost predicate Steady(h: Host, ms: seq<PyVal>, m: string)
    requires Es.AllText(ms)
  {
    ListText.PlainText(m) ==> Caseless(h, m) && LowerHit(h, ms, h.Lower(m))
  }

  /** If a member is the text of a list, up to case, the list has a member as an item. */
  ghost predicate Harmless(h: Host, ms: seq<PyVal>, m: string)
    requires Es.AllText(ms)
  {
    var w := h.Lower(m);
    Kept(h, m) && ListText.Walk(ListText.Start, w) == Some(ListText.End) ==>
      SomeAmong(h, ms, ListText.Items(ListText.Start, w, []))
  }

  /** List `in` agrees on all lists if and only if its plain members have no case and stay
      texts, and none is the text of a list of other things. */
  lemma InOnListsIff(h: Host, e: Engine, rd: Reading, k: string, ms: seq<PyVal>)
    requires Alike(h, e) && ValidKey(k) && ms != [] && Es.AllText(ms)
    ensures OnLists(h, e, rd, Filter(k, In, PList(ms))) <==>
            forall i :: 0 <= i < |ms| ==> Steady(h, ms, ms[i].s) && Harmless(h, ms, ms[i].s)
  {
    var f := Filter(k, In, PList(ms));
    forall xs | ListText.AllPlain(xs)
      ensures Agrees(h, e, rd, f, Many(xs)) <==> (EqualsSome(h, Many(xs), ms) <==> SomeAmong(h, ms, xs))
    {
      MembersAgree(h, e, rd, k, ms, xs);
    }
    hide Agrees, EqualsSome, SomeAmong, Steady, Harmless, ListText.AllPlain, ValidKey, Es.AllText;
    if OnLists(h, e, rd, f) {
      forall i | 0 <= i < |ms| ensures Steady(h, ms, ms[i].s) && Harmless(h, ms, ms[i].s) {
        SteadyNeeded(h, e, ms, i);
        HarmlessNeeded(h, e, ms, i);
      }
    }
    if forall i :: 0 <= i < |ms| ==> Steady(h, ms, ms[i].s) && Harmless(h, ms, ms[i].s) {
      forall xs | ListText.AllPlain(xs) ensures Agrees(h, e, rd, f, Many(xs)) {
        SteadyEnough(h, e, ms, xs);
      }
    }
  }

  lemma SteadyNeeded(h: Host, e: Engine, ms: seq<PyVal>, i: nat)
    requires Alike(h, e) && Es.AllText(ms) && i < |ms|
    requires forall xs :: ListText.AllPlain(xs) ==> (EqualsSome(h, Many(xs), ms) <==> SomeAmong(h, ms, xs))
    ensures Steady(h, ms, ms[i].s)
  {
    var m := ms[i].s;
    if ListText.PlainText(m) {
      LowerPlain(h, e, m);
      LowerTwice(h, m);
      HitNeeded(h, e, ms, i, h.Lower(m));
      if !Caseless(h, m) {
        var x := CasedTwin(h, e, m);
        HitNeeded(h, e, ms, i, x);
        HitsAreLower(h, ms, x);
      }
    }
  }

  /** What is hit is in lower case already. */
  lemma HitsAreLower(h: Host, ms: seq<PyVal>, x: string)
    requires h.Sane() && Es.AllText(ms) && LowerHit(h, ms, x)
    ensures h.Lower(x) == x
  {
    hide Kept;
    var i :| 0 <= i < |ms| && HitBy(h, x, ms[i].s);
    LowerTwice(h, ms[i].s);
  }

  lemma HitNeeded(h: Host, e: Engine, ms: seq<PyVal>, i: nat, x: string)
    requires Alike(h, e) && Es.AllText(ms) && i < |ms|
    requires forall xs :: ListText.AllPlain(xs) ==> (EqualsSome(h, Many(xs), ms) <==> SomeAmong(h, ms, xs))
    requires ListText.PlainText(x) && h.Lower(x) == h.Lower(ms[i].s)
    ensures LowerHit(h, ms, x)
  {
    var y := Filler(ms);
    var xs := [x, y];
    assert ListText.AllPlain(xs);
    assert Es.AmongLower(h, ms, false, xs[0]);
    HitWithFiller(h, e, ms, x, y);
    hide EqualsSome, LowerHit, Alike, Es.AmongLower;
  }

  lemma HarmlessNeeded(h: Host, e: Engine, ms: seq<PyVal>, i: nat)
    requires Alike(h, e) && Es.AllText(ms) && i < |ms|
    requires forall xs :: ListText.AllPlain(xs) ==> (EqualsSome(h, Many(xs), ms) <==> SomeAmong(h, ms, xs))
    ensures Harmless(h, ms, ms[i].s)
  {
    var m := ms[i].s;
    var w := h.Lower(m);
    if Kept(h, m) && ListText.Walk(ListText.Start, w) == Some(ListText.End) {
      var ys := ListText.Items(ListText.Start, w, []);
      ListText.ItemsAre(ListText.Start, w, []);
      LowerSame(h, e, m, ys);
      assert m != [] by {
        SameLength(h, m);
      }
      assert Equals(h, Many(ys), m);
      assert EqualsSome(h, Many(ys), ms);
      hide EqualsSome, SomeAmong, Alike, Kept, ListText.Walk;
    }
  }

  lemma SteadyEnough(h: Host, e: Engine, ms: seq<PyVal>, xs: seq<string>)
    requires Alike(h, e) && Es.AllText(ms) && ListText.AllPlain(xs)
    requires forall i :: 0 <= i < |ms| ==> Steady(h, ms, ms[i].s) && Harmless(h, ms, ms[i].s)
    ensures EqualsSome(h, Many(xs), ms) <==> SomeAmong(h, ms, xs)
  {
    hide Steady, Harmless, Kept;
    if EqualsSome(h, Many(xs), ms) {
      var j :| 0 <= j < |ms| && Kept(h, ms[j].s) && Equals(h, Many(xs), ms[j].s);
      assert Harmless(h, ms, ms[j].s);
      EqualIsAmong(h, e, ms, xs, j);
    }
    if SomeAmong(h, ms, xs) {
      var i :| 0 <= i < |xs| && Es.AmongLower(h, ms, false, xs[i]);
      var j :| 0 <= j < |ms| && h.Lower(xs[i]) == h.Lower(ms[j].s);
      assert Steady(h, ms, ms[j].s);
      AmongIsEqual(h, e, ms, xs, i, j);
    }
  }

  lemma EqualIsAmong(h: Host, e: Engine, ms: seq<PyVal>, xs: seq<string>, j: nat)
    requires Alike(h, e) && Es.AllText(ms) && ListText.AllPlain(xs) && j < |ms|
    requires Kept(h, ms[j].s) && Equals(h, Many(xs), ms[j].s) && Harmless(h, ms, ms[j].s)
    ensures SomeAmong(h, ms, xs)
  {
    var w := h.Lower(ms[j].s);
    hide Kept;
    if w in xs {
      var i :| 0 <= i < |xs| && xs[i] == w;
      LowerTwice(h, ms[j].s);
      assert Es.AmongLower(h, ms, false, xs[i]);
    } else {
      var ys := LowerAll(h, xs);
      LowerAllPlain(h, e, xs);
      ListText.ListedRead(ys);
      ListText.WalkListed(ys);
      hide Alike, ListText.Walk, ListText.Items, ListText.Listed, ListText.AllPlain;
      assert ListText.Listed(ys) == w;
      assert SomeAmong(h, ms, ys);
      LowerAmong(h, e, ms, xs);
    }
  }

  lemma LowerAmong(h: Host, e: Engine, ms: seq<PyVal>, xs: seq<string>)
    requires Alike(h, e) && Es.AllText(ms) && SomeAmong(h, ms, LowerAll(h, xs))
    ensures SomeAmong(h, ms, xs)
  {
    var i :| 0 <= i < |xs| && Es.AmongLower(h, ms, false, LowerAll(h, xs)[i]);
    LowerTwice(h, xs[i]);
    hide Alike, Host.Lower;
    assert Es.AmongLower(h, ms, false, xs[i]);
  }

  lemma AmongIsEqual(h: Host, e: Engine, ms: seq<PyVal>, xs: seq<string>, i: nat, j: nat)
    requires Alike(h, e) && Es.AllText(ms) && ListText.AllPlain(xs) && i < |xs| && j < |ms|
    requires h.Lower(xs[i]) == h.Lower(ms[j].s) && Steady(h, ms, ms[j].s)
    ensures EqualsSome(h, Many(xs), ms)
  {
    var m := ms[j].s;
    LowerPlain(h, e, m);
    LowerPlain(h, e, xs[i]);
    CaselessOnly(h, m, xs[i]);
    var l :| 0 <= l < |ms| && HitBy(h, h.Lower(m), ms[l].s);
    hide Alike, Kept, ListText.Listed, Host.Lower;
    assert Equals(h, Many(xs), ms[l].s);
  }

  // ----- equality and the negative operators on lists -----

  /** On lists `=` and `≠` agree where list `in` and `not in` of one member do. */
  lemma EqualIsMembership(h: Host, e: Engine, rd: Reading, k: string, s: string, xs: seq<string>)
    requires Alike(h, e) && ValidKey(k) && h.PlainText(s) && ListText.AllPlain(xs)
    ensures Agrees(h, e, rd, Filter(k, Eq, PStr(s)), Many(xs)) <==>
            Agrees(h, e, rd, Filter(k, In, PList([PStr(s)])), Many(xs))
    ensures Agrees(h, e, rd, Filter(k, Ne, PStr(s)), Many(xs)) <==>
            Agrees(h, e, rd, Filter(k, NotIn, PList([PStr(s)])), Many(xs))
  {
    var ms := [PStr(s)];
    EqualAsks(h, e, rd, k, s, Many(xs));
    MembersAsk(h, e, rd, k, ms, Many(xs));
    OneMember(h, Many(xs), s);
    forall i | 0 <= i < |xs|
      ensures Matched(h, Eq, xs[i], PStr(s)) <==> Matched(h, In, xs[i], PList(ms))
      ensures Matched(h, Ne, xs[i], PStr(s)) <==> Matched(h, NotIn, xs[i], PList(ms))
    {
      Es.EqualInMemory(h, s, xs[i]);
      Es.InListInMemory(h, ms, xs[i]);
      OneAmong(h, s, xs[i]);
    }
    hide Alike, Asks, Matched, EqualsSome, Equals, Host.PlainText, ListText.AllPlain, ValidKey;
    SameInMemory(h, Filter(k, Eq, PStr(s)), Filter(k, In, PList(ms)), xs);
    SameInMemory(h, Filter(k, Ne, PStr(s)), Filter(k, NotIn, PList(ms)), xs);
  }

  lemma SameInMemory(h: Host, f: Filter, g: Filter, xs: seq<string>)
    requires forall i :: 0 <= i < |xs| ==> (Matched(h, f.op, xs[i], f.value) <==> Matched(h, g.op, xs[i], g.value))
    ensures InMemory(h, f, Many(xs)) <==> InMemory(h, g, Many(xs))
  {
    hide Matched;
    assert Flat(Many(xs)) == xs;
  }

  lemma OneMember(h: Host, st: Stored, s: string)
    requires h.PlainText(s)
    ensures Kept(h, s) && (EqualsSome(h, st, [PStr(s)]) <==> Equals(h, st, s))
  {
    assert [PStr(s)][0].s == s;
  }

  lemma OneAmong(h: Host, s: string, v: string)
    ensures Es.AmongLower(h, [PStr(s)], false, v) <==> h.Lower(v) == h.Lower(s)
  {
    assert [PStr(s)][0].s == s;
  }

  /** `=` with a plain text agrees on all lists if and only if the text is not empty, has no
      case if it can be an item, and is not itself the text of a list. */
  lemma EqualOnListsIff(h: Host, e: Engine, rd: Reading, k: string, s: string)
    requires Alike(h, e) && ValidKey(k) && h.PlainText(s)
    ensures OnLists(h, e, rd, Filter(k, Eq, PStr(s))) <==>
            && s != [] && (ListText.PlainText(s) ==> Caseless(h, s))
            && ListText.Walk(ListText.Start, h.Lower(s)) != Some(ListText.End)
  {
    var ms := [PStr(s)];
    forall xs | ListText.AllPlain(xs)
      ensures Agrees(h, e, rd, Filter(k, Eq, PStr(s)), Many(xs)) <==>
              Agrees(h, e, rd, Filter(k, In, PList(ms)), Many(xs))
    {
      EqualIsMembership(h, e, rd, k, s, xs);
    }
    InOnListsIff(h, e, rd, k, ms);
    OneMember(h, Absent, s);
    OneSteady(h, s);
    OneHarmless(h, e, s);
    hide Alike, Agrees, Steady, Harmless, Host.PlainText, ListText.Walk, Caseless;
    assert |ms| == 1 && ms[0].s == s;
  }

  lemma OneSteady(h: Host, s: string)
    requires Kept(h, s)
    ensures Steady(h, [PStr(s)], s) <==> s != [] && (ListText.PlainText(s) ==> Caseless(h, s))
  {
    var ms := [PStr(s)];
    hide Kept, Caseless, Host.Lower;
    assert ms[0].s == s;
    assert LowerHit(h, ms, h.Lower(s)) <==> s != [] by {
      if s != [] {
        assert HitBy(h, h.Lower(s), ms[0].s);
      }
    }
  }

  lemma OneHarmless(h: Host, e: Engine, s: string)
    requires Alike(h, e) && Kept(h, s)
    ensures Harmless(h, [PStr(s)], s) <==> ListText.Walk(ListText.Start, h.Lower(s)) != Some(ListText.End)
  {
    var ms, w := [PStr(s)], h.Lower(s);
    if ListText.Walk(ListText.Start, w) == Some(ListText.End) {
      var ys := ListText.Items(ListText.Start, w, []);
      ListText.ItemsAre(ListText.Start, w, []);
      ListText.ListedLonger(ys);
      hide Kept, Alike, ListText.Walk, ListText.Items, ListText.Listed;
      forall i | 0 <= i < |ys| ensures !Es.AmongLower(h, ms, false, ys[i]) {
        OneAmong(h, s, ys[i]);
        SameLength(h, ys[i]);
        SameLength(h, s);
      }
    }
  }

  /** No negative operator agrees on all lists: the statement asks that no item passes the
      positive test, memory that some item fails it. */
  lemma NotInNeverOnLists(h: Host, e: Engine, rd: Reading, k: string, ms: seq<PyVal>)
    requires Alike(h, e) && ValidKey(k) && ms != [] && Es.AllText(ms)
    ensures !OnLists(h, e, rd, Filter(k, NotIn, PList(ms)))
  {
    var xs := NotInApart(h, e, ms);
    MembersAsk(h, e, rd, k, ms, Many(xs));
    ManyInMemoryMembers(h, k, ms, xs);
    hide Alike, Asks, InMemory, EqualsSome, Es.AmongLower, Es.AllText, ListText.AllPlain, ValidKey;
    Differs(h, e, rd, Filter(k, NotIn, PList(ms)), xs);
  }

  lemma NotInApart(h: Host, e: Engine, ms: seq<PyVal>) returns (xs: seq<string>)
    requires Alike(h, e) && Es.AllText(ms)
    ensures ListText.AllPlain(xs)
    ensures !EqualsSome(h, Many(xs), ms) != (exists i :: 0 <= i < |xs| && !Es.AmongLower(h, ms, false, xs[i]))
  {
    hide Kept, Alike, Equals;
    if j :| 0 <= j < |ms| && PlainHit(h, ms[j].s) {
      xs := PlainApart(h, e, ms, j);
    } else {
      xs := [];
      forall i | 0 <= i < |ms| && Kept(h, ms[i].s) ensures !Equals(h, Many([]), ms[i].s) {
        NothingEquals(h, e, ms[i].s);
        assert !PlainHit(h, ms[i].s);
      }
    }
  }

  predicate PlainHit(h: Host, m: string) {
    Kept(h, m) && m != [] && ListText.PlainText(m)
  }

  lemma PlainApart(h: Host, e: Engine, ms: seq<PyVal>, j: nat) returns (xs: seq<string>)
    requires Alike(h, e) && Es.AllText(ms) && j < |ms| && PlainHit(h, ms[j].s)
    ensures ListText.AllPlain(xs) && EqualsSome(h, Many(xs), ms)
    ensures exists i :: 0 <= i < |xs| && !Es.AmongLower(h, ms, false, xs[i])
  {
    var x := h.Lower(ms[j].s);
    var y := Filler(ms);
    xs := [x, y];
    LowerPlain(h, e, ms[j].s);
    HitWithFiller(h, e, ms, x, y);
    FillerNotAmong(h, ms, y);
    hide Alike, EqualsSome, Es.AmongLower, Kept;
    assert HitBy(h, x, ms[j].s);
    assert xs[1] == y;
  }

  lemma NothingEquals(h: Host, e: Engine, s: string)
    requires Alike(h, e)
    ensures Equals(h, Many([]), s) ==> s != [] && ListText.PlainText(s)
  {
    assert LowerAll(h, []) == [];
    LowerPlain(h, e, s);
  }

  lemma NotEqualNeverOnLists(h: Host, e: Engine, rd: Reading, k: string, s: string)
    requires Alike(h, e) && ValidKey(k) && h.PlainText(s)
    ensures !OnLists(h, e, rd, Filter(k, Ne, PStr(s)))
  {
    NotInNeverOnLists(h, e, rd, k, [PStr(s)]);
    forall xs | ListText.AllPlain(xs)
      ensures Agrees(h, e, rd, Filter(k, Ne, PStr(s)), Many(xs)) <==>
              Agrees(h, e, rd, Filter(k, NotIn, PList([PStr(s)])), Many(xs))
    {
      EqualIsMembership(h, e, rd, k, s, xs);
    }
    hide Alike, Agrees, Host.PlainText;
  }

  lemma NotContainsNeverOnLists(h: Host, e: Engine, rd: Reading, k: string, s: string)
    requires Alike(h, e) && ValidKey(k) && s != []
    ensures !OnLists(h, e, rd, Filter(k, NotContains, PStr(s)))
  {
    var f, w := Filter(k, NotContains, PStr(s)), h.Lower(s);
    SameLength(h, s);
    var xs := if ListText.PlainText(s) then ["", w] else [];
    LowerPlain(h, e, s);
    assert ListText.AllPlain(xs);
    ContainsAsks(h, e, rd, k, PStr(s), Many(xs));
    if ListText.PlainText(s) {
      assert xs[1] == w && Listing(Many(xs), w);
      assert !Occurs(w, h.Lower(""));
      Es.ContainsInMemory(h, PStr(s), "");
      assert xs[0] == "" && Flat(Many(xs))[0] == "";
      assert InMemory(h, f, Many(xs)) by {
        assert Matched(h, f.op, Flat(Many(xs))[0], f.value);
      }
    } else {
      NothingContains(h, e, s);
    }
    hide Alike, Asks, Matched, Contained;
    Differs(h, e, rd, f, xs);
  }

  lemma NothingContains(h: Host, e: Engine, s: string)
    requires Alike(h, e) && !ListText.PlainText(s)
    ensures !Contained(h, Many([]), s)
  {
    LowerPlain(h, e, s);
    var w := h.Lower(s);
    var j :| 0 <= j < |w| && !ListText.PlainChar(w[j]);
    assert LowerAll(h, []) == [];
    var t := "[]";
    assert ListText.PlainChar(t[0]) && ListText.PlainChar(t[1]);
    forall i | 0 <= i <= |t| - |w| ensures t[i..][..|w|] != w {
      assert t[i..][..|w|][j] == t[i + j];
    }
  }
}
