/** How a text becomes the members of `in` and `not in`: a list or tuple literal stands for
    its items, any other text for its comma-separated pieces. */
module MemberTexts {
  import opened Text
  import opened Python
  import opened MetaFilter
  import opened Coercion
  import opened TextDocs
  import Es = EsPushdown
  import EsFilter
  import GaussFilter
  import GaussProofs
  import GaussMemory
  import InfinityFilter
  import InfinityMemory
  import InfinityLists

  // ----- splitting at commas -----

  /** `",".join(ts)`. */
  function Joined(ts: seq<string>): string {
    if ts == [] then [] else if |ts| == 1 then ts[0] else ts[0] + [','] + Joined(ts[1..])
  }

  predicate CommaFree(ts: seq<string>) {
    forall i :: 0 <= i < |ts| ==> ',' !in ts[i]
  }

  /** The texts without the blanks around them, those that are not blank altogether. */
  function Pieces(h: Host, ts: seq<string>): seq<PyVal> {
    if ts == [] then []
    else (if h.Trim(ts[0]) == [] then [] else [PStr(h.Trim(ts[0]))]) + Pieces(h, ts[1..])
  }

  lemma {:induction false} SplitPiece(h: Host, t: string, rest: string, piece: string)
    requires ',' !in t
    ensures SplitCommas(h, t + rest, piece) == SplitCommas(h, rest, piece + t)
    decreases |t|
  {
    if t == [] {
      assert t + rest == rest && piece + t == piece;
    } else {
      assert (t + rest)[1..] == t[1..] + rest;
      SplitPiece(h, t[1..], rest, piece + [t[0]]);
      assert piece + [t[0]] + t[1..] == piece + t;
    }
  }

  /** Splitting a comma-joined text gives the trimmed texts that are not blank, in order. */
  lemma {:induction false} SplitJoined(h: Host, ts: seq<string>)
    requires CommaFree(ts)
    ensures SplitCommas(h, Joined(ts), []) == Pieces(h, ts)
  {
    hide Host.Trim;
    if ts == [] {
      assert h.Trim([]) == [] by { BlankTrimmed(h); }
    } else {
      var rest := if |ts| == 1 then [] else [','] + Joined(ts[1..]);
      assert Joined(ts) == ts[0] + rest;
      SplitPiece(h, ts[0], rest, []);
      assert [] + ts[0] == ts[0];
      if |ts| > 1 {
        assert rest[1..] == Joined(ts[1..]);
        assert CommaFree(ts[1..]);
        SplitJoined(h, ts[1..]);
      } else {
        assert ts[1..] == [];
      }
    }
  }

  lemma BlankTrimmed(h: Host)
    ensures h.Trim([]) == []
  {
  }

  /** Every text is the comma-join of texts without commas. */
  lemma {:induction false} EveryTextJoined(s: string) returns (ts: seq<string>)
    ensures ts != [] && CommaFree(ts) && Joined(ts) == s
  {
    if s == [] {
      ts := [[]];
    } else {
      var rest := EveryTextJoined(s[1..]);
      if s[0] == ',' {
        ts := [[]] + rest;
        assert ts[1..] == rest;
      } else {
        ts := [[s[0]] + rest[0]] + rest[1..];
        assert ts[1..] == rest[1..];
        assert forall i :: 1 <= i < |ts| ==> ts[i] == rest[i];
      }
    }
  }

  lemma {:induction false} PieceFrom(h: Host, ts: seq<string>, i: nat) returns (j: nat)
    requires i < |Pieces(h, ts)|
    ensures j < |ts| && Pieces(h, ts)[i] == PStr(h.Trim(ts[j])) && h.Trim(ts[j]) != []
  {
    hide Host.Trim;
    var n := if h.Trim(ts[0]) == [] then 0 else 1;
    if i < n {
      j := 0;
    } else {
      j := PieceFrom(h, ts[1..], i - n);
      j := j + 1;
    }
  }

  lemma {:induction false} PieceIn(h: Host, ts: seq<string>, j: nat)
    requires j < |ts| && h.Trim(ts[j]) != []
    ensures PStr(h.Trim(ts[j])) in Pieces(h, ts)
  {
    hide Host.Trim;
    if j == 0 {
    } else {
      PieceIn(h, ts[1..], j - 1);
    }
  }

  ghost predicate FromPiece(h: Host, ts: seq<string>, m: PyVal) {
    exists j :: 0 <= j < |ts| && m == PStr(h.Trim(ts[j])) && h.Trim(ts[j]) != []
  }

  /** The pieces are the trimmed texts that are not blank. */
  lemma PiecesAre(h: Host, ts: seq<string>)
    ensures Es.AllText(Pieces(h, ts))
    ensures forall m :: m in Pieces(h, ts) ==> FromPiece(h, ts, m)
    ensures forall j :: 0 <= j < |ts| && h.Trim(ts[j]) != [] ==> PStr(h.Trim(ts[j])) in Pieces(h, ts)
  {
    hide Host.Trim;
    var ms := Pieces(h, ts);
    forall i | 0 <= i < |ms| ensures ms[i].PStr? && FromPiece(h, ts, ms[i]) {
      var j := PieceFrom(h, ts, i);
    }
    forall j | 0 <= j < |ts| && h.Trim(ts[j]) != [] ensures PStr(h.Trim(ts[j])) in Pieces(h, ts) {
      PieceIn(h, ts, j);
    }
  }

  /** The text does not stand for a list or tuple. */
  predicate NoLiteral(parsed: Option<PyVal>) {
    parsed.None? || !(parsed.value.PList? || parsed.value.PTuple?)
  }

  predicate Listing(parsed: Option<PyVal>, items: seq<PyVal>) {
    parsed == Some(PList(items)) || parsed == Some(PTuple(items))
  }

  // ----- Elasticsearch -----

  /** Some comma-separated piece of the text is v, up to case and blanks around it. */
  ghost predicate IsPiece(h: Host, ts: seq<string>, v: string) {
    exists j :: 0 <= j < |ts| && h.Trim(ts[j]) != [] && h.Lower(v) == h.Lower(h.Trim(ts[j]))
  }

  lemma PieceAmong(h: Host, ts: seq<string>, v: string)
    ensures Es.AllText(Pieces(h, ts))
    ensures Es.AmongLower(h, Pieces(h, ts), false, v) <==> IsPiece(h, ts, v)
  {
    PiecesAre(h, ts);
    hide Host.Trim, Host.Lower;
    var ms := Pieces(h, ts);
    if Es.AmongLower(h, ms, false, v) {
      var i :| 0 <= i < |ms| && h.Lower(v) == h.Lower(ms[i].s);
      assert FromPiece(h, ts, ms[i]);
      var j :| 0 <= j < |ts| && ms[i] == PStr(h.Trim(ts[j])) && h.Trim(ts[j]) != [];
    }
    if IsPiece(h, ts, v) {
      var j :| 0 <= j < |ts| && h.Trim(ts[j]) != [] && h.Lower(v) == h.Lower(h.Trim(ts[j]));
      var i :| 0 <= i < |ms| && ms[i] == PStr(h.Trim(ts[j]));
      assert ms[i].s == h.Trim(ts[j]);
    }
  }

  lemma TrimmedAmong(h: Host, ts: seq<string>, v: string)
    ensures Es.AllText(Pieces(h, ts))
    ensures Es.AmongLower(h, Pieces(h, ts), true, v) <==> Es.AmongLower(h, Pieces(h, ts), false, v)
  {
    PiecesAre(h, ts);
    var ms := Pieces(h, ts);
    forall i | 0 <= i < |ms| ensures h.Trim(ms[i].s) == ms[i].s {
      assert FromPiece(h, ts, ms[i]);
      var j :| 0 <= j < |ts| && ms[i] == PStr(h.Trim(ts[j])) && h.Trim(ts[j]) != [];
      StripTwice(h.space, ts[j]);
    }
    hide Host.Trim, Host.Lower;
  }

  /** The clause of `in` with a text accepts a document exactly when some value is one of
      the pieces, that of `not in` when there are values and none is; with no pieces at all
      the filter is refused. */
  lemma EsPieces(h: Host, e: EsFilter.Engine, k: string, ts: seq<string>, d: Doc)
    requires h.Sane() && Es.SameFold(h, e) && k != [] && CommaFree(ts) && NoLiteral(h.eval(Joined(ts)))
    ensures var f, g := Filter(k, In, PStr(Joined(ts))), Filter(k, NotIn, PStr(Joined(ts)));
      if Pieces(h, ts) == [] then EsFilter.Translate(h, f).Unsupported? && EsFilter.Translate(h, g).Unsupported?
      else
        var vs := EsFilter.Values(d, EsFilter.Meta(k));
        && EsFilter.Translate(h, f).Ok? && EsFilter.Translate(h, g).Ok?
        && (EsFilter.Holds(e, EsFilter.Translate(h, f).value, d) <==>
            exists i :: 0 <= i < |vs| && IsPiece(h, ts, vs[i]))
        && (EsFilter.Holds(e, EsFilter.Translate(h, g).value, d) <==>
            vs != [] && forall i :: 0 <= i < |vs| ==> !IsPiece(h, ts, vs[i]))
  {
    var s, ms := Joined(ts), Pieces(h, ts);
    SplitJoined(h, ts);
    PiecesAre(h, ts);
    assert RawMembers(h, PStr(s)) == ms;
    if ms != [] {
      Es.TranslateIn(h, k, PStr(s));
      var q := EsFilter.TermsStringOrNumeric(k, NormalMembers(h, ms));
      Es.HoldsMeaning(h, e, Filter(k, In, PStr(s)), d);
      Es.HoldsMeaning(h, e, Filter(k, NotIn, PStr(s)), d);
      forall v ensures Es.ValueAccepts(e, q, v) <==> IsPiece(h, ts, v) {
        Es.InListInQuery(h, e, k, ms, v);
        TrimmedAmong(h, ts, v);
        PieceAmong(h, ts, v);
      }
      hide EsFilter.Translate, EsFilter.Holds, IsPiece, Es.ValueAccepts, SplitCommas, Pieces, RawMembers, Joined;
    }
  }

  /** A literal list or tuple stands for its items. */
  lemma EsItems(h: Host, k: string, s: string, items: seq<PyVal>)
    requires Listing(h.eval(s), items)
    ensures EsFilter.Translate(h, Filter(k, In, PStr(s))) == EsFilter.Translate(h, Filter(k, In, PList(items)))
    ensures EsFilter.Translate(h, Filter(k, NotIn, PStr(s))) == EsFilter.Translate(h, Filter(k, NotIn, PList(items)))
    ensures InfinityFilter.Translate(h, Filter(k, In, PStr(s))) ==
            InfinityFilter.Translate(h, Filter(k, In, PList(items)))
    ensures InfinityFilter.Translate(h, Filter(k, NotIn, PStr(s))) ==
            InfinityFilter.Translate(h, Filter(k, NotIn, PList(items)))
  {
    assert RawMembers(h, PStr(s)) == items == RawMembers(h, PList(items));
    assert CsvOrList(h, PStr(s)) == CsvOrList(h, PList(items));
    hide CsvOrList, EsFilter.TermsStringOrNumeric, InfinityFilter.Membership;
  }

  lemma GaussItems(h: Host, rd: GaussFilter.Reading, k: string, s: string, items: seq<PyVal>)
    requires Listing(h.eval(h.Trim(s)), items)
    ensures GaussFilter.Translate(h, rd, Filter(k, In, PStr(s))) ==
            GaussFilter.Translate(h, rd, Filter(k, In, PList(items)))
    ensures GaussFilter.Translate(h, rd, Filter(k, NotIn, PStr(s))) ==
            GaussFilter.Translate(h, rd, Filter(k, NotIn, PList(items)))
  {
    assert GaussFilter.RawMembers(h, PStr(s)) == items == GaussFilter.RawMembers(h, PList(items));
    assert GaussFilter.MembershipValues(h, PStr(s)) == GaussFilter.MembershipValues(h, PList(items));
    hide GaussFilter.MembershipValues, GaussFilter.RawMembers;
  }

  /** A tuple stands for its items as a list does, any other single value for itself. */
  lemma OtherMembers(h: Host, rd: GaussFilter.Reading, k: string, op: Op, value: PyVal, items: seq<PyVal>)
    requires op.In? || op.NotIn?
    requires value == PTuple(items)
          || (items == [value] && (value.PBool? || value.PNum? || value.PDict? || value.POther?))
    ensures EsFilter.Translate(h, Filter(k, op, value)) == EsFilter.Translate(h, Filter(k, op, PList(items)))
    ensures InfinityFilter.Translate(h, Filter(k, op, value)) ==
            InfinityFilter.Translate(h, Filter(k, op, PList(items)))
    ensures GaussFilter.Translate(h, rd, Filter(k, op, value)) ==
            GaussFilter.Translate(h, rd, Filter(k, op, PList(items)))
  {
    assert RawMembers(h, value) == items == RawMembers(h, PList(items));
    assert GaussFilter.RawMembers(h, value) == items == GaussFilter.RawMembers(h, PList(items));
    assert CsvOrList(h, value) == CsvOrList(h, PList(items));
    assert GaussFilter.MembershipValues(h, value) == GaussFilter.MembershipValues(h, PList(items));
    hide CsvOrList, EsFilter.TermsStringOrNumeric, InfinityFilter.Membership, GaussFilter.MembershipValues,
         GaussFilter.RawMembers;
  }

  // ----- Infinity -----

  /** Infinity asks for each of the pieces, in lower case. */
  lemma InfinityPieces(h: Host, db: InfinityMemory.Database, k: string, ts: seq<string>, st: Stored)
    requires InfinityFilter.ValidKey(k) && CommaFree(ts) && NoLiteral(h.eval(Joined(ts)))
    ensures var f := Filter(k, In, PStr(Joined(ts)));
      if Pieces(h, ts) == [] then InfinityFilter.Translate(h, f).Unsupported?
      else
        && InfinityFilter.Translate(h, f).Ok?
        && (InfinityMemory.Picks(h, db, f, st) <==>
            SomeAsked(h, db, st, ts))
  {
    var s, ms := Joined(ts), Pieces(h, ts);
    SplitJoined(h, ts);
    PiecesAre(h, ts);
    assert RawMembers(h, PStr(s)) == ms;
    NoPieces(h, k, s);
    hide InfinityFilter.Translate;
    if ms != [] {
      InfinityMemory.MembersPick(h, db, k, ms, st);
      InfinityLists.TextPicks(h, db, k, s, ms, st);
      SomeAskedIs(h, db, st, ts);
      hide InfinityMemory.Picks, InfinityMemory.AskedSome, SomeAsked, SplitCommas, Pieces, RawMembers, Joined,
           Host.Trim, InfinityFilter.ValidKey;
    }
  }

  lemma NoPieces(h: Host, k: string, s: string)
    ensures RawMembers(h, PStr(s)) == [] ==> InfinityFilter.Translate(h, Filter(k, In, PStr(s))).Unsupported?
  {
    hide RawMembers, InfinityFilter.ValidKey;
  }

  lemma SomeAskedIs(h: Host, db: InfinityMemory.Database, st: Stored, ts: seq<string>)
    ensures InfinityMemory.AskedSome(h, db, Pieces(h, ts), st) <==> SomeAsked(h, db, st, ts)
  {
    var ms := Pieces(h, ts);
    PiecesAre(h, ts);
    hide Pieces, InfinityMemory.Asked, InfinityMemory.HasText, Host.Trim;
    if InfinityMemory.AskedSome(h, db, ms, st) {
      var i :| 0 <= i < |ms| && InfinityMemory.Asked(h, db, ms[i]).Some? &&
               InfinityMemory.HasText(st, InfinityMemory.Asked(h, db, ms[i]).value);
      assert FromPiece(h, ts, ms[i]);
      var j :| 0 <= j < |ts| && ms[i] == PStr(h.Trim(ts[j])) && h.Trim(ts[j]) != [];
      assert ms[i] == PStr(h.Trim(ts[j]));
      assert AsksFor(h, db, h.Trim(ts[j]), st);
    }
    if SomeAsked(h, db, st, ts) {
      var j :| 0 <= j < |ts| && h.Trim(ts[j]) != [] && AsksFor(h, db, h.Trim(ts[j]), st);
      var i :| 0 <= i < |ms| && ms[i] == PStr(h.Trim(ts[j]));
    }
  }

  ghost predicate SomeAsked(h: Host, db: InfinityMemory.Database, st: Stored, ts: seq<string>) {
    exists j :: 0 <= j < |ts| && h.Trim(ts[j]) != [] && AsksFor(h, db, h.Trim(ts[j]), st)
  }

  /** The document has the text that is asked for the piece. */
  predicate AsksFor(h: Host, db: InfinityMemory.Database, p: string, st: Stored) {
    var a := InfinityMemory.Asked(h, db, PStr(p));
    a.Some? && InfinityMemory.HasText(st, a.value)
  }

  /** A piece without case that JSON writes as it is and that reads as no number is asked
      for as it stands. */
  lemma PlainPiece(h: Host, db: InfinityMemory.Database, p: string, t: string)
    requires InfinityMemory.Plain(h, p)
    ensures AsksFor(h, db, p, One(t)) <==> t == p
  {
    InfinityMemory.PlainAsked(h, db, PStr(p));
    hide InfinityMemory.Asked, InfinityMemory.Plain;
  }

  // ----- GaussDB -----

  /** The statement tests each of the pieces that stays a text for equality. */
  lemma GaussPieces(h: Host, e: GaussFilter.Engine, rd: GaussFilter.Reading, k: string, ts: seq<string>, st: Stored)
    requires GaussMemory.Alike(h, e) && GaussFilter.ValidKey(k) && CommaFree(ts)
    requires NoLiteral(h.eval(h.Trim(Joined(ts)))) && GaussMemory.Known(st) && !st.NullValue?
    ensures var f, g := Filter(k, In, PStr(Joined(ts))), Filter(k, NotIn, PStr(Joined(ts)));
      var d := GaussMemory.Holding(st);
      if Pieces(h, ts) == [] then GaussFilter.Translate(h, rd, f).Unsupported?
      else
        && (GaussProofs.Asks(h, e, rd, d, f) <==> SomeEqual(h, st, ts))
        && (GaussProofs.Asks(h, e, rd, d, g) <==> !st.Absent? && !SomeEqual(h, st, ts))
  {
    hide GaussMemory.Alike, GaussProofs.Asks, GaussMemory.EqualsSome, SomeEqual, SplitCommas, Pieces, Joined,
         GaussFilter.RawMembers, GaussFilter.Translate, Host.Trim, GaussMemory.Known, GaussFilter.ValidKey, CommaFree;
    var s, ms := Joined(ts), Pieces(h, ts);
    GaussCut(h, rd, k, ts);
    PiecesAre(h, ts);
    if ms != [] {
      GaussMemory.MembersAsk(h, e, rd, k, ms, st);
      GaussMemory.TextAsks(h, e, rd, k, s, ms, st);
      SomeEqualIs(h, st, ts);
    }
  }

  lemma GaussCut(h: Host, rd: GaussFilter.Reading, k: string, ts: seq<string>)
    requires CommaFree(ts) && NoLiteral(h.eval(h.Trim(Joined(ts)))) && GaussFilter.ValidKey(k)
    ensures GaussFilter.RawMembers(h, PStr(Joined(ts))) == Pieces(h, ts)
    ensures Pieces(h, ts) == [] ==> GaussFilter.Translate(h, rd, Filter(k, In, PStr(Joined(ts)))).Unsupported?
  {
    SplitJoined(h, ts);
    hide SplitCommas, Joined, Host.Trim, CommaFree, Pieces, GaussFilter.ValidKey, GaussFilter.Translate;
    NoMembers(h, rd, k, Joined(ts));
  }

  lemma NoMembers(h: Host, rd: GaussFilter.Reading, k: string, s: string)
    ensures GaussFilter.RawMembers(h, PStr(s)) == [] ==>
              GaussFilter.Translate(h, rd, Filter(k, In, PStr(s))).Unsupported?
  {
    hide GaussFilter.RawMembers, GaussFilter.ValidKey, GaussFilter.CoerceMembers;
  }

  lemma SomeEqualIs(h: Host, st: Stored, ts: seq<string>)
    ensures Es.AllText(Pieces(h, ts))
    ensures GaussMemory.EqualsSome(h, st, Pieces(h, ts)) <==> SomeEqual(h, st, ts)
  {
    var ms := Pieces(h, ts);
    PiecesAre(h, ts);
    hide Pieces, GaussMemory.Kept, GaussMemory.Equals, Host.Trim;
    if GaussMemory.EqualsSome(h, st, ms) {
      var i :| 0 <= i < |ms| && GaussMemory.Kept(h, ms[i].s) && GaussMemory.Equals(h, st, ms[i].s);
      assert FromPiece(h, ts, ms[i]);
      var j :| 0 <= j < |ts| && ms[i] == PStr(h.Trim(ts[j])) && h.Trim(ts[j]) != [];
      assert EqualPiece(h, st, h.Trim(ts[j]));
    }
    if SomeEqual(h, st, ts) {
      var j :| 0 <= j < |ts| && EqualPiece(h, st, h.Trim(ts[j]));
      var i :| 0 <= i < |ms| && ms[i] == PStr(h.Trim(ts[j]));
    }
  }

  predicate EqualPiece(h: Host, st: Stored, p: string) {
    p != [] && GaussMemory.Kept(h, p) && GaussMemory.Equals(h, st, p)
  }

  ghost predicate SomeEqual(h: Host, st: Stored, ts: seq<string>) {
    exists j :: 0 <= j < |ts| && EqualPiece(h, st, h.Trim(ts[j]))
  }
}
