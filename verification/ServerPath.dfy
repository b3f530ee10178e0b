/** The path literal of a metadata key as the database reads it: an array literal, in which
    an unquoted `null` is no text (PostgreSQL documentation, section 8.15.6). */
module ServerPath {
  import opened Text
  import opened JsonPath

  /** `null` in any case. */
  predicate NullWord(seg: string) {
    && |seg| == 4 && (seg[0] == 'n' || seg[0] == 'N') && (seg[1] == 'u' || seg[1] == 'U')
    && (seg[2] == 'l' || seg[2] == 'L') && (seg[3] == 'l' || seg[3] == 'L')
  }

  /** The elements of an array literal, between its braces: `bare` if nothing of the
      element so far was quoted.  A bare `null` is SQL NULL; a bare element cannot be empty
      or hold a brace, nor a blank here. */
  function Elements(body: string, quoted: bool, escaped: bool, bare: bool, buf: string): Option<seq<Option<string>>>
    decreases |body|
  {
    if body == [] || (body[0] == ',' && !quoted && !escaped) then
      var more := if body == [] then Some([]) else Elements(body[1..], false, false, true, []);
      if quoted || escaped || (bare && buf == []) || more.None? then None
      else Some([if bare && NullWord(buf) then None else Some(buf)] + more.value)
    else
      var c, rest := body[0], body[1..];
      if escaped then Elements(rest, quoted, false, false, buf + [c])
      else if c == '\\' then Elements(rest, quoted, true, false, buf)
      else if c == '"' then Elements(rest, !quoted, false, false, buf)
      else if !quoted && (c == '{' || c == '}' || c <= ' ') then None
      else Elements(rest, quoted, false, bare, buf + [c])
  }

  lemma PlainStep(c: char, t: string, buf: string)
    requires c != '\\' && c != '"'
    ensures Elements([c] + t, true, false, false, buf) == Elements(t, true, false, false, buf + [c])
  {
    assert ([c] + t)[1..] == t;
  }

  lemma EscapedStep(c: char, t: string, buf: string)
    ensures Elements(['\\', c] + t, true, false, false, buf) == Elements(t, true, false, false, buf + [c])
  {
    assert (['\\', c] + t)[1..] == [c] + t;
    assert ([c] + t)[1..] == t;
  }

  lemma QuoteEnds(t: string, buf: string)
    ensures Elements("\"" + t, true, false, false, buf) == Elements(t, false, false, false, buf)
  {
    assert ("\"" + t)[1..] == t;
  }

  lemma {:induction false} QuotedElement(seg: string, rest: string, buf: string)
    ensures Elements(QuoteAll(seg) + ("\"" + rest), true, false, false, buf) ==
            Elements(rest, false, false, false, buf + seg)
    decreases |seg|
  {
    hide Elements;
    if seg == [] {
      QuoteEnds(rest, buf);
      assert QuoteAll(seg) + ("\"" + rest) == "\"" + rest && buf + seg == buf;
    } else {
      var tail := QuoteAll(seg[1..]) + ("\"" + rest);
      assert QuoteAll(seg) + ("\"" + rest) == Quoted(seg[0]) + tail;
      QuotedElement(seg[1..], rest, buf + [seg[0]]);
      assert buf + [seg[0]] + seg[1..] == buf + seg;
      hide QuoteAll;
      QuotedStep(seg[0], tail, buf);
    }
  }

  lemma QuotedStep(c: char, t: string, buf: string)
    ensures Elements(Quoted(c) + t, true, false, false, buf) == Elements(t, true, false, false, buf + [c])
  {
    PlainOrEscaped(c);
    hide Elements, Quoted;
    if c == '\\' || c == '"' {
      EscapedStep(c, t, buf);
    } else {
      PlainStep(c, t, buf);
    }
  }

  lemma PlainOrEscaped(c: char)
    ensures Quoted(c) == if c == '\\' || c == '"' then ['\\', c] else [c]
  {
  }

  lemma EncodeQuoted(seg: string)
    requires !PlainSegment(seg)
    ensures Encode(seg) == "\"" + QuoteAll(seg) + "\""
  {
    ReplacesQuote(seg);
    hide Replace, QuoteAll, PlainSegment;
  }

  lemma {:induction false} BareElement(seg: string, rest: string, buf: string)
    requires forall i :: 0 <= i < |seg| ==> seg[i] !in {'\\', '"', ',', '{', '}'} && seg[i] > ' '
    ensures Elements(seg + rest, false, false, true, buf) == Elements(rest, false, false, true, buf + seg)
    decreases |seg|
  {
    if seg == [] {
      assert seg + rest == rest && buf + seg == buf;
    } else {
      assert (seg + rest)[1..] == seg[1..] + rest;
      BareElement(seg[1..], rest, buf + [seg[0]]);
      assert buf + [seg[0]] + seg[1..] == buf + seg;
    }
  }

  lemma ElementReads(seg: string, rest: string)
    ensures Elements(Encode(seg) + rest, false, false, true, []) == Elements(rest, false, false, PlainSegment(seg), seg)
  {
    hide Elements;
    if PlainSegment(seg) {
      BareElement(seg, rest, []);
    } else {
      EncodeQuoted(seg);
      hide Encode, QuoteAll, PlainSegment;
      var t := Encode(seg) + rest;
      assert t == "\"" + (QuoteAll(seg) + ("\"" + rest));
      QuotedElement(seg, rest, []);
      QuoteStarts(QuoteAll(seg) + ("\"" + rest));
    }
    assert [] + seg == seg;
  }

  lemma QuoteStarts(t: string)
    ensures Elements("\"" + t, false, false, true, []) == Elements(t, true, false, false, [])
  {
    assert ("\"" + t)[1..] == t;
  }

  function Located(segs: seq<string>): (r: seq<Option<string>>)
    ensures |r| == |segs|
  {
    seq(|segs|, i requires 0 <= i < |segs| => if NullWord(segs[i]) then None else Some(segs[i]))
  }

  lemma ElementEnds(seg: string, rest: string)
    requires rest == [] || rest[0] == ','
    ensures Elements(rest, false, false, PlainSegment(seg), seg) ==
            var more := if rest == [] then Some([]) else Elements(rest[1..], false, false, true, []);
            if more.None? then None else Some([if NullWord(seg) then None else Some(seg)] + more.value)
  {
    assert NullWord(seg) ==> PlainSegment(seg);
  }

  /** The server finds the segments, but NULL for every one that is `null` in any case. */
  lemma {:induction false} BodyLocated(segs: seq<string>)
    requires segs != []
    ensures Elements(Body(segs), false, false, true, []) == Some(Located(segs))
  {
    hide Encode, Elements, PlainSegment, NullWord;
    if |segs| == 1 {
      ElementReads(segs[0], []);
      assert Encode(segs[0]) + [] == Encode(segs[0]) == Body(segs);
      ElementEnds(segs[0], []);
      var located: seq<Option<string>> := [if NullWord(segs[0]) then None else Some(segs[0])];
      assert Located(segs) == located == located + [];
    } else {
      BodyLocated(segs[1..]);
      var rest := "," + Body(segs[1..]);
      ElementReads(segs[0], rest);
      assert Body(segs) == Encode(segs[0]) + rest;
      assert rest[0] == ',' && rest[1..] == Body(segs[1..]);
      ElementEnds(segs[0], rest);
      assert Located(segs) == [if NullWord(segs[0]) then None else Some(segs[0])] + Located(segs[1..]);
    }
  }

  /** The path of the key as the server reads it leads somewhere: no element is NULL. */
  predicate Leads(k: string) {
    var r := Elements(Body(SplitDots(k, [])), false, false, true, []);
    r.Some? && forall i :: 0 <= i < |r.value| ==> r.value[i].Some?
  }

  predicate HasNullWord(k: string) {
    exists i :: 0 <= i < |SplitDots(k, [])| && NullWord(SplitDots(k, [])[i])
  }

  /** The path leads somewhere if and only if no segment of the key is `null` in any case;
      then it is the path of the key's segments. */
  lemma LeadsIff(k: string)
    ensures Leads(k) <==> !HasNullWord(k)
    ensures Leads(k) ==> var r := Elements(Body(SplitDots(k, [])), false, false, true, []);
      && |r.value| == |SplitDots(k, [])|
      && forall i :: 0 <= i < |r.value| ==> r.value[i] == Some(SplitDots(k, [])[i])
  {
    var segs := SplitDots(k, []);
    BodyLocated(segs);
    hide Elements, NullWord, Body;
    var r := Elements(Body(segs), false, false, true, []).value;
    forall i | 0 <= i < |segs| ensures r[i] == if NullWord(segs[i]) then None else Some(segs[i]) {
      assert r[i] == Located(segs)[i];
    }
  }
}
