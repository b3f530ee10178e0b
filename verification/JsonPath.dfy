/** Metadata keys as JSONB path literals. */
module JsonPath {
  import opened Text
  import opened SqlText

  /** `[A-Za-z0-9_]+`. */
  predicate PlainSegment(seg: string) {
    seg != [] &&
    forall i :: 0 <= i < |seg| ==>
      'A' <= seg[i] <= 'Z' || 'a' <= seg[i] <= 'z' || '0' <= seg[i] <= '9' || seg[i] == '_'
  }

  function Encode(seg: string): string {
    if PlainSegment(seg) then seg else "\"" + Replace(Replace(seg, '\\', "\\\\"), '"', "\\\"") + "\""
  }

  /** `",".join(encoded)`. */
  function Body(segs: seq<string>): string {
    if segs == [] then [] else if |segs| == 1 then Encode(segs[0]) else Encode(segs[0]) + "," + Body(segs[1..])
  }

  /** `jsonb_path_literal` on the segments of a key. */
  function PathLiteral(k: string): string {
    Literal("{" + Body(SplitDots(k, [])) + "}")
  }

  // ----- reading it back -----

  /** `_parse_jsonb_path_literal` between the braces: `buf` is the segment so far. */
  function Parse(body: string, quoted: bool, escaped: bool, buf: string): Option<seq<string>>
    decreases |body|
  {
    if body == [] then (if quoted || escaped then None else Some([buf]))
    else
      var c, rest := body[0], body[1..];
      if escaped then Parse(rest, quoted, false, buf + [c])
      else if quoted && c == '\\' then Parse(rest, quoted, true, buf)
      else if c == '"' then Parse(rest, !quoted, false, buf)
      else if c == ',' && !quoted then
        var more := Parse(rest, false, false, []);
        if more.None? then None else Some([buf] + more.value)
      else Parse(rest, quoted, false, buf + [c])
  }

  /** What one character of a quoted segment is written as. */
  function Quoted(c: char): string {
    if c == '\\' then "\\\\" else if c == '"' then "\\\"" else [c]
  }

  function QuoteAll(seg: string): string {
    if seg == [] then [] else Quoted(seg[0]) + QuoteAll(seg[1..])
  }

  /** The two replacements quote each character once. */
  lemma {:induction false} ReplacesQuote(seg: string)
    ensures Replace(Replace(seg, '\\', "\\\\"), '"', "\\\"") == QuoteAll(seg)
  {
    if seg == [] {
    } else {
      ReplacesQuote(seg[1..]);
      var head := if seg[0] == '\\' then "\\\\" else [seg[0]];
      ReplaceConcat(head, Replace(seg[1..], '\\', "\\\\"), '"', "\\\"");
      assert Replace(head, '"', "\\\"") == Quoted(seg[0]) by {
        assert |head| == 2 ==> head[1..] == ['\\'] && ['\\'][1..] == [];
        assert |head| == 1 ==> head[1..] == [];
      }
    }
  }

  lemma {:induction false} QuotedReadsBack(seg: string, rest: string, buf: string)
    ensures Parse(QuoteAll(seg) + "\"" + rest, true, false, buf) == Parse(rest, false, false, buf + seg)
    decreases |seg|
  {
    if seg == [] {
      var t := QuoteAll(seg) + "\"" + rest;
      assert t[0] == '"' && t[1..] == rest;
      assert buf + seg == buf;
    } else {
      var tail := QuoteAll(seg[1..]) + "\"" + rest;
      var t := QuoteAll(seg) + "\"" + rest;
      assert t == Quoted(seg[0]) + tail;
      QuotedReadsBack(seg[1..], rest, buf + [seg[0]]);
      assert buf + [seg[0]] + seg[1..] == buf + seg;
      if |Quoted(seg[0])| == 2 {
        assert t[1..] == [seg[0]] + tail && t[1..][1..] == tail;
      } else {
        assert t[1..] == tail;
      }
    }
  }

  lemma {:induction false} PlainReadsBack(seg: string, rest: string, buf: string)
    requires forall i :: 0 <= i < |seg| ==> seg[i] !in {'\\', '"', ','}
    ensures Parse(seg + rest, false, false, buf) == Parse(rest, false, false, buf + seg)
    decreases |seg|
  {
    if seg == [] {
      assert seg + rest == rest && buf + seg == buf;
    } else {
      assert (seg + rest)[1..] == seg[1..] + rest;
      PlainReadsBack(seg[1..], rest, buf + [seg[0]]);
      assert buf + [seg[0]] + seg[1..] == buf + seg;
    }
  }

  lemma SegmentReadsBack(seg: string, rest: string)
    ensures Parse(Encode(seg) + rest, false, false, []) == Parse(rest, false, false, seg)
  {
    hide Parse;
    if PlainSegment(seg) {
      PlainReadsBack(seg, rest, []);
    } else {
      ReplacesQuote(seg);
      var t := Encode(seg) + rest;
      assert Encode(seg) == "\"" + QuoteAll(seg) + "\"";
      hide Encode, Replace, QuoteAll, PlainSegment;
      QuotedReadsBack(seg, rest, []);
      assert t[0] == '"' && t[1..] == QuoteAll(seg) + "\"" + rest;
      QuoteOpens(t);
    }
    assert [] + seg == seg;
  }

  lemma QuoteOpens(t: string)
    requires t != [] && t[0] == '"'
    ensures Parse(t, false, false, []) == Parse(t[1..], true, false, [])
  {
  }

  /** The literal of a key holds exactly the key's segments. */
  lemma {:induction false} BodyReadsBack(segs: seq<string>)
    requires segs != []
    ensures Parse(Body(segs), false, false, []) == Some(segs)
  {
    hide Encode;
    if |segs| == 1 {
      SegmentReadsBack(segs[0], []);
      assert Encode(segs[0]) + [] == Encode(segs[0]) == Body(segs);
      assert [segs[0]] == segs;
    } else {
      BodyReadsBack(segs[1..]);
      var rest := "," + Body(segs[1..]);
      SegmentReadsBack(segs[0], rest);
      assert Body(segs) == Encode(segs[0]) + rest;
      assert rest[0] == ',' && rest[1..] == Body(segs[1..]);
      assert [segs[0]] + segs[1..] == segs;
    }
  }

  /** In the statement, a key's literal is read as one string that holds the path of
      exactly the key's segments. */
  lemma PathReadsBack(k: string, rest: string)
    requires rest == [] || rest[0] != '\''
    ensures ReadLiteral(PathLiteral(k) + rest) == Some(("{" + Body(SplitDots(k, [])) + "}", rest))
    ensures Parse(Body(SplitDots(k, [])), false, false, []) == Some(SplitDots(k, []))
  {
    BodyReadsBack(SplitDots(k, []));
    LiteralReadsBack("{" + Body(SplitDots(k, [])) + "}", rest);
  }

  // ----- characters that survive -----

  /** The literal holds a character that nothing is written with exactly when the key
      does. */
  lemma LiteralHolds(k: string, c: char)
    requires c !in {'\'', '"', '\\', ',', '{', '}', '.'}
    ensures c in PathLiteral(k) <==> c in k
  {
    var segs := SplitDots(k, []);
    SplitIsExact(k, []);
    assert [] + k == k;
    DottedHolds(segs, c);
    BodyHolds(segs, c);
    ReplaceHolds("{" + Body(segs) + "}", '\'', "''", c);
    hide Body, Replace;
  }

  lemma {:induction false} ReplaceHolds(s: string, x: char, r: string, c: char)
    requires c != x && c !in r
    ensures c in Replace(s, x, r) <==> c in s
  {
    if s == [] {
    } else {
      ReplaceHolds(s[1..], x, r, c);
      assert s == [s[0]] + s[1..];
    }
  }

  lemma {:induction false} DottedHolds(segs: seq<string>, c: char)
    requires c != '.'
    ensures c in Dotted(segs) <==> exists i :: 0 <= i < |segs| && c in segs[i]
  {
    if segs == [] {
    } else if |segs| == 1 {
      assert segs[0] == Dotted(segs);
    } else {
      DottedHolds(segs[1..], c);
      SomeHolds(segs, c);
    }
  }

  lemma SomeHolds(segs: seq<string>, c: char)
    requires segs != []
    ensures (exists i :: 0 <= i < |segs| && c in segs[i]) <==>
            c in segs[0] || exists i :: 0 <= i < |segs[1..]| && c in segs[1..][i]
  {
    if i :| 0 < i < |segs| && c in segs[i] {
      assert segs[1..][i - 1] == segs[i];
    }
  }

  lemma EncodeHolds(seg: string, c: char)
    requires c !in {'"', '\\'}
    ensures c in Encode(seg) <==> c in seg
  {
    ReplaceHolds(seg, '\\', "\\\\", c);
    ReplaceHolds(Replace(seg, '\\', "\\\\"), '"', "\\\"", c);
    hide Replace;
  }

  lemma {:induction false} BodyHolds(segs: seq<string>, c: char)
    requires c !in {'"', '\\', ','}
    ensures c in Body(segs) <==> exists i :: 0 <= i < |segs| && c in segs[i]
  {
    hide Encode;
    if segs == [] {
    } else if |segs| == 1 {
      EncodeHolds(segs[0], c);
    } else {
      EncodeHolds(segs[0], c);
      BodyHolds(segs[1..], c);
      SomeHolds(segs, c);
    }
  }
}
