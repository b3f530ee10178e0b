/** SQL string literals: quotes inside are doubled. */
module SqlText {
  import opened Text

  function EscapeSql(s: string): string {
    Replace(s, '\'', "''")
  }

  /** A SQL reader from just after the opening quote: a doubled quote is a quote,
      a single one ends the literal.  Yields the content and what follows. */
  function ReadBody(s: string): Option<(string, string)> {
    if s == [] then None
    else if s[0] == '\'' && (|s| == 1 || s[1] != '\'') then Some(([], s[1..]))
    else
      var n := if s[0] == '\'' then 2 else 1;
      var r := ReadBody(s[n..]);
      if r.None? then None else Some(([s[0]] + r.value.0, r.value.1))
  }

  function ReadLiteral(s: string): Option<(string, string)> {
    if s != [] && s[0] == '\'' then ReadBody(s[1..]) else None
  }

  /** The literal written for a content whose quotes have been doubled. */
  function Literal(content: string): string {
    "'" + EscapeSql(content) + "'"
  }

  lemma {:induction false} BodyReadsBack(content: string, rest: string)
    requires rest == [] || rest[0] != '\''
    ensures ReadBody(EscapeSql(content) + "'" + rest) == Some((content, rest))
  {
    if content == [] {
      assert EscapeSql(content) + "'" + rest == "'" + rest;
      assert ("'" + rest)[1..] == rest;
    } else {
      BodyReadsBack(content[1..], rest);
      var tail := EscapeSql(content[1..]) + "'" + rest;
      var head := if content[0] == '\'' then "''" else [content[0]];
      assert EscapeSql(content) + "'" + rest == head + tail;
      hide Replace;
      assert (head + tail)[|head|..] == tail;
      assert [content[0]] + content[1..] == content;
    }
  }

  /** Reading a literal back recovers its content and stops at the closing quote. */
  lemma LiteralReadsBack(content: string, rest: string)
    requires rest == [] || rest[0] != '\''
    ensures ReadLiteral(Literal(content) + rest) == Some((content, rest))
  {
    BodyReadsBack(content, rest);
    assert (Literal(content) + rest)[1..] == EscapeSql(content) + "'" + rest;
  }

  lemma LiteralParts(pre: string, t: string, post: string)
    requires '\'' !in pre && '\'' !in post
    ensures Literal(pre + t + post) == "'" + pre + EscapeSql(t) + post + "'"
  {
    hide Replace;
    ReplaceConcat(pre + t, post, '\'', "''");
    ReplaceConcat(pre, t, '\'', "''");
    ReplaceNothing(pre, '\'', "''");
    ReplaceNothing(post, '\'', "''");
  }
}
