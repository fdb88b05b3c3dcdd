/**
 * The normal form of a text (src/checksum.ts:16-136): its items with every run of gaps reduced
 * to one space, none at either end, and an unterminated last literal trimmed. Lexing a normal
 * form gives back exactly these items.
 */
module NormalForm {
  import opened Options
  import opened Lexer

  /** Runs of gaps become one space; none is kept after a gap (or the start) or at the end. */
  function Tokens(items: seq<Item>, afterGap: bool): seq<Item> {
    if items == [] then []
    else if items[0].Gap? then
      var rest := Tokens(items[1..], true);
      if afterGap || rest == [] then rest else [Gap(" ")] + rest
    else [items[0]] + Tokens(items[1..], false)
  }

  /** The token stream of a text: what it says apart from comments and spacing. */
  function Stream(s: string): seq<Item> {
    Tokens(Lex(s), true)
  }

  function TrimEnd(s: string): (r: string)
    ensures r <= s
    ensures r != "" ==> !IsSpace(r[|r| - 1])
    ensures forall k :: |r| <= k < |s| ==> IsSpace(s[k])
  {
    if s != "" && IsSpace(s[|s| - 1]) then TrimEnd(s[..|s| - 1]) else s
  }

  function TrimStart(s: string): string {
    if s != "" && IsSpace(s[0]) then TrimStart(s[1..]) else s
  }

  function Trim(s: string): string {
    TrimStart(TrimEnd(s))
  }

  function TrimOpen(it: Item): Item {
    if it.Lit? && !it.closed then Lit(TrimEnd(it.text), false) else it
  }

  /** Final trim() reaches into a literal only when it is unterminated. */
  function TrimAll(items: seq<Item>): (r: seq<Item>)
    ensures |r| == |items|
  {
    if items == [] then [] else [TrimOpen(items[0])] + TrimAll(items[1..])
  }

  function Normal(s: string): string {
    Flatten(TrimAll(Stream(s)))
  }

  // ---- A closed item is scanned the same whatever suitable text follows it ----

  lemma Shift(c: char, b: string, y: string)
    ensures ([c] + b + y)[1..] == b + y && ([c] + b)[1..] == b
  {
  }

  lemma {:induction false} FindStable(b: string, rest: string, y: string, p: string, m: nat)
    requires p != "" && |b| == m + |p| && Find(b + rest, p) == Some(m)
    ensures Find(b + y, p) == Some(m)
  {
    assert (b + rest)[..|p|] == b[..|p|] == (b + y)[..|p|];
    if m > 0 {
      assert b == [b[0]] + b[1..];
      Shift(b[0], b[1..], rest);
      Shift(b[0], b[1..], y);
      FindStable(b[1..], rest, y, p, m - 1);
    }
  }

  lemma {:induction false} EscapeStable(b: string, rest: string, y: string)
    requires EscapeLength(b + rest) == (|b|, true)
    ensures EscapeLength(b + y) == (|b|, true)
  {
    if b[0] == '\\' && |b + rest| > 1 {
      assert (b + rest)[2..] == b[2..] + rest && (b + y)[2..] == b[2..] + y;
      EscapeStable(b[2..], rest, y);
    } else if b[0] != '\'' {
      assert (b + rest)[1..] == b[1..] + rest && (b + y)[1..] == b[1..] + y;
      EscapeStable(b[1..], rest, y);
    }
  }

  lemma {:induction false} QuoteStable(b: string, rest: string, y: string, quote: char)
    requires QuoteLength(b + rest, quote) == (|b|, true)
    requires y == "" || y[0] != quote
    ensures QuoteLength(b + y, quote) == (|b|, true)
  {
    if b[0] == quote && |b + rest| > 1 && (b + rest)[1] == quote {
      assert (b + rest)[2..] == b[2..] + rest && (b + y)[2..] == b[2..] + y;
      QuoteStable(b[2..], rest, y, quote);
    } else if b[0] != quote {
      assert (b + rest)[1..] == b[1..] + rest && (b + y)[1..] == b[1..] + y;
      QuoteStable(b[1..], rest, y, quote);
    }
  }

  /** A closing quote is never followed by another one. */
  lemma {:induction false} QuoteEndsAlone(b: string, rest: string, quote: char)
    requires QuoteLength(b + rest, quote) == (|b|, true)
    ensures rest == "" || rest[0] != quote
  {
    if b[0] == quote && |b + rest| > 1 && (b + rest)[1] == quote {
      assert (b + rest)[2..] == b[2..] + rest;
      QuoteEndsAlone(b[2..], rest, quote);
    } else if b[0] != quote {
      assert (b + rest)[1..] == b[1..] + rest;
      QuoteEndsAlone(b[1..], rest, quote);
    }
  }

  lemma {:induction false} TagPrefix(b: string, y: string)
    requires TagLength(b) == Some(|b| - 1)
    ensures TagLength(b + y) == Some(|b| - 1)
  {
    if b[0] != '$' {
      assert (b + y)[1..] == b[1..] + y;
      TagPrefix(b[1..], y);
    }
  }

  lemma {:induction false} TagMatch(s: string)
    requires TagLength(s).Some?
    ensures TagLength(s[..TagLength(s).value + 1]) == TagLength(s)
  {
    var k := TagLength(s).value;
    if s[0] != '$' {
      assert s[..k + 1][1..] == s[1..][..k];
      TagMatch(s[1..]);
    }
  }

  /** u may stand where t stood: it starts with a space or like t, and completes no tag that t does not. */
  predicate Replaces(u: string, t: string) {
    && (u != "" ==> u[0] == ' ' || (t != "" && u[0] == t[0]))
    && (TagLength(u).Some? ==> TagLength(t).Some?)
  }

  lemma CodeStable(c: char, t: string, u: string)
    requires Scan([c] + t) == Code(c) && Replaces(u, t)
    ensures Scan([c] + u) == Code(c)
  {
    assert ([c] + t)[1..] == t && ([c] + u)[1..] == u;
    assert t != "" ==> ([c] + t)[1] == t[0];
    assert u != "" ==> ([c] + u)[1] == u[0];
  }

  lemma EscapeLiteral(e: char, b: string, u: string)
    requires e == 'E' || e == 'e'
    requires EscapeLength(b + u) == (|b|, true)
    ensures Scan(([e, '\''] + b) + u) == Lit([e, '\''] + b, true)
  {
    var v := ([e, '\''] + b) + u;
    assert v[2..] == b + u;
    assert v[..2 + |b|] == [e, '\''] + b;
  }

  lemma QuoteLiteral(quote: char, b: string, u: string)
    requires quote == '\'' || quote == '"'
    requires QuoteLength(b + u, quote) == (|b|, true)
    ensures Scan(([quote] + b) + u) == Lit([quote] + b, true)
  {
    var v := ([quote] + b) + u;
    assert v[1..] == b + u;
    assert v[..1 + |b|] == [quote] + b;
  }

  predicate IsTag(tag: string) {
    |tag| >= 2 && tag[0] == '$' && TagLength(tag[1..]) == Some(|tag| - 2)
  }

  lemma TagOpens(tag: string, x: string)
    requires IsTag(tag)
    ensures StartsWith(tag + x, tag)
    ensures Scan(tag + x) == ScanDollar(tag + x, tag)
  {
    TagPrefix(tag[1..], x);
    assert (tag + x)[1..] == tag[1..] + x;
    assert (tag + x)[..|tag|] == tag;
  }

  lemma DollarLiteral(tag: string, b: string, u: string, m: nat)
    requires IsTag(tag) && |b| == m + |tag| && Find(b + u, tag) == Some(m)
    ensures Scan((tag + b) + u) == Lit(tag + b, true)
  {
    var v := tag + (b + u);
    assert (tag + b) + u == v;
    TagOpens(tag, b + u);
    assert v[|tag|..] == b + u;
    assert v[..|tag| + m + |tag|] == tag + b;
  }

  // How a closed literal is made up, by kind.

  lemma EscapeParts(s: string) returns (e: char, b: string, rest: string)
    requires (Opens(s, 'E', '\'') || Opens(s, 'e', '\'')) && Scan(s).Lit? && Scan(s).closed
    ensures (e == 'E' || e == 'e') && s == ([e, '\''] + b) + rest
    ensures Scan(s).text == [e, '\''] + b && EscapeLength(b + rest) == (|b|, true)
  {
    var n := EscapeLength(s[2..]).0;
    e, b, rest := s[0], s[2..][..n], s[2..][n..];
    assert s[2..] == b + rest;
    assert s[..2 + n] == [e, '\''] + b;
  }

  lemma QuoteParts(s: string) returns (b: string, rest: string)
    requires s != "" && (s[0] == '\'' || s[0] == '"') && Scan(s).Lit? && Scan(s).closed
    ensures s == ([s[0]] + b) + rest
    ensures Scan(s).text == [s[0]] + b && QuoteLength(b + rest, s[0]) == (|b|, true)
  {
    var n := QuoteLength(s[1..], s[0]).0;
    b, rest := s[1..][..n], s[1..][n..];
    assert s[1..] == b + rest;
    assert s[..1 + n] == [s[0]] + b;
  }

  lemma TagParts(s: string) returns (tag: string, body: string)
    requires s != "" && s[0] == '$' && Scan(s).Lit?
    ensures IsTag(tag) && s == tag + body && StartsWith(s, tag) && Scan(s) == ScanDollar(s, tag)
  {
    var k := TagLength(s[1..]).value;
    tag, body := s[..k + 2], s[k + 2..];
    TagMatch(s[1..]);
    assert tag[1..] == s[1..][..k + 1];
  }

  lemma BodyParts(tag: string, body: string) returns (b: string, rest: string, m: nat)
    requires tag != "" && StartsWith(tag + body, tag) && ScanDollar(tag + body, tag).closed
    ensures body == b + rest && ScanDollar(tag + body, tag).text == tag + b
    ensures |b| == m + |tag| && Find(b + rest, tag) == Some(m)
  {
    var s := tag + body;
    assert s[|tag|..] == body;
    m := Find(body, tag).value;
    b, rest := body[..m + |tag|], body[m + |tag|..];
    assert body == b + rest;
    assert s[..|tag| + m + |tag|] == tag + b;
  }

  lemma SameRest<T>(text: seq<T>, t: seq<T>, rest: seq<T>)
    requires text + t == text + rest
    ensures t == rest
  {
    assert t == (text + t)[|text|..] && rest == (text + rest)[|text|..];
  }

  /** u does not start with a quote where t does not. */
  predicate AddsNoQuote(u: string, t: string) {
    u != "" && (u[0] == '\'' || u[0] == '"') ==> t != "" && u[0] == t[0]
  }

  lemma LiteralStable(text: string, t: string, u: string)
    requires text != "" && Scan(text + t) == Lit(text, true) && AddsNoQuote(u, t)
    ensures Scan(text + u) == Lit(text, true)
  {
    var s := text + t;
    if Opens(s, 'E', '\'') || Opens(s, 'e', '\'') {
      var e, b, rest := EscapeParts(s);
      EscapeStable(b, rest, u);
      EscapeLiteral(e, b, u);
    } else if s[0] == '\'' || s[0] == '"' {
      var b, rest := QuoteParts(s);
      SameRest(text, t, rest);
      QuoteEndsAlone(b, rest, s[0]);
      QuoteStable(b, rest, u, s[0]);
      QuoteLiteral(s[0], b, u);
    } else {
      var tag, body := TagParts(s);
      var b, rest, m := BodyParts(tag, body);
      FindStable(b, rest, u, tag, m);
      DollarLiteral(tag, b, u, m);
    }
  }
}
