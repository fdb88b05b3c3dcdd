/**
 * README.md:169 says that adding comments does not change the checksum. This module says exactly
 * when that is so, for a comment (or a space) put at any place between two tokens of any text,
 * at its start or at its end.
 */
module CommentInsertion {
  import opened Options
  import opened Lexer
  import opened NormalForm
  import opened NormalizerLaws
  import opened CommentLaws

  // ---- How the items change ----

  /** The item ends by itself, not because the text ends. */
  predicate Complete(it: Item) {
    match it
    case Gap(text) => IsCompleteGap(text)
    case Code(_) => true
    case Lit(_, closed) => closed
  }

  /** A dash and a line comment put right after it make one comment. */
  predicate DashJoins(it: Item, c: string) {
    it == Code('-') && Opens(c, '-', '-')
  }

  /** What the last item before the place of c, c itself, and the rest b become. */
  function LastThen(it: Item, c: string, b: string): seq<Item> {
    if !Complete(it) then Lex(Text(it) + c)
    else if DashJoins(it, c) then [Gap("-" + c)] + Lex(b)
    else [it] + ([Gap(c)] + Lex(b))
  }

  lemma {:induction false} TagWithin(q: string, x: string, y: string)
    requires x != "" && !IsTagChar(x[0]) && x[0] != '$' && TagLength(q + x).Some?
    ensures TagLength(q + y).Some?
  {
    assert q == "" ==> q + x == x;
    if q != "" && q[0] != '$' {
      assert (q + x)[1..] == q[1..] + x && (q + y)[1..] == q[1..] + y;
      TagWithin(q[1..], x, y);
    }
  }

  lemma CodeBeforeGap(k: char, b: string, u: string)
    requires Scan([k] + b) == Code(k)
    requires u != "" && (IsSpace(u[0]) || u[0] == '/' || (u[0] == '-' && k != '-'))
    ensures Scan([k] + u) == Code(k)
  {
    CodeOpensNothing(k, b);
    ScansAsCode(k, u);
  }

  lemma CodeOpensNothing(k: char, b: string)
    requires Scan([k] + b) == Code(k)
    ensures k != '\'' && k != '"' && !IsSpace(k)
  {
    assert ([k] + b)[0] == k;
  }

  lemma ScansAsCode(k: char, u: string)
    requires k != '\'' && k != '"' && !IsSpace(k)
    requires u != "" && !IsTagChar(u[0]) && u[0] != '$' && u[0] != '\'' && u[0] != '*' && (u[0] == '-' ==> k != '-')
    ensures Scan([k] + u) == Code(k)
  {
    assert ([k] + u)[1..] == u && ([k] + u)[1] == u[0];
    assert TagLength(u).None?;
  }

  lemma GapOpens(c: string)
    requires IsCompleteGap(c)
    ensures c != "" && (IsSpace(c[0]) || c[0] == '/' || (c[0] == '-' && Opens(c, '-', '-')))
    ensures IsSpace(c[0]) ==> |c| == 1
    ensures !IsTagChar(c[0]) && c[0] != '$' && c[0] != '\'' && c[0] != '"'
  {
  }

  lemma SameWithin(q: string, c: string, b: string)
    requires IsCompleteGap(c) && q != ""
    ensures Replaces(q + (c + b), q + b)
  {
    GapOpens(c);
    assert (c + b)[0] == c[0];
    if TagLength(q + (c + b)).Some? { TagWithin(q, c + b, b); }
  }

  lemma CodeKept(k: char, q: string, c: string, b: string)
    requires IsCompleteGap(c) && Scan([k] + (q + b)) == Code(k)
    requires q == "" ==> !DashJoins(Code(k), c)
    ensures Scan([k] + (q + (c + b))) == Code(k)
  {
    if q == "" {
      GapOpens(c);
      assert q + b == b && q + (c + b) == c + b && (c + b)[0] == c[0];
      CodeBeforeGap(k, b, c + b);
    } else {
      SameWithin(q, c, b);
      CodeStable(k, q + b, q + (c + b));
    }
  }

  lemma NoQuoteAdded(q: string, c: string, b: string)
    requires IsCompleteGap(c)
    ensures AddsNoQuote(q + (c + b), q + b)
  {
    GapOpens(c);
    if q == "" { assert (q + (c + b))[0] == c[0]; }
  }

  /** A complete item stays as it is when c is put behind it or further on. */
  lemma ItemKept(text: string, q: string, c: string, b: string)
    requires IsCompleteGap(c) && text != ""
    requires Text(Scan(text + (q + b))) == text && Complete(Scan(text + (q + b)))
    requires q == "" ==> !DashJoins(Scan(text + (q + b)), c)
    ensures Scan(text + (q + (c + b))) == Scan(text + (q + b))
  {
    match Scan(text + (q + b)) {
      case Code(k) => CodeKept(k, q, c, b);
      case Lit(_, _) =>
        NoQuoteAdded(q, c, b);
        LiteralStable(text, q + b, q + (c + b));
      case Gap(_) =>
        GapStable(text, q + (c + b));
    }
  }

  lemma InnerIsComplete(text: string, t: string)
    requires text != "" && Text(Scan(text + t)) == text
    ensures t != "" ==> Complete(Scan(text + t))
  {
    var it := Scan(text + t);
    if t != "" && it.Gap? { InnerGapIsComplete(text + t); }
  }

  lemma DashExtends(c: string)
    requires IsCompleteGap(c) && Opens(c, '-', '-')
    ensures IsCompleteGap("-" + c)
  {
    var b := ("-" + c)[2..];
    assert b[1..] == c[2..] && b[0] == '-';
  }

  lemma LexLastThen(text: string, c: string, b: string)
    requires IsCompleteGap(c) && text != "" && Text(Scan(text + b)) == text
    ensures !Complete(Scan(text + b)) ==> b == ""
    ensures Lex(text + (c + b)) == LastThen(Scan(text + b), c, b)
  {
    var it := Scan(text + b);
    InnerIsComplete(text, b);
    if !Complete(it) {
      assert c + b == c;
    } else if DashJoins(it, c) {
      LexJoined(c, b);
    } else {
      LexKept(text, c, b);
    }
  }

  lemma LexJoined(c: string, b: string)
    requires IsCompleteGap(c) && Opens(c, '-', '-')
    ensures Lex("-" + (c + b)) == [Gap("-" + c)] + Lex(b)
  {
    DashExtends(c);
    Associate("-", c, b);
    LexGap("-" + c, b);
  }

  lemma LexKept(text: string, c: string, b: string)
    requires IsCompleteGap(c) && text != "" && Text(Scan(text + b)) == text
    requires Complete(Scan(text + b)) && !DashJoins(Scan(text + b), c)
    ensures Lex(text + (c + b)) == [Scan(text + b)] + ([Gap(c)] + Lex(b))
  {
    LastKept(text, c, b);
    LexStep(text, c + b);
    LexGap(c, b);
  }

  lemma LastKept(text: string, c: string, b: string)
    requires IsCompleteGap(c) && text != "" && Text(Scan(text + b)) == text
    requires Complete(Scan(text + b)) && !DashJoins(Scan(text + b), c)
    ensures Scan(text + (c + b)) == Scan(text + b)
  {
    assert "" + b == b && "" + (c + b) == c + b;
    ItemKept(text, "", c, b);
  }

  /** The items of a text before a place, and those of the text with c put in at that place. */
  ghost predicate Splits(items: seq<Item>, q: string, c: string, b: string) {
    && Lex(q + b) == items + Lex(b) && Flatten(items) == q
    && (items != [] && !Complete(items[|items| - 1]) ==> b == "")
    && Lex(q + (c + b)) ==
      if items == [] then [Gap(c)] + Lex(b) else items[..|items| - 1] + LastThen(items[|items| - 1], c, b)
  }

  lemma SplitsLast(text: string, c: string, b: string)
    requires IsCompleteGap(c) && text != "" && Text(Scan(text + b)) == text
    ensures Splits([Scan(text + b)], text, c, b)
  {
    LexStep(text, b);
    LexLastThen(text, c, b);
    var it := Scan(text + b);
    assert [it][1..] == [] && Flatten([it][1..]) == "" && text + "" == text;
    assert [it][..0] + LastThen(it, c, b) == LastThen(it, c, b);
  }

  lemma SplitsMore(text: string, q: string, c: string, b: string, rest: seq<Item>)
    requires IsCompleteGap(c) && text != "" && q != "" && Text(Scan(text + (q + b))) == text
    requires Splits(rest, q, c, b)
    ensures Splits([Scan(text + (q + b))] + rest, text + q, c, b)
  {
    var it := Scan(text + (q + b));
    InnerIsComplete(text, q + b);
    ItemKept(text, q, c, b);
    LexStep(text, q + b);
    LexStep(text, q + (c + b));
    Associate(text, q, b);
    Associate(text, q, c + b);
    assert rest == [] ==> Flatten(rest) == "";
    SplitsCons(it, rest, Lex(b), LastThen(rest[|rest| - 1], c, b));
  }

  lemma SplitsCons(it: Item, rest: seq<Item>, tail: seq<Item>, last: seq<Item>)
    requires rest != []
    ensures [it] + (rest + tail) == ([it] + rest) + tail
    ensures Flatten([it] + rest) == Text(it) + Flatten(rest)
    ensures ([it] + rest)[|rest|] == rest[|rest| - 1]
    ensures [it] + (rest[..|rest| - 1] + last) == ([it] + rest)[..|rest|] + last
  {
    FlattenCons(it, rest);
    Associate([it], rest, tail);
    InitOfCons(it, rest);
    Associate([it], rest[..|rest| - 1], last);
  }

  lemma InitOfCons(it: Item, rest: seq<Item>)
    requires rest != []
    ensures ([it] + rest)[..|rest|] == [it] + rest[..|rest| - 1]
  {
  }

  lemma {:induction false} ItemsBefore(q: string, c: string, b: string) returns (items: seq<Item>)
    requires IsCompleteGap(c) && TokenBoundary(q + b, |q|)
    ensures Splits(items, q, c, b)
    decreases |q|
  {
    if q == "" {
      items := [];
      assert q + b == b && q + (c + b) == c + b;
      assert [] + Lex(b) == Lex(b);
      LexGap(c, b);
    } else {
      var text, q' := BoundaryStep(q, b);
      if q' == "" {
        assert q' + b == b && q == text;
        SplitsLast(text, c, b);
        items := [Scan(text + b)];
      } else {
        var rest := ItemsBefore(q', c, b);
        SplitsMore(text, q', c, b, rest);
        items := [Scan(text + (q' + b))] + rest;
      }
    }
  }

  // ---- How the token stream changes ----

  /** Spacing between items and rest adds nothing: there is some already, or nothing on one side. */
  predicate SpacedAlready(items: seq<Item>, rest: seq<Item>, afterGap: bool) {
    || (if items == [] then afterGap else items[|items| - 1].Gap?)
    || rest == [] || rest[0].Gap?
  }

  /** One more gap between items and rest is one more token, unless there is spacing already. */
  lemma {:induction false} OneMoreGap(items: seq<Item>, c: string, rest: seq<Item>, afterGap: bool)
    ensures var more, less := Tokens(items + ([Gap(c)] + rest), afterGap), Tokens(items + rest, afterGap);
      if SpacedAlready(items, rest, afterGap) then more == less else |more| == |less| + 1 && less != []
  {
    var long := [Gap(c)] + rest;
    assert long[1..] == rest;
    if items == [] {
      assert items + long == long && items + rest == rest;
    } else {
      assert (items + long)[1..] == items[1..] + long && (items + rest)[1..] == items[1..] + rest;
      OneMoreGap(items[1..], c, rest, items[0].Gap?);
    }
  }

  /** How many of the items are characters or literals. */
  function Solids(items: seq<Item>): nat {
    if items == [] then 0 else (if items[0].Gap? then 0 else 1) + Solids(items[1..])
  }

  lemma {:induction false} SolidsAppend(x: seq<Item>, y: seq<Item>)
    ensures Solids(x + y) == Solids(x) + Solids(y)
  {
    if x == [] {
      assert x + y == y;
    } else {
      assert (x + y)[1..] == x[1..] + y;
      SolidsAppend(x[1..], y);
    }
  }

  lemma {:induction false} SolidsOfTokens(items: seq<Item>, afterGap: bool)
    ensures Solids(Tokens(items, afterGap)) == Solids(items)
  {
    if items != [] {
      SolidsOfTokens(items[1..], items[0].Gap?);
      var rest := Tokens(items[1..], items[0].Gap?);
      assert ([items[0]] + rest)[1..] == rest && ([Gap(" ")] + rest)[1..] == rest;
    }
  }

  lemma {:induction false} SolidsOfTrimmed(items: seq<Item>)
    ensures Solids(TrimAll(items)) == Solids(items)
  {
    if items != [] {
      SolidsOfTrimmed(items[1..]);
      var rest := TrimAll(items[1..]);
      assert ([TrimOpen(items[0])] + rest)[1..] == rest;
    }
  }

  /** Texts with the same normal form have as many characters and literals. */
  lemma SameNormalSameSolids(s: string, t: string)
    requires Normal(s) == Normal(t)
    ensures Solids(Lex(s)) == Solids(Lex(t))
  {
    NormalFormsCompareStreams(s, t);
    SolidsOfTrimmed(Stream(s));
    SolidsOfTrimmed(Stream(t));
    SolidsOfTokens(Lex(s), true);
    SolidsOfTokens(Lex(t), true);
  }

  predicate OnlyGaps(items: seq<Item>) {
    Solids(items) == 0
  }

  /** Gaps at the end leave no token. */
  lemma {:induction false} GapsAtEnd(items: seq<Item>, gaps: seq<Item>, afterGap: bool)
    requires OnlyGaps(gaps)
    ensures Tokens(items + gaps, afterGap) == Tokens(items, afterGap)
    decreases |items|, |gaps|
  {
    if items != [] {
      assert (items + gaps)[1..] == items[1..] + gaps;
      GapsAtEnd(items[1..], gaps, items[0].Gap?);
    } else {
      assert items + gaps == gaps;
      if gaps != [] {
        GapsAtEnd([], gaps[1..], true);
        assert [] + gaps[1..] == gaps[1..];
      }
    }
  }

  // ---- An unterminated literal at the end takes c in ----

  /** What the items before a character or literal leave in the token stream. */
  function Led(items: seq<Item>, afterGap: bool): seq<Item> {
    if items == [] then []
    else if items[0].Gap? then (if afterGap then [] else [Gap(" ")]) + Led(items[1..], true)
    else [items[0]] + Led(items[1..], false)
  }

  lemma {:induction false} TokensAround(items: seq<Item>, it: Item, rest: seq<Item>, afterGap: bool)
    requires !it.Gap?
    ensures Tokens(items + ([it] + rest), afterGap) == Led(items, afterGap) + ([it] + Tokens(rest, false))
  {
    if items == [] {
      assert items + ([it] + rest) == [it] + rest && ([it] + rest)[1..] == rest;
    } else {
      assert (items + ([it] + rest))[1..] == items[1..] + ([it] + rest);
      TokensAround(items[1..], it, rest, items[0].Gap?);
    }
  }

  lemma {:induction false} TrimAllAppend(x: seq<Item>, y: seq<Item>)
    ensures TrimAll(x + y) == TrimAll(x) + TrimAll(y)
  {
    if x == [] {
      assert x + y == y;
    } else {
      assert (x + y)[1..] == x[1..] + y;
      TrimAllAppend(x[1..], y);
    }
  }

  /** Two texts that differ from one literal on, which ends the first of them. */
  lemma DifferAtLiteral(s: string, t: string, items: seq<Item>, it: Item, it': Item, rest: seq<Item>)
    requires !it.Gap? && !it'.Gap?
    requires Lex(s) == items + ([it] + []) && Lex(t) == items + ([it'] + rest)
    ensures TrimOpen(it') != TrimOpen(it) ==> Normal(t) != Normal(s)
    ensures TrimOpen(it') == TrimOpen(it) && rest == [] ==> Normal(t) == Normal(s)
  {
    NormalFormsCompareStreams(t, s);
    TokensAround(items, it, [], true);
    TokensAround(items, it', rest, true);
    var led := Led(items, true);
    TrimmedAround(led, it, []);
    TrimmedAround(led, it', Tokens(rest, false));
  }

  lemma TrimmedAround(led: seq<Item>, it: Item, rest: seq<Item>)
    ensures var all := TrimAll(led + ([it] + rest));
      && all == TrimAll(led) + ([TrimOpen(it)] + TrimAll(rest))
      && |all| > |led| && all[|led|] == TrimOpen(it)
  {
    TrimAllAppend(led, [it] + rest);
    assert ([it] + rest)[1..] == rest;
  }

  lemma {:induction false} EscapeOpenSpace(b: string, w: char)
    requires IsSpace(w) && !EscapeLength(b).1
    ensures !EscapeLength(b + [w]).1
  {
    if b == "" {
      assert b + [w] == [w] && [w][1..] == "";
    } else if b[0] == '\\' && |b| > 1 {
      assert (b + [w])[2..] == b[2..] + [w];
      EscapeOpenSpace(b[2..], w);
    } else if b[0] == '\\' {
      assert (b + [w])[2..] == "";
    } else {
      assert (b + [w])[1..] == b[1..] + [w];
      EscapeOpenSpace(b[1..], w);
    }
  }

  lemma {:induction false} QuoteOpenSpace(b: string, w: char, quote: char)
    requires IsSpace(w) && !IsSpace(quote) && !QuoteLength(b, quote).1
    ensures !QuoteLength(b + [w], quote).1
  {
    if b == "" {
      assert b + [w] == [w] && [w][1..] == "";
    } else if b[0] == quote {
      assert (b + [w])[2..] == b[2..] + [w];
      QuoteOpenSpace(b[2..], w, quote);
    } else {
      assert (b + [w])[1..] == b[1..] + [w];
      QuoteOpenSpace(b[1..], w, quote);
    }
  }

  lemma {:induction false} FindOpenSpace(b: string, w: char, p: string)
    requires p != "" && p[|p| - 1] != w && Find(b, p) == None
    ensures Find(b + [w], p) == None
  {
    NotAtStart(b, w, p);
    if b == "" {
      assert (b + [w])[1..] == "";
    } else {
      assert (b + [w])[1..] == b[1..] + [w];
      FindOpenSpace(b[1..], w, p);
    }
  }

  lemma NotAtStart(b: string, w: char, p: string)
    requires p != "" && p[|p| - 1] != w && !StartsWith(b, p)
    ensures !StartsWith(b + [w], p)
  {
    assert |p| <= |b| ==> (b + [w])[..|p|] == b[..|p|];
    assert (b + [w])[|b|] == w;
  }

  lemma DollarTakesSpace(text: string, w: char)
    requires text != "" && text[0] == '$' && Scan(text) == Lit(text, false) && IsSpace(w)
    ensures Scan(text + [w]) == Lit(text + [w], false)
  {
    var tag, body := TagParts(text);
    assert tag[|tag| - 1] == tag[1..][|tag| - 2] == '$';
    OpenBody(tag, body);
    FindOpenSpace(body, w, tag);
    assert text + [w] == tag + (body + [w]);
    TagOpens(tag, body + [w]);
    OpenBody(tag, body + [w]);
  }

  /** An unterminated literal takes in a space put behind it. */
  lemma LiteralTakesSpace(text: string, w: char)
    requires text != "" && Scan(text) == Lit(text, false) && IsSpace(w)
    ensures Scan(text + [w]) == Lit(text + [w], false)
  {
    OpeningMark(text);
    if Opens(text, 'E', '\'') || Opens(text, 'e', '\'') {
      var mark, body := [text[0], '\''], text[2..];
      assert text == mark + body && text + [w] == mark + (body + [w]);
      EscapeOpenScan(text[0], body);
      EscapeOpenSpace(body, w);
      EscapeOpenScan(text[0], body + [w]);
    } else if text[0] == '\'' || text[0] == '"' {
      var mark, body := [text[0]], text[1..];
      assert text == mark + body && text + [w] == mark + (body + [w]);
      QuoteOpenScan(text[0], body);
      QuoteOpenSpace(body, w, text[0]);
      QuoteOpenScan(text[0], body + [w]);
    } else {
      DollarTakesSpace(text, w);
    }
  }

  /** With anything put behind it, an unterminated literal is still a literal. */
  lemma StillLiteral(text: string, c: string)
    requires text != "" && Scan(text).Lit?
    ensures Scan(text + c).Lit?
  {
    OpeningMark(text);
    var s := text + c;
    assert s[0] == text[0];
    if Opens(text, 'E', '\'') || Opens(text, 'e', '\'') {
      assert s[1] == text[1];
      QuoteMarksOpen(s);
    } else if text[0] == '$' {
      StillDollar(text, c);
    } else {
      QuoteMarksOpen(s);
    }
  }

  lemma QuoteMarksOpen(s: string)
    requires s != ""
    requires Opens(s, 'E', '\'') || Opens(s, 'e', '\'') || s[0] == '\'' || s[0] == '"'
    ensures Scan(s).Lit?
  {
  }

  lemma StillDollar(text: string, c: string)
    requires text != "" && text[0] == '$' && Scan(text).Lit?
    ensures Scan(text + c).Lit?
  {
    var tag, body := TagParts(text);
    Associate(tag, body, c);
    TagOpens(tag, body + c);
  }

  lemma LongerLiteral(text: string, c: string)
    requires IsCompleteGap(c) && !IsSpace(c[0])
    ensures TrimEnd(text + c) != TrimEnd(text)
  {
    assert (text + c)[|text|] == c[0];
    TrimKeeps(text + c, |text|);
  }

  lemma TrimOneSpace(text: string, w: char)
    requires IsSpace(w)
    ensures TrimEnd(text + [w]) == TrimEnd(text)
  {
    assert (text + [w])[..|text|] == text;
  }

  lemma AfterOpenLiteral(s: string, t: string, items: seq<Item>, text: string, c: string)
    requires IsCompleteGap(c) && text != "" && Scan(text) == Lit(text, false)
    requires Lex(s) == items + [Lit(text, false)] && Lex(t) == items + Lex(text + c)
    ensures Normal(t) == Normal(s) <==> IsSpace(c[0])
  {
    var it, it' := Lit(text, false), Scan(text + c);
    var rest := Lex((text + c)[|Text(it')|..]);
    assert [it] + [] == [it];
    DifferAtTaken(text, c, it', rest);
    DifferAtLiteral(s, t, items, it, it', rest);
  }

  lemma DifferAtTaken(text: string, c: string, it: Item, rest: seq<Item>)
    requires IsCompleteGap(c) && text != "" && Scan(text) == Lit(text, false)
    requires it == Scan(text + c) && rest == Lex((text + c)[|Text(it)|..])
    ensures it.Lit? && Lex(text + c) == [it] + rest
    ensures IsSpace(c[0]) ==> TrimOpen(it) == TrimOpen(Lit(text, false)) && rest == []
    ensures !IsSpace(c[0]) ==> TrimOpen(it) != TrimOpen(Lit(text, false))
  {
    StillLiteral(text, c);
    if IsSpace(c[0]) {
      GapOpens(c);
      assert c == [c[0]];
      LiteralTakesSpace(text, c[0]);
      TrimOneSpace(text, c[0]);
      assert (text + c)[|text + c|..] == "";
    } else {
      LongerLiteral(text, c);
    }
  }

  /** An unterminated comment takes c in, as far as c does not end it. */
  lemma AfterOpenComment(s: string, t: string, items: seq<Item>, text: string, c: string)
    requires Lex(s) == items + [Gap(text)] && Lex(t) == items + Lex(text + c)
    ensures Normal(t) == Normal(s) <==> OnlyGaps(Lex(text + c))
  {
    assert OnlyGaps([Gap(text)]) by { assert [Gap(text)][1..] == []; }
    SolidsAppend(items, [Gap(text)]);
    SolidsAppend(items, Lex(text + c));
    if OnlyGaps(Lex(text + c)) {
      GapsAtEnd(items, [Gap(text)], true);
      GapsAtEnd(items, Lex(text + c), true);
    } else if Normal(t) == Normal(s) {
      SameNormalSameSolids(t, s);
    }
  }

  // ---- The exact condition ----

  /**
   * c put between items and rest is not seen: after complete items, if one side is empty or is
   * separated already, unless c joins a dash; in an unterminated literal, if c is a space; in an
   * unterminated comment, if c does not end it and go on with something else.
   */
  predicate Invisible(items: seq<Item>, c: string, rest: seq<Item>)
    requires c != ""
  {
    if items == [] then true
    else
      var last := items[|items| - 1];
      if Complete(last) then SpacedAlready(items, rest, true) && !DashJoins(last, c)
      else if last.Lit? then IsSpace(c[0])
      else OnlyGaps(Lex(Text(last) + c))
  }

  lemma AfterComplete(s: string, t: string, items: seq<Item>, c: string, rest: seq<Item>)
    requires Lex(s) == items + rest && Lex(t) == items + ([Gap(c)] + rest)
    ensures Normal(t) == Normal(s) <==> SpacedAlready(items, rest, true)
  {
    OneMoreGap(items, c, rest, true);
    NormalFormsCompareStreams(t, s);
  }

  lemma AfterDash(s: string, t: string, items: seq<Item>, c: string, rest: seq<Item>)
    requires Lex(s) == items + ([Code('-')] + rest) && Lex(t) == items + ([Gap("-" + c)] + rest)
    ensures Normal(t) != Normal(s)
  {
    SolidsAppend(items, [Code('-')] + rest);
    SolidsAppend(items, [Gap("-" + c)] + rest);
    assert ([Code('-')] + rest)[1..] == rest && ([Gap("-" + c)] + rest)[1..] == rest;
    if Normal(t) == Normal(s) { SameNormalSameSolids(t, s); }
  }

  /** The last item of a text is what its own text is scanned as. */
  lemma {:induction false} LastIsScanned(q: string)
    requires q != ""
    ensures Lex(q) != [] && var it := Lex(q)[|Lex(q)| - 1]; Text(it) != "" && Scan(Text(it)) == it
    decreases |q|
  {
    var it := Scan(q);
    var next := q[|Text(it)|..];
    assert Text(it) == q[..|Text(it)|];
    if next == "" {
      assert Text(it) == q;
      assert Lex(q) == [it] + Lex(next);
    } else {
      LastIsScanned(next);
      assert Lex(q) == [it] + Lex(next);
    }
  }

  /**
   * A comment or space c put between the tokens of q and those of b, where either may be empty,
   * leaves the normal form alone exactly when it is invisible to the items of q and b.
   */
  lemma InsertionIsInvisibleExactlyWhen(q: string, c: string, b: string) returns (items: seq<Item>)
    requires IsCompleteGap(c) && TokenBoundary(q + b, |q|)
    ensures Lex(q + b) == items + Lex(b) && Flatten(items) == q
    ensures c != "" && (Normal(q + (c + b)) == Normal(q + b) <==> Invisible(items, c, Lex(b)))
  {
    items := ItemsBefore(q, c, b);
    GapOpens(c);
    ExactlyWhen(q, c, b, items);
  }

  lemma ExactlyWhen(q: string, c: string, b: string, items: seq<Item>)
    requires IsCompleteGap(c) && c != "" && Splits(items, q, c, b)
    ensures Normal(q + (c + b)) == Normal(q + b) <==> Invisible(items, c, Lex(b))
  {
    if items == [] {
      AfterNothing(q + b, q + (c + b), c, Lex(b));
    } else {
      var init, last := items[..|items| - 1], items[|items| - 1];
      SplitAtLast(items, Lex(b));
      if !Complete(last) {
        NothingFollows(q, b, items);
        AfterOpen(q, q + (c + b), init, last, c);
      } else {
        AfterItem(q + b, q + (c + b), init, last, c, b);
      }
    }
  }

  lemma AfterNothing(s: string, t: string, c: string, rest: seq<Item>)
    requires Lex(s) == [] + rest && Lex(t) == [Gap(c)] + rest
    ensures Normal(t) == Normal(s)
  {
    assert [] + ([Gap(c)] + rest) == [Gap(c)] + rest;
    AfterComplete(s, t, [], c, rest);
  }

  lemma NothingFollows(q: string, b: string, items: seq<Item>)
    requires b == "" && Lex(q + b) == items + Lex(b)
    ensures q + b == q && Lex(b) == [] && Lex(q) == items
  {
    assert q + b == q && items + Lex(b) == items;
  }

  lemma SplitAtLast(items: seq<Item>, rest: seq<Item>)
    requires items != []
    ensures items == items[..|items| - 1] + [items[|items| - 1]]
    ensures items + rest == items[..|items| - 1] + ([items[|items| - 1]] + rest)
  {
    Associate(items[..|items| - 1], [items[|items| - 1]], rest);
  }

  lemma AfterOpen(q: string, t: string, init: seq<Item>, last: Item, c: string)
    requires IsCompleteGap(c) && c != "" && !Complete(last)
    requires Lex(q) == init + [last] && Lex(t) == init + Lex(Text(last) + c)
    ensures Normal(t) == Normal(q) <==> Invisible(init + [last], c, [])
  {
    LastIsScanned(q);
    var text := Text(last);
    assert Lex(q)[|Lex(q)| - 1] == last;
    assert last == Gap(text) || last == Lit(text, false);
    if last.Lit? { AfterOpenLiteral(q, t, init, text, c); } else { AfterOpenComment(q, t, init, text, c); }
  }

  lemma AfterItem(s: string, t: string, init: seq<Item>, last: Item, c: string, b: string)
    requires c != "" && Complete(last)
    requires Lex(s) == init + ([last] + Lex(b)) && Lex(t) == init + LastThen(last, c, b)
    ensures Normal(t) == Normal(s) <==> Invisible(init + [last], c, Lex(b))
  {
    if DashJoins(last, c) {
      AfterDash(s, t, init, c, Lex(b));
    } else {
      Associate(init, [last], Lex(b));
      Associate(init, [last], [Gap(c)] + Lex(b));
      AfterComplete(s, t, init + [last], c, Lex(b));
    }
  }

  // ---- Two ways in which a comment shows ----

  lemma OneItem(k: char, b: string, items: seq<Item>)
    requires Scan([k] + b) == Code(k) && Lex([k] + b) == items + Lex(b)
    ensures items == [Code(k)]
  {
    LexStep([k], b);
    assert |items| == 1;
    assert items[0] == (items + Lex(b))[0];
  }

  lemma AfterOneCharacter(k: char, b: string)
    requires Scan([k] + b) == Code(k)
    ensures TokenBoundary([k] + b, 1)
  {
    assert TokenBoundary(([k] + b)[1..], 0);
  }

  /** A comment between two touching letters becomes a space. */
  lemma CommentBetweenTouchingTokensShows(k: char, c: string, b: string)
    requires 'a' <= k <= 'd' && b != "" && 'a' <= b[0] <= 'd' && IsCompleteGap(c)
    ensures Normal([k] + (c + b)) != Normal([k] + b)
  {
    LetterIsCode([k] + b);
    LetterIsCode(b);
    AfterOneCharacter(k, b);
    var items := InsertionIsInvisibleExactlyWhen([k], c, b);
    OneItem(k, b, items);
    LexStartsWithScan(b);
  }

  lemma LetterIsCode(s: string)
    requires s != "" && 'a' <= s[0] <= 'd'
    ensures Scan(s) == Code(s[0])
  {
  }

  lemma LexStartsWithScan(s: string)
    requires s != ""
    ensures Lex(s) != [] && Lex(s)[0] == Scan(s)
  {
  }

  /** A line comment right after a dash takes the dash in, whatever follows. */
  lemma CommentAfterDashShows(c: string, b: string)
    requires Opens(c, '-', '-') && IsCompleteGap(c) && (b != "" ==> b[0] != '-')
    ensures Normal("-" + (c + b)) != Normal("-" + b)
  {
    AfterOneCharacter('-', b);
    var items := InsertionIsInvisibleExactlyWhen("-", c, b);
    OneItem('-', b, items);
  }
}
