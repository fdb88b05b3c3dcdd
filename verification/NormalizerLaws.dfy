/**
 * What the normal form keeps and what it forgets. The tamper check (README.md:169) relies on
 * these: only comments and spacing are erased, and all of them are.
 */
module NormalizerLaws {
  import opened Options
  import opened Lexer
  import opened NormalForm

  /** What remains of a text after a gap, or after a character or literal. */
  function Residue(t: string, afterGap: bool): seq<Item> {
    TrimAll(Tokens(Lex(t), afterGap))
  }

  function Erased(t: string, afterGap: bool): string {
    Flatten(Residue(t, afterGap))
  }

  lemma ResidueUnfold(t: string, afterGap: bool)
    requires t != ""
    ensures var it := Scan(t); var next := t[|Text(it)|..];
      if it.Gap? then
        var rest := Residue(next, true);
        Residue(t, afterGap) == if afterGap || rest == [] then rest else [Gap(" ")] + rest
      else Residue(t, afterGap) == [TrimOpen(it)] + Residue(next, false)
  {
    var it := Scan(t);
    assert Lex(t)[1..] == Lex(t[|Text(it)|..]);
  }

  lemma FlattenCons(it: Item, rest: seq<Item>)
    ensures Flatten([it] + rest) == Text(it) + Flatten(rest)
  {
    assert ([it] + rest)[1..] == rest;
  }

  lemma LexCons(it: Item, u: string)
    requires Text(it) != "" && Scan(Text(it) + u) == it
    ensures Lex(Text(it) + u) == [it] + Lex(u)
  {
    assert (Text(it) + u)[|Text(it)|..] == u;
  }

  lemma OpeningMark(t: string)
    requires t != "" && Scan(t).Lit?
    ensures Opens(t, 'E', '\'') || Opens(t, 'e', '\'') || t[0] == '\'' || t[0] == '"' || t[0] == '$'
  {
  }

  // ---- Unterminated literals ----

  ghost predicate AllSpace(w: string) {
    forall k :: 0 <= k < |w| ==> IsSpace(w[k])
  }

  lemma {:induction false} EscapeOpen(b: string, w: string)
    requires !EscapeLength(b + w).1
    ensures EscapeLength(b) == (|b|, false)
  {
    if b != "" {
      if b[0] == '\\' && |b| > 1 {
        assert (b + w)[2..] == b[2..] + w;
        EscapeOpen(b[2..], w);
      } else if b[0] == '\\' {
        assert b[1..] == "";
      } else {
        assert (b + w)[1..] == b[1..] + w;
        EscapeOpen(b[1..], w);
      }
    }
  }

  lemma {:induction false} QuoteOpen(b: string, w: string, quote: char)
    requires AllSpace(w) && !IsSpace(quote)
    requires !QuoteLength(b + w, quote).1
    ensures QuoteLength(b, quote) == (|b|, false)
  {
    if b != "" {
      if b[0] == quote {
        assert (b + w)[1..] == b[1..] + w;
        assert (b + w)[2..] == b[2..] + w;
        QuoteOpen(b[2..], w, quote);
      } else {
        assert (b + w)[1..] == b[1..] + w;
        QuoteOpen(b[1..], w, quote);
      }
    }
  }

  lemma {:induction false} FindOpen(b: string, w: string, p: string)
    requires p != "" && Find(b + w, p) == None
    ensures Find(b, p) == None
  {
    assert |b| >= |p| ==> (b + w)[..|p|] == b[..|p|];
    if b != "" {
      assert (b + w)[1..] == b[1..] + w;
      FindOpen(b[1..], w, p);
    }
  }

  lemma TrimKeeps(s: string, k: nat)
    requires k < |s| && !IsSpace(s[k])
    ensures k < |TrimEnd(s)| && TrimEnd(s)[k] == s[k]
  {
  }

  lemma TrimSplits(s: string) returns (w: string)
    ensures s == TrimEnd(s) + w && AllSpace(w)
  {
    w := s[|TrimEnd(s)|..];
  }

  lemma MarkIsKept(s: string, mark: string, body: string) returns (b: string, w: string)
    requires mark != "" && !IsSpace(mark[|mark| - 1]) && s == mark + body
    ensures TrimEnd(s) == mark + b && body == b + w && AllSpace(w)
  {
    assert s[|mark| - 1] == mark[|mark| - 1];
    TrimKeeps(s, |mark| - 1);
    w := TrimSplits(s);
    var p := TrimEnd(s);
    b := p[|mark|..];
    assert p[..|mark|] == s[..|mark|] == mark;
    assert p == mark + b && s == mark + (b + w);
    SameRest(mark, body, b + w);
  }

  lemma OpenBody(tag: string, body: string)
    requires tag != "" && StartsWith(tag + body, tag)
    ensures ScanDollar(tag + body, tag) == Lit(tag + body, false) <==> Find(body, tag) == None
  {
    assert (tag + body)[|tag|..] == body;
  }

  lemma DollarStaysOpen(s: string)
    requires s != "" && s[0] == '$' && Scan(s).Lit? && !Scan(s).closed
    ensures TrimEnd(s) != "" && Scan(TrimEnd(s)) == Lit(TrimEnd(s), false)
  {
    var tag, body := TagParts(s);
    assert tag[|tag| - 1] == tag[1..][|tag| - 2] == '$';
    var b, w := MarkIsKept(s, tag, body);
    OpenBody(tag, body);
    FindOpen(b, w, tag);
    TagOpens(tag, b);
    OpenBody(tag, b);
  }

  lemma EscapeOpenScan(e: char, b: string)
    requires e == 'E' || e == 'e'
    ensures Scan([e, '\''] + b) == Lit([e, '\''] + b, false) <==> !EscapeLength(b).1
  {
    assert ([e, '\''] + b)[2..] == b;
  }

  lemma EscapeStaysOpen(e: char, body: string)
    requires e == 'E' || e == 'e'
    requires Scan([e, '\''] + body) == Lit([e, '\''] + body, false)
    ensures var p := TrimEnd([e, '\''] + body); p != "" && Scan(p) == Lit(p, false)
  {
    var b, w := MarkIsKept([e, '\''] + body, [e, '\''], body);
    EscapeOpenScan(e, body);
    EscapeOpen(b, w);
    EscapeOpenScan(e, b);
  }

  lemma QuoteOpenScan(quote: char, b: string)
    requires quote == '\'' || quote == '"'
    ensures Scan([quote] + b) == Lit([quote] + b, false) <==> !QuoteLength(b, quote).1
  {
    assert ([quote] + b)[1..] == b;
  }

  lemma QuoteStaysOpen(quote: char, body: string)
    requires quote == '\'' || quote == '"'
    requires Scan([quote] + body) == Lit([quote] + body, false)
    ensures var p := TrimEnd([quote] + body); p != "" && Scan(p) == Lit(p, false)
  {
    var b, w := MarkIsKept([quote] + body, [quote], body);
    QuoteOpenScan(quote, body);
    QuoteOpen(b, w, quote);
    QuoteOpenScan(quote, b);
  }

  /** Trimming an unterminated literal leaves an unterminated literal of the same kind. */
  lemma StaysOpen(s: string)
    requires s != "" && Scan(s).Lit? && !Scan(s).closed
    ensures TrimEnd(s) != "" && Scan(TrimEnd(s)) == Lit(TrimEnd(s), false)
  {
    OpeningMark(s);
    if Opens(s, 'E', '\'') || Opens(s, 'e', '\'') {
      assert s == [s[0], '\''] + s[2..];
      EscapeStaysOpen(s[0], s[2..]);
    } else if s[0] == '\'' || s[0] == '"' {
      assert s == [s[0]] + s[1..];
      QuoteStaysOpen(s[0], s[1..]);
    } else {
      DollarStaysOpen(s);
    }
  }

  // ---- Erasing does not create new marks ----

  lemma {:induction false} ErasedStart(t: string, afterGap: bool)
    ensures var u := Erased(t, afterGap);
      u != "" ==> (u[0] == ' ' && !afterGap) || !IsSpace(u[0])
    ensures var u := Erased(t, false);
      u != "" ==> u[0] == ' ' || (t != "" && u[0] == t[0])
    decreases |t|
  {
    if t != "" {
      var it := Scan(t);
      ResidueUnfold(t, afterGap);
      ResidueUnfold(t, false);
      if it.Gap? {
        var next := t[|it.text|..];
        ErasedStart(next, true);
        FlattenCons(Gap(" "), Residue(next, true));
      } else {
        OnlyGapsStartWithSpace(t);
        if it.Lit? && !it.closed { StaysOpen(t); }
        FlattenCons(TrimOpen(it), Residue(t[|Text(it)|..], false));
      }
    }
  }

  lemma SecondMark(t: string)
    requires t != "" && Scan(t).Lit? && t[0] != '$' && t[0] != '\'' && t[0] != '"'
    ensures IsTagChar(t[0]) && |Text(TrimOpen(Scan(t)))| > 1 && Text(TrimOpen(Scan(t)))[1] == '\''
  {
    OpeningMark(t);
    if !Scan(t).closed { TrimKeeps(t, 1); }
  }

  lemma ErasedAfterCode(t: string)
    requires t != "" && Scan(t).Code?
    ensures Erased(t, false) == [t[0]] + Erased(t[1..], false)
  {
    ResidueUnfold(t, false);
    FlattenCons(Scan(t), Residue(t[1..], false));
  }

  lemma ErasedLiteralTag(t: string)
    requires t != "" && Scan(t).Lit? && t[0] != '$'
    ensures TagLength(Erased(t, false)) == None
  {
    ResidueUnfold(t, false);
    var it := Scan(t);
    FlattenCons(TrimOpen(it), Residue(t[|it.text|..], false));
    OpeningMark(t);
    if t[0] != '\'' && t[0] != '"' {
      SecondMark(t);
      assert Erased(t, false)[1..][0] == '\'';
    } else if !it.closed {
      TrimKeeps(t, 0);
    }
  }

  lemma {:induction false} ErasedTag(t: string)
    ensures TagLength(Erased(t, false)).Some? ==> TagLength(t).Some?
    decreases |t|
  {
    ErasedStart(t, false);
    if t != "" && t[0] != '$' {
      if Scan(t).Code? {
        ErasedAfterCode(t);
        assert Erased(t, false)[1..] == Erased(t[1..], false);
        ErasedTag(t[1..]);
      } else if Scan(t).Lit? {
        ErasedLiteralTag(t);
      } else {
        ErasedGapTag(t);
      }
    }
  }

  lemma ErasedGapTag(t: string)
    requires t != "" && Scan(t).Gap?
    ensures TagLength(Erased(t, false)) == None
  {
    ResidueUnfold(t, false);
    var next := t[|Text(Scan(t))|..];
    FlattenCons(Gap(" "), Residue(next, true));
  }

  lemma ErasedReplaces(t: string)
    ensures Replaces(Erased(t, false), t)
  {
    ErasedStart(t, false);
    ErasedTag(t);
  }

  // ---- Round trip ----

  lemma ErasedUnfold(t: string, afterGap: bool)
    requires t != ""
    ensures var it := Scan(t); var next := t[|Text(it)|..];
      if it.Gap? then
        Erased(t, afterGap) ==
          if afterGap || Residue(next, true) == [] then Erased(next, true) else Text(Gap(" ")) + Erased(next, true)
      else Erased(t, afterGap) == Text(TrimOpen(it)) + Erased(next, false)
  {
    var it := Scan(t);
    ResidueUnfold(t, afterGap);
    FlattenCons(if it.Gap? then Gap(" ") else TrimOpen(it), Residue(t[|Text(it)|..], it.Gap?));
  }

  lemma ScanErased(it: Item, next: string)
    requires Text(it) != "" && !it.Gap? && Scan(Text(it) + next) == it
    ensures Text(TrimOpen(it)) != ""
    ensures Scan(Text(TrimOpen(it)) + Erased(next, false)) == TrimOpen(it)
  {
    ErasedReplaces(next);
    if it.Code? {
      CodeStable(it.c, next, Erased(next, false));
    } else if it.closed {
      LiteralStable(it.text, next, Erased(next, false));
    } else {
      assert next == "" && it.text + next == it.text;
      StaysOpen(it.text);
      assert TrimEnd(it.text) + "" == TrimEnd(it.text);
    }
  }

  ghost predicate Faithful(t: string, afterGap: bool) {
    Lex(Erased(t, afterGap)) == Residue(t, afterGap)
  }

  lemma SpaceScans(u: string)
    ensures Lex(Text(Gap(" ")) + u) == [Gap(" ")] + Lex(u)
  {
    var s := Text(Gap(" ")) + u;
    assert s[0] == ' ' && s[..1] == " ";
    LexCons(Gap(" "), u);
  }

  lemma FaithfulGap(t: string, afterGap: bool)
    requires t != "" && Scan(t).Gap? && Faithful(t[|Text(Scan(t))|..], true)
    ensures Faithful(t, afterGap)
  {
    var next := t[|Text(Scan(t))|..];
    ResidueUnfold(t, afterGap);
    ErasedUnfold(t, afterGap);
    SpaceScans(Erased(next, true));
  }

  lemma FaithfulItem(t: string, afterGap: bool)
    requires t != "" && !Scan(t).Gap? && Faithful(t[|Text(Scan(t))|..], false)
    ensures Faithful(t, afterGap)
  {
    ResidueUnfold(t, afterGap);
    ErasedUnfold(t, afterGap);
    LexErased(t);
  }

  lemma LexErased(t: string)
    requires t != "" && !Scan(t).Gap?
    ensures var it := Scan(t); var rest := Erased(t[|Text(it)|..], false);
      Lex(Text(TrimOpen(it)) + rest) == [TrimOpen(it)] + Lex(rest)
  {
    var it := Scan(t);
    var next := t[|Text(it)|..];
    assert t == Text(it) + next;
    ScanErased(it, next);
    LexCons(TrimOpen(it), Erased(next, false));
  }

  lemma {:induction false} RoundTrip(t: string, afterGap: bool)
    ensures Faithful(t, afterGap)
    decreases |t|
  {
    if t != "" {
      var it := Scan(t);
      RoundTrip(t[|Text(it)|..], it.Gap?);
      if it.Gap? { FaithfulGap(t, afterGap); } else { FaithfulItem(t, afterGap); }
    }
  }

  /**
   * Lexing the normal form of a text gives the text's own token stream, with the trailing
   * spaces of an unterminated literal removed: nothing else is lost and nothing new appears.
   */
  lemma LexOfNormal(s: string)
    ensures Lex(Normal(s)) == TrimAll(Stream(s))
  {
    RoundTrip(s, true);
  }

  lemma {:induction false} TokensTwice(items: seq<Item>, afterGap: bool, after': bool)
    requires afterGap || !after'
    ensures Tokens(TrimAll(Tokens(items, afterGap)), after') == TrimAll(Tokens(items, afterGap))
  {
    if items != [] {
      if items[0].Gap? {
        TokensTwice(items[1..], true, after');
        TokensTwice(items[1..], true, true);
        var rest := Tokens(items[1..], true);
        assert ([Gap(" ")] + rest)[1..] == rest;
        var r := TrimAll(rest);
        assert ([Gap(" ")] + r)[1..] == r;
      } else {
        TokensTwice(items[1..], false, false);
        var rest := Tokens(items[1..], false);
        assert ([items[0]] + rest)[1..] == rest;
        var r := TrimAll(rest);
        assert ([TrimOpen(items[0])] + r)[1..] == r;
      }
    }
  }

  lemma TrimEndTwice(s: string)
    ensures TrimEnd(TrimEnd(s)) == TrimEnd(s)
  {
  }

  lemma {:induction false} TrimAllTwice(items: seq<Item>)
    ensures TrimAll(TrimAll(items)) == TrimAll(items)
  {
    if items != [] {
      TrimAllTwice(items[1..]);
      if items[0].Lit? { TrimEndTwice(items[0].text); }
      var r := TrimAll(items[1..]);
      assert ([TrimOpen(items[0])] + r)[1..] == r;
    }
  }

  lemma StreamOfNormal(s: string)
    ensures Stream(Normal(s)) == TrimAll(Stream(s))
  {
    LexOfNormal(s);
    TokensTwice(Lex(s), true, true);
  }

  /** Normalising twice changes nothing, for every text, terminated or not. */
  lemma NormalIsIdempotent(s: string)
    ensures Normal(Normal(s)) == Normal(s)
  {
    StreamOfNormal(s);
    TrimAllTwice(Stream(s));
  }

  /** Two texts have the same normal form exactly when they have the same trimmed token stream. */
  lemma NormalFormsCompareStreams(s: string, t: string)
    ensures Normal(s) == Normal(t) <==> TrimAll(Stream(s)) == TrimAll(Stream(t))
  {
    LexOfNormal(s);
    LexOfNormal(t);
  }

  // ---- Unterminated literals: where the token stream is not kept exactly ----

  /** The text ends inside a literal, with a space: the final trim() shortens that literal. */
  predicate EndsInOpenLiteralSpace(s: string) {
    var items := Lex(s);
    items != [] && items[|items| - 1].Lit? && !items[|items| - 1].closed && IsSpace(s[|s| - 1])
  }

  lemma {:induction false} OnlyLastIsOpen(s: string)
    ensures forall k :: 0 <= k < |Lex(s)| - 1 && Lex(s)[k].Lit? ==> Lex(s)[k].closed
    ensures Lex(s) != [] ==> s != "" && Text(Lex(s)[|Lex(s)| - 1]) != ""
    ensures Lex(s) != [] ==> var x := Text(Lex(s)[|Lex(s)| - 1]); x[|x| - 1] == s[|s| - 1]
    decreases |s|
  {
    if s != "" {
      var it := Scan(s);
      var next := s[|Text(it)|..];
      OnlyLastIsOpen(next);
      assert Lex(s) == [it] + Lex(next);
      assert s == Text(it) + next;
    }
  }

  lemma {:induction false} TokensKeepLast(items: seq<Item>, afterGap: bool)
    requires forall k :: 0 <= k < |items| - 1 && items[k].Lit? ==> items[k].closed
    ensures TrimAll(Tokens(items, afterGap)) == Tokens(items, afterGap) <==>
      items == [] || TrimOpen(items[|items| - 1]) == items[|items| - 1]
  {
    if items != [] {
      var gap := items[0].Gap?;
      TokensKeepLast(items[1..], gap);
      var rest := Tokens(items[1..], gap);
      var head := if gap then Gap(" ") else items[0];
      assert ([head] + rest)[1..] == rest;
      TrimAllCons(head, rest);
    }
  }

  lemma TrimAllCons(it: Item, rest: seq<Item>)
    ensures TrimAll([it] + rest) == [TrimOpen(it)] + TrimAll(rest)
  {
    assert ([it] + rest)[1..] == rest;
  }

  /**
   * The normal form has the text's own token stream, literal texts included, exactly when the
   * text does not end in a space inside an unterminated literal.
   */
  lemma StreamIsKept(s: string)
    ensures Stream(Normal(s)) == Stream(s) <==> !EndsInOpenLiteralSpace(s)
  {
    StreamOfNormal(s);
    LastIsTrimmed(s);
    OnlyLastIsOpen(s);
    TokensKeepLast(Lex(s), true);
  }

  lemma LastIsTrimmed(s: string)
    ensures var items := Lex(s);
      items == [] || TrimOpen(items[|items| - 1]) == items[|items| - 1] <==> !EndsInOpenLiteralSpace(s)
  {
    OnlyLastIsOpen(s);
    var items := Lex(s);
    if items != [] && items[|items| - 1].Lit? {
      TrimEndFixed(items[|items| - 1].text);
    }
  }

  lemma TrimEndFixed(text: string)
    ensures TrimEnd(text) == text <==> text == "" || !IsSpace(text[|text| - 1])
  {
  }

  /** Hence, away from such texts, equal normal forms mean equal token streams, and conversely. */
  lemma NormalFormsDecideStreams(s: string, t: string)
    requires !EndsInOpenLiteralSpace(s) && !EndsInOpenLiteralSpace(t)
    ensures Normal(s) == Normal(t) <==> Stream(s) == Stream(t)
  {
    StreamIsKept(s);
    StreamIsKept(t);
  }

  lemma OneOpenLiteral(b: string)
    requires !QuoteLength(b, '\'').1
    ensures Stream("'" + b) == [Lit("'" + b, false)]
  {
    var s := "'" + b;
    QuoteOpenScan('\'', b);
    assert s[|s|..] == "";
    assert s + "" == s;
    LexCons(Lit(s, false), "");
    var items := [Lit(s, false)];
    assert Lex(s) == items;
    assert Tokens(items[1..], false) == [];
    assert Tokens(items, true) == items;
  }

  /** Two unterminated literals that differ, and whose difference the normal form forgets. */
  lemma OpenLiteralsAreConfused()
    ensures Normal("'" + "a ") == Normal("'" + "a") && Stream("'" + "a ") != Stream("'" + "a")
  {
    assert !QuoteLength("a", '\'').1;
    assert "a "[1..] == " " && !QuoteLength(" ", '\'').1;
    OneOpenLiteral("a ");
    OneOpenLiteral("a");
    var long, short := "'" + "a ", "'" + "a";
    assert long[..2] == short && long[2] == ' ';
    assert TrimEnd(short) == short;
    assert TrimEnd(long) == TrimEnd(long[..2]);
  }
}
