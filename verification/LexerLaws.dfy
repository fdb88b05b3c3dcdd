/**
 * What the lexer takes for a literal, a comment or spacing (src/checksum.ts:22-133), said by how
 * such texts are written rather than by how they are scanned, and what the normal form does to
 * texts written in these ways.
 */
module LexerLaws {
  import opened Options
  import opened Lexer
  import opened NormalForm
  import opened NormalizerLaws
  import opened CommentLaws
  import opened CommentInsertion

  // ---- E'...': a backslash escapes the next character ----

  datatype Unit = Plain(c: char) | Escape(c: char)

  function Print(us: seq<Unit>): string {
    if us == [] then ""
    else (match us[0] case Plain(c) => [c] case Escape(c) => ['\\', c]) + Print(us[1..])
  }

  /** Quotes and backslashes are written with a backslash before them. */
  predicate WellEscaped(us: seq<Unit>) {
    forall u | u in us :: u.Plain? ==> u.c != '\'' && u.c != '\\'
  }

  lemma {:induction false} UnitsEnd(us: seq<Unit>, t: string)
    requires WellEscaped(us)
    ensures EscapeLength(Print(us) + ("'" + t)) == (|Print(us)| + 1, true)
  {
    if us == [] {
      assert "" + ("'" + t) == "'" + t;
    } else {
      assert us == [us[0]] + us[1..];
      UnitsEnd(us[1..], t);
      UnitFirst(us[0], Print(us[1..]) + ("'" + t));
      var first := Print([us[0]]);
      PrintFirst(us);
      Associate(first, Print(us[1..]), "'" + t);
    }
  }

  lemma PrintFirst(us: seq<Unit>)
    requires us != []
    ensures Print(us) == Print([us[0]]) + Print(us[1..])
  {
    var first := match us[0] case Plain(c) => [c] case Escape(c) => ['\\', c];
    assert [us[0]][1..] == [] && first + "" == first;
  }

  lemma UnitFirst(u: Unit, rest: string)
    requires rest != "" && (u.Plain? ==> u.c != '\'' && u.c != '\\')
    ensures var r := EscapeLength(rest); EscapeLength(Print([u]) + rest) == (|Print([u])| + r.0, r.1)
  {
    assert [u][1..] == [];
    match u
    case Plain(c) =>
      assert Print([u]) == [c] + "" == [c];
      assert ([c] + rest)[1..] == rest;
    case Escape(c) =>
      assert Print([u]) == ['\\', c] + "" == ['\\', c];
      assert (['\\', c] + rest)[2..] == rest;
  }

  /** Units between E' and ' are one closed literal, whatever follows. */
  lemma EscapeLiteralIsOneToken(e: char, us: seq<Unit>, t: string)
    requires (e == 'E' || e == 'e') && WellEscaped(us)
    ensures var lit := [e, '\''] + (Print(us) + "'"); Scan(lit + t) == Lit(lit, true)
  {
    UnitsEnd(us, t);
    Associate(Print(us), "'", t);
    EscapeLiteral(e, Print(us) + "'", t);
  }

  /** Every closed literal that opens with E' is written in units. */
  lemma {:induction false} ClosedHasUnits(s: string) returns (us: seq<Unit>)
    requires EscapeLength(s).1
    ensures WellEscaped(us) && s[..EscapeLength(s).0] == Print(us) + "'"
  {
    var n := EscapeLength(s).0;
    if s[0] == '\\' && |s| > 1 {
      var rest := ClosedHasUnits(s[2..]);
      us := [Escape(s[1])] + rest;
      UnitAhead(Escape(s[1]), rest);
      assert s[..n] == [s[0], s[1]] + s[2..][..n - 2];
      Associate(['\\', s[1]], Print(rest), "'");
    } else if s[0] == '\'' {
      us := [];
      assert s[..1] == "" + "'";
    } else {
      EscapeNeedsMore(s);
      var rest := ClosedHasUnits(s[1..]);
      us := [Plain(s[0])] + rest;
      UnitAhead(Plain(s[0]), rest);
      assert s[..n] == [s[0]] + s[1..][..n - 1];
      Associate([s[0]], Print(rest), "'");
    }
  }

  /** A backslash with nothing behind it closes nothing. */
  lemma EscapeNeedsMore(s: string)
    requires EscapeLength(s).1 && !(s[0] == '\\' && |s| > 1)
    ensures s[0] != '\\'
  {
    assert |s| == 1 ==> s[1..] == "";
  }

  lemma UnitAhead(u: Unit, us: seq<Unit>)
    ensures Print([u] + us) == (match u case Plain(c) => [c] case Escape(c) => ['\\', c]) + Print(us)
  {
    assert ([u] + us)[1..] == us;
  }

  /** A text opens a closed E'...' literal exactly when units and a quote follow its mark. */
  lemma EscapeClosesExactlyWhen(e: char, s: string)
    requires e == 'E' || e == 'e'
    ensures Scan([e, '\''] + s).Lit?
    ensures Scan([e, '\''] + s).closed <==> exists us, t :: WellEscaped(us) && s == (Print(us) + "'") + t
  {
    EscapeOpens(e, s);
    if EscapeLength(s).1 {
      var us := ClosedHasUnits(s);
      var n := EscapeLength(s).0;
      assert s == s[..n] + s[n..] == (Print(us) + "'") + s[n..];
    }
    forall us, t | WellEscaped(us) && s == (Print(us) + "'") + t ensures EscapeLength(s).1 {
      UnitsEnd(us, t);
      Associate(Print(us), "'", t);
    }
  }

  lemma EscapeOpens(e: char, s: string)
    requires e == 'E' || e == 'e'
    ensures Scan([e, '\''] + s).Lit? && Scan([e, '\''] + s).closed == EscapeLength(s).1
  {
    assert ([e, '\''] + s)[2..] == s;
  }

  /** A backslash before each quote and backslash of a value. */
  function Escaped(v: string): string {
    if v == "" then ""
    else (if v[0] == '\'' || v[0] == '\\' then ['\\', v[0]] else [v[0]]) + Escaped(v[1..])
  }

  function UnitsOf(v: string): (us: seq<Unit>)
    ensures WellEscaped(us)
  {
    if v == "" then []
    else [if v[0] == '\'' || v[0] == '\\' then Escape(v[0]) else Plain(v[0])] + UnitsOf(v[1..])
  }

  lemma {:induction false} EscapedIsPrinted(v: string)
    ensures Escaped(v) == Print(UnitsOf(v))
  {
    if v != "" {
      EscapedIsPrinted(v[1..]);
      UnitAhead(UnitsOf(v)[0], UnitsOf(v[1..]));
    }
  }

  /** Any value, escaped, is one closed literal, whatever follows. */
  lemma EscapedValueIsOneToken(e: char, v: string, t: string)
    requires e == 'E' || e == 'e'
    ensures var lit := [e, '\''] + (Escaped(v) + "'"); Scan(lit + t) == Lit(lit, true)
  {
    EscapedIsPrinted(v);
    EscapeLiteralIsOneToken(e, UnitsOf(v), t);
  }

  // ---- '...' and "...": a doubled quote does not close ----

  /** Every quote of a value doubled. */
  function Doubled(v: string, quote: char): string {
    if v == "" then "" else (if v[0] == quote then [quote, quote] else [v[0]]) + Doubled(v[1..], quote)
  }

  lemma {:induction false} DoubledEnds(v: string, quote: char, t: string)
    requires t == "" || t[0] != quote
    ensures QuoteLength(Doubled(v, quote) + ([quote] + t), quote) == (|Doubled(v, quote)| + 1, true)
  {
    if v == "" {
      assert "" + ([quote] + t) == [quote] + t;
      assert ([quote] + t)[1..] == t;
    } else {
      DoubledEnds(v[1..], quote, t);
      var first := if v[0] == quote then [quote, quote] else [v[0]];
      QuoteFirst(v[0], quote, Doubled(v[1..], quote) + ([quote] + t));
      Associate(first, Doubled(v[1..], quote), [quote] + t);
    }
  }

  lemma QuoteFirst(c: char, quote: char, rest: string)
    ensures var first := if c == quote then [quote, quote] else [c];
      var r := QuoteLength(rest, quote);
      c != quote || rest != "" ==> QuoteLength(first + rest, quote) == (|first| + r.0, r.1)
  {
    assert ([c] + rest)[1..] == rest;
    assert ([quote, quote] + rest)[2..] == rest;
  }

  /** Any value, its quotes doubled, is one closed literal if no further quote follows. */
  lemma QuotedValueIsOneToken(quote: char, v: string, t: string)
    requires (quote == '\'' || quote == '"') && (t == "" || t[0] != quote)
    ensures var lit := [quote] + (Doubled(v, quote) + [quote]); Scan(lit + t) == Lit(lit, true)
  {
    DoubledEnds(v, quote, t);
    Associate(Doubled(v, quote), [quote], t);
    QuoteLiteral(quote, Doubled(v, quote) + [quote], t);
  }

  lemma {:induction false} ClosedIsDoubled(s: string, quote: char) returns (v: string)
    requires QuoteLength(s, quote).1
    ensures s[..QuoteLength(s, quote).0] == Doubled(v, quote) + [quote]
  {
    var n := QuoteLength(s, quote).0;
    if s[0] == quote && |s| > 1 && s[1] == quote {
      var rest := ClosedIsDoubled(s[2..], quote);
      v := [quote] + rest;
      assert v[1..] == rest && s[..n] == [quote, quote] + s[2..][..n - 2];
      Associate([quote, quote], Doubled(rest, quote), [quote]);
    } else if s[0] == quote {
      v := "";
      assert s[..1] == "" + [quote];
    } else {
      var rest := ClosedIsDoubled(s[1..], quote);
      v := [s[0]] + rest;
      assert v[1..] == rest && s[..n] == [s[0]] + s[1..][..n - 1];
      Associate([s[0]], Doubled(rest, quote), [quote]);
    }
  }

  /** Every closed quoted literal is a value with its quotes doubled. */
  lemma ClosedQuoteIsAValue(quote: char, s: string) returns (v: string)
    requires (quote == '\'' || quote == '"') && Scan([quote] + s).Lit? && Scan([quote] + s).closed
    ensures Scan([quote] + s).text == [quote] + (Doubled(v, quote) + [quote])
  {
    assert ([quote] + s)[1..] == s;
    v := ClosedIsDoubled(s, quote);
    var n := QuoteLength(s, quote).0;
    assert ([quote] + s)[..1 + n] == [quote] + s[..n];
  }

  // ---- $tag$...$tag$ ----

  /** The characters that may stand between the dollars of a tag. */
  predicate IsNameChar(c: char) {
    || ('0' <= c && c <= '9') || c == '_'
    || c in "abcdefghijklmnopqrstuvwxyz" || c in "ABCDEFGHIJKLMNOPQRSTUVWXYZ"
  }

  lemma NameCharIsTagChar(c: char)
    ensures IsTagChar(c) <==> IsNameChar(c)
  {
    var lower, upper := "abcdefghijklmnopqrstuvwxyz", "ABCDEFGHIJKLMNOPQRSTUVWXYZ";
    LetterIn(lower, 'a', c);
    LetterIn(upper, 'A', c);
  }

  /** A text that counts up from a character holds that character and those after it. */
  lemma LetterIn(s: string, first: char, c: char)
    requires forall k :: 0 <= k < |s| ==> s[k] as int == first as int + k
    ensures c in s <==> first as int <= c as int < first as int + |s|
  {
    var k := c as int - first as int;
    if 0 <= k < |s| { assert s[k] as int == c as int; }
  }

  predicate IsName(name: string) {
    forall k :: 0 <= k < |name| ==> IsNameChar(name[k])
  }

  function Tag(name: string): string {
    "$" + name + "$"
  }

  lemma {:induction false} NameLength(name: string, t: string)
    requires IsName(name)
    ensures TagLength(name + ("$" + t)) == Some(|name|)
  {
    if name == "" {
      assert "" + ("$" + t) == "$" + t;
    } else {
      NameCharIsTagChar(name[0]);
      assert name[0] != '$';
      assert (name + ("$" + t))[1..] == name[1..] + ("$" + t);
      NameLength(name[1..], t);
    }
  }

  lemma {:induction false} TagHasName(s: string) returns (name: string, t: string)
    requires TagLength(s).Some?
    ensures IsName(name) && s == name + ("$" + t)
  {
    if s[0] == '$' {
      name, t := "", s[1..];
      assert s == "" + ("$" + t);
    } else {
      NameCharIsTagChar(s[0]);
      var rest;
      rest, t := TagHasName(s[1..]);
      name := [s[0]] + rest;
      assert s == [s[0]] + s[1..];
      Associate([s[0]], rest, "$" + t);
    }
  }

  lemma NameMakesTag(name: string)
    requires IsName(name)
    ensures IsTag(Tag(name))
  {
    NameLength(name, "");
    assert Tag(name)[1..] == name + ("$" + "");
  }

  /** The tag begins at no place of body before the closing one. */
  ghost predicate ClosesAtEnd(tag: string, body: string) {
    forall k :: 0 <= k < |body| ==> !(tag <= (body + tag)[k..])
  }

  lemma {:induction false} FindsFirst(tag: string, body: string, t: string)
    requires tag != "" && ClosesAtEnd(tag, body)
    ensures Find(body + (tag + t), tag) == Some(|body|)
  {
    if body == "" {
      assert "" + (tag + t) == tag + t;
    } else {
      NotYet(tag, body, t);
      assert (body + (tag + t))[1..] == body[1..] + (tag + t);
      forall k | 0 <= k < |body[1..]| ensures !(tag <= (body[1..] + tag)[k..]) {
        assert (body[1..] + tag)[k..] == (body + tag)[k + 1..];
      }
      FindsFirst(tag, body[1..], t);
    }
  }

  lemma NotYet(tag: string, body: string, t: string)
    requires body != "" && ClosesAtEnd(tag, body)
    ensures !StartsWith(body + (tag + t), tag)
  {
    assert (body + tag)[0..] == body + tag;
    assert (body + (tag + t))[..|tag|] == (body + tag)[..|tag|];
    assert (body + tag)[..|tag|] == tag ==> tag <= body + tag;
  }

  /** Whatever stands between two equal tags is one closed literal. */
  lemma TaggedBodyIsOneToken(name: string, body: string, t: string)
    requires IsName(name) && ClosesAtEnd(Tag(name), body)
    ensures var lit := Tag(name) + (body + Tag(name)); Scan(lit + t) == Lit(lit, true)
  {
    var tag := Tag(name);
    NameMakesTag(name);
    FindsFirst(tag, body, t);
    Associate(body, tag, t);
    DollarLiteral(tag, body + tag, t, |body|);
  }

  /** A dollar opens a literal exactly when name characters and a second dollar follow. */
  lemma DollarOpensExactlyWhen(s: string)
    ensures Scan(['$'] + s).Lit? <==> exists name, t :: IsName(name) && s == name + ("$" + t)
    ensures !Scan(['$'] + s).Lit? ==> Scan(['$'] + s) == Code('$')
  {
    DollarScan(s);
    if TagLength(s).Some? {
      var name, t := TagHasName(s);
    }
    forall name, t | IsName(name) && s == name + ("$" + t) ensures TagLength(s).Some? { NameLength(name, t); }
  }

  lemma DollarScan(s: string)
    ensures if TagLength(s).Some? then Scan(['$'] + s).Lit? else Scan(['$'] + s) == Code('$')
  {
    assert (['$'] + s)[1..] == s;
  }

  // ---- Comments and spacing ----

  /** From two dashes through the next newline, or to the end of the text. */
  lemma LineCommentIsOneGap(text: string, t: string)
    requires '\n' !in text
    ensures Scan(("--" + text + "\n") + t) == Gap("--" + text + "\n")
    ensures Scan("--" + text) == Gap("--" + text)
  {
    LineCommentIsComplete(text);
    GapStable("--" + text + "\n", t);
    LineToEnd(text);
    assert ("--" + text)[2..] == text;
  }

  lemma {:induction false} LineToEnd(text: string)
    requires '\n' !in text
    ensures LineLength(text) == |text|
  {
    if text != "" {
      assert text[0] in text;
      assert forall c :: c in text[1..] ==> c in text;
      LineToEnd(text[1..]);
    }
  }

  /** A comment with comments nested in it to any depth, through the mark that closes the first one. */
  lemma BlockCommentIsOneGap(parts: seq<Part>, t: string)
    requires WellNested(parts)
    ensures Scan(BlockComment(parts) + t) == Gap(BlockComment(parts))
  {
    BlockCommentIsComplete(parts);
    GapStable(BlockComment(parts), t);
  }

  ghost predicate NeverCloses(body: string) {
    forall k :: 0 <= k < |body| ==> !Opens(body[k..], '*', '/')
  }

  lemma NeverClosesTail(body: string, n: nat)
    requires NeverCloses(body) && n <= |body|
    ensures NeverCloses(body[n..])
  {
    forall k | 0 <= k < |body[n..]| ensures !Opens(body[n..][k..], '*', '/') {
      assert body[n..][k..] == body[n + k..];
    }
  }

  lemma {:induction false} BlockToEnd(body: string, depth: nat)
    requires NeverCloses(body) && depth > 0
    ensures BlockLength(body, depth) == |body|
    decreases |body|
  {
    if body != "" {
      assert body[0..] == body;
      if Opens(body, '/', '*') {
        NeverClosesTail(body, 2);
        BlockToEnd(body[2..], depth + 1);
      } else {
        NeverClosesTail(body, 1);
        BlockToEnd(body[1..], depth);
      }
    }
  }

  /** A comment that is never closed reaches to the end of the text. */
  lemma OpenCommentIsOneGap(body: string)
    requires NeverCloses(body)
    ensures Scan("/*" + body) == Gap("/*" + body)
  {
    BlockToEnd(body, 1);
    assert ("/*" + body)[2..] == body;
  }

  /** The code points that count as spacing. */
  predicate IsSpacing(c: int) {
    || 9 <= c <= 13 || c == 0x20 || c == 0xA0 || c == 0x1680 || 0x2000 <= c <= 0x200A
    || c == 0x2028 || c == 0x2029 || c == 0x202F || c == 0x205F || c == 0x3000 || c == 0xFEFF
  }

  lemma SpacingIsSpace(c: char)
    ensures IsSpace(c) <==> IsSpacing(c as int)
  {
  }

  /** A character is a gap by itself exactly when it is spacing. */
  lemma SpacingIsOneGap(c: char, t: string)
    ensures Scan([c] + t) == Gap([c]) <==> IsSpacing(c as int)
  {
    SpacingIsSpace(c);
    OneCharacterGap(c, t);
  }

  lemma OneCharacterGap(c: char, t: string)
    ensures Scan([c] + t) == Gap([c]) <==> IsSpace(c)
  {
    var s := [c] + t;
    assert s[..1] == [c];
    if Opens(s, '-', '-') {
      assert |Text(Scan(s))| >= 2;
    } else if Opens(s, '/', '*') {
      assert |Text(Scan(s))| >= 2;
    }
  }

  /** Any other character is code, unless it opens a comment or a literal with what follows it. */
  lemma CodeExactlyWhen(c: char, t: string)
    ensures Scan([c] + t) == Code(c) <==>
      && !IsSpacing(c as int) && c != '\'' && c != '"'
      && !(c == '-' && t != "" && t[0] == '-')
      && !(c == '/' && t != "" && t[0] == '*')
      && !((c == 'E' || c == 'e') && t != "" && t[0] == '\'')
      && !(c == '$' && exists name, u :: IsName(name) && t == name + ("$" + u))
  {
    SpacingIsSpace(c);
    if c == '$' { DollarOpensExactlyWhen(t); } else { PlainCodeExactlyWhen(c, t); }
  }

  lemma PlainCodeExactlyWhen(c: char, t: string)
    requires c != '$'
    ensures Scan([c] + t) == Code(c) <==>
      && !IsSpace(c) && c != '\'' && c != '"'
      && !(c == '-' && t != "" && t[0] == '-')
      && !(c == '/' && t != "" && t[0] == '*')
      && !((c == 'E' || c == 'e') && t != "" && t[0] == '\'')
  {
    var s := [c] + t;
    assert s[0] == c && (t != "" ==> s[1] == t[0]);
  }

  // ---- What the normal form does to such texts ----

  lemma {:induction false} FlattenAppend(x: seq<Item>, y: seq<Item>)
    ensures Flatten(x + y) == Flatten(x) + Flatten(y)
  {
    if x == [] {
      assert x + y == y;
    } else {
      assert (x + y)[1..] == x[1..] + y;
      FlattenAppend(x[1..], y);
      Associate(Text(x[0]), Flatten(x[1..]), Flatten(y));
    }
  }

  /** A closed literal that stands at a token boundary is kept character by character. */
  lemma LiteralSurvives(q: string, lit: string, t: string) returns (before: string)
    requires TokenBoundary(q + (lit + t), |q|) && lit != "" && Scan(lit + t) == Lit(lit, true)
    ensures Normal(q + (lit + t)) == before + (lit + Erased(t, false))
  {
    SpaceIsComplete();
    var items := ItemsBefore(q, " ", lit + t);
    LexStep(lit, t);
    TokensAround(items, Lit(lit, true), Lex(t), true);
    var led := Led(items, true);
    TrimmedAround(led, Lit(lit, true), Tokens(Lex(t), false));
    before := Flatten(TrimAll(led));
    FlattenAppend(TrimAll(led), [Lit(lit, true)] + Residue(t, false));
    FlattenCons(Lit(lit, true), Residue(t, false));
  }

  lemma SpaceIsComplete()
    ensures IsCompleteGap(" ")
  {
  }

  /** An escaped value stays as it is wherever its literal stands between tokens. */
  lemma EscapedValueSurvives(q: string, e: char, v: string, t: string) returns (before: string)
    requires e == 'E' || e == 'e'
    requires TokenBoundary(q + (([e, '\''] + (Escaped(v) + "'")) + t), |q|)
    ensures var lit := [e, '\''] + (Escaped(v) + "'"); Normal(q + (lit + t)) == before + (lit + Erased(t, false))
  {
    EscapedValueIsOneToken(e, v, t);
    before := LiteralSurvives(q, [e, '\''] + (Escaped(v) + "'"), t);
  }

  // ---- Words ----

  ghost predicate IsWord(w: string) {
    w != "" && IsName(w)
  }

  /** The words with the given spacing and comments behind each; between two words there is some. */
  function Written(words: seq<string>, gaps: seq<seq<string>>): string
    requires |gaps| == |words|
  {
    if words == [] then "" else words[0] + (Join(gaps[0]) + Written(words[1..], gaps[1..]))
  }

  /** The words with one space between them. */
  function Joined(words: seq<string>): string {
    if words == [] then "" else if |words| == 1 then words[0] else words[0] + (" " + Joined(words[1..]))
  }

  ghost predicate Separated(words: seq<string>, gaps: seq<seq<string>>) {
    && |gaps| == |words|
    && (forall k :: 0 <= k < |words| ==> IsWord(words[k]) && IsFiller(gaps[k]))
    && (forall k :: 0 <= k < |words| - 1 ==> gaps[k] != [])
  }

  lemma NameCharIsCode(c: char, t: string)
    requires IsNameChar(c) && (t != "" ==> t[0] != '\'')
    ensures Scan([c] + t) == Code(c)
  {
    NameCharIsTagChar(c);
    TagCharIsCode(c, t);
  }

  lemma TagCharIsCode(c: char, t: string)
    requires IsTagChar(c) && (t != "" ==> t[0] != '\'')
    ensures Scan([c] + t) == Code(c)
  {
    TagCharIsPlain(c);
    PlainCodeExactlyWhen(c, t);
  }

  lemma TagCharIsPlain(c: char)
    requires IsTagChar(c)
    ensures !IsSpace(c) && c != '\'' && c != '"' && c != '-' && c != '/' && c != '$'
  {
  }

  /** A word is kept when no quote follows it. */
  lemma {:induction false} WordErased(w: string, t: string, afterGap: bool)
    requires IsWord(w) && (t != "" ==> t[0] != '\'')
    ensures Erased(w + t, afterGap) == w + Erased(t, false)
  {
    if |w| == 1 {
      assert w == [w[0]];
      CodeErased(w[0], t, afterGap);
    } else {
      WordErased(w[1..], t, false);
      NoQuoteAhead(w[1..], t);
      CodeErased(w[0], w[1..] + t, afterGap);
      assert w == [w[0]] + w[1..];
      Associate([w[0]], w[1..], t);
      Associate([w[0]], w[1..], Erased(t, false));
    }
  }

  lemma NoQuoteAhead(w: string, t: string)
    requires IsWord(w)
    ensures (w + t)[0] != '\''
  {
    NameCharIsTagChar(w[0]);
  }

  lemma CodeErased(c: char, t: string, afterGap: bool)
    requires IsNameChar(c) && (t != "" ==> t[0] != '\'')
    ensures Erased([c] + t, afterGap) == [c] + Erased(t, false)
  {
    NameCharIsCode(c, t);
    ErasedUnfold([c] + t, afterGap);
    assert ([c] + t)[1..] == t;
  }

  lemma FillerVanishes(gs: seq<string>, t: string)
    requires IsFiller(gs)
    ensures Erased(Join(gs) + t, true) == Erased(t, true) && Residue(Join(gs) + t, true) == Residue(t, true)
  {
    LexFiller(gs, t);
    GapsVanish(gs, Lex(t));
  }

  /** Spacing and comments become one space, or nothing at the end. */
  lemma FillerErased(gs: seq<string>, t: string)
    requires IsFiller(gs) && gs != []
    ensures Erased(Join(gs) + t, false) == if Residue(t, true) == [] then "" else " " + Erased(t, true)
  {
    var rest := Join(gs[1..]) + t;
    assert gs[0] in gs;
    Associate(gs[0], Join(gs[1..]), t);
    GapStable(gs[0], rest);
    GapErased(gs[0], rest);
    FillerVanishes(gs[1..], t);
    assert Flatten([]) == "";
  }

  lemma GapErased(g: string, t: string)
    requires g != "" && Scan(g + t) == Gap(g)
    ensures Erased(g + t, false) == if Residue(t, true) == [] then Erased(t, true) else " " + Erased(t, true)
  {
    ErasedUnfold(g + t, false);
    assert (g + t)[|g|..] == t;
  }

  lemma FillerStart(gs: seq<string>, t: string)
    requires IsFiller(gs) && gs != []
    ensures var s := Join(gs) + t; s != "" && s[0] != '\''
  {
    assert gs[0] in gs;
    GapOpens(gs[0]);
  }

  lemma WordRemains(w: string, t: string)
    requires IsWord(w) && (t != "" ==> t[0] != '\'')
    ensures Residue(w + t, true) != []
  {
    WordErased(w, t, true);
    assert Residue(w + t, true) == [] ==> Erased(w + t, true) == "";
  }

  lemma {:induction false} WordsErased(words: seq<string>, gaps: seq<seq<string>>)
    requires Separated(words, gaps)
    ensures Erased(Written(words, gaps), true) == Joined(words)
    ensures words != [] ==> Residue(Written(words, gaps), true) != []
  {
    if words != [] {
      var rest := Written(words[1..], gaps[1..]);
      var tail := Join(gaps[0]) + rest;
      assert Separated(words[1..], gaps[1..]);
      WordsErased(words[1..], gaps[1..]);
      if gaps[0] == [] {
        assert |words| == 1 && tail == "" + "";
      } else {
        FillerStart(gaps[0], rest);
        FillerErased(gaps[0], rest);
      }
      WordErased(words[0], tail, true);
      WordRemains(words[0], tail);
      TailOfWords(words, gaps);
    }
  }

  lemma TailOfWords(words: seq<string>, gaps: seq<seq<string>>)
    requires Separated(words, gaps) && words != []
    ensures |words| == 1 ==> Written(words[1..], gaps[1..]) == "" && Residue("", true) == [] && Erased("", false) == ""
  {
  }

  /**
   * Words with any spacing and comments before, between and after them have as normal form the
   * words with one space between each two.
   */
  lemma WordsAreJoined(lead: seq<string>, words: seq<string>, gaps: seq<seq<string>>)
    requires IsFiller(lead) && Separated(words, gaps)
    ensures Normal(Join(lead) + Written(words, gaps)) == Joined(words)
  {
    LeadingFiller(lead, Written(words, gaps));
    WordsErased(words, gaps);
  }
}
