/**
 * Comments and spacing may be added without changing the normal form (README.md:169,
 * src/checksum.ts:26-48, 124-128).
 */
module CommentLaws {
  import opened Lexer
  import opened NormalForm

  /** One whitespace character, a line comment with its newline, or a closed block comment. */
  predicate IsCompleteGap(g: string) {
    || (|g| == 1 && IsSpace(g[0]))
    || (Opens(g, '-', '-') && IsLine(g[2..]))
    || (Opens(g, '/', '*') && IsBlock(g[2..], 1))
  }

  predicate IsLine(b: string) {
    b != "" && b[|b| - 1] == '\n' && LineLength(b) == |b|
  }

  predicate IsBlock(b: string, depth: nat) {
    BlockCloses(b, depth) && BlockLength(b, depth) == |b|
  }

  lemma {:induction false} LineStable(b: string, y: string)
    requires IsLine(b)
    ensures LineLength(b + y) == |b|
  {
    if b[0] != '\n' {
      assert (b + y)[1..] == b[1..] + y;
      LineStable(b[1..], y);
    } else {
      assert |b| == 1;
    }
  }

  lemma {:induction false} BlockStable(b: string, depth: nat, y: string)
    requires IsBlock(b, depth)
    ensures BlockLength(b + y, depth) == |b|
  {
    if depth > 0 {
      if Opens(b, '/', '*') {
        assert (b + y)[2..] == b[2..] + y;
        BlockStable(b[2..], depth + 1, y);
      } else if Opens(b, '*', '/') {
        assert (b + y)[2..] == b[2..] + y;
        BlockStable(b[2..], depth - 1, y);
      } else {
        assert b != "" && BlockCloses(b[1..], depth);
        assert b[1..] != "";
        assert (b + y)[1..] == b[1..] + y;
        BlockStable(b[1..], depth, y);
      }
    }
  }

  /** A complete gap is scanned as such whatever follows it. */
  lemma GapStable(g: string, y: string)
    requires IsCompleteGap(g)
    ensures Scan(g + y) == Gap(g)
  {
    assert (g + y)[..|g|] == g;
    if |g| >= 2 {
      assert (g + y)[2..] == g[2..] + y;
      if Opens(g, '-', '-') { LineGapStable(g, y); } else { BlockGapStable(g, y); }
    }
  }

  lemma LineGapStable(g: string, y: string)
    requires Opens(g, '-', '-') && IsLine(g[2..]) && (g + y)[2..] == g[2..] + y && (g + y)[..|g|] == g
    ensures Scan(g + y) == Gap(g)
  {
    LineStable(g[2..], y);
  }

  lemma BlockGapStable(g: string, y: string)
    requires Opens(g, '/', '*') && IsBlock(g[2..], 1) && (g + y)[2..] == g[2..] + y && (g + y)[..|g|] == g
    ensures Scan(g + y) == Gap(g)
  {
    BlockStable(g[2..], 1, y);
  }

  lemma {:induction false} LinePrefix(s: string)
    requires LineLength(s) < |s|
    ensures IsLine(s[..LineLength(s)])
  {
    var n := LineLength(s);
    if s[0] != '\n' {
      LinePrefix(s[1..]);
      assert s[..n][1..] == s[1..][..n - 1];
    }
  }

  lemma {:induction false} BlockPrefix(s: string, depth: nat)
    requires BlockLength(s, depth) < |s|
    ensures IsBlock(s[..BlockLength(s, depth)], depth)
  {
    var n := BlockLength(s, depth);
    if depth > 0 {
      if Opens(s, '/', '*') {
        BlockPrefix(s[2..], depth + 1);
        assert s[..n][2..] == s[2..][..n - 2];
      } else if Opens(s, '*', '/') {
        BlockPrefix(s[2..], depth - 1);
        assert s[..n][2..] == s[2..][..n - 2];
      } else {
        BlockPrefix(s[1..], depth);
        assert s[..n][1..] == s[1..][..n - 1];
      }
    }
  }

  /** Every gap that does not run to the end of the text is complete. */
  lemma InnerGapIsComplete(s: string)
    requires s != "" && Scan(s).Gap? && |Scan(s).text| < |s|
    ensures IsCompleteGap(Scan(s).text)
  {
    var g := Scan(s).text;
    if Opens(s, '-', '-') {
      LinePrefix(s[2..]);
      assert g[2..] == s[2..][..|g| - 2];
    } else if Opens(s, '/', '*') {
      BlockPrefix(s[2..], 1);
      assert g[2..] == s[2..][..|g| - 2];
    }
  }

  lemma GapStart(g: string)
    requires IsCompleteGap(g)
    ensures g != "" && !IsTagChar(g[0]) && g[0] != '$'
  {
  }

  lemma {:induction false} TagStops(q: string, y: string, z: string)
    requires y != "" && !IsTagChar(y[0]) && y[0] != '$'
    requires z != "" && !IsTagChar(z[0]) && z[0] != '$'
    ensures TagLength(q + y) == TagLength(q + z)
  {
    if q == "" {
      assert q + y == y && q + z == z;
    } else {
      assert (q + y)[1..] == q[1..] + y && (q + z)[1..] == q[1..] + z;
      TagStops(q[1..], y, z);
    }
  }

  lemma SameAfterGap(q: string, g: string, b: string, x: string)
    requires IsCompleteGap(g)
    ensures Replaces(q + (g + x), q + (g + b))
  {
    GapStart(g);
    TagStops(q, g + b, g + x);
  }

  /** An item that ends before a gap does not depend on what follows the gap. */
  lemma ItemBeforeGap(text: string, q: string, g: string, b: string, x: string)
    requires IsCompleteGap(g) && text != ""
    requires Text(Scan(text + (q + (g + b)))) == text
    ensures Scan(text + (q + (g + x))) == Scan(text + (q + (g + b)))
  {
    var t, u := q + (g + b), q + (g + x);
    var it := Scan(text + t);
    assert |g| > 0;
    SameAfterGap(q, g, b, x);
    match it {
      case Code(c) => CodeStable(c, t, u);
      case Lit(_, _) => LiteralStable(text, t, u);
      case Gap(_) =>
        InnerGapIsComplete(text + t);
        GapStable(text, u);
    }
  }

  /** k is the end of an item of s, or its start. */
  predicate TokenBoundary(s: string, k: nat)
    decreases |s|
  {
    k == 0 || (s != "" && |Text(Scan(s))| <= k && TokenBoundary(s[|Text(Scan(s))|..], k - |Text(Scan(s))|))
  }

  lemma LexStep(text: string, rest: string)
    requires text != "" && Text(Scan(text + rest)) == text
    ensures Lex(text + rest) == [Scan(text + rest)] + Lex(rest)
  {
    assert (text + rest)[|text|..] == rest;
  }

  lemma SplitFirst(q: string, t: string, text: string)
    requires q != "" && text != "" && text <= q + t && |text| <= |q|
    ensures q == text + q[|text|..] && q + t == text + (q[|text|..] + t)
    ensures (q + t)[|text|..] == q[|text|..] + t
  {
    assert text == (q + t)[..|text|] == q[..|text|];
  }

  lemma BoundaryStep(q: string, t: string) returns (text: string, q': string)
    requires q != "" && TokenBoundary(q + t, |q|)
    ensures text != "" && q == text + q' && Text(Scan(text + (q' + t))) == text
    ensures q + t == text + (q' + t) && TokenBoundary(q' + t, |q'|)
  {
    text := Text(Scan(q + t));
    q' := q[|text|..];
    SplitFirst(q, t, text);
  }

  /** What precedes a gap is lexed independently of what follows it. */
  lemma {:induction false} LexBeforeGap(q: string, g: string, b: string, x: string) returns (items: seq<Item>)
    requires IsCompleteGap(g) && TokenBoundary(q + (g + b), |q|)
    ensures Lex(q + (g + b)) == items + Lex(g + b)
    ensures Lex(q + (g + x)) == items + Lex(g + x)
    decreases |q|
  {
    if q == "" {
      items := [];
      assert q + (g + b) == g + b && q + (g + x) == g + x;
    } else {
      var text, q' := BoundaryStep(q, g + b);
      var rest := LexBeforeGap(q', g, b, x);
      items := PrependBoth(text, q', g, b, x, rest);
      Associate(text, q', g + x);
    }
  }

  lemma PrependItem(text: string, t: string, rest: seq<Item>, tail: string) returns (items: seq<Item>)
    requires text != "" && Text(Scan(text + t)) == text && Lex(t) == rest + Lex(tail)
    ensures items == [Scan(text + t)] + rest && Lex(text + t) == items + Lex(tail)
  {
    LexStep(text, t);
    items := [Scan(text + t)] + rest;
    assert [Scan(text + t)] + (rest + Lex(tail)) == items + Lex(tail);
  }

  lemma PrependBoth(text: string, q: string, g: string, b: string, x: string, rest: seq<Item>)
      returns (items: seq<Item>)
    requires IsCompleteGap(g) && text != "" && Text(Scan(text + (q + (g + b)))) == text
    requires Lex(q + (g + b)) == rest + Lex(g + b) && Lex(q + (g + x)) == rest + Lex(g + x)
    ensures Lex(text + (q + (g + b))) == items + Lex(g + b)
    ensures Lex(text + (q + (g + x))) == items + Lex(g + x)
  {
    ItemBeforeGap(text, q, g, b, x);
    items := PrependItem(text, q + (g + b), rest, g + b);
    var same := PrependItem(text, q + (g + x), rest, g + x);
  }

  /** Spacing and comments, one after the other. */
  function Join(gs: seq<string>): string {
    if gs == [] then "" else gs[0] + Join(gs[1..])
  }

  function Gaps(gs: seq<string>): seq<Item> {
    if gs == [] then [] else [Gap(gs[0])] + Gaps(gs[1..])
  }

  predicate IsFiller(gs: seq<string>) {
    forall g | g in gs :: IsCompleteGap(g)
  }

  lemma {:induction false} LexFiller(gs: seq<string>, b: string)
    requires IsFiller(gs)
    ensures Lex(Join(gs) + b) == Gaps(gs) + Lex(b)
  {
    if gs == [] {
      assert Join(gs) + b == b;
    } else {
      LexFiller(gs[1..], b);
      LexOneMore(gs[0], Join(gs[1..]), b, Gaps(gs[1..]));
    }
  }

  lemma LexOneMore(g: string, w: string, b: string, gaps: seq<Item>)
    requires IsCompleteGap(g) && Lex(w + b) == gaps + Lex(b)
    ensures Lex((g + w) + b) == ([Gap(g)] + gaps) + Lex(b)
  {
    Associate(g, w, b);
    LexGap(g, w + b);
    Associate([Gap(g)], gaps, Lex(b));
  }

  lemma LexGap(g: string, rest: string)
    requires IsCompleteGap(g)
    ensures Lex(g + rest) == [Gap(g)] + Lex(rest)
  {
    GapStable(g, rest);
    LexStep(g, rest);
  }

  lemma GapVanishes(g: string, rest: seq<Item>)
    ensures Tokens([Gap(g)] + rest, true) == Tokens(rest, true)
  {
    assert ([Gap(g)] + rest)[1..] == rest;
  }

  lemma {:induction false} GapsVanish(gs: seq<string>, rest: seq<Item>)
    ensures Tokens(Gaps(gs) + rest, true) == Tokens(rest, true)
  {
    if gs == [] {
      assert Gaps(gs) + rest == rest;
    } else {
      GapsVanish(gs[1..], rest);
      GapVanishes(gs[0], Gaps(gs[1..]) + rest);
      assert Gaps(gs) + rest == [Gap(gs[0])] + (Gaps(gs[1..]) + rest);
    }
  }

  lemma {:induction false} GapsAbsorbed(items: seq<Item>, g: string, gs: seq<string>, rest: seq<Item>, afterGap: bool)
    ensures Tokens(items + ([Gap(g)] + (Gaps(gs) + rest)), afterGap) == Tokens(items + ([Gap(g)] + rest), afterGap)
  {
    var long, short := [Gap(g)] + (Gaps(gs) + rest), [Gap(g)] + rest;
    if items == [] {
      GapsVanish(gs, rest);
      assert items + long == long && items + short == short;
      assert long[1..] == Gaps(gs) + rest && short[1..] == rest;
    } else {
      assert (items + long)[1..] == items[1..] + long && (items + short)[1..] == items[1..] + short;
      GapsAbsorbed(items[1..], g, gs, rest, items[0].Gap?);
    }
  }

  /**
   * Any amount of spacing, closed block comments and newline-ended line comments may be inserted
   * just after a space or complete comment that stands between tokens.
   */
  lemma InsertFiller(q: string, g: string, gs: seq<string>, b: string)
    requires IsCompleteGap(g) && IsFiller(gs)
    requires TokenBoundary(q + (g + b), |q|)
    ensures Normal(q + (g + (Join(gs) + b))) == Normal(q + (g + b))
  {
    var x := Join(gs) + b;
    var items := LexBeforeGap(q, g, b, x);
    GapStable(g, b);
    GapStable(g, x);
    LexStep(g, b);
    LexStep(g, x);
    LexFiller(gs, b);
    GapsAbsorbed(items, g, gs, Lex(b), true);
  }

  /** The same at the very start of the file. */
  lemma LeadingFiller(gs: seq<string>, b: string)
    requires IsFiller(gs)
    ensures Normal(Join(gs) + b) == Normal(b)
  {
    LexFiller(gs, b);
    GapsVanish(gs, Lex(b));
  }

  // ---- Arbitrarily nested block comments are complete ----

  datatype Part = Words(text: string) | Nested(parts: seq<Part>)

  /** Text between the marks of a comment: it contains no mark and joins with none. */
  predicate PlainWords(w: string) {
    if w == "" then true
    else if |w| == 1 then w[0] != '/' && w[0] != '*'
    else !Opens(w, '/', '*') && !Opens(w, '*', '/') && PlainWords(w[1..])
  }

  predicate WellNested(parts: seq<Part>) {
    parts != [] ==> WellNested(parts[1..]) && match parts[0]
      case Words(w) => PlainWords(w)
      case Nested(inner) => WellNested(inner)
  }

  function Body(parts: seq<Part>): string
    decreases parts, 0
  {
    if parts == [] then ""
    else (match parts[0]
      case Words(w) => w
      case Nested(inner) => BlockComment(inner)) + Body(parts[1..])
  }

  function BlockComment(parts: seq<Part>): string
    decreases parts, 1
  {
    "/*" + Body(parts) + "*/"
  }

  ghost predicate Skips(x: string, y: string, depth: nat) {
    && BlockCloses(x + y, depth) == BlockCloses(y, depth)
    && BlockLength(x + y, depth) == |x| + BlockLength(y, depth)
  }

  lemma {:induction false} SkipWords(w: string, y: string, depth: nat)
    requires PlainWords(w) && depth > 0
    ensures Skips(w, y, depth)
  {
    if w == "" {
      assert w + y == y;
    } else {
      assert (w + y)[1..] == w[1..] + y;
      SkipWords(w[1..], y, depth);
    }
  }

  lemma OpenAndClose(y: string, depth: nat)
    requires depth > 0
    ensures BlockCloses("/*" + y, depth) == BlockCloses(y, depth + 1)
    ensures BlockLength("/*" + y, depth) == 2 + BlockLength(y, depth + 1)
    ensures BlockCloses("*/" + y, depth) == BlockCloses(y, depth - 1)
    ensures BlockLength("*/" + y, depth) == 2 + BlockLength(y, depth - 1)
  {
    assert ("/*" + y)[2..] == y && ("*/" + y)[2..] == y;
  }

  lemma SkipBoth(x: string, z: string, y: string, depth: nat)
    requires Skips(x, z + y, depth) && Skips(z, y, depth)
    ensures Skips(x + z, y, depth)
  {
    assert (x + z) + y == x + (z + y);
  }

  lemma {:induction false} SkipBody(parts: seq<Part>, y: string, depth: nat)
    requires WellNested(parts) && depth > 0
    ensures Skips(Body(parts), y, depth)
    decreases parts, 0
  {
    if parts == [] {
      assert Body(parts) + y == y;
    } else {
      var rest := Body(parts[1..]);
      SkipBody(parts[1..], y, depth);
      match parts[0] {
        case Words(w) =>
          SkipWords(w, rest + y, depth);
          SkipBoth(w, rest, y, depth);
        case Nested(inner) =>
          SkipComment(inner, rest + y, depth);
          SkipBoth(BlockComment(inner), rest, y, depth);
      }
    }
  }

  lemma SkipMarks(body: string, y: string, depth: nat)
    requires depth > 0 && Skips(body, "*/" + y, depth + 1)
    ensures Skips("/*" + body + "*/", y, depth)
  {
    assert ("/*" + body + "*/") + y == "/*" + (body + ("*/" + y));
    OpenAndClose(body + ("*/" + y), depth);
    OpenAndClose(y, depth + 1);
  }

  lemma {:induction false} SkipComment(parts: seq<Part>, y: string, depth: nat)
    requires WellNested(parts) && depth > 0
    ensures Skips(BlockComment(parts), y, depth)
    decreases parts, 1
  {
    SkipBody(parts, "*/" + y, depth + 1);
    SkipMarks(Body(parts), y, depth);
  }

  /** Comments nested to any depth are complete, so they may be inserted anywhere a space stands. */
  lemma BlockCommentIsComplete(parts: seq<Part>)
    requires WellNested(parts)
    ensures IsCompleteGap(BlockComment(parts))
  {
    var body := Body(parts);
    assert BlockComment(parts)[2..] == body + ("*/" + "");
    SkipBody(parts, "*/" + "", 1);
    OpenAndClose("", 1);
  }

  lemma {:induction false} LineCommentIsComplete(text: string)
    requires '\n' !in text
    ensures IsCompleteGap("--" + text + "\n")
  {
    assert ("--" + text + "\n")[2..] == text + "\n";
    LineEnds(text);
  }

  lemma {:induction false} LineEnds(text: string)
    requires '\n' !in text
    ensures IsLine(text + "\n")
  {
    if text != "" {
      assert (text + "\n")[1..] == text[1..] + "\n";
      LineEnds(text[1..]);
    }
  }
}
