/** The SQL normaliser as the loop it is (src/checksum.ts:16-136), proved to compute the normal form. */
module Checksum {
  import opened Options
  import opened Lexer
  import opened NormalForm
  import opened NormalizerLaws

  /** What the loop pushes for one item. */
  function Pushed(it: Item, lastWasSpace: bool): string {
    if it.Gap? then if lastWasSpace then "" else " " else Text(it)
  }

  /** What the loop pushes from the items still to come. */
  function Emit(items: seq<Item>, lastWasSpace: bool): string {
    if items == [] then ""
    else Pushed(items[0], lastWasSpace) + Emit(items[1..], items[0].Gap?)
  }

  // ---- The inner loops ----

  method SkipLine(content: string, start: nat) returns (i: nat)
    requires start <= |content|
    ensures i == start + LineLength(content[start..]) && i <= |content|
  {
    i := start;
    while i < |content| && content[i] != '\n'
      invariant start <= i <= |content|
      invariant i + LineLength(content[i..]) == start + LineLength(content[start..])
    {
      assert content[i..][1..] == content[i + 1..];
      i := i + 1;
    }
    if i < |content| { i := i + 1; }
  }

  method SkipBlock(content: string, start: nat) returns (i: nat)
    requires start <= |content|
    ensures i == start + BlockLength(content[start..], 1) && i <= |content|
  {
    i := start;
    var depth: nat := 1;
    while i < |content| && depth > 0
      invariant start <= i <= |content|
      invariant i + BlockLength(content[i..], depth) == start + BlockLength(content[start..], 1)
      decreases |content| - i
    {
      assert content[i..][1..] == content[i + 1..];
      if content[i] == '/' && i + 1 < |content| && content[i + 1] == '*' {
        assert content[i..][2..] == content[i + 2..];
        depth := depth + 1; i := i + 2;
      } else if content[i] == '*' && i + 1 < |content| && content[i + 1] == '/' {
        assert content[i..][2..] == content[i + 2..];
        depth := depth - 1; i := i + 2;
      } else {
        i := i + 1;
      }
    }
  }

  /** Pushes the character at i; the output so far is a copy of the text from start. */
  method PushOne(content: string, ghost start: nat, i: nat, ghost out0: string, out: string) returns (r: string)
    requires start <= i < |content| && out == out0 + content[start..i]
    ensures r == out0 + content[start..i + 1]
  {
    r := out + [content[i]];
    assert content[start..i] + [content[i]] == content[start..i + 1];
  }

  method PushTwo(content: string, ghost start: nat, i: nat, ghost out0: string, out: string) returns (r: string)
    requires start <= i && i + 1 < |content| && out == out0 + content[start..i]
    ensures r == out0 + content[start..i + 2]
  {
    r := out + [content[i], content[i + 1]];
    assert content[start..i] + [content[i], content[i + 1]] == content[start..i + 2];
  }

  /** Where the E'...' literal whose rest starts at i ends. */
  ghost function EscapeEnd(content: string, i: nat): (j: nat)
    requires i <= |content|
    ensures j == i + EscapeLength(content[i..]).0 <= |content|
    decreases |content| - i
  {
    if i == |content| then i
    else if content[i] == '\\' && i + 1 < |content| then
      assert content[i..][2..] == content[i + 2..];
      EscapeEnd(content, i + 2)
    else if content[i] == '\'' then i + 1
    else
      assert content[i..][1..] == content[i + 1..];
      EscapeEnd(content, i + 1)
  }

  /** Where the literal in the given quotes whose rest starts at i ends. */
  ghost function QuoteEnd(content: string, i: nat, quote: char): (j: nat)
    requires i <= |content|
    ensures j == i + QuoteLength(content[i..], quote).0 <= |content|
    decreases |content| - i
  {
    if i == |content| then i
    else if content[i] == quote && i + 1 < |content| && content[i + 1] == quote then
      assert content[i..][2..] == content[i + 2..];
      QuoteEnd(content, i + 2, quote)
    else if content[i] == quote then i + 1
    else
      assert content[i..][1..] == content[i + 1..];
      QuoteEnd(content, i + 1, quote)
  }

  method CopyEscape(content: string, start: nat, out0: string) returns (i: nat, out: string)
    requires start <= |content|
    ensures i == EscapeEnd(content, start) && out == out0 + content[start..i]
  {
    i, out := start, out0;
    while i < |content|
      invariant start <= i <= |content|
      invariant EscapeEnd(content, i) == EscapeEnd(content, start)
      invariant out == out0 + content[start..i]
    {
      if content[i] == '\\' && i + 1 < |content| {
        out := PushTwo(content, start, i, out0, out);
        i := i + 2;
      } else if content[i] == '\'' {
        out := PushOne(content, start, i, out0, out);
        i := i + 1;
        break;
      } else {
        out := PushOne(content, start, i, out0, out);
        i := i + 1;
      }
    }
  }

  /** The loops for '...' and "..." are one loop with two quotes (src/checksum.ts:73-82, 90-99). */
  method CopyQuoted(content: string, start: nat, quote: char, out0: string) returns (i: nat, out: string)
    requires start <= |content|
    ensures i == QuoteEnd(content, start, quote) && out == out0 + content[start..i]
  {
    i, out := start, out0;
    while i < |content|
      invariant start <= i <= |content|
      invariant QuoteEnd(content, i, quote) == QuoteEnd(content, start, quote)
      invariant out == out0 + content[start..i]
    {
      if content[i] == quote && i + 1 < |content| && content[i + 1] == quote {
        out := PushTwo(content, start, i, out0, out);
        i := i + 2;
      } else if content[i] == quote {
        out := PushOne(content, start, i, out0, out);
        i := i + 1;
        break;
      } else {
        out := PushOne(content, start, i, out0, out);
        i := i + 1;
      }
    }
  }

  /** Everything up to and with the next occurrence of the tag, or everything (src/checksum.ts:111-118). */
  function UpToTag(body: string, tag: string): string {
    match Find(body, tag)
    case Some(k) => body[..k + |tag|]
    case None => body
  }

  lemma DollarText(tag: string, body: string)
    requires tag != "" && StartsWith(tag + body, tag)
    ensures Text(ScanDollar(tag + body, tag)) == tag + UpToTag(body, tag)
  {
    assert (tag + body)[|tag|..] == body;
    match Find(body, tag) {
      case Some(k) => assert (tag + body)[..|tag| + k + |tag|] == tag + body[..k + |tag|];
      case None =>
    }
  }

  /** The text of the item at i is a slice of the content. */
  lemma TextIsSlice(content: string, i: nat)
    requires i < |content|
    ensures var n := |Text(Scan(content[i..]))|; i + n <= |content| && Text(Scan(content[i..])) == content[i..i + n]
  {
    ItemIsSlice(content, i, Text(Scan(content[i..])));
  }

  lemma ItemIsSlice(content: string, i: nat, text: string)
    requires i <= |content| && text <= content[i..]
    ensures i + |text| <= |content| && text == content[i..i + |text|]
  {
    assert text == content[i..][..|text|];
  }

  // ---- How long the item is, branch by branch ----

  lemma GapItem(s: string)
    requires Opens(s, '-', '-') || Opens(s, '/', '*')
    ensures Scan(s).Gap?
    ensures |Text(Scan(s))| == 2 + if s[0] == '-' then LineLength(s[2..]) else BlockLength(s[2..], 1)
  {
  }

  lemma EscapeItem(s: string)
    requires Opens(s, 'E', '\'') || Opens(s, 'e', '\'')
    ensures Scan(s).Lit? && |Text(Scan(s))| == 2 + EscapeLength(s[2..]).0
  {
  }

  lemma QuoteItem(s: string)
    requires s != "" && (s[0] == '\'' || s[0] == '"')
    ensures Scan(s).Lit? && |Text(Scan(s))| == 1 + QuoteLength(s[1..], s[0]).0
  {
  }

  lemma DollarItem(s: string, k: nat)
    requires s != "" && s[0] == '$' && TagLength(s[1..]) == Some(k)
    ensures Scan(s).Lit? && Text(Scan(s)) == s[..k + 2] + UpToTag(s[k + 2..], s[..k + 2])
  {
    ScanOfDollar(s, k);
    var tag, body := s[..k + 2], s[k + 2..];
    assert s == tag + body;
    DollarText(tag, body);
  }

  lemma ScanOfDollar(s: string, k: nat)
    requires s != "" && s[0] == '$' && TagLength(s[1..]) == Some(k)
    ensures k + 2 <= |s| && Scan(s) == ScanDollar(s, s[..k + 2])
  {
  }

  lemma DollarAt(content: string, i: nat, k: nat)
    requires i < |content| && content[i] == '$' && TagLength(content[i..][1..]) == Some(k)
    ensures i + k + 2 <= |content| && Scan(content[i..]).Lit?
    ensures Text(Scan(content[i..])) == content[i..i + k + 2] + UpToTag(content[i + k + 2..], content[i..i + k + 2])
  {
    DollarItem(content[i..], k);
    assert content[i..][..k + 2] == content[i..i + k + 2];
    assert content[i..][k + 2..] == content[i + k + 2..];
  }

  // ---- The branches of the main loop that have inner loops ----

  method SkipComment(content: string, i0: nat) returns (i: nat)
    requires i0 + 1 < |content|
    requires Opens(content[i0..], '-', '-') || Opens(content[i0..], '/', '*')
    ensures i == i0 + |Text(Scan(content[i0..]))|
  {
    GapItem(content[i0..]);
    assert content[i0..][2..] == content[i0 + 2..];
    if content[i0] == '-' && content[i0 + 1] == '-' {
      i := SkipLine(content, i0 + 2);
    } else {
      i := SkipBlock(content, i0 + 2);
    }
  }

  method EscapeString(content: string, i0: nat, out0: string) returns (i: nat, out: string)
    requires i0 + 1 < |content|
    ensures i == i0 + 2 + EscapeLength(content[i0 + 2..]).0 && i <= |content|
    ensures out == out0 + content[i0..i]
  {
    assert content[i0..i0] == [] && out0 + [] == out0;
    out := PushTwo(content, i0, i0, out0, out0);
    assert content[i0..i0 + 2] == [content[i0], content[i0 + 1]];
    i, out := CopyEscape(content, i0 + 2, out);
    JoinSlices(content, i0, i0 + 2, i, out0);
  }

  method QuotedString(content: string, i0: nat, out0: string) returns (i: nat, out: string)
    requires i0 < |content|
    ensures i == i0 + 1 + QuoteLength(content[i0 + 1..], content[i0]).0 && i <= |content|
    ensures out == out0 + content[i0..i]
  {
    assert content[i0..i0] == [] && out0 + [] == out0;
    out := PushOne(content, i0, i0, out0, out0);
    i, out := CopyQuoted(content, i0 + 1, content[i0], out);
    JoinSlices(content, i0, i0 + 1, i, out0);
  }

  lemma JoinSlices(content: string, i: nat, j: nat, k: nat, out0: string)
    requires i <= j <= k <= |content|
    ensures (out0 + content[i..j]) + content[j..k] == out0 + content[i..k]
  {
    assert content[i..j] + content[j..k] == content[i..k];
  }

  /** A literal that opens with tag at i0 and goes on with body (src/checksum.ts:106-119). */
  method DollarQuoted(tag: string, body: string, i0: nat, out0: string) returns (i: nat, out: string)
    ensures var text := tag + UpToTag(body, tag); i == i0 + |text| && out == out0 + text
  {
    out := out0 + tag;
    i := i0 + |tag|;
    var rest := UpToTag(body, tag);
    PushedTwice(out0, tag, rest);
    out := out + rest;
    i := i + |rest|;
  }

  lemma PushedTwice(out: string, a: string, b: string)
    ensures (out + a) + b == out + (a + b) && |a + b| == |a| + |b|
  {
  }

  /** One round of the main loop (src/checksum.ts:23-132): it consumes one item and pushes its share. */
  method NextItem(content: string, i0: nat, lastWasSpace0: bool, out0: string)
      returns (i: nat, lastWasSpace: bool, out: string, ghost it: Item)
    requires i0 < |content|
    ensures it == Scan(content[i0..]) && i == i0 + |Text(it)| <= |content| && i > i0
    ensures out == out0 + Pushed(it, lastWasSpace0)
    ensures lastWasSpace == it.Gap?
  {
    var ch := content[i0];
    var rest := content[i0..];
    it := Scan(rest);
    TextIsSlice(content, i0);
    if Opens(rest, '-', '-') || Opens(rest, '/', '*') {
      i := SkipComment(content, i0);
      out := if !lastWasSpace0 then out0 + " " else out0;
      lastWasSpace := true;
    } else if Opens(rest, 'E', '\'') || Opens(rest, 'e', '\'') {
      EscapeItem(rest);
      assert rest[2..] == content[i0 + 2..];
      i, out := EscapeString(content, i0, out0);
      lastWasSpace := false;
    } else if ch == '\'' || ch == '"' {
      QuoteItem(rest);
      assert rest[1..] == content[i0 + 1..];
      i, out := QuotedString(content, i0, out0);
      lastWasSpace := false;
    } else if ch == '$' && TagLength(rest[1..]).Some? {
      var k := TagLength(rest[1..]).value;
      DollarAt(content, i0, k);
      i, out := DollarQuoted(content[i0..i0 + k + 2], content[i0 + k + 2..], i0, out0);
      lastWasSpace := false;
    } else if IsSpace(ch) {
      out := if !lastWasSpace0 then out0 + " " else out0;
      i, lastWasSpace := i0 + 1, true;
    } else {
      out := out0 + [ch];
      i, lastWasSpace := i0 + 1, false;
    }
  }

  lemma EmitFirst(t: string, lastWasSpace: bool, it: Item, rest: string)
    requires t != "" && it == Scan(t) && rest == t[|Text(it)|..]
    ensures Emit(Lex(t), lastWasSpace) == Pushed(it, lastWasSpace) + Emit(Lex(rest), it.Gap?)
  {
    assert Lex(t) == [it] + Lex(rest);
    EmitCons(it, Lex(rest), lastWasSpace);
  }

  lemma EmitCons(it: Item, items: seq<Item>, lastWasSpace: bool)
    ensures Emit([it] + items, lastWasSpace) == Pushed(it, lastWasSpace) + Emit(items, it.Gap?)
  {
    assert ([it] + items)[1..] == items;
  }

  lemma Regroup(out0: string, piece: string, out: string, tail: string, whole: string)
    requires out == out0 + piece && whole == piece + tail
    ensures out + tail == out0 + whole
  {
  }

  lemma NothingLeft(content: string, lastWasSpace: bool, out: string)
    ensures content[0..] == content
    ensures out + Emit(Lex(content[|content|..]), lastWasSpace) == out
    ensures "" + Emit(Lex(content), true) == Emit(Lex(content), true)
  {
  }

  method NextPiece(content: string, i0: nat, lastWasSpace0: bool, out0: string)
      returns (i: nat, lastWasSpace: bool, out: string, ghost piece: string)
    requires i0 < |content|
    ensures i0 < i <= |content| && out == out0 + piece
    ensures Emit(Lex(content[i0..]), lastWasSpace0) == piece + Emit(Lex(content[i..]), lastWasSpace)
  {
    ghost var it;
    i, lastWasSpace, out, it := NextItem(content, i0, lastWasSpace0, out0);
    piece := Pushed(it, lastWasSpace0);
    SuffixOfSuffix(content, i0, |Text(it)|);
    EmitFirst(content[i0..], lastWasSpace0, it, content[i..]);
  }

  lemma SuffixOfSuffix<T>(s: seq<T>, i: nat, n: nat)
    requires i + n <= |s|
    ensures s[i..][n..] == s[i + n..]
  {
  }

  /** One round moves its share from what is still to be pushed to what has been pushed. */
  method NextRound(content: string, i0: nat, lastWasSpace0: bool, out0: string)
      returns (i: nat, lastWasSpace: bool, out: string)
    requires i0 < |content|
    ensures i0 < i <= |content|
    ensures out + Emit(Lex(content[i..]), lastWasSpace) == out0 + Emit(Lex(content[i0..]), lastWasSpace0)
  {
    ghost var piece;
    i, lastWasSpace, out, piece := NextPiece(content, i0, lastWasSpace0, out0);
    Regroup(out0, piece, out, Emit(Lex(content[i..]), lastWasSpace), Emit(Lex(content[i0..]), lastWasSpace0));
  }

  /** The scanner returns the normal form of every text. */
  method NormalizeSQL(content: string) returns (r: string)
    ensures r == Normal(content)
  {
    var out := "";
    var i := 0;
    var lastWasSpace := true;
    NothingLeft(content, true, "");
    while i < |content|
      invariant 0 <= i <= |content|
      invariant out + Emit(Lex(content[i..]), lastWasSpace) == Emit(Lex(content), true)
    {
      i, lastWasSpace, out := NextRound(content, i, lastWasSpace, out);
    }
    NothingLeft(content, lastWasSpace, out);
    TrimmedOutput(content);
    r := Trim(out);
  }

  // ---- The final trim() ----

  lemma {:induction false} TrimEndAppend(x: string, y: string)
    ensures TrimEnd(x + y) == if TrimEnd(y) == "" then TrimEnd(x) else x + TrimEnd(y)
  {
    if y == "" {
      assert x + y == x;
    } else if IsSpace(y[|y| - 1]) {
      assert (x + y)[..|x + y| - 1] == x + y[..|y| - 1];
      TrimEndAppend(x, y[..|y| - 1]);
    }
  }

  lemma NothingErasedToNothing(t: string, afterGap: bool)
    ensures Erased(t, afterGap) == "" ==> Residue(t, afterGap) == []
  {
    RoundTrip(t, afterGap);
  }

  lemma EndsIn(s: string, c: char)
    requires s != "" && s[|s| - 1] == c && !IsSpace(c)
    ensures TrimEnd(s) == s
  {
  }

  /** A closed literal ends in its closing quote or tag, never in a space. */
  lemma ClosedEnd(s: string)
    requires s != "" && Scan(s).Lit? && Scan(s).closed
    ensures TrimEnd(Scan(s).text) == Scan(s).text
  {
    OpeningMark(s);
    if Opens(s, 'E', '\'') || Opens(s, 'e', '\'') {
      EscapeEndsInQuote(s);
    } else if s[0] == '\'' || s[0] == '"' {
      QuoteEndsInQuote(s);
    } else {
      DollarEndsInTag(s);
    }
  }

  lemma DollarEndsInTag(s: string)
    requires s != "" && s[0] == '$' && TagLength(s[1..]).Some? && Scan(s).Lit? && Scan(s).closed
    ensures TrimEnd(Scan(s).text) == Scan(s).text
  {
    var tag, body := TagParts(s);
    TaggedEnd(tag, body);
  }

  lemma TaggedEnd(tag: string, body: string)
    requires IsTag(tag) && StartsWith(tag + body, tag) && ScanDollar(tag + body, tag).closed
    ensures var text := ScanDollar(tag + body, tag).text; TrimEnd(text) == text
  {
    var b, rest, m := BodyParts(tag, body);
    DollarEnd(tag, b, rest, m);
    assert (tag + b)[|tag + b| - 1] == b[|b| - 1];
    EndsIn(tag + b, '$');
  }

  lemma EscapeEndsInQuote(s: string)
    requires (Opens(s, 'E', '\'') || Opens(s, 'e', '\'')) && Scan(s).Lit? && Scan(s).closed
    ensures TrimEnd(Scan(s).text) == Scan(s).text
  {
    var n := EscapeLength(s[2..]).0;
    assert s[..2 + n][1 + n] == s[2..][n - 1];
    EndsIn(s[..2 + n], '\'');
  }

  lemma QuoteEndsInQuote(s: string)
    requires s != "" && (s[0] == '\'' || s[0] == '"') && Scan(s).Lit? && Scan(s).closed
    ensures TrimEnd(Scan(s).text) == Scan(s).text
  {
    var n := QuoteLength(s[1..], s[0]).0;
    assert s[..1 + n][n] == s[1..][n - 1];
    EndsIn(s[..1 + n], s[0]);
  }

  lemma {:induction false} DollarEnd(tag: string, b: string, rest: string, m: nat)
    requires IsTag(tag) && |b| == m + |tag| && Find(b + rest, tag) == Some(m)
    ensures b != "" && b[|b| - 1] == '$'
  {
    var found := (b + rest)[m..];
    assert found[..|tag|] == tag && found[|tag| - 1] == b[|b| - 1];
    assert tag[|tag| - 1] == tag[1..][|tag| - 2] == '$';
  }

  lemma TrimmedStep(t: string, last: bool, rest: string)
    requires t != "" && rest == Emit(Lex(t[|Text(Scan(t))|..]), Scan(t).Gap?)
    requires TrimEnd(rest) == Erased(t[|Text(Scan(t))|..], Scan(t).Gap?)
    ensures TrimEnd(Pushed(Scan(t), last) + rest) == Erased(t, last)
  {
    var it := Scan(t);
    PushedEnd(t, last);
    if it.Gap? { TrimmedGap(t, last, rest); } else { TrimmedItem(t, last, rest); }
  }

  lemma TrimmedGap(t: string, last: bool, rest: string)
    requires t != "" && Scan(t).Gap? && TrimEnd(Pushed(Scan(t), last)) == ""
    requires TrimEnd(rest) == Erased(t[|Text(Scan(t))|..], true)
    ensures TrimEnd(Pushed(Scan(t), last) + rest) == Erased(t, last)
  {
    TrimEndAppend(Pushed(Scan(t), last), rest);
    ErasedUnfold(t, last);
    NothingErasedToNothing(t[|Text(Scan(t))|..], true);
  }

  lemma TrimmedItem(t: string, last: bool, rest: string)
    requires t != "" && !Scan(t).Gap? && rest == Emit(Lex(t[|Text(Scan(t))|..]), false)
    requires Scan(t).Code? || Scan(t).closed ==> TrimOpen(Scan(t)) == Scan(t) && TrimEnd(Text(Scan(t))) == Text(Scan(t))
    requires Scan(t).Lit? && !Scan(t).closed ==> t[|Scan(t).text|..] == ""
    requires TrimEnd(rest) == Erased(t[|Text(Scan(t))|..], false)
    ensures TrimEnd(Pushed(Scan(t), last) + rest) == Erased(t, last)
  {
    TrimEndAppend(Text(Scan(t)), rest);
    ErasedUnfold(t, last);
  }

  lemma {:induction false} TrimmedEmit(t: string, last: bool)
    ensures TrimEnd(Emit(Lex(t), last)) == Erased(t, last)
    decreases |t|
  {
    if t != "" {
      var it := Scan(t);
      var next := t[|Text(it)|..];
      EmitFirst(t, last, it, next);
      TrimmedEmit(next, it.Gap?);
      TrimmedStep(t, last, Emit(Lex(next), it.Gap?));
    }
  }

  lemma PushedEnd(t: string, last: bool)
    requires t != ""
    ensures var it := Scan(t);
      && (it.Gap? ==> TrimEnd(Pushed(it, last)) == "")
      && (it.Code? || (it.Lit? && it.closed) ==> TrimOpen(it) == it && TrimEnd(Text(it)) == Text(it))
      && (it.Lit? && !it.closed ==> t[|it.text|..] == "")
  {
    var it := Scan(t);
    OnlyGapsOrMarks(t);
    if it.Lit? && it.closed { ClosedEnd(t); }
  }

  lemma OnlyGapsOrMarks(t: string)
    requires t != ""
    ensures Scan(t).Code? ==> !IsSpace(Scan(t).c)
  {
    if Scan(t).Code? { OnlyGapsStartWithSpace(t); }
  }

  lemma TrimmedOutput(content: string)
    ensures Trim(Emit(Lex(content), true)) == Normal(content)
  {
    TrimmedEmit(content, true);
    ErasedStart(content, true);
  }
}
