/**
 * The lexical structure that the SQL normaliser recognises (src/checksum.ts:22-133): a text is
 * a sequence of gaps (one whitespace character or one comment), literals, and other characters.
 */
module Lexer {
  import opened Options

  datatype Item =
    | Gap(text: string)
    | Code(c: char)
    | Lit(text: string, closed: bool)

  function Text(it: Item): string {
    match it
    case Gap(t) => t
    case Code(c) => [c]
    case Lit(t, _) => t
  }

  function Flatten(items: seq<Item>): string {
    if items == [] then "" else Text(items[0]) + Flatten(items[1..])
  }

  lemma Associate<T>(a: seq<T>, b: seq<T>, c: seq<T>)
    ensures (a + b) + c == a + (b + c)
  {
  }

  /** The characters of the regular-expression class \s, which are also those trim() removes. */
  predicate IsSpace(c: char) {
    || c == ' ' || c == '\n' || c == '\r' || c == '\t' || c == '\U{000B}' || c == '\U{000C}'
    || c == '\U{00A0}' || c == '\U{1680}' || '\U{2000}' <= c <= '\U{200A}' || c == '\U{2028}'
    || c == '\U{2029}' || c == '\U{202F}' || c == '\U{205F}' || c == '\U{3000}' || c == '\U{FEFF}'
  }

  predicate IsTagChar(c: char) {
    'A' <= c <= 'Z' || 'a' <= c <= 'z' || c == '_' || '0' <= c <= '9'
  }

  predicate StartsWith(s: string, p: string) {
    p <= s
  }

  /** s begins with the two characters a and b. */
  predicate Opens(s: string, a: char, b: char) {
    |s| >= 2 && s[0] == a && s[1] == b
  }

  // ---- How far each construct extends, on the text after its opening mark ----

  function LineLength(s: string): (n: nat)
    ensures n <= |s|
  {
    if s == "" then 0 else if s[0] == '\n' then 1 else 1 + LineLength(s[1..])
  }

  function BlockLength(s: string, depth: nat): (n: nat)
    ensures n <= |s|
  {
    if s == "" || depth == 0 then 0
    else if Opens(s, '/', '*') then 2 + BlockLength(s[2..], depth + 1)
    else if Opens(s, '*', '/') then 2 + BlockLength(s[2..], depth - 1)
    else 1 + BlockLength(s[1..], depth)
  }

  predicate BlockCloses(s: string, depth: nat) {
    if depth == 0 then true
    else if s == "" then false
    else if Opens(s, '/', '*') then BlockCloses(s[2..], depth + 1)
    else if Opens(s, '*', '/') then BlockCloses(s[2..], depth - 1)
    else BlockCloses(s[1..], depth)
  }

  /** The rest of an E'...' literal: a backslash escapes the next character. */
  function EscapeLength(s: string): (r: (nat, bool))
    ensures r.0 <= |s|
    ensures r.1 ==> 0 < r.0 && s[r.0 - 1] == '\''
    ensures !r.1 ==> r.0 == |s|
  {
    if s == "" then (0, false)
    else if s[0] == '\\' && |s| > 1 then var r := EscapeLength(s[2..]); (r.0 + 2, r.1)
    else if s[0] == '\'' then (1, true)
    else var r := EscapeLength(s[1..]); (r.0 + 1, r.1)
  }

  /** The rest of a literal in which doubling the quote escapes it. */
  function QuoteLength(s: string, quote: char): (r: (nat, bool))
    ensures r.0 <= |s|
    ensures r.1 ==> 0 < r.0 && s[r.0 - 1] == quote
    ensures !r.1 ==> r.0 == |s|
  {
    if s == "" then (0, false)
    else if s[0] == quote && |s| > 1 && s[1] == quote then var r := QuoteLength(s[2..], quote); (r.0 + 2, r.1)
    else if s[0] == quote then (1, true)
    else var r := QuoteLength(s[1..], quote); (r.0 + 1, r.1)
  }

  /** The match of [A-Za-z_\d]*\$ at the start of s: how many tag characters come before the dollar. */
  function TagLength(s: string): (r: Option<nat>)
    ensures r.Some? ==> r.value < |s| && s[r.value] == '$'
  {
    if s == "" then None
    else if s[0] == '$' then Some(0)
    else if IsTagChar(s[0]) then
      match TagLength(s[1..])
      case None => None
      case Some(k) => Some(k + 1)
    else None
  }

  /** indexOf: the first place in s where p begins. */
  function Find(s: string, p: string): (r: Option<nat>)
    ensures r.Some? ==> r.value + |p| <= |s| && StartsWith(s[r.value..], p)
  {
    if StartsWith(s, p) then Some(0)
    else if s == "" then None
    else
      match Find(s[1..], p)
      case None => None
      case Some(k) => Some(k + 1)
  }

  function ScanDollar(s: string, tag: string): (it: Item)
    requires StartsWith(s, tag) && tag != ""
    ensures Text(it) != "" && Text(it) <= s
    ensures it.Lit? && (!it.closed ==> it.text == s)
  {
    match Find(s[|tag|..], tag)
    case Some(k) => Lit(s[..|tag| + k + |tag|], true)
    case None => Lit(s, false)
  }

  /** The first item of a text. */
  function Scan(s: string): (it: Item)
    requires s != ""
    ensures Text(it) != "" && Text(it) <= s
    ensures it.Lit? && !it.closed ==> it.text == s
  {
    if Opens(s, '-', '-') then Gap(s[..2 + LineLength(s[2..])])
    else if Opens(s, '/', '*') then Gap(s[..2 + BlockLength(s[2..], 1)])
    else if Opens(s, 'E', '\'') || Opens(s, 'e', '\'') then
      var r := EscapeLength(s[2..]);
      Lit(s[..2 + r.0], r.1)
    else if s[0] == '\'' || s[0] == '"' then
      var r := QuoteLength(s[1..], s[0]);
      Lit(s[..1 + r.0], r.1)
    else if s[0] == '$' && TagLength(s[1..]).Some? then
      ScanDollar(s, s[..TagLength(s[1..]).value + 2])
    else if IsSpace(s[0]) then Gap(s[..1])
    else Code(s[0])
  }

  lemma OnlyGapsStartWithSpace(s: string)
    requires s != "" && !Scan(s).Gap?
    ensures !IsSpace(s[0]) && Text(Scan(s))[0] == s[0]
  {
  }

  /** The items of a whole text. */
  function Lex(s: string): seq<Item>
    decreases |s|
  {
    if s == "" then []
    else var it := Scan(s); [it] + Lex(s[|Text(it)|..])
  }

  /** Lexing loses nothing: the items, put together, are the text. */
  lemma {:induction false} LexIsLossless(s: string)
    ensures Flatten(Lex(s)) == s
    decreases |s|
  {
    if s != "" {
      var it := Scan(s);
      LexIsLossless(s[|Text(it)|..]);
      assert s == Text(it) + s[|Text(it)|..];
    }
  }
}
