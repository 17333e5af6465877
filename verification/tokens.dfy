/** The tokens an external SQL tokenizer hands to the translator. Only the
    attributes the translator reads are kept. */
module Tokens {

  /** One token. `isGroup` stands for "has a `tokens` list" (a token list such as
      an identifier, an identifier list, a WHERE clause or a comparison);
      `isComparison` marks the comparison groups inside a WHERE clause;
      `normalized` is the tokenizer's normalized text (upper case for keywords). */
  datatype Token = Token(
    value: string,
    normalized: string,
    isWhitespace: bool,
    isKeyword: bool,
    isGroup: bool,
    isComparison: bool,
    children: seq<Token>)

  /** ASCII lower-casing of one character. */
  function LowerChar(c: char): (r: char)
    ensures 'A' <= c <= 'Z' ==> r as int == c as int + 32
    ensures !('A' <= c <= 'Z') ==> r == c
  {
    if 'A' <= c <= 'Z' then (c as int + 32) as char else c
  }

  /** `s.lower()` on ASCII text. */
  function Lower(s: string): (r: string)
    ensures |r| == |s|
    ensures forall i :: 0 <= i < |s| ==> r[i] == LowerChar(s[i])
  {
    if s == [] then [] else [LowerChar(s[0])] + Lower(s[1..])
  }

  /** `s[:n]`: at most the first n characters. */
  function Prefix(s: string, n: nat): (r: string)
    ensures |r| == if |s| < n then |s| else n
    ensures r <= s
  {
    if |s| < n then s else s[..n]
  }

  /** The values of the tokens of `ts` that are not whitespace, in order. */
  function NonWsValues(ts: seq<Token>): (r: seq<string>)
    ensures |r| <= |ts|
  {
    if ts == [] then []
    else
      var t := ts[|ts| - 1];
      NonWsValues(ts[..|ts| - 1]) + (if t.isWhitespace then [] else [t.value])
  }

  lemma NonWsSnoc(ts: seq<Token>, t: Token)
    ensures NonWsValues(ts + [t]) == NonWsValues(ts) + (if t.isWhitespace then [] else [t.value])
  {
    assert (ts + [t])[..|ts|] == ts;
  }

  /** Dropping whitespace distributes over concatenation. */
  lemma {:induction false} NonWsAppend(a: seq<Token>, b: seq<Token>)
    ensures NonWsValues(a + b) == NonWsValues(a) + NonWsValues(b)
    decreases |b|
  {
    if b != [] {
      var b', t := b[..|b| - 1], b[|b| - 1];
      assert a + b == (a + b') + [t];
      assert b == b' + [t];
      NonWsAppend(a, b');
      NonWsSnoc(a + b', t);
      NonWsSnoc(b', t);
    } else {
      assert a + b == a;
    }
  }
}
