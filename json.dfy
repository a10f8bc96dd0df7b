/**
 * `JSON.stringify` of a flat object whose values are all strings, as the
 * content hasher uses it: `{"key":"value",...}` with keys in insertion order
 * and string escaping by QuoteJSONString (ECMAScript 2024, section 25.5.2.3).
 * Dafny characters are Unicode scalar values, so no lone surrogate can occur.
 */
module Json {

  /** Lower-case hexadecimal digit. */
  function HexDigit(n: nat): (c: char)
    requires n < 16
    ensures '0' <= c <= '9' || 'a' <= c <= 'f'
  {
    if n < 10 then ('0' as int + n) as char else ('a' as int + n - 10) as char
  }

  /** True for the characters QuoteJSONString replaces by an escape sequence. */
  predicate NeedsEscape(c: char)
  {
    c == '"' || c == '\\' || (c as int) < 0x20
  }

  /** The escape of one character: the short forms, `\u00XX` for other control characters. */
  function QuoteChar(c: char): (r: string)
    ensures !NeedsEscape(c) ==> r == [c]
    ensures NeedsEscape(c) ==> |r| >= 2 && r[0] == '\\'
  {
    if c as int == 0x08 then "\\b"
    else if c as int == 0x09 then "\\t"
    else if c as int == 0x0A then "\\n"
    else if c as int == 0x0C then "\\f"
    else if c as int == 0x0D then "\\r"
    else if c == '"' then "\\\""
    else if c == '\\' then "\\\\"
    else if (c as int) < 0x20 then
      "\\u00" + [HexDigit(c as int / 16), HexDigit(c as int % 16)]
    else [c]
  }

  function QuoteBody(s: string): string
  {
    if s == [] then [] else QuoteChar(s[0]) + QuoteBody(s[1..])
  }

  /** QuoteJSONString. */
  function Quote(s: string): string
  {
    "\"" + QuoteBody(s) + "\""
  }

  function Members(m: seq<(string, string)>): string
  {
    if m == [] then ""
    else if |m| == 1 then Quote(m[0].0) + ":" + Quote(m[0].1)
    else Quote(m[0].0) + ":" + Quote(m[0].1) + "," + Members(m[1..])
  }

  /** `JSON.stringify` of a string-to-string object given as its entries in order. */
  function Stringify(m: seq<(string, string)>): string
  {
    "{" + Members(m) + "}"
  }

  /** A string with nothing to escape is quoted verbatim. */
  lemma {:induction false} QuoteBodyPlain(s: string)
    requires forall i :: 0 <= i < |s| ==> !NeedsEscape(s[i])
    ensures QuoteBody(s) == s
  {
    if s != [] {
      QuoteBodyPlain(s[1..]);
    }
  }

  /** The quoted body never holds a bare quote or a control character. */
  lemma {:induction false} QuoteBodyClean(s: string)
    ensures forall i :: 0 <= i < |QuoteBody(s)| ==> QuoteBody(s)[i] as int >= 0x20
    ensures forall i :: 0 <= i < |QuoteBody(s)| && QuoteBody(s)[i] == '"' ==>
      i > 0 && QuoteBody(s)[i - 1] == '\\'
  {
    if s != [] {
      QuoteBodyClean(s[1..]);
      var head := QuoteChar(s[0]);
      var r := QuoteBody(s);
      assert r == head + QuoteBody(s[1..]);
      forall i | 0 <= i < |r|
        ensures r[i] as int >= 0x20
        ensures r[i] == '"' ==> i > 0 && r[i - 1] == '\\'
      {
        if i >= |head| {
          assert r[i] == QuoteBody(s[1..])[i - |head|];
          if r[i] == '"' && i == |head| {
            assert false;
          }
          if i > |head| {
            assert r[i - 1] == QuoteBody(s[1..])[i - 1 - |head|];
          }
        }
      }
    }
  }

  /** The empty object serializes to `{}`. */
  lemma StringifyEmpty()
    ensures Stringify([]) == "{}"
  {
  }
}
