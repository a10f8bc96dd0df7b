/**
 * The content hasher of src/hashObject.ts: a djb2-xor fold over the UTF-16
 * code units of the serialized value, from the last unit to the first,
 * kept to 32 bits, rendered as a base-52 name over `a`–`z`, `A`–`Z`.
 */
module HashObject {
  import Json

  const Seed: bv32 := 5381
  const Two32: nat := 0x1_0000_0000

  /** A UTF-16 code unit, as `String.prototype.charCodeAt` returns it. */
  type CodeUnit = u: nat | u < 0x10000

  /** The UTF-16 encoding of a string: one unit per BMP character, a surrogate pair otherwise. */
  function CodeUnits(s: string): (r: seq<CodeUnit>)
    ensures |r| >= |s|
  {
    if s == [] then [] else Encode(s[0]) + CodeUnits(s[1..])
  }

  /** The UTF-16 units of one character. */
  function Encode(ch: char): seq<CodeUnit>
  {
    var c := ch as int;
    if c < 0x10000 then [c]
    else [0xD800 + (c - 0x10000) / 0x400, 0xDC00 + (c - 0x10000) % 0x400]
  }

  /** The encoding is character by character. */
  lemma {:induction false} CodeUnitsAppend(a: string, b: string)
    ensures CodeUnits(a + b) == CodeUnits(a) + CodeUnits(b)
  {
    if a != [] {
      assert (a + b)[0] == a[0];
      assert (a + b)[1..] == a[1..] + b;
      CodeUnitsAppend(a[1..], b);
    } else {
      assert a + b == b;
    }
  }

  /**
   * A BMP character is the one unit of its own code; any other character is
   * a high surrogate then a low surrogate that decode back to its code.
   */
  lemma CodeUnitsChar(c: char)
    ensures c as int < 0x10000 ==> CodeUnits([c]) == [c as int]
    ensures c as int >= 0x10000 ==>
      var r := CodeUnits([c]);
      && |r| == 2 && 0xD800 <= r[0] < 0xDC00 && 0xDC00 <= r[1] < 0xE000
      && (r[0] as int - 0xD800) * 0x400 + (r[1] as int - 0xDC00) + 0x10000 == c as int
  {
    assert [c][1..] == [];
  }

  /** One step of the fold: `(h * 33) ^ code`, both operands cut to 32 bits by `^`. */
  function Step(h: bv32, u: CodeUnit): bv32
  {
    (h * 33) ^ (u as bv32)
  }

  /** The fold of `toPhash`: the last unit is folded in first. */
  function Phash(h: bv32, units: seq<CodeUnit>): bv32
    decreases |units|
  {
    if units == [] then h
    else Phash(Step(h, units[|units| - 1]), units[..|units| - 1])
  }

  /** The units are consumed from the end: a suffix is folded before the part in front of it. */
  lemma {:induction false} PhashAppend(h: bv32, a: seq<CodeUnit>, b: seq<CodeUnit>)
    ensures Phash(h, a + b) == Phash(Phash(h, b), a)
    decreases |b|
  {
    if b == [] {
      assert a + b == a;
    } else {
      assert (a + b)[..|a + b| - 1] == a + b[..|b| - 1];
      PhashAppend(Step(h, b[|b| - 1]), a, b[..|b| - 1]);
    }
  }

  /** The empty string hashes to the seed; one unit is one step. */
  lemma PhashSmall(h: bv32, u: CodeUnit)
    ensures Phash(h, []) == h
    ensures Phash(h, [u]) == Step(h, u)
  {
  }

  /**
   * `toPhash` over the UTF-16 units of `x`, with the final `>>> 0`: the
   * loop's `h` is held as its 32-bit pattern, which is all that `^` and
   * `>>> 0` look at.
   */
  method ToPhash(h: bv32, x: string) returns (r: bv32)
    ensures r == Phash(h, CodeUnits(x))
    ensures (r as nat) < Two32
  {
    var units := CodeUnits(x);
    var i := |units|;
    r := h;
    assert units[..i] == units;
    while i > 0
      invariant 0 <= i <= |units|
      invariant Phash(r, units[..i]) == Phash(h, units)
    {
      i := i - 1;
      assert units[..i + 1][..i] == units[..i];
      assert Phash(r, units[..i + 1]) == Phash(Step(r, units[i]), units[..i]);
      r := Step(r, units[i]);
    }
  }

  /** `toAlphabeticChar`: 0–25 to `a`–`z`, 26–51 to `A`–`Z`. */
  function ToAlphabeticChar(code: nat): (c: char)
    requires code < 52
  {
    (code + (if code > 25 then 39 else 97)) as char
  }

  predicate IsLetter(c: char)
  {
    'a' <= c <= 'z' || 'A' <= c <= 'Z'
  }

  /** The digit a letter stands for. */
  function AlphabeticIndex(c: char): (n: nat)
    requires IsLetter(c)
    ensures n < 52
  {
    if 'a' <= c <= 'z' then c as int - 97 else c as int - 39
  }

  /** The digits are exactly the 52 ASCII letters, lower case first, each standing for its own digit. */
  lemma AlphabeticCharDigit(code: nat)
    requires code < 52
    ensures IsLetter(ToAlphabeticChar(code))
    ensures code < 26 <==> 'a' <= ToAlphabeticChar(code) <= 'z'
    ensures AlphabeticIndex(ToAlphabeticChar(code)) == code
  {
  }

  /** The name `toAlphabeticName` builds: digits by repeated division while the value exceeds 52. */
  function AlphabeticName(x: nat): string
  {
    if x > 52 then AlphabeticName(x / 52) + [ToAlphabeticChar(x % 52)]
    else [ToAlphabeticChar(x % 52)]
  }

  /** `toAlphabeticName`, on the unsigned 32-bit values its one caller passes. */
  method ToAlphabeticName(code: nat) returns (name: string)
    requires code < Two32
    ensures name == AlphabeticName(code)
  {
    name := "";
    var x := code;
    while x > 52
      invariant AlphabeticName(code) == AlphabeticName(x) + name
    {
      name := [ToAlphabeticChar(x % 52)] + name;
      x := x / 52;
    }
    name := [ToAlphabeticChar(x % 52)] + name;
  }

  predicate AllLetters(s: string)
  {
    forall i :: 0 <= i < |s| ==> IsLetter(s[i])
  }

  /** A name is never empty and is made of ASCII letters only, so it is a CSS class token. */
  lemma {:induction false} AlphabeticNameLetters(x: nat)
    ensures |AlphabeticName(x)| >= 1
    ensures AllLetters(AlphabeticName(x))
  {
    AlphabeticCharDigit(x % 52);
    if x > 52 {
      AlphabeticNameLetters(x / 52);
    }
  }

  /** Smallest value whose name has more than `n` letters. */
  function NameBound(n: nat): nat
    requires n >= 1
  {
    if n == 1 then 53 else 52 * NameBound(n - 1)
  }

  lemma {:induction false} AlphabeticNameLengthBound(x: nat, n: nat)
    requires n >= 1 && x < NameBound(n)
    ensures |AlphabeticName(x)| <= n
  {
    if x > 52 {
      AlphabeticNameLengthBound(x / 52, n - 1);
    }
  }

  /** Any unsigned 32-bit value renders in at most six letters. */
  lemma AlphabeticNameAtMostSix(x: nat)
    requires x < Two32
    ensures |AlphabeticName(x)| <= 6
  {
    assert NameBound(6) == 20150813696;
    AlphabeticNameLengthBound(x, 6);
  }

  /** Reads a name back as a base-52 number, most significant letter first. */
  function NameValue(s: string): nat
    requires AllLetters(s)
  {
    if s == [] then 0 else NameValue(s[..|s| - 1]) * 52 + AlphabeticIndex(s[|s| - 1])
  }

  /** The last quotient the loop stops at, whose letter leads the name. */
  function LeadingQuotient(x: nat): (q: nat)
    ensures q <= 52
  {
    if x > 52 then LeadingQuotient(x / 52) else x
  }

  /** Away from the `x > 52` edge the name is the base-52 numeral of its input. */
  lemma {:induction false} AlphabeticNameValue(x: nat)
    requires LeadingQuotient(x) != 52
    ensures AllLetters(AlphabeticName(x))
    ensures NameValue(AlphabeticName(x)) == x
  {
    AlphabeticNameLetters(x);
    AlphabeticCharDigit(x % 52);
    var s := AlphabeticName(x);
    if x > 52 {
      AlphabeticNameValue(x / 52);
      assert s[..|s| - 1] == AlphabeticName(x / 52);
    }
  }

  /** Distinct inputs get distinct names, except 0 and 52, which both render as `a`. */
  lemma AlphabeticNameInjective(x: nat, y: nat)
    requires AlphabeticName(x) == AlphabeticName(y)
    ensures x == y || (x == 0 && y == 52) || (x == 52 && y == 0)
  {
    if x < y {
      AlphabeticNameCollision(x, y);
    } else if y < x {
      AlphabeticNameCollision(y, x);
    }
  }

  lemma {:induction false} AlphabeticNameCollision(x: nat, y: nat)
    requires x < y && AlphabeticName(x) == AlphabeticName(y)
    ensures x == 0 && y == 52
  {
    AlphabeticCharDigit(x % 52);
    AlphabeticCharDigit(y % 52);
    if x > 52 {
      var sx, sy := AlphabeticName(x), AlphabeticName(y);
      assert sx[|sx| - 1] == sy[|sy| - 1];
      assert sx[..|sx| - 1] == AlphabeticName(x / 52);
      assert sy[..|sy| - 1] == AlphabeticName(y / 52);
      if x / 52 < y / 52 {
        AlphabeticNameCollision(x / 52, y / 52);
      }
      assert false;
    } else if y > 52 {
      AlphabeticNameLetters(y / 52);
      assert false;
    }
  }

  /** The loop guard is `x > 52`, so 52 renders as `a`, the same as 0. */
  lemma FiftyTwoCollides()
    ensures AlphabeticName(52) == AlphabeticName(0) == "a"
  {
  }

  /** The class name of a serialized text. */
  function HashText(text: string): (r: string)
    ensures |r| >= 1 && |r| <= 6 && AllLetters(r)
  {
    var h := Phash(Seed, CodeUnits(text));
    AlphabeticNameLetters(h as nat);
    AlphabeticNameAtMostSix(h as nat);
    AlphabeticName(h as nat)
  }

  /** `hashObject` of a flat string-valued object, given as its entries in insertion order. */
  function HashObject(m: seq<(string, string)>): (r: string)
    ensures |r| >= 1 && |r| <= 6 && AllLetters(r)
  {
    HashText(Json.Stringify(m))
  }

  /** There is no state or randomness: equal serialized text gives equal names. */
  lemma HashObjectDeterministic(m1: seq<(string, string)>, m2: seq<(string, string)>)
    requires Json.Stringify(m1) == Json.Stringify(m2)
    ensures HashObject(m1) == HashObject(m2)
  {
  }
}
