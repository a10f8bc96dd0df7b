/**
 * `hyphenateStyleName` from src/hyphenateStyleName.ts: camelCase property
 * names to kebab-case, with the legacy `ms-` vendor form fixed up to `-ms-`,
 * memoised in a cache.
 */
module Hyphenate {

  predicate IsUpper(c: char)
  {
    'A' <= c <= 'Z'
  }

  predicate IsLower(c: char)
  {
    'a' <= c <= 'z'
  }

  function ToLower(c: char): (r: char)
    requires IsUpper(c)
    ensures IsLower(r)
  {
    (c as int + 32) as char
  }

  function ToUpper(c: char): (r: char)
    requires IsLower(c)
    ensures IsUpper(r)
  {
    (c as int - 32) as char
  }

  /** `toHyphenLower` applied to one character if it matches `/[A-Z]/`. */
  function HyphenLower(c: char): string
  {
    if IsUpper(c) then ['-', ToLower(c)] else [c]
  }

  /** `name.replace(/[A-Z]/g, toHyphenLower)`. */
  function ReplaceUpper(name: string): string
  {
    if name == [] then [] else HyphenLower(name[0]) + ReplaceUpper(name[1..])
  }

  /** `/^ms-/.test(h)`. */
  predicate StartsWithMs(h: string)
  {
    |h| >= 3 && h[..3] == "ms-"
  }

  /** The uncached conversion. */
  function HyphenateStyleName(name: string): string
  {
    var h := ReplaceUpper(name);
    if StartsWithMs(h) then "-" + h else h
  }

  function UpperCount(s: string): nat
  {
    if s == [] then 0 else (if IsUpper(s[0]) then 1 else 0) + UpperCount(s[1..])
  }

  predicate NoUpper(s: string)
  {
    forall i :: 0 <= i < |s| ==> !IsUpper(s[i])
  }

  /** The replacement grows the name by one '-' per upper-case letter and leaves no upper-case letter. */
  lemma {:induction false} ReplaceUpperShape(name: string)
    ensures |ReplaceUpper(name)| == |name| + UpperCount(name)
    ensures NoUpper(ReplaceUpper(name))
  {
    if name != [] {
      ReplaceUpperShape(name[1..]);
      var r := ReplaceUpper(name);
      var head := HyphenLower(name[0]);
      assert r == head + ReplaceUpper(name[1..]);
      forall i | 0 <= i < |r| ensures !IsUpper(r[i]) {
        if i >= |head| {
          assert r[i] == ReplaceUpper(name[1..])[i - |head|];
        }
      }
    }
  }

  /** The replacement works character by character. */
  lemma {:induction false} ReplaceUpperAppend(a: string, b: string)
    ensures ReplaceUpper(a + b) == ReplaceUpper(a) + ReplaceUpper(b)
  {
    if a == [] {
      assert a + b == b;
    } else {
      assert (a + b)[1..] == a[1..] + b;
      ReplaceUpperAppend(a[1..], b);
    }
  }

  /**
   * The kebab name holds no upper-case ASCII letter, and is longer than the
   * input by one per upper-case letter, plus one when the `ms-` fix-up fires.
   */
  lemma HyphenateStyleNameShape(name: string)
    ensures NoUpper(HyphenateStyleName(name))
    ensures |HyphenateStyleName(name)| ==
      |name| + UpperCount(name) + (if StartsWithMs(ReplaceUpper(name)) then 1 else 0)
    ensures StartsWithMs(ReplaceUpper(name)) ==> HyphenateStyleName(name) == "-" + ReplaceUpper(name)
  {
    ReplaceUpperShape(name);
  }

  /** A name without upper-case letters is left as it is by the replacement. */
  lemma {:induction false} ReplaceUpperNoUpper(s: string)
    requires NoUpper(s)
    ensures ReplaceUpper(s) == s
  {
    if s != [] {
      ReplaceUpperNoUpper(s[1..]);
    }
  }

  lemma ReplaceUpperCons(c: char, rest: string)
    ensures ReplaceUpper([c] + rest) == HyphenLower(c) + ReplaceUpper(rest)
  {
    assert ([c] + rest)[1..] == rest;
  }

  lemma ReplaceUpperMs(u: char, rest: string)
    requires IsUpper(u)
    ensures ReplaceUpper("ms" + [u] + rest) == ['m', 's', '-', ToLower(u)] + ReplaceUpper(rest)
  {
    var t := [u] + rest;
    ReplaceUpperCons(u, rest);
    ReplaceUpperCons('s', t);
    ReplaceUpperCons('m', ['s'] + t);
    assert "ms" + [u] + rest == ['m'] + (['s'] + t);
  }

  /** A name `ms<Upper>…` gets the legacy Microsoft vendor form `-ms-<lower>…`. */
  lemma MsFixUp(u: char, rest: string)
    requires IsUpper(u)
    ensures HyphenateStyleName("ms" + [u] + rest) == "-ms-" + [ToLower(u)] + ReplaceUpper(rest)
  {
    ReplaceUpperMs(u, rest);
    MsPrefixed("ms" + [u] + rest, ToLower(u), ReplaceUpper(rest));
  }

  lemma MsPrefixed(name: string, l: char, r: string)
    requires ReplaceUpper(name) == ['m', 's', '-', l] + r
    ensures HyphenateStyleName(name) == "-ms-" + [l] + r
  {
    var h := ReplaceUpper(name);
    assert h[..3] == "ms-";
    assert ['-'] + h == "-ms-" + [l] + r;
  }

  /** `msX` and `MsX` both become `-ms-x`: the conversion is not injective. */
  lemma MsCollision()
    ensures HyphenateStyleName("MsX") == HyphenateStyleName("msX") == "-ms-x"
  {
  }

  /** Inverse of `ReplaceUpper`: `-` followed by a lower-case letter becomes that letter upper-cased. */
  function Camelize(s: string): string
  {
    if s == [] then []
    else if |s| >= 2 && s[0] == '-' && IsLower(s[1]) then [ToUpper(s[1])] + Camelize(s[2..])
    else [s[0]] + Camelize(s[1..])
  }

  /** Inverse of `HyphenateStyleName` on names without dashes. */
  function UnhyphenateStyleName(s: string): string
  {
    if |s| >= 4 && s[..4] == "-ms-" then Camelize(s[1..]) else Camelize(s)
  }

  lemma {:induction false} CamelizeReplaceUpper(name: string)
    requires '-' !in name
    ensures Camelize(ReplaceUpper(name)) == name
  {
    if name != [] {
      var rest := ReplaceUpper(name[1..]);
      assert '-' !in name[1..];
      CamelizeReplaceUpper(name[1..]);
      if IsUpper(name[0]) {
        var s := ['-', ToLower(name[0])] + rest;
        assert s[2..] == rest;
      } else {
        var s := [name[0]] + rest;
        assert s[1..] == rest;
      }
    }
  }

  /**
   * Round trip: a name without dashes that does not start with an upper-case
   * letter is recovered from its kebab form.
   */
  lemma HyphenateRoundTrip(name: string)
    requires '-' !in name
    requires name != [] ==> !IsUpper(name[0])
    ensures UnhyphenateStyleName(HyphenateStyleName(name)) == name
  {
    CamelizeReplaceUpper(name);
    var h := ReplaceUpper(name);
    if StartsWithMs(h) {
      assert ("-" + h)[1..] == h;
      assert ("-" + h)[..4] == "-" + h[..3];
    } else if name != [] {
      assert h[0] == name[0];
    }
  }

  /**
   * The module-level memo table of src/hyphenateStyleName.ts, held by an
   * explicit cache object. Every cached entry is the uncached conversion of
   * its key.
   */
  class StyleNameCache {
    var cache: map<string, string>

    ghost predicate Valid()
      reads this
    {
      forall k :: k in cache ==> cache[k] == HyphenateStyleName(k)
    }

    constructor ()
      ensures Valid() && cache == map[]
    {
      cache := map[];
    }

    /** A hit returns the cached value and changes nothing; a miss computes and stores. */
    method Hyphenate(name: string) returns (r: string)
      requires Valid()
      modifies this
      ensures Valid()
      ensures r == HyphenateStyleName(name)
      ensures cache == old(cache)[name := r]
      ensures name in old(cache) ==> r == old(cache)[name] && cache == old(cache)
    {
      if name in cache {
        r := cache[name];
        return;
      }
      var h := ReplaceUpper(name);
      r := if StartsWithMs(h) then "-" + h else h;
      cache := cache[name := r];
    }
  }

  predicate AllLower(w: string)
  {
    forall i :: 0 <= i < |w| ==> IsLower(w[i])
  }

  /** A word of lower-case letters is its own kebab name. */
  lemma LowerWordHyphenates(w: string)
    requires AllLower(w)
    ensures HyphenateStyleName(w) == w
  {
    assert NoUpper(w);
    ReplaceUpperNoUpper(w);
    assert |w| >= 3 ==> w[..3][2] == w[2] && IsLower(w[2]);
  }

  /** One upper-case letter before a name without any becomes a hyphen and its lower case. */
  lemma {:induction false} OneUpper(u: char, b: string)
    requires IsUpper(u) && NoUpper(b)
    ensures ReplaceUpper([u] + b) == ['-', ToLower(u)] + b
  {
    var s := [u] + b;
    assert s[0] == u && s[1..] == b;
    ReplaceUpperNoUpper(b);
  }

  /** `xxxYyy` becomes `xxx-yyy` when the first word cannot start with `ms-`. */
  lemma TwoWordsHyphenate(a: string, u: char, b: string)
    requires |a| >= 3 && a[2] != '-' && NoUpper(a) && IsUpper(u) && NoUpper(b)
    ensures HyphenateStyleName(a + [u] + b) == a + ['-', ToLower(u)] + b
  {
    var n := a + [u] + b;
    var h := a + ['-', ToLower(u)] + b;
    assert n == a + ([u] + b);
    ReplaceUpperAppend(a, [u] + b);
    ReplaceUpperNoUpper(a);
    OneUpper(u, b);
    assert h == a + (['-', ToLower(u)] + b);
    assert ReplaceUpper(n) == h;
    assert h[..3][2] == a[2];
    assert !StartsWithMs(h);
  }
}
