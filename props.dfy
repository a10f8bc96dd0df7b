/**
 * JavaScript plain objects as ordered association lists. Style keys are
 * never integer-like, so a `for…in` loop and `Object.entries` see the keys
 * in insertion order; a write to a present key keeps its position, a write
 * to a new key appends it, and `delete` removes it.
 */
module Props {
  import opened Wrappers

  /** A value in a style object. Numbers carry the text JavaScript renders them as. */
  datatype Value =
    | Str(s: string)
    | Num(text: string)
    | Obj(props: seq<(string, Value)>)
    | Null
    | Undefined

  type Props = seq<(string, Value)>

  function Keys<V>(p: seq<(string, V)>): (r: seq<string>)
    ensures |r| == |p|
    ensures forall i :: 0 <= i < |p| ==> r[i] == p[i].0
  {
    if p == [] then [] else [p[0].0] + Keys(p[1..])
  }

  /** An object holds each key once. */
  predicate DistinctKeys<V>(p: seq<(string, V)>)
  {
    forall i, j :: 0 <= i < j < |p| ==> p[i].0 != p[j].0
  }

  /** Every object in the value, at every depth, holds each key once. */
  predicate WellFormed(v: Value)
    decreases v
  {
    v.Obj? ==> DistinctKeys(v.props) && forall i :: 0 <= i < |v.props| ==> WellFormed(v.props[i].1)
  }

  predicate AllWellFormed(p: Props)
  {
    WellFormed(Obj(p))
  }

  /** `obj[key]`. */
  function Get<V>(p: seq<(string, V)>, key: string): (r: Option<V>)
    ensures r.Some? <==> key in Keys(p)
  {
    if p == [] then None
    else if p[0].0 == key then Some(p[0].1)
    else Get(p[1..], key)
  }

  /** `obj[key] = value`. */
  function Set<V>(p: seq<(string, V)>, key: string, value: V): seq<(string, V)>
  {
    if p == [] then [(key, value)]
    else if p[0].0 == key then [(key, value)] + p[1..]
    else [p[0]] + Set(p[1..], key, value)
  }

  /** `delete obj[key]`. */
  function Delete<V>(p: seq<(string, V)>, key: string): seq<(string, V)>
  {
    if p == [] then []
    else if p[0].0 == key then Delete(p[1..], key)
    else [p[0]] + Delete(p[1..], key)
  }

  /** `{...a, ...b}`: b's entries written over a, in b's order. */
  function Spread<V>(a: seq<(string, V)>, b: seq<(string, V)>): seq<(string, V)>
    decreases |b|
  {
    if b == [] then a else Spread(Set(a, b[0].0, b[0].1), b[1..])
  }

  lemma {:induction false} GetIndex<V>(p: seq<(string, V)>, i: nat)
    requires DistinctKeys(p) && i < |p|
    ensures Get(p, p[i].0) == Some(p[i].1)
  {
    if i > 0 {
      GetIndex(p[1..], i - 1);
    }
  }

  /** A write to a present key keeps the key order; a write to a new key appends it. */
  lemma {:induction false} SetKeys<V>(p: seq<(string, V)>, key: string, value: V)
    ensures Keys(Set(p, key, value)) == if key in Keys(p) then Keys(p) else Keys(p) + [key]
  {
    if p != [] {
      SetKeys(p[1..], key, value);
      assert Keys(p) == [p[0].0] + Keys(p[1..]);
    }
  }

  /** After a write the key holds the new value and every other key its old one. */
  lemma {:induction false} SetGet<V>(p: seq<(string, V)>, key: string, value: V, k: string)
    requires DistinctKeys(p)
    ensures Get(Set(p, key, value), k) == if k == key then Some(value) else Get(p, k)
  {
    if p != [] {
      if p[0].0 != key {
        SetGet(p[1..], key, value, k);
      } else if k != key {
        assert p[0].0 !in Keys(p[1..]);
      }
    }
  }

  /** A write keeps the keys distinct. */
  lemma SetDistinct<V>(p: seq<(string, V)>, key: string, value: V)
    requires DistinctKeys(p)
    ensures DistinctKeys(Set(p, key, value))
  {
    SetKeys(p, key, value);
    var r := Set(p, key, value);
    assert DistinctKeys(r) by {
      forall i, j | 0 <= i < j < |r| ensures r[i].0 != r[j].0 {
        assert Keys(r)[i] == r[i].0 && Keys(r)[j] == r[j].0;
        if j < |p| {
          assert Keys(p)[i] == p[i].0 && Keys(p)[j] == p[j].0;
        } else {
          assert Keys(p)[i] == p[i].0;
        }
      }
    }
  }

  /** A write to an absent key appends the entry. */
  lemma {:induction false} SetAbsent<V>(p: seq<(string, V)>, key: string, value: V)
    requires key !in Keys(p)
    ensures Set(p, key, value) == p + [(key, value)]
  {
    if p != [] {
      SetAbsent(p[1..], key, value);
    }
  }

  /** A write to the first key replaces the first entry. */
  lemma SetFirst<V>(p: seq<(string, V)>, value: V)
    requires p != []
    ensures Set(p, p[0].0, value) == [(p[0].0, value)] + p[1..]
  {
  }

  /** Spreading: the entries of `b` win; every other key keeps its value from `a`. */
  lemma {:induction false} SpreadGet<V>(a: seq<(string, V)>, b: seq<(string, V)>, k: string)
    requires DistinctKeys(a) && DistinctKeys(b)
    ensures Get(Spread(a, b), k) == if k in Keys(b) then Get(b, k) else Get(a, k)
    decreases |b|
  {
    if b != [] {
      var a' := Set(a, b[0].0, b[0].1);
      SetDistinct(a, b[0].0, b[0].1);
      SetGet(a, b[0].0, b[0].1, k);
      SpreadGet(a', b[1..], k);
      assert Keys(b) == [b[0].0] + Keys(b[1..]);
      if k == b[0].0 {
        assert k !in Keys(b[1..]);
      }
    }
  }

  /** Spreading keeps the keys of `a` in their places, adds those of `b`, and keeps them distinct. */
  lemma {:induction false} SpreadKeys<V>(a: seq<(string, V)>, b: seq<(string, V)>)
    ensures forall k :: k in Keys(Spread(a, b)) <==> k in Keys(a) || k in Keys(b)
    ensures |a| <= |Spread(a, b)| && Keys(Spread(a, b))[..|a|] == Keys(a)
    ensures DistinctKeys(a) ==> DistinctKeys(Spread(a, b))
    decreases |b|
  {
    if b != [] {
      var a' := Set(a, b[0].0, b[0].1);
      SetKeys(a, b[0].0, b[0].1);
      if DistinctKeys(a) {
        SetDistinct(a, b[0].0, b[0].1);
      }
      SpreadKeys(a', b[1..]);
      assert Keys(b) == [b[0].0] + Keys(b[1..]);
      assert Keys(a')[..|a|] == Keys(a);
    }
  }

  /** Spreading a well-formed object onto nothing copies it. */
  lemma {:induction false} SpreadOntoEmpty<V>(b: seq<(string, V)>)
    requires DistinctKeys(b)
    ensures Spread([], b) == b
  {
    SpreadAppendAbsent([], b);
  }

  lemma {:induction false} SpreadAppendAbsent<V>(a: seq<(string, V)>, b: seq<(string, V)>)
    requires DistinctKeys(b)
    requires forall j :: 0 <= j < |b| ==> b[j].0 !in Keys(a)
    ensures Spread(a, b) == a + b
    decreases |b|
  {
    if b != [] {
      SetAbsent(a, b[0].0, b[0].1);
      var a' := a + [b[0]];
      KeysAppend(a, [b[0]]);
      var rest := b[1..];
      forall j | 0 <= j < |rest| ensures rest[j].0 !in Keys(a') {
        assert rest[j] == b[j + 1];
      }
      SpreadAppendAbsent(a', rest);
      assert a' + rest == a + b;
    }
  }

  /** Deleting a key that stands once, between entries with other keys, removes just that entry. */
  lemma DeleteOnly<V>(a: seq<(string, V)>, x: (string, V), b: seq<(string, V)>)
    requires x.0 !in Keys(a) && x.0 !in Keys(b)
    ensures Delete(a + [x] + b, x.0) == a + b
  {
    assert a + [x] + b == a + ([x] + b);
    DeletePrefix(a, [x] + b, x.0);
    assert ([x] + b)[1..] == b;
    DeleteAbsent(b, x.0);
  }

  /** Entries before the first occurrence of the key are kept. */
  lemma {:induction false} DeletePrefix<V>(a: seq<(string, V)>, rest: seq<(string, V)>, key: string)
    requires forall i :: 0 <= i < |a| ==> a[i].0 != key
    ensures Delete(a + rest, key) == a + Delete(rest, key)
  {
    if a == [] {
      assert a + rest == rest;
    } else {
      assert (a + rest)[0] == a[0];
      assert (a + rest)[1..] == a[1..] + rest;
      DeletePrefix(a[1..], rest, key);
      assert [a[0]] + (a[1..] + Delete(rest, key)) == a + Delete(rest, key);
    }
  }

  lemma {:induction false} DeleteAbsent<V>(p: seq<(string, V)>, key: string)
    requires key !in Keys(p)
    ensures Delete(p, key) == p
  {
    if p != [] {
      assert Keys(p) == [p[0].0] + Keys(p[1..]);
      DeleteAbsent(p[1..], key);
    }
  }

  lemma KeysAppend<V>(a: seq<(string, V)>, b: seq<(string, V)>)
    ensures Keys(a + b) == Keys(a) + Keys(b)
  {
  }

  /** The keys of an object are those of all but its last entry, then the last key. */
  lemma {:induction false} KeysLast<V>(p: seq<(string, V)>)
    requires p != []
    ensures Keys(p) == Keys(p[..|p| - 1]) + [p[|p| - 1].0]
  {
    if |p| > 1 {
      var n := |p| - 1;
      KeysLast(p[1..]);
      assert p[1..][..n - 1] == p[..n][1..];
      assert p[..n][0] == p[0];
    }
  }
}
