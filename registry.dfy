/**
 * The reference-counted registry behind `createInMemoryStyleApi` in
 * src/purse.tsx, as functions on its state: the class-name map with each
 * entry's count and destructor, and the list of live rule texts.
 * `Insert`/`Remove` visit a composition's fragments children first, as
 * `addStyleElement`/`removeStyleElement` do.
 */
module Registry {
  import opened Destructors
  import Compile
  import Style

  /** `InsertedStyleElement`. */
  datatype Entry = Entry(refCount: int, destructor: Destructor)

  datatype State = State(inserted: map<string, Entry>, styleRules: seq<string>)

  /** Every stored count is at least one. */
  predicate Valid(s: State)
  {
    forall c :: c in s.inserted ==> s.inserted[c].refCount >= 1
  }

  /**
   * The own-fragment part of `addStyleElement`: a known class name only
   * counts one more user; a new one appends its rules, once each and in
   * order, and stores count one with the joined destructor of those rules.
   */
  function InsertOwn(s: State, o: Compile.Owned): State
  {
    if o.className in s.inserted then
      var en := s.inserted[o.className];
      State(s.inserted[o.className := Entry(en.refCount + 1, en.destructor)], s.styleRules)
    else
      State(s.inserted[o.className := Entry(1, Destructor(o.styleRules))], s.styleRules + o.styleRules)
  }

  /**
   * The own-fragment part of `removeStyleElement`: an unknown class name is
   * ignored; otherwise the count drops by one, and when it reaches zero the
   * entry is deleted and its destructor runs.
   */
  function RemoveOwn(s: State, className: string): State
  {
    if className !in s.inserted then s
    else
      var en := s.inserted[className];
      var n := en.refCount - 1;
      if n <= 0 then State(s.inserted - {className}, Apply(en.destructor, s.styleRules))
      else State(s.inserted[className := Entry(n, en.destructor)], s.styleRules)
  }

  function InsertAll(s: State, os: seq<Compile.Owned>): State
  {
    if os == [] then s else InsertOwn(InsertAll(s, os[..|os| - 1]), os[|os| - 1])
  }

  function RemoveAll(s: State, os: seq<Compile.Owned>): State
  {
    if os == [] then s else RemoveOwn(RemoveAll(s, os[..|os| - 1]), os[|os| - 1].className)
  }

  /** `addStyleElement` on the registry's state. */
  function Insert(s: State, e: Style.StyleElement): State
  {
    InsertAll(s, Style.Owns(e))
  }

  /** `removeStyleElement` on the registry's state. */
  function Remove(s: State, e: Style.StyleElement): State
  {
    RemoveAll(s, Style.Owns(e))
  }

  lemma {:induction false} InsertAllAppend(s: State, a: seq<Compile.Owned>, b: seq<Compile.Owned>)
    ensures InsertAll(s, a + b) == InsertAll(InsertAll(s, a), b)
  {
    if b != [] {
      assert (a + b)[..|a + b| - 1] == a + b[..|b| - 1];
      InsertAllAppend(s, a, b[..|b| - 1]);
    } else {
      assert a + b == a;
    }
  }

  lemma {:induction false} RemoveAllAppend(s: State, a: seq<Compile.Owned>, b: seq<Compile.Owned>)
    ensures RemoveAll(s, a + b) == RemoveAll(RemoveAll(s, a), b)
  {
    if b != [] {
      assert (a + b)[..|a + b| - 1] == a + b[..|b| - 1];
      RemoveAllAppend(s, a, b[..|b| - 1]);
    } else {
      assert a + b == a;
    }
  }

  // ---------------------------------------------------------------------
  // Counts stay positive
  // ---------------------------------------------------------------------

  lemma InsertOwnValid(s: State, o: Compile.Owned)
    requires Valid(s)
    ensures Valid(InsertOwn(s, o))
    ensures o.className in InsertOwn(s, o).inserted
  {
  }

  lemma RemoveOwnValid(s: State, className: string)
    requires Valid(s)
    ensures Valid(RemoveOwn(s, className))
  {
  }

  lemma {:induction false} InsertAllValid(s: State, os: seq<Compile.Owned>)
    requires Valid(s)
    ensures Valid(InsertAll(s, os))
  {
    if os != [] {
      InsertAllValid(s, os[..|os| - 1]);
      InsertOwnValid(InsertAll(s, os[..|os| - 1]), os[|os| - 1]);
    }
  }

  lemma {:induction false} RemoveAllValid(s: State, os: seq<Compile.Owned>)
    requires Valid(s)
    ensures Valid(RemoveAll(s, os))
  {
    if os != [] {
      RemoveAllValid(s, os[..|os| - 1]);
      RemoveOwnValid(RemoveAll(s, os[..|os| - 1]), os[|os| - 1].className);
    }
  }

  // ---------------------------------------------------------------------
  // What an insertion appends
  // ---------------------------------------------------------------------

  /** The class names of a list of fragments. */
  function ClassNames(os: seq<Compile.Owned>): (r: seq<string>)
    ensures |r| == |os| && forall i :: 0 <= i < |os| ==> r[i] == os[i].className
  {
    if os == [] then [] else ClassNames(os[..|os| - 1]) + [os[|os| - 1].className]
  }

  /**
   * Inserting fragments whose class names are all registered appends no
   * rule and keeps every key; each count goes up by the number of visits.
   */
  lemma {:induction false} WarmInsertAppendsNothing(s: State, os: seq<Compile.Owned>)
    requires forall i :: 0 <= i < |os| ==> os[i].className in s.inserted
    ensures InsertAll(s, os).styleRules == s.styleRules
    ensures InsertAll(s, os).inserted.Keys == s.inserted.Keys
    ensures forall c :: c in s.inserted ==>
      InsertAll(s, os).inserted[c] ==
        Entry(s.inserted[c].refCount + multiset(ClassNames(os))[c], s.inserted[c].destructor)
  {
    if os != [] {
      var init := os[..|os| - 1];
      WarmInsertAppendsNothing(s, init);
      assert ClassNames(os) == ClassNames(init) + [os[|os| - 1].className];
    }
  }

  /**
   * Inserting fragments with pairwise distinct class names, none of them
   * registered, appends exactly their rules in visiting order, each class
   * with count one and a destructor for its own rules.
   */
  lemma {:induction false} ColdInsertAppendsRules(s: State, os: seq<Compile.Owned>)
    requires forall i :: 0 <= i < |os| ==> os[i].className !in s.inserted
    requires forall i, j :: 0 <= i < j < |os| ==> os[i].className != os[j].className
    ensures InsertAll(s, os).styleRules == s.styleRules + Style.RulesOf(os)
    ensures InsertAll(s, os).inserted == s.inserted + NewEntries(os)
  {
    if os != [] {
      var init, last := os[..|os| - 1], os[|os| - 1];
      ColdInsertAppendsRules(s, init);
      NewEntriesSpec(init);
      assert last.className !in ClassNames(init) by {
        forall i | 0 <= i < |init| ensures ClassNames(init)[i] != last.className {
          assert init[i] == os[i];
        }
      }
      ColdStep(s, InsertAll(s, init), init, last);
      assert init + [last] == os;
    }
  }

  lemma ColdStep(s: State, t: State, init: seq<Compile.Owned>, last: Compile.Owned)
    requires t.styleRules == s.styleRules + Style.RulesOf(init)
    requires t.inserted == s.inserted + NewEntries(init)
    requires last.className !in s.inserted && last.className !in NewEntries(init)
    ensures InsertOwn(t, last).styleRules == s.styleRules + Style.RulesOf(init + [last])
    ensures InsertOwn(t, last).inserted == s.inserted + NewEntries(init + [last])
  {
    var os := init + [last];
    var en := Entry(1, Destructor(last.styleRules));
    assert os[..|os| - 1] == init;
    assert Style.RulesOf(os) == Style.RulesOf(init) + last.styleRules;
    assert NewEntries(os) == NewEntries(init)[last.className := en];
    UnionUpdate(s.inserted, NewEntries(init), last.className, en);
  }

  lemma UnionUpdate<K, V>(m0: map<K, V>, n: map<K, V>, k: K, v: V)
    ensures (m0 + n)[k := v] == m0 + n[k := v]
  {
  }

  /** The entries that adding new fragments creates, one per class name. */
  function NewEntries(os: seq<Compile.Owned>): map<string, Entry>
  {
    if os == [] then map[]
    else NewEntries(os[..|os| - 1])[os[|os| - 1].className := Entry(1, Destructor(os[|os| - 1].styleRules))]
  }

  /**
   * With distinct class names, the new entries are exactly one per
   * fragment, each with count one and a destructor for the fragment's rules.
   */
  lemma {:induction false} NewEntriesSpec(os: seq<Compile.Owned>)
    requires forall i, j :: 0 <= i < j < |os| ==> os[i].className != os[j].className
    ensures forall c :: c in NewEntries(os) <==> c in ClassNames(os)
    ensures forall i :: 0 <= i < |os| ==> NewEntries(os)[os[i].className] == Entry(1, Destructor(os[i].styleRules))
  {
    if os != [] {
      var init, last := os[..|os| - 1], os[|os| - 1];
      NewEntriesSpec(init);
      assert ClassNames(os) == ClassNames(init) + [last.className];
      forall i | 0 <= i < |init| ensures NewEntries(os)[os[i].className] == Entry(1, Destructor(os[i].styleRules)) {
        assert os[i] == init[i];
      }
    }
  }

  /**
   * Adding a composition whose fragments are new and distinct appends exactly
   * what `styleElementToRules` lists for it.
   */
  lemma FreshInsertAppendsElementRules(s: State, e: Style.StyleElement)
    requires forall i :: 0 <= i < |Style.Owns(e)| ==> Style.Owns(e)[i].className !in s.inserted
    requires forall i, j :: 0 <= i < j < |Style.Owns(e)| ==> Style.Owns(e)[i].className != Style.Owns(e)[j].className
    ensures Insert(s, e).styleRules == s.styleRules + Style.StyleElementToRules(e)
  {
    ColdInsertAppendsRules(s, Style.Owns(e));
    Style.RulesAreThoseOfOwns(e);
  }

  // ---------------------------------------------------------------------
  // A release restores the sink
  // ---------------------------------------------------------------------

  /** A fragment is fresh for `s` if its class is unknown there; its rules must then not be live in `s`. */
  predicate FreshRulesAbsent(s: State, os: seq<Compile.Owned>)
  {
    forall i, x :: 0 <= i < |os| && os[i].className !in s.inserted && x in os[i].styleRules ==>
      x !in s.styleRules
  }

  /**
   * `t` is `s0` with `pending[c]` outstanding users of each class `c` added
   * on top, and with the list `extra` of rules appended after the rules of
   * `s0`, each of them owned by a class that `s0` does not know.
   */
  ghost predicate Extends(s0: State, t: State, pending: multiset<string>, extra: seq<string>)
  {
    && (forall c :: c in t.inserted <==> c in s0.inserted || pending[c] > 0)
    && (forall c :: c in s0.inserted ==>
          t.inserted[c] == Entry(s0.inserted[c].refCount + pending[c], s0.inserted[c].destructor))
    && (forall c :: c in t.inserted && c !in s0.inserted ==> t.inserted[c].refCount == pending[c])
    && (forall c, x :: c in t.inserted && c !in s0.inserted && x in t.inserted[c].destructor.retracts ==>
          x !in s0.styleRules)
    && t.styleRules == s0.styleRules + extra
    && (forall x :: x in extra ==> Owner(s0, t, x))
  }

  ghost predicate Owner(s0: State, t: State, x: string)
  {
    exists c :: c in t.inserted && c !in s0.inserted && x in t.inserted[c].destructor.retracts
  }

  lemma ExtendsStart(s0: State)
    ensures Extends(s0, s0, multiset{}, [])
  {
    assert s0.styleRules + [] == s0.styleRules;
  }

  lemma ExtendsDone(s0: State, t: State, extra: seq<string>)
    requires Extends(s0, t, multiset{}, extra)
    ensures t == s0
  {
    assert t.inserted.Keys == s0.inserted.Keys;
    assert t.inserted == s0.inserted;
    forall x ensures !Owner(s0, t, x) {
    }
    NothingIn(extra);
    assert s0.styleRules + [] == s0.styleRules;
  }

  lemma NothingIn(s: seq<string>)
    requires forall x :: x !in s
    ensures s == []
  {
    forall x ensures multiset(s)[x] == 0 {
      assert x !in s;
    }
    assert multiset(s) == multiset{};
  }

  lemma InsertStep(s0: State, t: State, pending: multiset<string>, extra: seq<string>, o: Compile.Owned)
    returns (extra': seq<string>)
    requires Valid(s0) && Extends(s0, t, pending, extra)
    requires o.className !in s0.inserted ==> forall x :: x in o.styleRules ==> x !in s0.styleRules
    ensures Extends(s0, InsertOwn(t, o), pending + multiset{o.className}, extra')
  {
    if o.className in t.inserted {
      extra' := extra;
      InsertWarm(s0, t, pending, extra, o);
    } else {
      extra' := extra + o.styleRules;
      InsertCold(s0, t, pending, extra, o);
    }
  }

  lemma InsertWarm(s0: State, t: State, pending: multiset<string>, extra: seq<string>, o: Compile.Owned)
    requires Valid(s0) && Extends(s0, t, pending, extra) && o.className in t.inserted
    ensures Extends(s0, InsertOwn(t, o), pending + multiset{o.className}, extra)
  {
    var t' := InsertOwn(t, o);
    forall x | x in extra ensures Owner(s0, t', x) {
      assert Owner(s0, t, x);
      var c' :| c' in t.inserted && c' !in s0.inserted && x in t.inserted[c'].destructor.retracts;
      assert t'.inserted[c'].destructor == t.inserted[c'].destructor;
    }
  }

  lemma InsertCold(s0: State, t: State, pending: multiset<string>, extra: seq<string>, o: Compile.Owned)
    requires Valid(s0) && Extends(s0, t, pending, extra) && o.className !in t.inserted
    requires o.className !in s0.inserted ==> forall x :: x in o.styleRules ==> x !in s0.styleRules
    ensures Extends(s0, InsertOwn(t, o), pending + multiset{o.className}, extra + o.styleRules)
  {
    var c := o.className;
    var t' := InsertOwn(t, o);
    forall x | x in extra + o.styleRules ensures Owner(s0, t', x) {
      if x in extra {
        assert Owner(s0, t, x);
        var c' :| c' in t.inserted && c' !in s0.inserted && x in t.inserted[c'].destructor.retracts;
        assert t'.inserted[c'] == t.inserted[c'];
      } else {
        assert x in t'.inserted[c].destructor.retracts;
      }
    }
  }

  lemma RemoveStep(s0: State, t: State, pending: multiset<string>, extra: seq<string>, c: string)
    returns (extra': seq<string>)
    requires Valid(s0) && Extends(s0, t, pending + multiset{c}, extra)
    ensures Extends(s0, RemoveOwn(t, c), pending, extra')
  {
    assert c in t.inserted;
    var en := t.inserted[c];
    if en.refCount - 1 <= 0 {
      extra' := Apply(en.destructor, extra);
      RemoveLast(s0, t, pending, extra, c);
    } else {
      extra' := extra;
      RemoveMore(s0, t, pending, extra, c);
    }
  }

  lemma RemoveLast(s0: State, t: State, pending: multiset<string>, extra: seq<string>, c: string)
    requires Valid(s0) && Extends(s0, t, pending + multiset{c}, extra)
    requires c in t.inserted && t.inserted[c].refCount - 1 <= 0
    ensures Extends(s0, RemoveOwn(t, c), pending, Apply(t.inserted[c].destructor, extra))
  {
    var t' := RemoveOwn(t, c);
    var en := t.inserted[c];
    assert c !in s0.inserted && pending[c] == 0;
    ApplyAppend(en.destructor, s0.styleRules, extra);
    ApplyMembers(en.destructor, extra);
    forall x | x in Apply(en.destructor, extra) ensures Owner(s0, t', x) {
      assert Owner(s0, t, x);
      var c' :| c' in t.inserted && c' !in s0.inserted && x in t.inserted[c'].destructor.retracts;
      assert c' != c;
      assert t'.inserted[c'] == t.inserted[c'];
    }
  }

  lemma RemoveMore(s0: State, t: State, pending: multiset<string>, extra: seq<string>, c: string)
    requires Valid(s0) && Extends(s0, t, pending + multiset{c}, extra)
    requires c in t.inserted && t.inserted[c].refCount - 1 > 0
    ensures Extends(s0, RemoveOwn(t, c), pending, extra)
  {
    var t' := RemoveOwn(t, c);
    forall x | x in extra ensures Owner(s0, t', x) {
      assert Owner(s0, t, x);
      var c' :| c' in t.inserted && c' !in s0.inserted && x in t.inserted[c'].destructor.retracts;
      assert t'.inserted[c'].destructor == t.inserted[c'].destructor;
    }
  }

  lemma {:induction false} InsertAllExtends(s0: State, t: State, pending: multiset<string>, extra: seq<string>, os: seq<Compile.Owned>)
    returns (extra': seq<string>)
    requires Valid(s0) && Extends(s0, t, pending, extra) && FreshRulesAbsent(s0, os)
    ensures Extends(s0, InsertAll(t, os), pending + multiset(ClassNames(os)), extra')
  {
    if os == [] {
      extra' := extra;
      assert pending + multiset(ClassNames(os)) == pending;
    } else {
      var init := os[..|os| - 1];
      var last := os[|os| - 1];
      assert FreshRulesAbsent(s0, init) by {
        forall i, x | 0 <= i < |init| && init[i].className !in s0.inserted && x in init[i].styleRules
          ensures x !in s0.styleRules
        {
          assert init[i] == os[i];
        }
      }
      var mid := InsertAllExtends(s0, t, pending, extra, init);
      extra' := InsertStep(s0, InsertAll(t, init), pending + multiset(ClassNames(init)), mid, last);
      assert ClassNames(os) == ClassNames(init) + [last.className];
      assert pending + multiset(ClassNames(init)) + multiset{last.className} ==
        pending + multiset(ClassNames(os));
    }
  }

  lemma {:induction false} RemoveAllExtends(s0: State, t: State, pending: multiset<string>, extra: seq<string>, os: seq<Compile.Owned>)
    returns (extra': seq<string>)
    requires Valid(s0) && Extends(s0, t, pending + multiset(ClassNames(os)), extra)
    ensures Extends(s0, RemoveAll(t, os), pending, extra')
    decreases |os|
  {
    if os == [] {
      extra' := extra;
      assert pending + multiset(ClassNames(os)) == pending;
    } else {
      var init := os[..|os| - 1];
      var last := os[|os| - 1];
      assert ClassNames(os) == ClassNames(init) + [last.className];
      assert pending + multiset(ClassNames(os)) ==
        (pending + multiset{last.className}) + multiset(ClassNames(init));
      var mid := RemoveAllExtends(s0, t, pending + multiset{last.className}, extra, init);
      extra' := RemoveStep(s0, RemoveAll(t, init), pending, mid, last.className);
    }
  }

  /**
   * Releasing what was added, in the same visiting order, gives back the
   * state before the addition, as long as the rules of fragments new to the
   * registry were not already live (equal rule texts are retracted
   * together, so an earlier copy would be lost).
   */
  lemma RemoveAllInsertAll(s: State, os: seq<Compile.Owned>)
    requires Valid(s) && FreshRulesAbsent(s, os)
    ensures RemoveAll(InsertAll(s, os), os) == s
  {
    ExtendsStart(s);
    var extra := InsertAllExtends(s, s, multiset{}, [], os);
    assert multiset{} + multiset(ClassNames(os)) == multiset(ClassNames(os));
    var extra' := RemoveAllExtends(s, InsertAll(s, os), multiset{}, extra, os);
    ExtendsDone(s, RemoveAll(InsertAll(s, os), os), extra');
  }

  /** Removing a style element right after adding it restores the registry and the sink. */
  lemma RemoveInsert(s: State, e: Style.StyleElement)
    requires Valid(s) && FreshRulesAbsent(s, Style.Owns(e))
    ensures Remove(Insert(s, e), e) == s
  {
    RemoveAllInsertAll(s, Style.Owns(e));
  }

  // ---------------------------------------------------------------------
  // The n-th release
  // ---------------------------------------------------------------------

  /** The same fragment visited `n` times. */
  function Repeat(o: Compile.Owned, n: nat): (r: seq<Compile.Owned>)
    ensures |r| == n && forall i :: 0 <= i < n ==> r[i] == o
  {
    if n == 0 then [] else Repeat(o, n - 1) + [o]
  }

  lemma {:induction false} InsertRepeat(s: State, o: Compile.Owned, n: nat)
    requires o.className !in s.inserted && n >= 1
    ensures InsertAll(s, Repeat(o, n)) ==
      State(s.inserted[o.className := Entry(n, Destructor(o.styleRules))], s.styleRules + o.styleRules)
  {
    if n > 1 {
      assert Repeat(o, n)[..n - 1] == Repeat(o, n - 1);
      InsertRepeat(s, o, n - 1);
    } else {
      assert Repeat(o, n)[..0] == [];
    }
  }

  lemma {:induction false} RemoveRepeat(s: State, o: Compile.Owned, n: nat, k: nat)
    requires o.className !in s.inserted && k < n
    ensures var t := State(s.inserted[o.className := Entry(n, Destructor(o.styleRules))], s.styleRules + o.styleRules);
      RemoveAll(t, Repeat(o, k)) ==
        State(s.inserted[o.className := Entry(n - k, Destructor(o.styleRules))], s.styleRules + o.styleRules)
  {
    var c := o.className;
    var d := Destructor(o.styleRules);
    if k > 0 {
      assert Repeat(o, k)[..k - 1] == Repeat(o, k - 1);
      RemoveRepeat(s, o, n, k - 1);
      var before := State(s.inserted[c := Entry(n - (k - 1), d)], s.styleRules + o.styleRules);
      assert before.inserted[c] == Entry(n - (k - 1), d);
      assert before.inserted[c := Entry(n - k, d)] == s.inserted[c := Entry(n - k, d)];
      assert RemoveOwn(before, c) == State(s.inserted[c := Entry(n - k, d)], s.styleRules + o.styleRules);
    } else {
      assert Repeat(o, k) == [];
    }
  }

  /**
   * After `n` additions of a fragment new to the registry, its rules stay
   * through the first `n - 1` releases, and the `n`-th release gives back
   * the state before the first addition.
   */
  lemma NthRelease(s: State, o: Compile.Owned, n: nat, k: nat)
    requires Valid(s) && o.className !in s.inserted && n >= 1 && k <= n
    requires forall x :: x in o.styleRules ==> x !in s.styleRules
    ensures var t := RemoveAll(InsertAll(s, Repeat(o, n)), Repeat(o, k));
      && (k < n ==> t.styleRules == s.styleRules + o.styleRules && o.className in t.inserted
                    && t.inserted[o.className].refCount == n - k)
      && (k == n ==> t == s)
  {
    InsertRepeat(s, o, n);
    if k < n {
      RemoveRepeat(s, o, n, k);
    } else {
      assert FreshRulesAbsent(s, Repeat(o, n));
      RemoveAllInsertAll(s, Repeat(o, n));
    }
  }
}
