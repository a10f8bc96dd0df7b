/**
 * Destructors (src/destructors.ts) as they are used by the in-memory sink of
 * src/purse.tsx: each single-rule destructor retracts one rule text from the
 * sink's rule list, and `joinDestructors` runs a list of them in order.
 * A destructor is represented by the rule texts it retracts, in the order it
 * retracts them; building one performs no retraction.
 */
module Destructors {

  datatype Destructor = Destructor(retracts: seq<string>)

  /** `rules.filter((r) => r !== rule)`: every copy of the text goes. */
  function RemoveRule(rules: seq<string>, rule: string): (r: seq<string>)
  {
    if rules == [] then []
    else if rules[0] == rule then RemoveRule(rules[1..], rule)
    else [rules[0]] + RemoveRule(rules[1..], rule)
  }

  /** Filtering keeps exactly the other rules, in their order. */
  lemma {:induction false} RemoveRuleMembers(rules: seq<string>, rule: string)
    ensures forall x :: x in RemoveRule(rules, rule) <==> x in rules && x != rule
    ensures |RemoveRule(rules, rule)| <= |rules|
  {
    if rules != [] {
      RemoveRuleMembers(rules[1..], rule);
    }
  }

  /** Filtering a list that does not hold the text leaves it as it is. */
  lemma {:induction false} RemoveRuleAbsent(rules: seq<string>, rule: string)
    requires rule !in rules
    ensures RemoveRule(rules, rule) == rules
  {
    if rules != [] {
      RemoveRuleAbsent(rules[1..], rule);
    }
  }

  /** Filtering distributes over concatenation. */
  lemma {:induction false} RemoveRuleAppend(a: seq<string>, b: seq<string>, rule: string)
    ensures RemoveRule(a + b, rule) == RemoveRule(a, rule) + RemoveRule(b, rule)
  {
    if a == [] {
      assert a + b == b;
    } else {
      assert (a + b)[1..] == a[1..] + b;
      RemoveRuleAppend(a[1..], b, rule);
    }
  }

  /** Invoking a destructor: its retractions, first to last. */
  function Apply(d: Destructor, rules: seq<string>): seq<string>
    decreases |d.retracts|
  {
    if d.retracts == [] then rules
    else Apply(Destructor(d.retracts[1..]), RemoveRule(rules, d.retracts[0]))
  }

  /** `joinDestructors`: one destructor doing the components' retractions in array order. */
  function JoinDestructors(ds: seq<Destructor>): Destructor
  {
    if ds == [] then Destructor([])
    else Destructor(ds[0].retracts + JoinDestructors(ds[1..]).retracts)
  }

  /** Joining one more destructor appends its retractions. */
  lemma {:induction false} JoinDestructorsAppend(ds: seq<Destructor>, d: Destructor)
    ensures JoinDestructors(ds + [d]).retracts == JoinDestructors(ds).retracts + d.retracts
  {
    if ds == [] {
      assert ds + [d] == [d];
      assert [d][1..] == [];
    } else {
      assert (ds + [d])[1..] == ds[1..] + [d];
      JoinDestructorsAppend(ds[1..], d);
    }
  }

  /** Reference semantics of the joined closure: invoke each component once, in array order. */
  function ApplyEach(ds: seq<Destructor>, rules: seq<string>): seq<string>
  {
    if ds == [] then rules else ApplyEach(ds[1..], Apply(ds[0], rules))
  }

  lemma {:induction false} ApplySequential(a: seq<string>, b: seq<string>, rules: seq<string>)
    ensures Apply(Destructor(a + b), rules) == Apply(Destructor(b), Apply(Destructor(a), rules))
    decreases |a|
  {
    if a == [] {
      assert a + b == b;
    } else {
      assert (a + b)[1..] == a[1..] + b;
      ApplySequential(a[1..], b, RemoveRule(rules, a[0]));
    }
  }

  /** Invoking the joined destructor invokes every component exactly once, in array order. */
  lemma {:induction false} JoinRunsEachInOrder(ds: seq<Destructor>, rules: seq<string>)
    ensures Apply(JoinDestructors(ds), rules) == ApplyEach(ds, rules)
  {
    if ds != [] {
      ApplySequential(ds[0].retracts, JoinDestructors(ds[1..]).retracts, rules);
      JoinRunsEachInOrder(ds[1..], Apply(ds[0], rules));
    }
  }

  /** Joining no destructors gives a no-op. */
  lemma JoinEmptyIsNoOp(rules: seq<string>)
    ensures Apply(JoinDestructors([]), rules) == rules
  {
  }

  /** After a destructor runs, exactly the rules it does not name are left. */
  lemma {:induction false} ApplyMembers(d: Destructor, rules: seq<string>)
    ensures forall x :: x in Apply(d, rules) <==> x in rules && x !in d.retracts
    decreases |d.retracts|
  {
    if d.retracts != [] {
      RemoveRuleMembers(rules, d.retracts[0]);
      ApplyMembers(Destructor(d.retracts[1..]), RemoveRule(rules, d.retracts[0]));
      assert forall x :: x in d.retracts <==> x == d.retracts[0] || x in d.retracts[1..];
    }
  }

  /** Retracting texts that the first part of the list does not hold only touches the rest. */
  lemma {:induction false} ApplyAppend(d: Destructor, a: seq<string>, b: seq<string>)
    requires forall x :: x in d.retracts ==> x !in a
    ensures Apply(d, a + b) == a + Apply(d, b)
    decreases |d.retracts|
  {
    if d.retracts != [] {
      var x := d.retracts[0];
      RemoveRuleAppend(a, b, x);
      RemoveRuleAbsent(a, x);
      ApplyAppend(Destructor(d.retracts[1..]), a, RemoveRule(b, x));
    }
  }

  /** The `forEach` of the joined closure, run against a rule list. */
  method RunJoined(ds: seq<Destructor>, rules: seq<string>) returns (after: seq<string>)
    ensures after == ApplyEach(ds, rules)
    ensures after == Apply(JoinDestructors(ds), rules)
  {
    after := rules;
    for i := 0 to |ds|
      invariant ApplyEach(ds, rules) == ApplyEach(ds[i..], after)
    {
      assert ds[i..][1..] == ds[i + 1..];
      after := Apply(ds[i], after);
    }
    assert ds[|ds|..] == [];
    JoinRunsEachInOrder(ds, rules);
  }
}
