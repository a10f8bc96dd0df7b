/**
 * `createInMemoryStyleApi` of src/purse.tsx: a sink whose rule list and
 * class-name registry are updated in place. Each method is proved to move
 * the state exactly as the registry functions of module `Registry` say.
 */
module InMemory {
  import opened Destructors
  import Compile
  import Style
  import Registry

  class InMemoryStyleApi {
    /** The live rule texts, in insertion order (`styleRulesRef.current`). */
    var styleRules: seq<string>
    /** `insertedStyleElementClassNames`. */
    var inserted: map<string, Registry.Entry>

    function State(): Registry.State
      reads this
    {
      Registry.State(inserted, styleRules)
    }

    predicate Valid()
      reads this
    {
      Registry.Valid(State())
    }

    constructor ()
      ensures styleRules == [] && inserted == map[]
      ensures Valid()
    {
      styleRules := [];
      inserted := map[];
    }

    /** `addStyleRule`, also returned as `addGlobalStyle`: push the rule; the destructor retracts its text. */
    method AddStyleRule(rule: string) returns (d: Destructor)
      modifies this
      ensures styleRules == old(styleRules) + [rule] && inserted == old(inserted)
      ensures d == Destructor([rule])
      ensures Apply(d, styleRules) == RemoveRule(old(styleRules), rule)
    {
      styleRules := styleRules + [rule];
      d := Destructor([rule]);
      RemoveRuleAppend(old(styleRules), [rule], rule);
      assert [rule][1..] == [];
    }

    /** Invoking a destructor this sink handed out: its retractions, in order. */
    method RunDestructor(d: Destructor)
      modifies this
      ensures styleRules == Apply(d, old(styleRules)) && inserted == old(inserted)
    {
      var i := 0;
      assert d.retracts[0..] == d.retracts;
      while i < |d.retracts|
        invariant 0 <= i <= |d.retracts|
        invariant inserted == old(inserted)
        invariant Apply(Destructor(d.retracts[i..]), styleRules) == Apply(d, old(styleRules))
      {
        assert d.retracts[i..][1..] == d.retracts[i + 1..];
        styleRules := RemoveRule(styleRules, d.retracts[i]);
        i := i + 1;
      }
      assert d.retracts[i..] == [];
    }

    /** The `if (styleElement.owned)` part of `addStyleElement`. */
    method AddOwned(o: Compile.Owned)
      requires Valid()
      modifies this
      ensures Valid()
      ensures State() == Registry.InsertOwn(old(State()), o)
    {
      Registry.InsertOwnValid(State(), o);
      if o.className in inserted {
        var en := inserted[o.className];
        inserted := inserted[o.className := Registry.Entry(en.refCount + 1, en.destructor)];
      } else {
        var destructors: seq<Destructor> := [];
        for j := 0 to |o.styleRules|
          invariant styleRules == old(styleRules) + o.styleRules[..j]
          invariant inserted == old(inserted)
          invariant JoinDestructors(destructors).retracts == o.styleRules[..j]
        {
          var d := AddStyleRule(o.styleRules[j]);
          JoinDestructorsAppend(destructors, d);
          destructors := destructors + [d];
          assert o.styleRules[..j + 1] == o.styleRules[..j] + [o.styleRules[j]];
        }
        assert o.styleRules[..|o.styleRules|] == o.styleRules;
        inserted := inserted[o.className := Registry.Entry(1, JoinDestructors(destructors))];
      }
    }

    /** The `if (styleElement.owned)` part of `removeStyleElement`. */
    method RemoveOwned(className: string)
      requires Valid()
      modifies this
      ensures Valid()
      ensures State() == Registry.RemoveOwn(old(State()), className)
    {
      Registry.RemoveOwnValid(State(), className);
      if className !in inserted {
        return;
      }
      var en := inserted[className];
      var newRefCount := en.refCount - 1;
      if newRefCount <= 0 {
        inserted := inserted - {className};
        RunDestructor(en.destructor);
      } else {
        inserted := inserted[className := Registry.Entry(newRefCount, en.destructor)];
      }
    }

    /**
     * `addStyleElement`: the composed elements first, in order, then the own
     * fragment. The release handle it returns is `RemoveStyleElement(e)`.
     */
    method AddStyleElement(e: Style.StyleElement)
      requires Valid()
      modifies this
      ensures Valid()
      ensures State() == Registry.Insert(old(State()), e)
      decreases e
    {
      for i := 0 to |e.composed|
        invariant Valid()
        invariant State() == Registry.InsertAll(old(State()), Style.OwnsAll(e.composed[..i]))
      {
        AddStyleElement(e.composed[i]);
        assert e.composed[..i + 1][..i] == e.composed[..i];
        Registry.InsertAllAppend(old(State()), Style.OwnsAll(e.composed[..i]), Style.Owns(e.composed[i]));
      }
      assert e.composed[..|e.composed|] == e.composed;
      var own := if e.owned.Some? then [e.owned.value] else [];
      Registry.InsertAllAppend(old(State()), Style.OwnsAll(e.composed), own);
      if e.owned.Some? {
        assert own[..0] == [];
        AddOwned(e.owned.value);
      }
    }

    /** `removeStyleElement`: the composed elements first, in order, then the own fragment. */
    method RemoveStyleElement(e: Style.StyleElement)
      requires Valid()
      modifies this
      ensures Valid()
      ensures State() == Registry.Remove(old(State()), e)
      decreases e
    {
      for i := 0 to |e.composed|
        invariant Valid()
        invariant State() == Registry.RemoveAll(old(State()), Style.OwnsAll(e.composed[..i]))
      {
        RemoveStyleElement(e.composed[i]);
        assert e.composed[..i + 1][..i] == e.composed[..i];
        Registry.RemoveAllAppend(old(State()), Style.OwnsAll(e.composed[..i]), Style.Owns(e.composed[i]));
      }
      assert e.composed[..|e.composed|] == e.composed;
      var own := if e.owned.Some? then [e.owned.value] else [];
      Registry.RemoveAllAppend(old(State()), Style.OwnsAll(e.composed), own);
      if e.owned.Some? {
        assert own[..0] == [];
        RemoveOwned(e.owned.value.className);
      }
    }
  }
}
