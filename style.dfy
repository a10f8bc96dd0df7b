/**
 * `style` and `styleElementToRules` of src/purse.tsx: composing style
 * elements and CSS objects into a `StyleElement`, and listing the rules a
 * composed element needs, children first.
 */
module Style {
  import opened Wrappers
  import opened Props
  import Merge
  import Compile
  import Clsx
  import HashObject

  /** A style element: the elements it composes, its own fragment if any, and its class list. */
  datatype StyleElement = StyleElement(composed: seq<StyleElement>, owned: Option<Compile.Owned>, className: string)

  /** One argument of `style`: a style element, or a CSS object. */
  datatype StyleInput = Element(e: StyleElement) | Css(props: Props)

  /** The style-element arguments, in the order given. */
  function Elements(inputs: seq<StyleInput>): (r: seq<StyleElement>)
    ensures |r| <= |inputs|
    ensures forall x :: x in r <==> Element(x) in inputs
  {
    if inputs == [] then []
    else (if inputs[0].Element? then [inputs[0].e] else []) + Elements(inputs[1..])
  }

  /** The CSS-object arguments, in the order given. */
  function CssGroups(inputs: seq<StyleInput>): (r: seq<Props>)
    ensures |r| <= |inputs|
    ensures forall g :: g in r <==> Css(g) in inputs
  {
    if inputs == [] then []
    else (if inputs[0].Css? then [inputs[0].props] else []) + CssGroups(inputs[1..])
  }

  /** `composed.map((composed) => composed.className)`. */
  function ComposedClassNames(composed: seq<StyleElement>): (r: seq<Clsx.ClassArg>)
    ensures |r| == |composed|
    ensures forall i :: 0 <= i < |r| ==> r[i] == Clsx.Name(composed[i].className)
  {
    if composed == [] then []
    else [Clsx.Name(composed[0].className)] + ComposedClassNames(composed[1..])
  }

  /** `owned?.className`. */
  function OwnClassName(owned: Option<Compile.Owned>): Clsx.ClassArg
  {
    if owned.Some? then Clsx.Name(owned.value.className) else Clsx.Undefined
  }

  /** `style(...styleElementsOrCSS)`. */
  function Style(inputs: seq<StyleInput>): StyleElement
  {
    var composed := Elements(inputs);
    var owned := Compile.CompileCSS(Merge.Merged(CssGroups(inputs)));
    StyleElement(composed, owned, Clsx.Clsx(ComposedClassNames(composed) + [OwnClassName(owned)]))
  }

  /**
   * The sorting loop of `style`: each argument goes to exactly one of the two
   * lists, and both keep the order of the arguments.
   */
  lemma InputsSplit(a: seq<StyleInput>, b: seq<StyleInput>)
    ensures Elements(a + b) == Elements(a) + Elements(b)
    ensures CssGroups(a + b) == CssGroups(a) + CssGroups(b)
  {
    ElementsAppend(a, b);
    CssGroupsAppend(a, b);
  }

  lemma {:induction false} ElementsAppend(a: seq<StyleInput>, b: seq<StyleInput>)
    ensures Elements(a + b) == Elements(a) + Elements(b)
  {
    if a == [] {
      assert a + b == b;
    } else {
      assert (a + b)[0] == a[0];
      assert (a + b)[1..] == a[1..] + b;
      ElementsAppend(a[1..], b);
    }
  }

  lemma {:induction false} CssGroupsAppend(a: seq<StyleInput>, b: seq<StyleInput>)
    ensures CssGroups(a + b) == CssGroups(a) + CssGroups(b)
  {
    if a == [] {
      assert a + b == b;
    } else {
      assert (a + b)[0] == a[0];
      assert (a + b)[1..] == a[1..] + b;
      CssGroupsAppend(a[1..], b);
    }
  }

  /** A single argument is an element or a CSS object, and lands in its own list only. */
  lemma SingleInput(x: StyleInput)
    ensures x.Element? ==> Elements([x]) == [x.e] && CssGroups([x]) == []
    ensures x.Css? ==> Elements([x]) == [] && CssGroups([x]) == [x.props]
  {
    assert [x][1..] == [];
  }

  /** The merge of several objects has no keys exactly when none of them has one. */
  lemma {:induction false} MergedEmpty(groups: seq<Props>)
    ensures Merge.Merged(groups) == [] <==> forall i :: 0 <= i < |groups| ==> groups[i] == []
  {
    if groups != [] {
      var init := groups[..|groups| - 1];
      var g := groups[|groups| - 1];
      MergedEmpty(init);
      Merge.MergedDistinct(init);
      MergeGroupEmpty(Merge.Merged(init), g);
      assert forall i :: 0 <= i < |groups| ==> groups[i] == if i < |init| then init[i] else g;
    }
  }

  /** One merge step has no keys exactly when neither side has one. */
  lemma MergeGroupEmpty(acc: Props, g: Props)
    requires DistinctKeys(acc)
    ensures Merge.MergeGroup(acc, g) == [] <==> acc == [] && g == []
  {
    Merge.MergeGroupKeys(acc, g);
    KeysEmpty(Merge.MergeGroup(acc, g));
    KeysEmpty(acc);
    KeysEmpty(g);
  }

  lemma KeysEmpty<V>(p: seq<(string, V)>)
    ensures p == [] <==> forall k :: k !in Keys(p)
  {
    if p == [] {
      assert Keys(p) == [];
    } else {
      assert p[0].0 in Keys(p);
    }
  }

  /**
   * `style` owns a fragment exactly when some CSS argument has a key; an
   * argument list of style elements only, or of empty objects, owns none.
   */
  lemma StyleOwnsIffSomeKey(inputs: seq<StyleInput>)
    ensures Style(inputs).owned.None? <==>
      forall i :: 0 <= i < |CssGroups(inputs)| ==> CssGroups(inputs)[i] == []
  {
    var merged := Merge.Merged(CssGroups(inputs));
    MergedEmpty(CssGroups(inputs));
    Compile.CompileCSSSpec(merged);
    assert Style(inputs).owned == Compile.CompileCSS(merged);
  }

  /** `style({}, {})` owns nothing and has the empty class list. */
  lemma StyleOfEmptyObjects()
    ensures Style([Css([]), Css([])]) == StyleElement([], None, "")
  {
    var inputs := [Css([]), Css([])];
    InputsSplit([Css([])], [Css([])]);
    SingleInput(Css([]));
    assert inputs == [Css([])] + [Css([])];
    assert CssGroups(inputs) == [[], []];
    MergedEmpty(CssGroups(inputs));
    NoElementsNoKeys(inputs);
  }

  lemma NoElementsNoKeys(inputs: seq<StyleInput>)
    requires Elements(inputs) == [] && Merge.Merged(CssGroups(inputs)) == []
    ensures Style(inputs) == StyleElement([], None, "")
  {
    assert ComposedClassNames([]) + [OwnClassName(None)] == [Clsx.Undefined];
    assert Clsx.Kept([Clsx.Undefined]) == [];
  }

  /**
   * The class list of `style`, for every argument list: the non-empty class
   * names of the composed elements, in argument order, then the own class
   * name when there is a fragment, joined with single spaces.
   */
  lemma StyleClassList(inputs: seq<StyleInput>)
    ensures var e := Style(inputs);
      e.className == Clsx.Join(Clsx.Kept(ComposedClassNames(e.composed)) +
        (if e.owned.Some? then [e.owned.value.className] else []), " ")
  {
    var e := Style(inputs);
    var args := ComposedClassNames(e.composed) + [OwnClassName(e.owned)];
    Compile.CompileCSSSpec(Merge.Merged(CssGroups(inputs)));
    assert e.owned.Some? ==> e.owned.value.className != "";
    Clsx.KeptIsFilter([], ComposedClassNames(e.composed), OwnClassName(e.owned));
    assert ComposedClassNames(e.composed) + [OwnClassName(e.owned)] + [] == args;
    var own := if e.owned.Some? then [e.owned.value.className] else [];
    assert Clsx.Kept(args) == Clsx.Kept(ComposedClassNames(e.composed)) + own + Clsx.Kept([]);
    assert Clsx.Kept(ComposedClassNames(e.composed)) + own + [] == Clsx.Kept(ComposedClassNames(e.composed)) + own;
  }

  /** Class names made of letters are single space-free tokens. */
  lemma LettersSpaceFree(s: string)
    requires HashObject.AllLetters(s)
    ensures Clsx.SpaceFree(s)
  {
  }

  /**
   * The class list of `style`: when the composed class names are space-free,
   * splitting it on spaces gives the non-empty composed class names in order,
   * followed by the own class name when there is a fragment.
   */
  lemma StyleClassTokens(inputs: seq<StyleInput>)
    requires forall i :: 0 <= i < |Elements(inputs)| ==> Clsx.SpaceFree(Elements(inputs)[i].className)
    ensures var e := Style(inputs);
      var names := Clsx.Kept(ComposedClassNames(e.composed));
      && (e.owned.Some? ==> Clsx.Split(e.className) == names + [e.owned.value.className])
      && (e.owned.None? && names != [] ==> Clsx.Split(e.className) == names)
      && (e.owned.None? && names == [] ==> e.className == "")
  {
    var e := Style(inputs);
    if e.owned.Some? {
      LettersSpaceFree(e.owned.value.className);
    }
    ClassTokens(e.composed, e.owned);
  }

  lemma ClassTokens(composed: seq<StyleElement>, owned: Option<Compile.Owned>)
    requires forall i :: 0 <= i < |composed| ==> Clsx.SpaceFree(composed[i].className)
    requires owned.Some? ==> |owned.value.className| >= 1 && Clsx.SpaceFree(owned.value.className)
    ensures var className := Clsx.Clsx(ComposedClassNames(composed) + [OwnClassName(owned)]);
      var names := Clsx.Kept(ComposedClassNames(composed));
      && (owned.Some? ==> Clsx.Split(className) == names + [owned.value.className])
      && (owned.None? && names != [] ==> Clsx.Split(className) == names)
      && (owned.None? && names == [] ==> className == "")
  {
    var args := ComposedClassNames(composed) + [OwnClassName(owned)];
    Clsx.KeptIsFilter([], ComposedClassNames(composed), OwnClassName(owned));
    assert ComposedClassNames(composed) + [OwnClassName(owned)] + [] == args;
    if |Clsx.Kept(args)| >= 1 {
      Clsx.ClsxSplit(args);
    } else {
      Clsx.ClsxSmall(args);
    }
  }

  /** `styleElementToRules`: the rules of the composed elements, in order, then the own rules. */
  function StyleElementToRules(e: StyleElement): seq<string>
    decreases e, 1
  {
    RulesOfAll(e.composed) + (if e.owned.Some? then e.owned.value.styleRules else [])
  }

  /** `composed.flatMap(styleElementToRules)`. */
  function RulesOfAll(es: seq<StyleElement>): seq<string>
    decreases es, 0
  {
    if es == [] then [] else RulesOfAll(es[..|es| - 1]) + StyleElementToRules(es[|es| - 1])
  }

  /** The fragments of a composition in the order the registry visits them: children first, then its own. */
  function Owns(e: StyleElement): seq<Compile.Owned>
    decreases e, 1
  {
    OwnsAll(e.composed) + (if e.owned.Some? then [e.owned.value] else [])
  }

  function OwnsAll(es: seq<StyleElement>): seq<Compile.Owned>
    decreases es, 0
  {
    if es == [] then [] else OwnsAll(es[..|es| - 1]) + Owns(es[|es| - 1])
  }

  /** All rules of a list of fragments, in order. */
  function RulesOf(os: seq<Compile.Owned>): seq<string>
  {
    if os == [] then [] else RulesOf(os[..|os| - 1]) + os[|os| - 1].styleRules
  }

  lemma {:induction false} RulesOfAppend(a: seq<Compile.Owned>, b: seq<Compile.Owned>)
    ensures RulesOf(a + b) == RulesOf(a) + RulesOf(b)
  {
    if b == [] {
      assert a + b == a;
    } else {
      assert (a + b)[..|a + b| - 1] == a + b[..|b| - 1];
      RulesOfAppend(a, b[..|b| - 1]);
    }
  }

  /** The rules of an element are those of its fragments, in visiting order. */
  lemma {:induction false} RulesAreThoseOfOwns(e: StyleElement)
    ensures StyleElementToRules(e) == RulesOf(Owns(e))
    decreases e, 1
  {
    RulesOfAllAreThoseOfOwns(e.composed);
    var own := if e.owned.Some? then [e.owned.value] else [];
    RulesOfAppend(OwnsAll(e.composed), own);
    if e.owned.Some? {
      assert own[..0] == [];
    }
  }

  lemma {:induction false} RulesOfAllAreThoseOfOwns(es: seq<StyleElement>)
    ensures RulesOfAll(es) == RulesOf(OwnsAll(es))
    decreases es, 0
  {
    if es != [] {
      RulesOfAllAreThoseOfOwns(es[..|es| - 1]);
      RulesAreThoseOfOwns(es[|es| - 1]);
      RulesOfAppend(OwnsAll(es[..|es| - 1]), Owns(es[|es| - 1]));
    }
  }
}
