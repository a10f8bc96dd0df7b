/**
 * The declaration compiler of src/purse.tsx: rendering declarations to
 * `prop:value;` text with pixel units, and compiling a style object to its
 * owned fragment, a content-hashed class name with its rules.
 */
module Compile {
  import opened Wrappers
  import opened Props
  import Hyphenate
  import HashObject
  import Merge
  import GroupSpec

  /** `UNITLESS_NUMBER_PROPS`, as written: note `tabSize` is camel case, so it never matches. */
  const UnitlessNumberProps: seq<string> := [
    "animation-iteration-count", "border-image-outset", "border-image-slice",
    "border-image-width", "box-flex", "box-flex-group", "box-ordinal-group",
    "column-count", "columns", "flex", "flex-grow", "flex-positive", "flex-shrink",
    "flex-negative", "flex-order", "grid-row", "grid-row-end", "grid-row-span",
    "grid-row-start", "grid-column", "grid-column-end", "grid-column-span",
    "grid-column-start", "font-weight", "line-clamp", "line-height", "opacity",
    "order", "orphans", "tabSize", "widows", "z-index", "zoom",
    "fill-opacity", "flood-opacity", "stop-opacity", "stroke-dasharray",
    "stroke-dashoffset", "stroke-miterlimit", "stroke-opacity", "stroke-width"
  ]

  /** A value as a template literal renders it. */
  function ValueText(v: Value): string
  {
    match v
    case Str(s) => s
    case Num(text) => text
    case Obj(_) => "[object Object]"
    case Null => "null"
    case Undefined => "undefined"
  }

  /** Pixels are added to a number exactly when its kebab property is not unit-less. */
  predicate NeedsPixels(kebab: string, v: Value)
  {
    v.Num? && kebab !in UnitlessNumberProps
  }

  /** One declaration of `compileDeclarations`. */
  function CompileDeclaration(property: string, v: Value): string
  {
    var kebab := Hyphenate.HyphenateStyleName(property);
    kebab + ":" + ValueText(v) + (if NeedsPixels(kebab, v) then "px" else "") + ";"
  }

  /** `entries(declarations).map(f).join("")`: each entry's text, in entry order, with nothing between. */
  function MapJoin(declarations: Props, f: (string, Value) -> string): string
  {
    if declarations == [] then ""
    else f(declarations[0].0, declarations[0].1) + MapJoin(declarations[1..], f)
  }

  /** `compileDeclarations`. */
  function CompileDeclarations(declarations: Props): string
  {
    MapJoin(declarations, CompileDeclaration)
  }

  lemma {:induction false} MapJoinAppend(a: Props, b: Props, f: (string, Value) -> string)
    ensures MapJoin(a + b, f) == MapJoin(a, f) + MapJoin(b, f)
  {
    if a == [] {
      assert a + b == b;
    } else {
      assert (a + b)[0] == a[0];
      assert (a + b)[1..] == a[1..] + b;
      MapJoinAppend(a[1..], b, f);
    }
  }

  /** Compiling is the in-order concatenation of the declarations' texts. */
  lemma CompileDeclarationsAppend(a: Props, b: Props)
    ensures CompileDeclarations(a + b) == CompileDeclarations(a) + CompileDeclarations(b)
  {
    MapJoinAppend(a, b, CompileDeclaration);
  }

  /**
   * A number gets `px` exactly when the kebab property is not in the list;
   * a string is never suffixed.
   */
  lemma DeclarationUnits(property: string, text: string)
    ensures var kebab := Hyphenate.HyphenateStyleName(property);
      && (kebab in UnitlessNumberProps ==> CompileDeclaration(property, Num(text)) == kebab + ":" + text + ";")
      && (kebab !in UnitlessNumberProps ==> CompileDeclaration(property, Num(text)) == kebab + ":" + text + "px;")
      && CompileDeclaration(property, Str(text)) == kebab + ":" + text + ";"
  {
  }

  /** A listed lower-case property takes its number as written. */
  lemma ListedLowerWord(w: string, text: string)
    requires Hyphenate.AllLower(w) && w in UnitlessNumberProps
    ensures CompileDeclaration(w, Num(text)) == w + ":" + text + ";"
  {
    Hyphenate.LowerWordHyphenates(w);
    DeclarationUnits(w, text);
  }

  /** An unlisted lower-case property gets its number in pixels. */
  lemma UnlistedLowerWord(w: string, text: string)
    requires Hyphenate.AllLower(w) && w !in UnitlessNumberProps
    ensures CompileDeclaration(w, Num(text)) == w + ":" + text + "px;"
  {
    Hyphenate.LowerWordHyphenates(w);
    DeclarationUnits(w, text);
  }

  /** `width: 10` compiles to `width:10px;`. */
  lemma WidthGetsPixels()
    ensures CompileDeclaration("width", Num("10")) == "width:10px;"
  {
    WidthNotListed();
    UnlistedLowerWord("width", "10");
  }

  lemma WidthNotListed()
    ensures "width" !in UnitlessNumberProps
  {
    assert forall i | 0 <= i < |UnitlessNumberProps| ::
      |UnitlessNumberProps[i]| != 5 || UnitlessNumberProps[i][0] != 'w';
  }

  /** A numeric `opacity` is written without a unit: `opacity:<n>;`. */
  lemma OpacityIsUnitless(text: string)
    ensures CompileDeclaration("opacity", Num(text)) == "opacity:" + text + ";"
  {
    OpacityListed();
    assert Hyphenate.AllLower("opacity");
    ListedLowerWord("opacity", text);
    assert "opacity" + ":" == "opacity:";
  }

  lemma OpacityListed()
    ensures "opacity" in UnitlessNumberProps
  {
    assert UnitlessNumberProps[26] == "opacity";
  }

  /** The camel-case list entry: a numeric `tabSize` renders as `tab-size:<n>px;`. */
  lemma TabSizeGetsPixels(text: string)
    ensures CompileDeclaration("tabSize", Num(text)) == "tab-size:" + text + "px;"
  {
    Hyphenate.TwoWordsHyphenate("tab", 'S', "ize");
    assert "tab" + ['S'] + "ize" == "tabSize";
    assert "tab" + ['-', 's'] + "ize" == "tab-size";
    TabSizeNotListed();
    DeclarationUnits("tabSize", text);
  }

  lemma TabSizeNotListed()
    ensures "tab-size" !in UnitlessNumberProps
  {
    assert forall i | 0 <= i < |UnitlessNumberProps| ::
      |UnitlessNumberProps[i]| != 8 || UnitlessNumberProps[i][0] != 't';
  }

  /** The owned fragment of a style element: its own rules and class name. */
  datatype Owned = Owned(styleRules: seq<string>, className: string)

  /** `mapValues(groups, compileDeclarations)`. */
  function CompiledByGroup(groups: seq<(string, Props)>): (r: seq<(string, string)>)
    ensures |r| == |groups|
    ensures forall i :: 0 <= i < |r| ==> r[i] == (groups[i].0, CompileDeclarations(groups[i].1))
  {
    if groups == [] then []
    else [(groups[0].0, CompileDeclarations(groups[0].1))] + CompiledByGroup(groups[1..])
  }

  /** `group.replace(/&/g, replacement)`. */
  function ReplaceAmpersand(s: string, replacement: string): string
  {
    if s == [] then []
    else (if s[0] == '&' then replacement else [s[0]]) + ReplaceAmpersand(s[1..], replacement)
  }

  /** Every `&` is replaced, and nothing else changes. */
  lemma ReplaceAmpersandSpec(a: string, b: string, replacement: string)
    ensures ReplaceAmpersand(a + "&" + b, replacement) ==
      ReplaceAmpersand(a, replacement) + replacement + ReplaceAmpersand(b, replacement)
    ensures '&' !in a ==> ReplaceAmpersand(a, replacement) == a
  {
    ReplaceAmpersandAppend(a + "&", b, replacement);
    ReplaceAmpersandAppend(a, "&", replacement);
    assert "&"[1..] == [];
    if '&' !in a {
      ReplaceAmpersandPlain(a, replacement);
    }
  }

  lemma {:induction false} ReplaceAmpersandAppend(a: string, b: string, replacement: string)
    ensures ReplaceAmpersand(a + b, replacement) == ReplaceAmpersand(a, replacement) + ReplaceAmpersand(b, replacement)
  {
    if a == [] {
      assert a + b == b;
    } else {
      assert (a + b)[0] == a[0];
      assert (a + b)[1..] == a[1..] + b;
      ReplaceAmpersandAppend(a[1..], b, replacement);
    }
  }

  lemma {:induction false} ReplaceAmpersandPlain(a: string, replacement: string)
    requires '&' !in a
    ensures ReplaceAmpersand(a, replacement) == a
  {
    if a != [] {
      ReplaceAmpersandPlain(a[1..], replacement);
    }
  }

  /** When the replacement holds no `&`, none is left. */
  lemma {:induction false} ReplaceAmpersandRemovesAll(s: string, replacement: string)
    requires '&' !in replacement
    ensures '&' !in ReplaceAmpersand(s, replacement)
  {
    if s != [] {
      ReplaceAmpersandRemovesAll(s[1..], replacement);
    }
  }

  /** The rule text for one group: base, at-rule or nested selector. */
  function RuleText(className: string, group: string, styles: string): string
  {
    if group == "" then "." + className + "{" + styles + "}"
    else if group[0] == '@' then group + "{." + className + "{" + styles + "}}"
    else ReplaceAmpersand(group, "." + className) + "{" + styles + "}"
  }

  function RuleTexts(className: string, compiled: seq<(string, string)>): (r: seq<string>)
    ensures |r| == |compiled|
    ensures forall i :: 0 <= i < |r| ==> r[i] == RuleText(className, compiled[i].0, compiled[i].1)
  {
    if compiled == [] then []
    else [RuleText(className, compiled[0].0, compiled[0].1)] + RuleTexts(className, compiled[1..])
  }

  /** `compileCSS`. */
  function CompileCSS(properties: Props): Option<Owned>
  {
    if properties == [] then None
    else
      var compiled := CompiledByGroup(Merge.Grouped(properties));
      var className := HashObject.HashObject(compiled);
      Some(Owned(RuleTexts(className, compiled), className))
  }

  /**
   * `compileCSS` gives no fragment exactly for the object without keys;
   * otherwise one rule per group, in group order, under a class name that
   * is a hash of the compiled groups: a CSS class token of one to six letters.
   */
  lemma CompileCSSSpec(properties: Props)
    ensures CompileCSS(properties).None? <==> properties == []
    ensures properties != [] ==>
      var owned := CompileCSS(properties).value;
      var groups := Merge.Grouped(properties);
      && owned.className == HashObject.HashObject(CompiledByGroup(groups))
      && 1 <= |owned.className| <= 6 && HashObject.AllLetters(owned.className)
      && |owned.styleRules| == |groups|
      && forall i :: 0 <= i < |groups| ==>
           owned.styleRules[i] == RuleText(owned.className, groups[i].0, CompileDeclarations(groups[i].1))
  {
  }

  /** On a well-formed object, the rules are those of the expected groups, so one per non-empty group. */
  lemma CompileCSSRuleCount(properties: Props)
    requires properties != [] && AllWellFormed(properties) && "" !in Keys(properties)
    ensures |CompileCSS(properties).value.styleRules| == |GroupSpec.ExpectedGroups(properties)|
  {
    GroupSpec.GroupedSpec(properties);
  }

  /** Content addressing: equal compiled groups give equal class names and equal rules. */
  lemma CompileCSSContentAddressed(p1: Props, p2: Props)
    requires p1 != [] && p2 != []
    requires CompiledByGroup(Merge.Grouped(p1)) == CompiledByGroup(Merge.Grouped(p2))
    ensures CompileCSS(p1) == CompileCSS(p2)
  {
  }

  /** No rule of a `&` selector keeps an `&`: every one became `.className`. */
  lemma NestedRuleHasNoAmpersand(className: string, group: string, styles: string)
    requires HashObject.AllLetters(className)
    requires group != "" && group[0] != '@'
    ensures RuleText(className, group, styles) ==
      ReplaceAmpersand(group, "." + className) + "{" + styles + "}"
    ensures '&' !in ReplaceAmpersand(group, "." + className)
  {
    assert '&' !in "." + className by {
      forall i | 0 <= i < |"." + className| ensures ("." + className)[i] != '&' {
        if i > 0 {
          assert ("." + className)[i] == className[i - 1];
        }
      }
    }
    ReplaceAmpersandRemovesAll(group, "." + className);
  }

  /**
   * An object with keys none of which declares anything (all null,
   * undefined or empty nested objects) still compiles to a fragment: it has
   * no rules and the class name is the hash of `{}`.
   */
  lemma AllNullStillOwned(properties: Props)
    requires properties != []
    requires forall i :: 0 <= i < |properties| ==> GroupSpec.DeclaresNothing(properties[i].1)
    ensures CompileCSS(properties) == Some(Owned([], HashObject.HashObject([])))
  {
    GroupSpec.GroupedNothingDeclared(properties);
  }
}
