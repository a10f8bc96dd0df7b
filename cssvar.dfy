/** `createCssVar` from src/cssVar.ts: a reference to a CSS custom property. */
module CssVar {
  import opened Wrappers

  const Prefix: string := "var(--"
  const Suffix: string := ")"

  /** The text `var(--<name>)`. */
  function CreateCssVar(name: string): (r: string)
    ensures |r| == |name| + 7
    ensures r[..6] == Prefix && r[|r| - 1] == ')'
    ensures r[6..|r| - 1] == name
  {
    Prefix + name + Suffix
  }

  /** Reads the custom property name back out of a `var(--…)` reference. */
  function ParseCssVar(s: string): (r: Option<string>)
    ensures r.Some? <==> (|s| >= 7 && s[..6] == Prefix && s[|s| - 1] == ')')
  {
    if |s| >= 7 && s[..6] == Prefix && s[|s| - 1] == ')' then Some(s[6..|s| - 1])
    else None
  }

  /** Parsing a created reference gives back the name. */
  lemma ParseCreate(name: string)
    ensures ParseCssVar(CreateCssVar(name)) == Some(name)
  {
  }

  /** Two names give the same reference only if they are equal. */
  lemma CreateCssVarInjective(a: string, b: string)
    requires CreateCssVar(a) == CreateCssVar(b)
    ensures a == b
  {
    ParseCreate(a);
    ParseCreate(b);
  }
}
