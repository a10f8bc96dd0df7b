/** `clsx` from src/clsx.ts: join the truthy class-name arguments with spaces. */
module Clsx {

  /** One argument: a string, or one of the falsy non-strings the signature admits. */
  datatype ClassArg = Name(s: string) | Undefined | Null | False

  /** `filter(Boolean)`: keeps exactly the non-empty strings, in order. */
  function Kept(args: seq<ClassArg>): (r: seq<string>)
    ensures |r| <= |args|
    ensures forall i :: 0 <= i < |r| ==> r[i] != ""
  {
    if args == [] then []
    else if args[0].Name? && args[0].s != "" then [args[0].s] + Kept(args[1..])
    else Kept(args[1..])
  }

  /** `Array.prototype.join(sep)`. */
  function Join(xs: seq<string>, sep: string): string
  {
    if xs == [] then ""
    else if |xs| == 1 then xs[0]
    else xs[0] + sep + Join(xs[1..], sep)
  }

  function Clsx(args: seq<ClassArg>): string
  {
    Join(Kept(args), " ")
  }

  /** `String.prototype.split(" ")`: the empty string splits into one empty piece. */
  function Split(s: string): (r: seq<string>)
    ensures |r| >= 1
    decreases |s|
  {
    if ' ' in s then
      var i := IndexOfSpace(s);
      [s[..i]] + Split(s[i + 1..])
    else [s]
  }

  function IndexOfSpace(s: string): (i: nat)
    requires ' ' in s
    ensures i < |s| && s[i] == ' ' && ' ' !in s[..i]
  {
    if s[0] == ' ' then 0 else 1 + IndexOfSpace(s[1..])
  }

  predicate SpaceFree(s: string)
  {
    ' ' !in s
  }

  /** The kept arguments are exactly the non-empty strings among the arguments, in order. */
  lemma {:induction false} KeptIsFilter(args: seq<ClassArg>, pre: seq<ClassArg>, a: ClassArg)
    ensures Kept(pre + [a] + args) ==
      Kept(pre) + (if a.Name? && a.s != "" then [a.s] else []) + Kept(args)
  {
    if pre == [] {
      assert [a] + args == pre + [a] + args;
      assert (pre + [a] + args)[1..] == args;
    } else {
      assert (pre + [a] + args)[1..] == pre[1..] + [a] + args;
      KeptIsFilter(args, pre[1..], a);
    }
  }

  /** Nothing kept gives "", one kept argument is returned unchanged. */
  lemma ClsxSmall(args: seq<ClassArg>)
    ensures |Kept(args)| == 0 ==> Clsx(args) == ""
    ensures |Kept(args)| == 1 ==> Clsx(args) == Kept(args)[0]
  {
  }

  /** Joining then splitting on the separator returns the pieces, when none holds a space. */
  lemma {:induction false} SplitJoin(xs: seq<string>)
    requires |xs| >= 1
    requires forall i :: 0 <= i < |xs| ==> SpaceFree(xs[i])
    ensures Split(Join(xs, " ")) == xs
  {
    if |xs| == 1 {
    } else {
      var rest := Join(xs[1..], " ");
      var s := xs[0] + " " + rest;
      assert s[|xs[0]|] == ' ';
      assert ' ' in s;
      var i := IndexOfSpace(s);
      assert s[..|xs[0]|] == xs[0];
      assert i == |xs[0]|;
      assert s[i + 1..] == rest;
      SplitJoin(xs[1..]);
    }
  }

  /** Splitting a `clsx` result gives back the kept arguments, when each is space-free. */
  lemma ClsxSplit(args: seq<ClassArg>)
    requires |Kept(args)| >= 1
    requires forall i :: 0 <= i < |args| && args[i].Name? ==> SpaceFree(args[i].s)
    ensures Split(Clsx(args)) == Kept(args)
  {
    KeptSpaceFree(args);
    SplitJoin(Kept(args));
  }

  lemma {:induction false} KeptSpaceFree(args: seq<ClassArg>)
    requires forall i :: 0 <= i < |args| && args[i].Name? ==> SpaceFree(args[i].s)
    ensures forall i :: 0 <= i < |Kept(args)| ==> SpaceFree(Kept(args)[i])
  {
    if args != [] {
      KeptSpaceFree(args[1..]);
    }
  }
}
