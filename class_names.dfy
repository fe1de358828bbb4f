/**
 * The `cx` class-name helper. TimelineRoadmap.tsx and CompanyAccordion.tsx each
 * define the same function (`filter(Boolean).join(" ")`); it is modelled once here.
 */
module ClassNames {
  import Strings

  /** One argument of `cx`: a class string, or one of the falsy non-strings. */
  datatype ClassArg = Name(text: string) | False | Null | Undefined

  /** JavaScript truthiness of an argument: only a non-empty string survives `filter(Boolean)`. */
  predicate Truthy(a: ClassArg)
  {
    a.Name? && a.text != ""
  }

  /** The strings `filter(Boolean)` keeps, in order. */
  function Kept(args: seq<ClassArg>): (r: seq<string>)
    ensures |r| <= |args|
    ensures forall i :: 0 <= i < |r| ==> r[i] != ""
  {
    if |args| == 0 then []
    else (if Truthy(args[0]) then [args[0].text] else []) + Kept(args[1..])
  }

  /** `cx(...args)`: the kept strings joined by single spaces. */
  function Cx(args: seq<ClassArg>): string
  {
    Strings.Join(Kept(args), " ")
  }

  lemma {:induction false} KeptConcat(a: seq<ClassArg>, b: seq<ClassArg>)
    ensures Kept(a + b) == Kept(a) + Kept(b)
  {
    if |a| > 0 {
      assert (a + b)[1..] == a[1..] + b;
      KeptConcat(a[1..], b);
    } else {
      assert a + b == b;
    }
  }

  /**
   * `cx` is compositional: the classes of `a + b` are those of `a`, one space,
   * then those of `b`, with no stray space when either side contributes nothing.
   */
  lemma CxConcat(a: seq<ClassArg>, b: seq<ClassArg>)
    ensures Cx(a + b) ==
      if Cx(a) == "" then Cx(b)
      else if Cx(b) == "" then Cx(a)
      else Cx(a) + " " + Cx(b)
  {
    KeptConcat(a, b);
    Strings.JoinConcat(Kept(a), Kept(b), " ");
    Strings.JoinEmptyIff(Kept(a), " ");
    Strings.JoinEmptyIff(Kept(b), " ");
  }

  /** A falsy argument (false, null, undefined or "") anywhere leaves the result unchanged. */
  lemma CxDropsFalsy(a: seq<ClassArg>, x: ClassArg, b: seq<ClassArg>)
    requires !Truthy(x)
    ensures Cx(a + [x] + b) == Cx(a + b)
  {
    KeptConcat(a + [x], b);
    KeptConcat(a, [x]);
    KeptConcat(a, b);
    assert Kept([x]) == [] by {
      assert [x][1..] == [];
    }
    assert Kept(a + [x] + b) == Kept(a + b);
  }

  /** A single non-empty class string comes back unchanged. */
  lemma CxSingle(s: string)
    requires s != ""
    ensures Cx([Name(s)]) == s
  {
    assert Kept([Name(s)]) == [s];
  }
  /** `cx` gives a non-empty string as soon as one argument is truthy. */
  lemma CxNonEmpty(args: seq<ClassArg>, i: nat)
    requires i < |args| && Truthy(args[i])
    ensures Cx(args) != ""
  {
    assert args == args[..i] + [args[i]] + args[i+1..];
    KeptConcat(args[..i] + [args[i]], args[i+1..]);
    KeptConcat(args[..i], [args[i]]);
    assert Kept([args[i]]) == [args[i].text];
    Strings.JoinEmptyIff(Kept(args), " ");
  }
}
