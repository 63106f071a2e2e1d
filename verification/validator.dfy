/** The annotation processor's acceptance rule for a presenter class
    (`Validator.checkValidClass`): the class must be public, must not be
    abstract, and must declare a public constructor without parameters. The
    compiler's element model is reduced to the modifiers and the enclosed
    elements' kinds, modifiers and parameter counts. */
module Validator {

  datatype Modifier =
    | Public | Protected | Private | Abstract | Default | Static | Final
    | Transient | Volatile | Synchronized | Native | StrictFp

  datatype ElementKind = Constructor | Method | Field | NestedType | Initializer

  /** An element enclosed by the class; `parameters` is only meaningful for
      executables. */
  datatype Element = Element(kind: ElementKind, modifiers: set<Modifier>, parameters: nat)

  datatype ClassElement = ClassElement(qualifiedName: string, modifiers: set<Modifier>, enclosed: seq<Element>)

  /** The `ProcessingException`s the rule raises, in the order it checks. */
  datatype ProcessingError =
    | NotPublic(name: string)
    | IsAbstract(name: string)
    | NoEmptyPublicConstructor(name: string)

  datatype Verdict = Accepted | Rejected(error: ProcessingError)

  predicate IsEmptyPublicConstructor(e: Element) {
    e.kind == Constructor && e.parameters == 0 && Public in e.modifiers
  }

  /** Declarative statement of the rule, against which the check is proved. */
  predicate Acceptable(c: ClassElement) {
    && Public in c.modifiers
    && Abstract !in c.modifiers
    && exists i :: 0 <= i < |c.enclosed| && IsEmptyPublicConstructor(c.enclosed[i])
  }

  /** The check as written: two modifier tests, then a scan of the enclosed
      elements that stops at the first public no-argument constructor. */
  method CheckValidClass(c: ClassElement) returns (v: Verdict)
    ensures v.Accepted? <==> Acceptable(c)
    ensures Public !in c.modifiers ==> v == Rejected(NotPublic(c.qualifiedName))
    ensures Public in c.modifiers && Abstract in c.modifiers ==> v == Rejected(IsAbstract(c.qualifiedName))
    ensures Public in c.modifiers && Abstract !in c.modifiers && v.Rejected? ==>
              v == Rejected(NoEmptyPublicConstructor(c.qualifiedName))
  {
    if Public !in c.modifiers {
      return Rejected(NotPublic(c.qualifiedName));
    }
    if Abstract in c.modifiers {
      return Rejected(IsAbstract(c.qualifiedName));
    }
    var i := 0;
    while i < |c.enclosed|
      invariant 0 <= i <= |c.enclosed|
      invariant forall j :: 0 <= j < i ==> !IsEmptyPublicConstructor(c.enclosed[j])
    {
      var enclosed := c.enclosed[i];
      if enclosed.kind == Constructor {
        if enclosed.parameters == 0 && Public in enclosed.modifiers {
          return Accepted;
        }
      }
      i := i + 1;
    }
    return Rejected(NoEmptyPublicConstructor(c.qualifiedName));
  }

  /** Elements that are not constructors never change the outcome, wherever
      they are inserted. */
  lemma NonConstructorsIgnored(c: ClassElement, k: nat, e: Element)
    requires k <= |c.enclosed| && e.kind != Constructor
    ensures Acceptable(c.(enclosed := c.enclosed[..k] + [e] + c.enclosed[k..])) == Acceptable(c)
  {
    var d := c.enclosed[..k] + [e] + c.enclosed[k..];
    if Acceptable(c) {
      var i :| 0 <= i < |c.enclosed| && IsEmptyPublicConstructor(c.enclosed[i]);
      if i < k {
        assert d[i] == c.enclosed[i];
      } else {
        assert d[i + 1] == c.enclosed[i];
      }
    }
    if Acceptable(c.(enclosed := d)) {
      var i :| 0 <= i < |d| && IsEmptyPublicConstructor(d[i]);
      if i < k {
        assert c.enclosed[i] == d[i];
      } else {
        assert i != k;
        assert c.enclosed[i - 1] == d[i];
      }
    }
  }

  /** A class whose constructors all take parameters or are not public is
      rejected, however many of them it declares. */
  lemma OnlyEmptyPublicConstructorsCount(c: ClassElement)
    requires forall i :: 0 <= i < |c.enclosed| && c.enclosed[i].kind == Constructor ==>
               c.enclosed[i].parameters > 0 || Public !in c.enclosed[i].modifiers
    ensures !Acceptable(c)
  {
  }
}
