/** The encoded element: one member lifted out of an encoding template
    (a field, a helper method, a builder method, a standard accessor...),
    with a set of tags from which every role predicate is derived, and the
    one-liner projection used when the member's body is inlined. */
module Elements {
  import opened Collaborators
  import opened ShortForms

  /** `EncodedElement.Tag`: the closed set of sixteen tags. */
  datatype Tag =
    | Impl | Expose | Builder | Static | Private | Final | Build | Init
    | From | Helper | Field | ToString | HashCode | Equals | Copy | Synth

  /** `EncodedElement`. Its role predicates read nothing but `tags`;
      `OneLiner` reads `tags`, `typeParams` and `code`. */
  datatype EncodedElement = EncodedElement(
    name: string,
    ty: Type,
    naming: Naming,
    params: seq<Param>,
    code: seq<Term>,
    thrown: seq<Type>,
    tags: set<Tag>,
    typeParameters: TypeParameters,
    typeParams: seq<TypeParam>)
  {
    predicate IsToString() { ToString in tags }
    predicate IsHashCode() { HashCode in tags }
    predicate IsEquals() { Equals in tags }
    predicate IsFrom() { From in tags }
    predicate IsBuild() { Build in tags }
    predicate IsInit() { Init in tags }
    predicate IsCopy() { Copy in tags && !InBuilder() }
    predicate IsBuilderCopy() { Copy in tags && InBuilder() }
    predicate IsExpose() { Expose in tags }
    predicate InBuilder() { Builder in tags }
    predicate IsStatic() { Static in tags }
    predicate IsFinal() { Final in tags }
    predicate IsPrivate() { Private in tags }
    predicate IsSynthetic() { Synth in tags }
    predicate IsImplField() { Impl in tags }
    predicate IsValueField() { IsField() && Impl !in tags && !InBuilder() && !IsStatic() }
    predicate IsStaticField() { IsField() && !InBuilder() && IsStatic() }
    predicate IsField() { Field in tags }
    predicate IsBuilderField() { IsField() && InBuilder() && !IsStatic() }
    predicate IsStaticMethod() { Helper in tags && IsStatic() && !InBuilder() }
    predicate IsValueMethod() { Helper in tags && !IsStatic() && !InBuilder() }
    predicate IsBuilderMethod() { Helper in tags && InBuilder() }
    predicate IsBuilderStaticField() { IsField() && InBuilder() && IsStatic() }

    /** `oneLiner()`: the body compacted by `Code.oneLiner`, passed in as
        `codeOneLiner`, for an inlinable element without type parameters of
        its own; nothing otherwise. */
    function OneLiner(codeOneLiner: seq<Term> -> seq<Term>): (r: seq<Term>)
      ensures r != [] ==> IsInlinable() && typeParams == []
    {
      if IsInlinable() && typeParams == [] then codeOneLiner(code) else []
    }

    predicate IsInlinable() {
      IsEquals() || IsToString() || IsHashCode() || IsFrom() || IsCopy()
    }
  }

  /** How many of `flags` hold. */
  function CountTrue(flags: seq<bool>): (n: nat)
    ensures n <= |flags|
    ensures n == 0 <==> forall i :: 0 <= i < |flags| ==> !flags[i]
  {
    if flags == [] then 0 else (if flags[0] then 1 else 0) + CountTrue(flags[1..])
  }

  lemma CountThree(flags: seq<bool>)
    requires |flags| == 3
    ensures CountTrue(flags) == (if flags[0] then 1 else 0) + (if flags[1] then 1 else 0) + (if flags[2] then 1 else 0)
  {
  }

  lemma CountFour(flags: seq<bool>)
    requires |flags| == 4
    ensures CountTrue(flags) == (if flags[0] then 1 else 0) + CountTrue(flags[1..])
    ensures CountTrue(flags[1..]) == (if flags[1] then 1 else 0) + (if flags[2] then 1 else 0) + (if flags[3] then 1 else 0)
  {
    CountThree(flags[1..]);
  }

  /** Two elements with the same tags answer every role predicate alike,
      whatever their name, type, parameters, body or type parameters. */
  lemma PredicatesReadOnlyTags(e: EncodedElement, f: EncodedElement)
    requires e.tags == f.tags
    ensures e.IsToString() == f.IsToString() && e.IsHashCode() == f.IsHashCode()
    ensures e.IsEquals() == f.IsEquals() && e.IsFrom() == f.IsFrom()
    ensures e.IsBuild() == f.IsBuild() && e.IsInit() == f.IsInit()
    ensures e.IsCopy() == f.IsCopy() && e.IsBuilderCopy() == f.IsBuilderCopy()
    ensures e.IsExpose() == f.IsExpose() && e.InBuilder() == f.InBuilder()
    ensures e.IsStatic() == f.IsStatic() && e.IsFinal() == f.IsFinal()
    ensures e.IsPrivate() == f.IsPrivate() && e.IsSynthetic() == f.IsSynthetic()
    ensures e.IsImplField() == f.IsImplField() && e.IsField() == f.IsField()
    ensures e.IsValueField() == f.IsValueField() && e.IsStaticField() == f.IsStaticField()
    ensures e.IsBuilderField() == f.IsBuilderField() && e.IsBuilderStaticField() == f.IsBuilderStaticField()
    ensures e.IsStaticMethod() == f.IsStaticMethod() && e.IsValueMethod() == f.IsValueMethod()
    ensures e.IsBuilderMethod() == f.IsBuilderMethod()
    ensures e.IsInlinable() == f.IsInlinable()
  {
  }

  /** Where each role places its member: the builder-side roles need the
      `Builder` tag and the value-side ones exclude it; the static roles
      need `Static` and the instance ones exclude it. */
  lemma RoleSides(e: EncodedElement)
    ensures e.IsBuilderCopy() || e.IsBuilderField() || e.IsBuilderStaticField() || e.IsBuilderMethod()
      ==> Builder in e.tags
    ensures e.IsCopy() || e.IsValueField() || e.IsStaticField() || e.IsStaticMethod() || e.IsValueMethod()
      ==> Builder !in e.tags
    ensures e.IsStaticField() || e.IsBuilderStaticField() || e.IsStaticMethod() ==> Static in e.tags
    ensures e.IsValueField() || e.IsBuilderField() || e.IsValueMethod() ==> Static !in e.tags
  {
  }

  /** A copy lives either on the value or on the builder, never on both:
      `IsCopy` and `IsBuilderCopy` exclude each other, one of them holds
      exactly when `Copy` is a tag, and `Builder` decides which. */
  lemma CopySides(e: EncodedElement)
    ensures !(e.IsCopy() && e.IsBuilderCopy())
    ensures e.IsCopy() || e.IsBuilderCopy() <==> Copy in e.tags
    ensures Copy in e.tags ==> (e.IsBuilderCopy() <==> Builder in e.tags)
  {
  }

  /** The four field placements all need the `Field` tag; at most one of
      them holds, and exactly one does for a field that is not the `Impl`
      slot. */
  lemma FieldPlacements(e: EncodedElement)
    ensures e.IsValueField() ==> Field in e.tags
    ensures e.IsStaticField() ==> Field in e.tags
    ensures e.IsBuilderField() ==> Field in e.tags
    ensures e.IsBuilderStaticField() ==> Field in e.tags
    ensures CountTrue([e.IsValueField(), e.IsStaticField(), e.IsBuilderField(), e.IsBuilderStaticField()]) <= 1
    ensures Field in e.tags && Impl !in e.tags ==>
      CountTrue([e.IsValueField(), e.IsStaticField(), e.IsBuilderField(), e.IsBuilderStaticField()]) == 1
  {
    var flags := [e.IsValueField(), e.IsStaticField(), e.IsBuilderField(), e.IsBuilderStaticField()];
    CountFour(flags);
  }

  /** A helper method is placed exactly once: with the `Helper` tag exactly
      one of static, value-side and builder-side method holds; without it,
      none does. */
  lemma HelperPlacements(e: EncodedElement)
    ensures Helper in e.tags ==> CountTrue([e.IsStaticMethod(), e.IsValueMethod(), e.IsBuilderMethod()]) == 1
    ensures Helper !in e.tags ==> !e.IsStaticMethod() && !e.IsValueMethod() && !e.IsBuilderMethod()
  {
    var flags := [e.IsStaticMethod(), e.IsValueMethod(), e.IsBuilderMethod()];
    CountThree(flags);
  }

  /** An element is inlinable exactly when it is an `equals`, `toString`,
      `hashCode` or `from`, or a copy that does not live on the builder. */
  lemma InlinableTags(e: EncodedElement)
    ensures e.IsInlinable() <==>
      Equals in e.tags || ToString in e.tags || HashCode in e.tags || From in e.tags
      || (Copy in e.tags && Builder !in e.tags)
  {
  }

  /** A builder-side copy with no other inlinable role is not inlinable. */
  lemma BuilderCopyNotInlinable(e: EncodedElement)
    requires e.IsBuilderCopy()
    requires Equals !in e.tags && ToString !in e.tags && HashCode !in e.tags && From !in e.tags
    ensures !e.IsInlinable()
    ensures forall codeOneLiner: seq<Term> -> seq<Term> :: e.OneLiner(codeOneLiner) == []
  {
  }

  /** The one-liner is empty for an element that is not inlinable or that
      declares type parameters of its own; otherwise it is the compacted
      body. It reads no other field. */
  lemma OneLinerCases(e: EncodedElement, codeOneLiner: seq<Term> -> seq<Term>)
    ensures !e.IsInlinable() || e.typeParams != [] ==> e.OneLiner(codeOneLiner) == []
    ensures e.IsInlinable() && e.typeParams == [] ==> e.OneLiner(codeOneLiner) == codeOneLiner(e.code)
    ensures forall f: EncodedElement ::
      (f.tags == e.tags && f.code == e.code && f.typeParams == e.typeParams
       ==> f.OneLiner(codeOneLiner) == e.OneLiner(codeOneLiner))
  {
  }

  /** The role predicates do not partition the elements: a `Field` tagged
      also `Impl` and `Static` is both the implementation slot and a static
      field. */
  lemma ImplStaticFieldOverlap(e: EncodedElement)
    requires e.tags == {Field, Impl, Static}
    ensures e.IsImplField() && e.IsStaticField()
    ensures !e.IsValueField()
  {
  }
}
