# Encoded element of the Immutables encoding processor, in Dafny

This project models `EncodedElement`, the record that the Immutables
annotation processor keeps for every member it lifts out of an *encoding*
template: fields, helper methods, builder methods, the `build`/`init`/`from`
operations, copy operations and the `toString`/`hashCode`/`equals`
accessors. An element has a name, a type, a naming template, parameters, a
body given as lexical terms, thrown types, generic type parameters and a
set of **tags**. Every role predicate (`isCopy`, `isBuilderField`,
`isStaticMethod`, ...) is a boolean formula over the tags. The element also
has a one-liner projection of its body, used when the body is inlined. Two
nested records, `Param` and `TypeParam`, can be read from and printed as
the short forms `name: Type` and `T: A & B`.

Files:

- `collaborators.dfy` (module `Collaborators`): the types the element
  stores but never looks into (`Type`, `Naming`, `Type.Parameters`,
  `Type.Factory`, `Code.Term`), declared as abstract types. The type parser
  is a function value that either fails or returns a type together with a
  flag saying whether it is a `Type.Defined`.
- `text.dfy` (module `Text`): Guava's `Splitter.on(c).trimResults()` and
  `Joiner.on(sep)`, written out over strings. `Split` keeps empty pieces.
  `Trim` strips the fixed whitespace set of `CharMatcher.whitespace()`.
  The module proves that split and join invert each other, and how
  trimming and splitting treat the whitespace around their input.
- `short_forms.dfy` (module `ShortForms`): `Param` and `TypeParam`, with
  `Param.from`/`toString` and `TypeParam.from`/`toString`. `TypeParam.from`
  is a method with a loop that adds one bound per `&`-piece, as in the
  source. It is proved equal to the function `TypeParamOf`, and lemmas
  characterise `TypeParamOf` directly.
- `encoded_element.dfy` (module `Elements`): `Tag`, `EncodedElement`, its
  role predicates, `isInlinable` and `oneLiner`, with lemmas about how the
  predicates relate.

Three behaviours of the code differ from what one might expect of the
short forms and the tags; the model follows the code:

- One might expect a type parameter without bounds to print as its bare
  name. The code always writes `": "`, so `T` prints as `"T: "`. Reading
  that text back parses the empty text as a bound, so it gives either an
  error or a type parameter with one bound parsed from the empty text, and
  never the original. `ShortForms.BoundlessTypeParamText` proves this.
- One might expect the role predicates to place every element in exactly
  one category. The code does not enforce this:
  `Elements.ImplStaticFieldOverlap` shows one element that is both the
  `IMPL` slot and a static field.
- One might expect a parameter short form to be cut at its first `:` only.
  The code splits on every `:` and reads only the first two pieces, so
  `a : b : c` has type text `b`.

## Model

| member | source | states |
|---|---|---|
| `Text.Trim` | value-processor/src/org/immutables/value/processor/encode/EncodedElement.java:260-261 | the trimmed result neither starts nor ends with a whitespace character and is no longer than the input |
| `Text.TrimKeeps` | value-processor/src/org/immutables/value/processor/encode/EncodedElement.java:260-261 | every character of a trimmed piece occurs in the untrimmed piece |
| `Text.TrimTrimmed` | value-processor/src/org/immutables/value/processor/encode/EncodedElement.java:260-261 | trimming text that has no outer whitespace changes nothing, so trimming twice is the same as trimming once |
| `Text.TrimIgnoresMargins` | value-processor/src/org/immutables/value/processor/encode/EncodedElement.java:260-261 | adding whitespace before or after a string does not change its trimmed value |
| `Text.TrimSplitsOff` | value-processor/src/org/immutables/value/processor/encode/EncodedElement.java:260-261 | every string is whitespace, then its trimmed value, then whitespace |
| `Text.Split` | value-processor/src/org/immutables/value/processor/encode/EncodedElement.java:260-261 | splitting always yields at least one piece, and no piece contains the separator |
| `Text.SplitTrimmed` | value-processor/src/org/immutables/value/processor/encode/EncodedElement.java:260-261 | the trimmed splitter yields one piece per plain split piece, at least one, each the plain piece trimmed |
| `Text.SplitWithout` | value-processor/src/org/immutables/value/processor/encode/EncodedElement.java:260-261 | text without the separator splits into exactly itself |
| `Text.SplitAfterFirst` | value-processor/src/org/immutables/value/processor/encode/EncodedElement.java:260-261 | the text before the first separator is the first piece, and the rest splits on its own |
| `Text.JoinSplit` | value-processor/src/org/immutables/value/processor/encode/EncodedElement.java:260-261 | joining the pieces with the separator gives back the input |
| `Text.SplitJoin` | value-processor/src/org/immutables/value/processor/encode/EncodedElement.java:260-261 | splitting a join of separator-free parts gives back exactly those parts, in order |
| `Text.SplitPrepend` | value-processor/src/org/immutables/value/processor/encode/EncodedElement.java:260-261 | separator-free text put in front of a string becomes part of its first piece |
| `Text.SplitAppend` | value-processor/src/org/immutables/value/processor/encode/EncodedElement.java:260-261 | separator-free text put after a string becomes part of its last piece |
| `Text.SplitTrimmedIgnoresMargins` | value-processor/src/org/immutables/value/processor/encode/EncodedElement.java:260-261 | for a separator that is not whitespace, trimming the input first does not change the trimmed pieces |
| `Text.Join` | value-processor/src/org/immutables/value/processor/encode/EncodedElement.java:235 | the joiner: a character that is in neither the parts nor the separator is not in the joined text; `JoinSplit` and `SplitJoin` prove it inverts `Split` |
| `ShortForms.ParamToString` | value-processor/src/org/immutables/value/processor/encode/EncodedElement.java:212-215 | when the name has no `:`, the printed text splits on `:` into at least two pieces, and the first piece is the name |
| `ShortForms.ParamFrom` | value-processor/src/org/immutables/value/processor/encode/EncodedElement.java:221-224 | a parameter that is read successfully has a trimmed name without a `:` |
| `ShortForms.ParamFromNoColon` | value-processor/src/org/immutables/value/processor/encode/EncodedElement.java:221-224 | input without a `:` fails, because the second split piece is missing |
| `ShortForms.ParamFromPieces` | value-processor/src/org/immutables/value/processor/encode/EncodedElement.java:221-224 | the name is the trimmed text before the first `:`, and the type is the parser's result for the trimmed text between the first and second `:`; later pieces are ignored, and a parser failure is passed on |
| `ShortForms.ParamRoundTrip` | value-processor/src/org/immutables/value/processor/encode/EncodedElement.java:212-224 | `from(toString(p))` gives back `p` when the name is trimmed and has no `:`, the type text has no `:`, and the parser reads the type back from its text |
| `ShortForms.TypeParamToString` | value-processor/src/org/immutables/value/processor/encode/EncodedElement.java:233-236 | when the name has no `:`, the printed text splits on `:` into at least two pieces, the first being the name, even when there are no bounds; the bounds are printed through `BoundTexts`, one text per bound in order, as the joiner calls each bound's `toString` |
| `ShortForms.ParseBound` | value-processor/src/org/immutables/value/processor/encode/EncodedElement.java:253 | a bound is accepted exactly when the parser returns a defined type, and the accepted bound is that type |
| `ShortForms.ParseBounds` | value-processor/src/org/immutables/value/processor/encode/EncodedElement.java:252-254 | bounds that are read successfully number one per `&`-piece |
| `ShortForms.ParseBoundsKeepsFirstError` | value-processor/src/org/immutables/value/processor/encode/EncodedElement.java:252-254 | once a bound fails, the later pieces do not change the outcome |
| `ShortForms.ParseBoundsMeaning` | value-processor/src/org/immutables/value/processor/encode/EncodedElement.java:252-254 | the bounds are read exactly when every piece parses to a defined type, giving one bound per piece in order; otherwise the error comes from the first piece that fails |
| `ShortForms.TypeParamOf` | value-processor/src/org/immutables/value/processor/encode/EncodedElement.java:240-256 | a type parameter that is read successfully has a trimmed name without a `:`; `TypeParamNoColon` and `TypeParamPieces` give its value on every input |
| `ShortForms.TypeParamFrom` | value-processor/src/org/immutables/value/processor/encode/EncodedElement.java:240-257 | the method with its loop and early returns computes `TypeParamOf` of the input, using the parser built from the factory and the parameters |
| `ShortForms.TypeParamNoColon` | value-processor/src/org/immutables/value/processor/encode/EncodedElement.java:240-248 | input without a `:` gives its trimmed text as the name and no bounds |
| `ShortForms.TypeParamPieces` | value-processor/src/org/immutables/value/processor/encode/EncodedElement.java:240-256 | the name is the trimmed first `:`-piece; reading succeeds exactly when every trimmed `&`-piece of the second `:`-piece is a defined type; each bound is the parser's type for its piece, in input order |
| `ShortForms.TypeParamRoundTrip` | value-processor/src/org/immutables/value/processor/encode/EncodedElement.java:233-257 | a type parameter with at least one bound reads back from its `toString` text, when no bound text has a `:` or `&` and the parser reads each bound back as a defined type |
| `ShortForms.BoundlessTypeParamText` | value-processor/src/org/immutables/value/processor/encode/EncodedElement.java:233-254 | a type parameter without bounds prints as `name + ": "`; reading that text back parses the empty text as one bound, so the result is never the original |
| `Elements.EncodedElement.IsToString` | value-processor/src/org/immutables/value/processor/encode/EncodedElement.java:55-184 | `IsToString` and the other 22 role predicates are the tag tests of their Java counterparts, term for term; `RoleSides`, `CopySides`, `FieldPlacements` and `HelperPlacements` state how they relate |
| `Elements.RoleSides` | value-processor/src/org/immutables/value/processor/encode/EncodedElement.java:85-184 | the builder-side roles need `BUILDER` and the value-side roles exclude it; the static roles need `STATIC` and the instance roles exclude it |
| `Elements.PredicatesReadOnlyTags` | value-processor/src/org/immutables/value/processor/encode/EncodedElement.java:55-200 | two elements with the same tags give the same answer for every role predicate and for `isInlinable` |
| `Elements.CopySides` | value-processor/src/org/immutables/value/processor/encode/EncodedElement.java:85-105 | `isCopy` and `isBuilderCopy` are never both true; one of them holds exactly when `COPY` is a tag; `BUILDER` decides which one |
| `Elements.FieldPlacements` | value-processor/src/org/immutables/value/processor/encode/EncodedElement.java:132-184 | each of the four field placements requires `FIELD`; at most one holds; exactly one holds when `FIELD` is a tag and `IMPL` is not |
| `Elements.HelperPlacements` | value-processor/src/org/immutables/value/processor/encode/EncodedElement.java:159-177 | exactly one of the static, value and builder method predicates holds when `HELPER` is a tag; none holds otherwise |
| `Elements.EncodedElement.IsInlinable` | value-processor/src/org/immutables/value/processor/encode/EncodedElement.java:193-200 | an element is inlinable when it is an `equals`, `toString`, `hashCode`, `from` or value-side copy; `InlinableTags` states this over the tags |
| `Elements.EncodedElement.OneLiner` | value-processor/src/org/immutables/value/processor/encode/EncodedElement.java:186-191 | a non-empty one-liner comes only from an inlinable element that declares no type parameters of its own |
| `Elements.InlinableTags` | value-processor/src/org/immutables/value/processor/encode/EncodedElement.java:193-200 | an element is inlinable exactly when it has `EQUALS`, `TO_STRING`, `HASH_CODE` or `FROM`, or has `COPY` without `BUILDER` |
| `Elements.BuilderCopyNotInlinable` | value-processor/src/org/immutables/value/processor/encode/EncodedElement.java:186-200 | a builder-side copy with no other inlinable tag is not inlinable, and its one-liner is empty |
| `Elements.OneLinerCases` | value-processor/src/org/immutables/value/processor/encode/EncodedElement.java:186-191 | the one-liner is empty when the element is not inlinable or has its own type parameters; otherwise it is `Code.oneLiner` of the body; it depends only on the tags, the body and the type parameters |
| `Elements.ImplStaticFieldOverlap` | value-processor/src/org/immutables/value/processor/encode/EncodedElement.java:127-145 | with tags `{FIELD, IMPL, STATIC}`, both `isImplField` and `isStaticField` hold, so the predicates do not partition the elements |

## Left out

- `Code.oneLiner` and `Code.Term` are defined in `Code.java`, which is not part of this model. The compaction is a function parameter (`codeOneLiner`), and nothing is claimed about how it treats whitespace.
- `Type`, `Type.Parser`, `Type.Factory`, `Type.Parameters` and `Naming` are abstract. The model passes in the parser, the parser constructor and a type's `toString` (`show`) as function values.
- The parser's exceptions, the `IndexOutOfBoundsException` for a missing `:` and the `ClassCastException` for a non-defined bound become `Err` values of `ShortForms.Error`. Exception types and messages are not modelled.
- The generated `ImmutableEncodedElement` builders, `Param.of`, and the caching that `@Derived` adds are annotation-processor output. Elements are built with datatype constructors, and the predicates are recomputed. The `TypeParam.Builder` state inside `TypeParam.from` is held in local variables of the method.
- Java `null` checks done by the generated builders are not modelled.
- Uniqueness of parameter names, a non-empty element name, and the exclusion of `FIELD` with `HELPER` are not checked by the code, so the model does not check them either.
- `ShortForms.ParamRoundTrip`: proved only when the type text has no `:` and the parser reads the type back from its trimmed text. Outside those conditions the source makes no round-trip promise.
- `ShortForms.TypeParamRoundTrip`: proved only for at least one bound, because the code's text for no bounds does not read back (see `ShortForms.BoundlessTypeParamText`).
