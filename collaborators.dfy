/** The collaborators of the encoded element that this model stores but
    never looks into: the type model, the naming template and the body
    tokens. Each is an abstract type; operations of theirs that the element
    calls are passed in as function values. */
module Collaborators {

  /** A parsed type reference (`Type`). */
  type Type

  /** A naming template (`Naming`). */
  type Naming

  /** The ambient generic-parameter scope (`Type.Parameters`). */
  type TypeParameters

  /** The factory the type parser is built over (`Type.Factory`). */
  type TypeFactory

  /** A lexical token of a member body (`Code.Term`). */
  type Term

  /** What the type parser makes of a piece of text: either it fails, or it
      yields a type together with whether that type is a `Type.Defined`
      (a nominal type reference) rather than some other kind. */
  datatype ParseResult = Failed | Parsed(ty: Type, isDefined: bool)

  /** `Type.Parser.parse`. */
  type Parser = string -> ParseResult

  /** `new Type.Parser(typeFactory, typeParameters)`. */
  type ParserConstructor = (TypeFactory, TypeParameters) -> Parser
}
