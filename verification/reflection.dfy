/**
 The descriptors the reflection facility hands to the compiler. Reflection
 itself is not modelled: a class is given as its name and its methods in the
 order reflection lists them, and a documentation comment comes with its raw
 text and the tags the docblock parser has already extracted from it.
 */
module Reflection {
  import opened Wrappers

  datatype Visibility = Public | Protected | Private

  /** One reflected parameter; it is copied, never inspected. */
  datatype Param = Param(
    name: string,
    typeHint: Option<string>,
    defaultValue: Option<string>,
    isVariadic: bool,
    passedByReference: bool)

  /** A parsed docblock tag. The tags the docblock generator classes as
      `AbstractTypeableTag` carry the alternatives of their type union, as
      written; every other tag carries no type. */
  datatype Tag =
    | TypeableTag(tagName: string, types: seq<string>)
    | PlainTag(tagName: string)

  /** A method's documentation comment: its raw text, and its tags as parsed. */
  datatype DocComment = DocComment(text: string, tags: seq<Tag>)

  /** One reflected method. `docComment` is `None` where reflection reports
      no comment; `body` is the text between the method's braces, empty for
      a method without one. */
  datatype MethodDesc = MethodDesc(
    name: string,
    visibility: Visibility,
    isStatic: bool,
    isFinal: bool,
    params: seq<Param>,
    docComment: Option<DocComment>,
    body: string)

  /** A reflected class: its name as reflection reports it, and its methods. */
  datatype ClassDesc = ClassDesc(name: string, methods: seq<MethodDesc>)
}
