/** The closed set of rejections the stripper raises, one per
    `TypeStripError` code thrown in index.ts. */
module Errors {

  datatype ErrorCode =
    | Filename                  // the file name has no extension
    | Jsx                       // a `.jsx`/`.tsx` file name, or a JSX element
    | Extension                 // any extension other than `ts`
    | Enum
    | Namespace                 // `module`/`namespace` declarations
    | TypeAssertionExpression   // the prefix cast `<T>expr`
    | ParameterProperty         // a parameter of any function-like with an accessibility/readonly/override modifier
    | Overload                  // a function declaration or method without a body
    | Declare
    | AccessorKeyword
    | Decorator

  /** The code string the source passes to `TypeStripError`. */
  function Code(e: ErrorCode): string
  {
    match e
    case Filename => "filename"
    case Jsx => "jsx"
    case Extension => "extension"
    case Enum => "enum"
    case Namespace => "namespace"
    case TypeAssertionExpression => "type-assertion-expression"
    case ParameterProperty => "parameter-property"
    case Overload => "overload"
    case Declare => "declare"
    case AccessorKeyword => "accessor-keyword"
    case Decorator => "decorator"
  }

  /** Distinct rejections carry distinct code strings. */
  lemma CodeInjective(a: ErrorCode, b: ErrorCode)
    requires Code(a) == Code(b)
    ensures a == b
  {
  }
}
