/**
 * What the compiler sees of a JavaScript module after Babel has parsed it:
 * the call expressions of the program, in the order a depth-first traversal
 * of the syntax tree visits them. Everything else in the tree is carried
 * through unchanged and is not represented.
 */
module Syntax {

  /** The callee of a call: a plain identifier, or anything else (a member access, a call, ...). */
  datatype Callee = Identifier(name: string) | OtherCallee

  /** An argument: a string literal, or any other expression. */
  datatype Argument = StringLiteral(value: string) | OtherArgument

  datatype CallSite = Call(callee: Callee, arguments: seq<Argument>)

  /** The text of a file, as the parser sees it: a program, or text it rejects. */
  datatype SourceText = Program(calls: seq<CallSite>) | Unparsable

  /** The failures a build can end with. */
  datatype Error =
    | FileNotFound(path: string)   // reading the file throws
    | SyntaxError                  // the parser rejects the text
    | RequireArgumentError         // a `require` call whose first argument is not a string literal

  datatype Result<T> = Ok(value: T) | Err(error: Error)

  datatype Option<T> = None | Some(value: T)
}
