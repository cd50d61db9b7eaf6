/**
  The errors the task-definition editor reports, as variants rather than
  formatted messages, and the Option/Result wrappers its operations return.
*/
module Errors {

  datatype Option<+T> = None | Some(value: T)

  datatype Result<+T> = Success(value: T) | Failure(error: Error)

  /** The node an error is about: the document root, or the n-th container definition. */
  datatype Title = SourceTaskDefinition | ContainerDefinition(index: nat)

  /** The shape a field extraction expected to find under its key. */
  datatype Shape = SliceShape | MapShape | StringShape

  datatype Error =
    | NotAMap(title: Title)                                  // "<title> doesn't have a map type"
    | MissingKey(title: Title, key: string)                  // "<title> doesn't have a <key> key"
    | WrongShape(title: Title, key: string, expected: Shape) // "<title> has a key <key>, but the value is not a ..."
    | BadEnvFormat(entry: string)                            // an --env entry that is not KEY=VALUE
    | TooManyColons(image: string)                           // an image name with more than one ':'
}
