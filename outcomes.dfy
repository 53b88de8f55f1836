/**
 * How a traversal of the core ends when it does not produce a value.
 * The C++ code aborts through `assert`, throws through the JSON library, or
 * reaches undefined behaviour; the model names each of these.
 */
module Outcomes {

  datatype Error =
    | AssertionFailed      // an `assert` of the codec fails (debug build)
    | JsonTypeError        // the JSON library throws `type_error`
    | UnknownKey           // `DictInfo::getValueAt` has no slot for the key
    | FloatConversion      // a JSON integer/double conversion the model does not compute
    | UndefinedBehaviour   // `__builtin_unreachable`, or a union member read under the wrong tag

  datatype Result<+T> = Ok(value: T) | Fail(error: Error)

  datatype Option<+T> = None | Some(value: T)
}
