/** The validation errors raised by the value entities (a Python `ValueError` in the
    source, distinguished here by kind rather than by message text). */
module Errors {

  datatype ValidationError =
    | NegativeAge                 // "A idade não pode ser negativa"
    | AgeOverLimit(rejected: int) // the message interpolates the rejected value
    | PriorityNotFound            // "A prioridade não encontrado"
}
