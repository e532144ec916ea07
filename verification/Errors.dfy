/** mpack_error_t. NoReturn is none of its codes: it stands for a call that never returns. */
module Errors {
  datatype Error = NoError | Io | Invalid | Type | TooBig | Memory | Bug | Data | Eof | NoReturn
}
