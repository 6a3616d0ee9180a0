/** The optional-value wrapper used by the pattern matchers: `None` is "the pattern does not match here". */
module Wrappers {

  datatype Option<+T> = None | Some(value: T)

}
