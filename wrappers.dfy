/** The optional value used where the source either produces something or
    raises (an IndexError the program does not catch). */
module Wrappers {

  datatype Option<+T> = None | Some(value: T)

}
