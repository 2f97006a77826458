/** A C pointer that may be NULL: the word lists and slots the source passes around. */
module Pointers {

  datatype Nullable<T> = Null | NonNull(value: T)
}
