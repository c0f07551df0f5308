/** Optional values, used for the payment date of an installment (absent until paid). */
module Wrappers {

  datatype Option<+T> = None | Some(value: T)

}
