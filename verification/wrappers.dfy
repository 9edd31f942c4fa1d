/** The optional-value datatype shared by every module of the model: a nullable
    column, an absent request field or a lookup that found nothing. */
module Wrappers {

  datatype Option<+T> = None | Some(value: T)
}
