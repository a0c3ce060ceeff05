/** The optional value used across the model: `None` stands for a field that is
    absent (JavaScript `undefined`) or for a search that found nothing. */
module Wrappers {

  datatype Option<+T> = None | Some(value: T)
}
