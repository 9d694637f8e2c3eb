/** Outcomes shared by the modules: an optional value, and the completion of a
    JavaScript call, which either returns a value or throws. */
module Wrap {

  datatype Option<+T> = None | Some(value: T)

  /** `Threw` stands for any exception the modelled code lets escape
      (a `TypeError` on `undefined`, a rejected promise, an SDK error). */
  datatype Completion<+T> = Returned(value: T) | Threw
}
