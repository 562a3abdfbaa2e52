/** The optional-value datatype shared by the model: a navigation that may
    or may not call back, a search that may or may not be issued. */
module Options {

  datatype Option<+T> = None | Some(value: T)

}
