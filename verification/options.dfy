/** The optional value used for the navigator's chapter filter, which script.js
    keeps as `null` or a chapter id. */
module Options {

  datatype Option<+T> = None | Some(value: T)

}
