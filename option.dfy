/** An element the script looks up with `document.querySelector` is either on the page or not. */
module Optional {

  datatype Option<+T> = None | Some(value: T)
}
