/** The optional value that the renderer uses for "no hit", "absorbed" and
    "total internal reflection" (Rust's `Option`). */
module Options {

  datatype Option<+T> = None | Some(value: T)

}
