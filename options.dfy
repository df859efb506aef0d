/** The "no output" sentinel used by the sampler and the parser of baked files. */
module Options {

  datatype Option<+T> = None | Some(value: T)
}
