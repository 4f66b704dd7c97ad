/** The optional value used across the model for "absent" results and inputs. */
module Options {

  datatype Option<+T> = None | Some(value: T)

}
