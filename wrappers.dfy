/** The conventional Some/None datatype: `None` stands for a value that pandas
    reports as missing (NaN, NaT or an absent column). */
module Wrappers {
  datatype Option<+T> = None | Some(value: T)
}
