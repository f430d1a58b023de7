/** The Some/None datatype used where the modelled code distinguishes an absent
    value (a C# `null`) from a present one, and for the results of parsers. */
module Wrappers {

  datatype Option<+T> = None | Some(value: T)
}
