/** A reference that may be null, as the game's C# code uses them. */
module Nullable {

  datatype Option<+T> = None | Some(value: T)
}
