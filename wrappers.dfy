/** The nullable value of C# (`SphereType?`) and the optional results of the editor. */
module Wrappers {

  datatype Option<+T> = None | Some(value: T)
}
