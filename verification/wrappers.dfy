/** The optional value shared by the modules: a `label` column that may be
    missing, or a KMeans fit that may raise. */
module Wrappers {

  datatype Option<T> = None | Some(value: T)
}
