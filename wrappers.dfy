/** Optional values, for the parts of the ELF view that may be absent
    (the dynamic section, a readable dynamic string table). */
module Wrappers {

  datatype Option<+T> = None | Some(value: T)
}
