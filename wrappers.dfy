/** Optional values, used where the page may or may not hold a value
    (a stored setting, a matching element). */
module Wrappers {

  datatype Option<+T> = None | Some(value: T)

}
