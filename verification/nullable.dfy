/** The nullable references of the source (`string?`, `StorageItem?`,
    `StorageFolder?`, `DateTimeOffset?`) as an explicit option type. */
module Nullable {

  datatype Option<+T> = None | Some(value: T)
}
