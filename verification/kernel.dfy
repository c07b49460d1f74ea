/** Error numbers, and an optional value. */
module Kernel {
  const EPERM := 1
  const ENOMEM := 12
  const EBUSY := 16
  const ENODEV := 19
  const EINVAL := 22
  const ENOTTY := 25
  const ENOSYS := 38

  datatype Option<+T> = None | Some(value: T)
}
