/** What the kernel answers to the calls that send, one answer a call. */
module Kernel {
  /** How many octets it takes at most, an error, or that it would block. */
  datatype Taken = Took(count: nat) | Refused | WouldBlock

  function First<T>(s: seq<T>, otherwise: T): T { if s == [] then otherwise else s[0] }

  function Rest<T>(s: seq<T>): seq<T> { if s == [] then [] else s[1..] }
}
