/** The helpers from tc's utility library that the PI codec calls. Their
    implementations are not part of this model: each is a parameter, a total
    function into the range its C signature allows. */
module TcUtil {

  import opened Wrappers
  import opened Netlink

  /** get_unsigned, get_u64 and get_time: None stands for a non-zero
      (failure) return, Some(v) for success with v stored. get_time's result
      is the duration in the tool's internal time units. */
  datatype Scanners = Scanners(
    getUnsigned: string -> Option<U32>,
    getU64: string -> Option<U64>,
    getTime: string -> Option<U32>)

  /** sprint_time, and the `%f` rendering of prob / 0xffffffff. */
  datatype Formatters = Formatters(
    sprintTime: U32 -> string,
    probText: U32 -> string)

  /** What a print_qopt or print_xstats callback returns, and the text it
      wrote to its stream, one element per fprintf call. */
  datatype Printed = Printed(status: int, out: seq<string>)
}
