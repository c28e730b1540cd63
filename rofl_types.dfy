/**
 * Result codes and fixed-width integers shared by the flow-entry, trie and
 * L2-hash models of the ROFL datapath pipeline.
 */
module RoflTypes {

  /** `rofl_result_t`: the generic result code of pipeline operations. */
  datatype RoflResult = Success | Failure

  /** `rofl_of1x_fm_result_t`: the result of a flow-mod add. */
  datatype FmResult = FmSuccess | FmOverlap | FmFailure

  /**
   * What a C routine yields: either a defined value, or `Undefined` when the
   * routine dereferences a NULL pointer or reads past an array (undefined
   * behaviour in C; the model makes it an explicit outcome instead of a
   * precondition, so that the caller's path to it can be stated).
   */
  datatype Outcome<+T> = Defined(value: T) | Undefined

  datatype Option<+T> = None | Some(value: T)

  type uint32 = x: int | 0 <= x < 0x1_0000_0000
}
