/**
 * The parts of the RPC value and message model that the client core touches.
 * The value library itself (encoding, the accessors on values and messages)
 * is not part of this model; see the `Collaborators` of module Handshake.
 */
module Rpc {
  import opened Wrappers

  type byte = x: int | 0 <= x < 0x100
  type i32 = x: int | -0x8000_0000 <= x < 0x8000_0000
  type u64 = x: int | 0 <= x < 0x1_0000_0000_0000_0000

  /** A generic RPC value: scalars and string-keyed maps of values. */
  datatype RpcValue =
    | Null
    | Bool(b: bool)
    | Int(i: int)
    | UInt(u: nat)
    | Str(s: string)
    | Map(entries: map<string, RpcValue>)

  /** A request as `RpcMessage::new_request(shv_path, method, param)` builds it. */
  datatype RpcRequest = RpcRequest(shvPath: string, methodName: string, param: Option<RpcValue>)

  /**
   * A received message, seen through the three accessors the handshake calls:
   * `is_success()`, `error()` (already rendered as compact text) and `result()`.
   */
  datatype RpcResponse = RpcResponse(
    isSuccess: bool,
    error: Option<string>,
    result: Result<RpcValue, string>)
}
