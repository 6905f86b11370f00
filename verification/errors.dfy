/**
 * The error values of the core. The five sentinels of pkg/packet/errors.go are constructors of their own;
 * `errors.Join(a, b)` is `Join(a, b)`; `fmt.Errorf("...: %w", e)` is a constructor carrying its cause; the
 * errors the code builds from a message alone are constructors named after that message.
 */
module Errors {
  import opened Bytes

  datatype Error =
    | ErrPacketTooLarge
    | ErrPacketTooSmall
    | ErrPacketEncode
    | ErrPacketDecode
    | ErrPacketIncomplete
    | Join(first: Error, second: Error)
      /** "unknown packet type: %d" */
    | UnknownPacketType(tag: byte)
      /** calling a method on a nil payload interface: a Go runtime panic */
    | NilPayload
      /** the *net.ParseError that net.ParseCIDR returns */
    | CidrSyntax
      /** "invalid IP CIDR: %w" */
    | InvalidIPCidr(cause: Error)
      /** "invalid VirtualIP: %w" */
    | InvalidVirtualIP(cause: Error)
      /** "only IPv4 supported" */
    | OnlyIPv4Supported
      /** "invalid mask size: %d" */
    | InvalidMaskSize(size: nat)
      /** "invalid mask length: %d" */
    | InvalidMaskLength(length: nat)
      /** "data too short: %d" */
    | DataTooShort(length: nat)
      /** "invalid payload type" */
    | InvalidPayloadType
      /** a failed read or write on a connection (including io.EOF) */
    | Transport
      /** "[udp_server] listen error: %w" */
    | ListenError(cause: Error)

  /** errors.Is: target is e itself or is reachable from e through Join or a %w wrapper. */
  predicate Is(e: Error, target: Error)
  {
    e == target ||
    match e
    case Join(a, b) => Is(a, target) || Is(b, target)
    case InvalidIPCidr(c) => Is(c, target)
    case InvalidVirtualIP(c) => Is(c, target)
    case ListenError(c) => Is(c, target)
    case _ => false
  }
}
