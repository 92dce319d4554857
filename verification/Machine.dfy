/** Fixed-width integers of the source, its status codes, and small shared datatypes. */
module Machine {

  type byte = x: int | 0 <= x < 0x100
  type uint16 = x: int | 0 <= x < 0x1_0000
  type uint32 = x: int | 0 <= x < 0x1_0000_0000
  type int32 = x: int | -0x8000_0000 <= x < 0x8000_0000

  const UINT8_MAX: byte := 0xFF
  const UINT16_MAX: uint16 := 0xFFFF
  const INT32_MAX: int32 := 0x7FFF_FFFF

  /** The status codes the modelled functions return. */
  datatype Code =
    | UecOk
    | UecServiceInvalidValue
    | UecServicePermissionDenied
    | UecServiceInnerErr
    | UecServiceWriteParcelError
    | UecServiceReadParcelError
    | ErrInvalidValue
    | ErrEnoughData
    | UsbdCode(code: int)  // a code handed through from the usbd client

  datatype Option<+T> = None | Some(value: T) {
    function GetOr(default: T): T {
      if None? then default else value
    }
  }

  /** Conversion to a 32-bit two's complement integer. */
  function ToInt32(x: int): int32 {
    (x + 0x8000_0000) % 0x1_0000_0000 - 0x8000_0000
  }

  /** Conversion to an unsigned 32-bit integer. */
  function ToUint32(x: int): uint32 {
    x % 0x1_0000_0000
  }

  /** Conversion to an unsigned 8-bit integer. */
  function ToByte(x: int): byte {
    x % 0x100
  }

  /** The three conversions change a number by multiples of 2^32 or 2^8, which with their ranges determines them. */
  lemma ConversionsWrap(x: int) returns (i: int, u: int, b: int)
    ensures x == ToInt32(x) + i * 0x1_0000_0000
    ensures x == ToUint32(x) + u * 0x1_0000_0000
    ensures x == ToByte(x) + b * 0x100
  {
    i, u, b := (x + 0x8000_0000) / 0x1_0000_0000, x / 0x1_0000_0000, x / 0x100;
  }

  /** A little-endian 16-bit field of a descriptor. */
  function Word16(lo: byte, hi: byte): uint16 {
    lo + 0x100 * hi
  }

  function LowByte(w: uint16): byte {
    w % 0x100
  }

  function HighByte(w: uint16): byte {
    w / 0x100
  }
}
