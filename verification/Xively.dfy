/** `xively.h` and `xi_config.h`: the structures of a datapoint and the default sizes. */
module Xively {
  import opened CText

  const VALUE_STRING_MAX_SIZE := 32
  /** The size of `int32_t` and of `float`. */
  const NUMBER_SIZE := 4
  const MAX_DATASTREAM_NAME := 16
  const MAX_DATASTREAMS := 16

  /** `xi_value_type_t`; `OtherType` stands for every tag outside the enumeration. */
  datatype ValueType = TypeI32 | TypeF32 | TypeStr | OtherType

  /**
    The value of a datapoint. A floating-point value is represented by the text `printf` writes it
    as and `atof` reads it from.
   */
  datatype Value = I32(n: int) | F32(text: string) | Str(s: string) | NoValue

  datatype Point = Point(value: Value, timestamp: int, micro: int)

  /**
    `xi_datapoint_t`. The members of the value union are fields of their own; who writes one of them
    makes what the others hold in the same bytes unknown.
   */
  class Datapoint {
    const str: array<char>
    var i32: int
    var f32: string
    var kind: ValueType
    var timestamp: int
    var micro: int

    /** A structure cleared with `memset`. */
    constructor ()
      ensures Valid() && fresh(str)
      ensures forall i :: 0 <= i < str.Length ==> str[i] == '\0'
    {
      str := new char[VALUE_STRING_MAX_SIZE](_ => '\0');
      i32, f32, kind, timestamp, micro := 0, [], TypeI32, 0, 0;
    }

    predicate Valid() {
      str.Length == VALUE_STRING_MAX_SIZE
    }

    function GetValue(): Value
      reads this, str
    {
      match kind
      case TypeI32 => I32(i32)
      case TypeF32 => F32(f32)
      case TypeStr => Str(CStr(str[..]))
      case OtherType => NoValue
    }

    function GetPoint(): Point
      reads this, str
    {
      Point(GetValue(), timestamp, micro)
    }
  }
}
