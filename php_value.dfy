/**
 * The PHP values an active record stores in its fields: null, booleans,
 * integers and byte strings, with PHP's truthiness and `empty()` on them.
 * Floats and arrays are not modelled.
 */
module PhpValue {

  /** One octet of a PHP string. */
  type byte = b: int | 0 <= b < 0x100

  /** The ASCII octet '0' (0x30), which PHP's `empty()` treats as empty. */
  const Zero: byte := 0x30

  /** A tagged PHP scalar: the dynamic type of a field value. */
  datatype Value =
    | Null
    | Bool(boolValue: bool)
    | Int(intValue: int)
    | Str(bytes: seq<byte>)

  /** PHP's `empty()` on a string: true exactly for '' and '0'. */
  predicate IsEmptyString(s: seq<byte>): (e: bool)
    ensures e ==> |s| <= 1 && forall i :: 0 <= i < |s| ==> s[i] == Zero
  {
    s == [] || s == [Zero]
  }

  /** PHP's conversion of a scalar to bool, as `if (!$x)` performs it. */
  function Truthy(v: Value): (t: bool)
    ensures !t <==> v in {Null, Bool(false), Int(0), Str([]), Str([Zero])}
  {
    match v
    case Null => false
    case Bool(b) => b
    case Int(i) => i != 0
    case Str(s) => !IsEmptyString(s)
  }
}
