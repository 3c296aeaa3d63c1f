/** Values stored in the runtime's type-erased cells.

    The Rust library keeps every slot as a type-erased `dyn Any` and recovers the
    static type with a checked downcast. Here a slot holds a `Value` of a small
    tagged union, and `TypeOf` plays the role of the dynamic type a downcast
    compares against: a downcast to `T` of a cell holding `v` succeeds exactly
    when `TypeOf(v)` is the type `T` stands for.
 */
module Values {

  datatype Option<+T> = None | Some(value: T)

  /** Unsigned 32-bit integers: component ids and the id counter. */
  newtype u32 = x: int | 0 <= x < 0x1_0000_0000

  /** `u32::max_value()` */
  const U32_MAX: int := 0xFFFF_FFFF

  /** Dynamic types of slot contents. Every closure value shares one type. */
  datatype Ty = UnitTy | IntTy | StrTy | ClosureTy | PairTy(fst: Ty, snd: Ty)

  /** A slot value, guard value or memoised value. Closures are opaque tokens. */
  datatype Value =
    | Unit
    | Int(i: int)
    | Str(s: string)
    | Closure(token: nat)
    | Pair(fst: Value, snd: Value)

  function TypeOf(v: Value): Ty {
    match v
    case Unit => UnitTy
    case Int(_) => IntTy
    case Str(_) => StrTy
    case Closure(_) => ClosureTy
    case Pair(a, b) => PairTy(TypeOf(a), TypeOf(b))
  }

  /** A downcast to an integer succeeds only on an integer. */
  lemma IntTyIsInt(v: Value)
    requires TypeOf(v) == IntTy
    ensures v.Int?
  {
  }
}
