/**
  The value type `Data` of src/data.rs: a closed sum of three handle variants
  (indices into the object, array and bytes heaps) and five scalar variants.
 */
module Values {
  import opened Numerals

  /**
    An IEEE 754 binary64 value, kept as its 64 raw bits. Only equality is
    modelled; arithmetic and formatting are not.
   */
  datatype F64 = F64(bits: u64)

  /** Exponent field all ones and a non-zero fraction. */
  predicate IsNaN(x: F64)
  {
    (x.bits / 0x10_0000_0000_0000) % 0x800 == 0x7FF && x.bits % 0x10_0000_0000_0000 != 0
  }

  /** Positive or negative zero: every bit below the sign bit is clear. */
  predicate IsZero(x: F64)
  {
    x.bits % 0x8000_0000_0000_0000 == 0
  }

  /** The `==` of `f64`: NaN equals nothing, the two zeros are equal, otherwise bitwise. */
  predicate FloatEq(x: F64, y: F64)
  {
    !IsNaN(x) && !IsNaN(y) && (x.bits == y.bits || (IsZero(x) && IsZero(y)))
  }

  datatype Data =
    | DObject(index: nat)
    | DArray(index: nat)
    | DBytes(index: nat)
    | DString(str: string)
    | DBoolean(b: bool)
    | DFloat(f: F64)
    | DInt(i: i64)
    | DNull

  /** True for the three variants that refer to a heap entry. */
  predicate IsHandle(d: Data)
  {
    d.DObject? || d.DArray? || d.DBytes?
  }

  /** Both values are built with the same variant. */
  predicate SameVariant(a: Data, b: Data)
  {
    || (a.DObject? && b.DObject?)
    || (a.DArray? && b.DArray?)
    || (a.DBytes? && b.DBytes?)
    || (a.DString? && b.DString?)
    || (a.DBoolean? && b.DBoolean?)
    || (a.DFloat? && b.DFloat?)
    || (a.DInt? && b.DInt?)
    || (a.DNull? && b.DNull?)
  }

  /**
    `clone`: a variant-by-variant copy. A handle copies only its index; no
    reference count is touched.
   */
  function Clone(d: Data): (r: Data)
    ensures r == d
  {
    match d
    case DInt(i) => DInt(i)
    case DFloat(f) => DFloat(f)
    case DBoolean(b) => DBoolean(b)
    case DString(s) => DString(s)
    case DObject(i) => DObject(i)
    case DArray(i) => DArray(i)
    case DBytes(i) => DBytes(i)
    case DNull => DNull
  }

  predicate IsInt(d: Data) { d.DInt? }
  predicate IsFloat(d: Data) { d.DFloat? }
  predicate IsString(d: Data) { d.DString? }
  predicate IsBoolean(d: Data) { d.DBoolean? }
  predicate IsObject(d: Data) { d.DObject? }
  predicate IsArray(d: Data) { d.DArray? }
  predicate IsBytes(d: Data) { d.DBytes? }
  predicate IsNull(d: Data) { d.DNull? }

  predicate IsNumber(d: Data)
  {
    IsInt(d) || IsFloat(d)
  }

  /** How many of the eight `is_*` predicates hold. */
  function KindsHolding(d: Data): nat
  {
    (if IsInt(d) then 1 else 0) + (if IsFloat(d) then 1 else 0)
    + (if IsString(d) then 1 else 0) + (if IsBoolean(d) then 1 else 0)
    + (if IsObject(d) then 1 else 0) + (if IsArray(d) then 1 else 0)
    + (if IsBytes(d) then 1 else 0) + (if IsNull(d) then 1 else 0)
  }

  /** `int`: panics unless the value is an integer. */
  function Int(d: Data): (r: i64)
    requires IsInt(d)
    ensures d == DInt(r)
  {
    d.i
  }

  /** `float`: panics unless the value is a float. */
  function Float(d: Data): (r: F64)
    requires IsFloat(d)
    ensures d == DFloat(r)
  {
    d.f
  }

  /** `boolean`: panics unless the value is a boolean. */
  function Boolean(d: Data): (r: bool)
    requires IsBoolean(d)
    ensures d == DBoolean(r)
  {
    d.b
  }

  /**
    `equals`: floats compare with `f64` equality, the other variants compare
    their payloads, and values of different variants are never equal.
   */
  function Equals(a: Data, b: Data): (r: bool)
    ensures r ==> SameVariant(a, b)
    ensures !a.DFloat? ==> (r <==> a == b)
    ensures a.DFloat? ==> (r <==> b.DFloat? && FloatEq(a.f, b.f))
  {
    if IsFloat(a) then IsFloat(b) && FloatEq(Float(a), Float(b))
    else if IsInt(a) then IsInt(b) && Int(a) == Int(b)
    else if IsString(a) then IsString(b) && a.str == b.str
    else if IsBoolean(a) then IsBoolean(b) && Boolean(a) == Boolean(b)
    else if a.DObject? then b.DObject? && a.index == b.index
    else if a.DArray? then b.DArray? && a.index == b.index
    else if a.DBytes? then b.DBytes? && a.index == b.index
    else if IsNull(a) then IsNull(b)
    else false
  }

  /** `type_name_owned`. */
  function TypeName(d: Data): (r: string)
    ensures |r| >= 3
  {
    match d
    case DInt(_) => "int"
    case DFloat(_) => "float"
    case DBoolean(_) => "boolean"
    case DString(_) => "string"
    case DObject(_) => "DataObject"
    case DArray(_) => "DataArray"
    case DBytes(_) => "DataBytes"
    case DNull => "null"
  }

  /** `Default`. */
  function Default(): (r: Data)
    ensures IsNull(r) && KindsHolding(r) == 1
  {
    DNull
  }

  // ----- Lemmas -----

  /** Exactly one `is_*` predicate holds, and `is_number` is int-or-float. */
  lemma ExactlyOneKind(d: Data)
    ensures KindsHolding(d) == 1
    ensures IsNumber(d) <==> IsInt(d) || IsFloat(d)
  {
  }

  /** The eight type names are pairwise distinct. */
  lemma TypeNameDistinct(a: Data, b: Data)
    ensures TypeName(a) == TypeName(b) <==> SameVariant(a, b)
  {
    if !SameVariant(a, b) {
      var x, y := TypeName(a), TypeName(b);
      assert |x| != |y| || x[0] != y[0] || x[4] != y[4];
    }
  }

  /** `f64` equality is symmetric, reflexive except on NaN, and ignores the sign of zero. */
  lemma FloatEqProperties(x: F64, y: F64)
    ensures FloatEq(x, y) <==> FloatEq(y, x)
    ensures FloatEq(x, x) <==> !IsNaN(x)
    ensures FloatEq(F64(0), F64(0x8000_0000_0000_0000))
  {
  }

  /** `equals` is symmetric. */
  lemma EqualsSymmetric(a: Data, b: Data)
    ensures Equals(a, b) == Equals(b, a)
  {
    if a.DFloat? && b.DFloat? {
      FloatEqProperties(a.f, b.f);
    }
  }

  /** `equals` is reflexive except on a NaN float. */
  lemma EqualsReflexive(a: Data)
    ensures Equals(a, a) <==> !(a.DFloat? && IsNaN(a.f))
  {
  }

  /** An integer never equals a float, whatever their numeric values. */
  lemma IntNeverEqualsFloat(i: i64, x: F64)
    ensures !Equals(DInt(i), DFloat(x)) && !Equals(DFloat(x), DInt(i))
  {
  }

  /** A NaN float is not equal to itself. */
  lemma NaNNotEqual()
    ensures var nan := DFloat(F64(0x7FF8_0000_0000_0000)); !Equals(nan, nan)
  {
  }
}
