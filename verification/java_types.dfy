/** The Java classes and runtime values the mapping layer handles: a small
    class hierarchy with `Class.isAssignableFrom`, boxed values with their
    runtime class, `toString`, `equals`, and what a reflective write into a
    field of a given type accepts. */
module JavaTypes {
  import opened Wrappers
  import opened JavaNumbers

  datatype PrimitiveKind = PBoolean | PInt | PLong | PChar

  /** A `Class<?>` as far as the mapping layer distinguishes classes. Joda
      and JDBC types appear only so that converters can be looked up for
      them; `TClass` is any other class, named by its fully qualified name. */
  datatype JType =
    | TObject
    | TString
    | TCharacter
    | TBoolean
    | TNumber
    | TInteger
    | TLong
    | TBigDecimal
    | TEnumBase
    | TEnum(enumName: string)
    | TReadableInstant
    | TDateTime
    | TReadablePartial
    | TLocalDate
    | TUtilDate
    | TSqlDate
    | TTimestamp
    | TClass(className: string)
    | TPrimitive(kind: PrimitiveKind)

  /** The direct superclass or implemented interface the model keeps;
      `Object` and the primitive classes have none. */
  function Super(t: JType): (r: Option<JType>)
    ensures t == TObject || t.TPrimitive? <==> r.None?
  {
    match t
    case TObject => None
    case TPrimitive(_) => None
    case TInteger => Some(TNumber)
    case TLong => Some(TNumber)
    case TBigDecimal => Some(TNumber)
    case TEnum(_) => Some(TEnumBase)
    case TDateTime => Some(TReadableInstant)
    case TLocalDate => Some(TReadablePartial)
    case TSqlDate => Some(TUtilDate)
    case TTimestamp => Some(TUtilDate)
    case _ => Some(TObject)
  }

  /** Distance to `Object` along `Super`, which bounds the climb. */
  function Depth(t: JType): nat {
    match t
    case TObject => 1
    case TPrimitive(_) => 0
    case TInteger => 3
    case TLong => 3
    case TBigDecimal => 3
    case TEnum(_) => 3
    case TDateTime => 3
    case TLocalDate => 3
    case TSqlDate => 3
    case TTimestamp => 3
    case _ => 2
  }

  lemma SuperDecreases(t: JType)
    ensures Super(t).Some? ==> Depth(Super(t).value) < Depth(t)
  {
  }

  /** `to.isAssignableFrom(from)`: `from` is `to` or lies above it. */
  predicate Assignable(from: JType, to: JType)
    decreases Depth(from)
  {
    SuperDecreases(from);
    from == to || (Super(from).Some? && Assignable(Super(from).value, to))
  }

  lemma {:induction false} AssignableToObject(t: JType)
    requires !t.TPrimitive?
    ensures Assignable(t, TObject)
    decreases Depth(t)
  {
    if t != TObject {
      SuperDecreases(t);
      AssignableToObject(Super(t).value);
    }
  }

  lemma {:induction false} AssignableTransitive(a: JType, b: JType, c: JType)
    requires Assignable(a, b) && Assignable(b, c)
    ensures Assignable(a, c)
    decreases Depth(a)
  {
    if a != b {
      SuperDecreases(a);
      AssignableTransitive(Super(a).value, b, c);
    }
  }

  /** No two distinct classes are each assignable to the other. */
  lemma {:induction false} AssignableAntisymmetric(a: JType, b: JType)
    requires Assignable(a, b) && Assignable(b, a)
    ensures a == b
  {
    AssignableDepth(a, b);
    AssignableDepth(b, a);
  }

  lemma {:induction false} AssignableDepth(a: JType, b: JType)
    requires Assignable(a, b)
    ensures a == b || Depth(b) < Depth(a)
    decreases Depth(a)
  {
    if a != b {
      SuperDecreases(a);
      AssignableDepth(Super(a).value, b);
    }
  }

  /** A Java value: `null`, a boxed primitive, a string, a `BigDecimal`
      (unscaled value and scale), an enum constant (its class and `name()`),
      or some other object known only by its class and its `toString()`. */
  datatype Value =
    | VNull
    | VBool(b: bool)
    | VInt(i: int)
    | VLong(l: int)
    | VChar(c: char)
    | VString(s: string)
    | VDecimal(unscaled: int, scale: int)
    | VEnum(enumName: string, constant: string)
    | VObject(cls: JType, text: string)

  /** `v.getClass()`, which throws for `null`. */
  function RuntimeClass(v: Value): (r: Result<JType>)
    ensures r.Err? <==> v.VNull?
    ensures r.Ok? ==> !r.value.TPrimitive?
  {
    match v
    case VNull => Err(NullPointer)
    case VBool(_) => Ok(TBoolean)
    case VInt(_) => Ok(TInteger)
    case VLong(_) => Ok(TLong)
    case VChar(_) => Ok(TCharacter)
    case VString(_) => Ok(TString)
    case VDecimal(_, _) => Ok(TBigDecimal)
    case VEnum(e, _) => Ok(TEnum(e))
    case VObject(c, _) => if c.TPrimitive? then Ok(TObject) else Ok(c)
  }

  /** `v instanceof t`. */
  predicate InstanceOf(v: Value, t: JType) {
    RuntimeClass(v).Ok? && Assignable(RuntimeClass(v).value, t)
  }

  /** `v.toString()`, which throws for `null`. */
  function ToString(v: Value): (r: Result<string>)
    ensures r.Err? <==> v.VNull?
  {
    match v
    case VNull => Err(NullPointer)
    case VBool(b) => Ok(if b then "true" else "false")
    case VInt(i) => Ok(IntToString(i))
    case VLong(l) => Ok(IntToString(l))
    case VChar(c) => Ok([c])
    case VString(s) => Ok(s)
    case VDecimal(u, sc) => Ok(DecimalToString(u, sc))
    case VEnum(_, c) => Ok(c)
    case VObject(_, t) => Ok(t)
  }

  function Zeros(n: nat): (r: string)
    ensures |r| == n && forall k :: 0 <= k < n ==> r[k] == '0'
  {
    if n == 0 then "" else "0" + Zeros(n - 1)
  }

  /** `BigDecimal.toString()`: plain notation when the scale is not negative
      and the adjusted exponent is at least -6, scientific notation with
      `E` otherwise. */
  function DecimalToString(unscaled: int, scale: int): (r: string)
    ensures |r| > 0
  {
    var coeff := NatToDigits(if unscaled < 0 then -unscaled else unscaled);
    var sign := if unscaled < 0 then "-" else "";
    var adjusted := -scale + (|coeff| - 1);
    if scale == 0 then sign + coeff
    else if scale > 0 && adjusted >= -6 then
      if |coeff| > scale then sign + coeff[..|coeff| - scale] + "." + coeff[|coeff| - scale..]
      else sign + "0." + Zeros(scale - |coeff|) + coeff
    else
      sign + coeff[..1] + (if |coeff| > 1 then "." + coeff[1..] else "") + "E"
        + (if adjusted > 0 then "+" else "") + IntToString(adjusted)
  }

  /** The value a field of type `t` holds before anything is written:
      zero or `false` for primitives, `null` for everything else. */
  function DefaultValue(t: JType): (r: Value)
    ensures t.TPrimitive? <==> !r.VNull?
  {
    match t
    case TPrimitive(PBoolean) => VBool(false)
    case TPrimitive(PInt) => VInt(0)
    case TPrimitive(PLong) => VLong(0)
    case TPrimitive(PChar) => VChar(0 as char)
    case _ => VNull
  }

  /** Whether `Field.set` or a setter invocation accepts `v` for a property
      of type `t`: a reference type takes `null` and its instances; a
      primitive takes a non-null box of itself or of a narrower primitive. */
  predicate Accepts(t: JType, v: Value) {
    match t
    case TPrimitive(PBoolean) => v.VBool?
    case TPrimitive(PChar) => v.VChar?
    case TPrimitive(PInt) => v.VInt? || v.VChar?
    case TPrimitive(PLong) => v.VLong? || v.VInt? || v.VChar?
    case _ => v.VNull? || InstanceOf(v, t)
  }

  /** What a reflective write stores: an unboxed value widened to the
      primitive it is written into. */
  function Coerce(t: JType, v: Value): (r: Value)
    requires Accepts(t, v)
    ensures Accepts(t, r)
  {
    match t
    case TPrimitive(PInt) => if v.VChar? then VInt(v.c as int) else v
    case TPrimitive(PLong) =>
      if v.VChar? then VLong(v.c as int) else if v.VInt? then VLong(v.i) else v
    case _ => v
  }

  /** A property type always accepts its own default. */
  lemma AcceptsDefault(t: JType)
    ensures Accepts(t, DefaultValue(t))
  {
  }
}
