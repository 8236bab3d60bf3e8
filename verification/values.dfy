/**
 * The values a tween animates (enum Tween.Format and the Unity value types
 * behind it), the `Add<T>` type dispatch, and the interpolation formula of
 * each specialised tween (FloatTween, IntTween, Vector2/3/4Tween, ColorTween,
 * RectTween, QuaternionTween, TransformTween). `float` is modelled as `real`.
 */
module TweenValues {
  import opened Wrappers
  import opened Numerics

  /** Enum Tween.Format, in declaration order. */
  datatype Format = Float | Int | Vector2 | Vector3 | Vector4 | Color | Quaternion | Transform | Rect

  /** The type argument T of `Tween.Add<T>`: one of the nine supported types or any other type. */
  datatype TypeTag = FloatType | ColorType | Vector3Type | Vector2Type | QuaternionType
                   | TransformType | RectType | Vector4Type | IntType | OtherType(name: string)

  /**
   * A rotation. Quaternion.Slerp is floating-point geometry that is not
   * modelled: a slerp is kept as the symbolic term of its three arguments.
   */
  datatype Rotation = Quat(x: real, y: real, z: real, w: real) | Slerp(a: Rotation, b: Rotation, t: real)

  /**
   * A property value: float, int, a vector of components (Vector2/3/4 and
   * Color, whose components are r, g, b, a), a rotation, a Rect given by its
   * edges, a Transform's position/rotation/scale, or a null reference.
   */
  datatype Value =
    | FloatVal(f: real)
    | IntVal(n: int)
    | VectorVal(xs: seq<real>)
    | RotationVal(q: Rotation)
    | RectVal(xMin: real, xMax: real, yMin: real, yMax: real)
    | TransformVal(position: seq<real>, rotation: Rotation, scale: seq<real>)
    | NoValue

  /** The dispatch of `Tween.Add<T>`: the format of the tween built for T, or None when T is unsupported. */
  function FormatOf(t: TypeTag): (f: Option<Format>)
    ensures f.None? <==> t.OtherType?
  {
    match t
    case FloatType => Some(Float)
    case ColorType => Some(Color)
    case Vector3Type => Some(Vector3)
    case Vector2Type => Some(Vector2)
    case QuaternionType => Some(Quaternion)
    case TransformType => Some(Transform)
    case RectType => Some(Rect)
    case Vector4Type => Some(Vector4)
    case IntType => Some(Int)
    case OtherType(_) => None
  }

  /** The type a format stands for. */
  function TagOf(f: Format): (t: TypeTag)
    ensures !t.OtherType?
  {
    match f
    case Float => FloatType
    case Int => IntType
    case Vector2 => Vector2Type
    case Vector3 => Vector3Type
    case Vector4 => Vector4Type
    case Color => ColorType
    case Quaternion => QuaternionType
    case Transform => TransformType
    case Rect => RectType
  }

  /** Each of the nine formats is reached by exactly its own type, so no two supported types share a tween class. */
  lemma FormatOfTagOf(f: Format, t: TypeTag)
    ensures FormatOf(TagOf(f)) == Some(f)
    ensures FormatOf(t) == Some(f) ==> t == TagOf(f)
  {
  }

  /**
   * The `format` field the Tween<T> constructor assigns: the matching format,
   * and Format.Float (the enum's zero value) when T is none of the nine.
   */
  function ConstructorFormat(t: TypeTag): (f: Format)
    ensures FormatOf(t).Some? ==> f == FormatOf(t).value
    ensures t.OtherType? ==> f == Float
  {
    match FormatOf(t)
    case Some(g) => g
    case None => Float
  }

  /** Number of components of the vector-like formats. */
  function Dimension(f: Format): nat
  {
    match f
    case Vector2 => 2
    case Vector3 => 3
    case Vector4 => 4
    case Color => 4
    case _ => 0
  }

  /** The formats written with `from + (to - from) * easing(ratio)`. */
  predicate IsLinear(f: Format)
  {
    f != Quaternion && f != Transform
  }

  /** Whether a value is of the type a format stands for; a Transform is a reference and may be null. */
  predicate HasFormat(v: Value, f: Format)
  {
    match f
    case Float => v.FloatVal?
    case Int => v.IntVal?
    case Vector2 => v.VectorVal? && |v.xs| == 2
    case Vector3 => v.VectorVal? && |v.xs| == 3
    case Vector4 => v.VectorVal? && |v.xs| == 4
    case Color => v.VectorVal? && |v.xs| == 4
    case Quaternion => v.RotationVal?
    case Transform => (v.TransformVal? && |v.position| == 3 && |v.scale| == 3) || v.NoValue?
    case Rect => v.RectVal?
  }

  /** `default(T)` for the type of a format: zeros for the value types, null for Transform. */
  function Default(f: Format): (v: Value)
    ensures HasFormat(v, f)
    ensures f == Transform <==> v.NoValue?
  {
    match f
    case Float => FloatVal(0.0)
    case Int => IntVal(0)
    case Vector2 => VectorVal([0.0, 0.0])
    case Vector3 => VectorVal([0.0, 0.0, 0.0])
    case Vector4 => VectorVal([0.0, 0.0, 0.0, 0.0])
    case Color => VectorVal([0.0, 0.0, 0.0, 0.0])
    case Quaternion => RotationVal(Quat(0.0, 0.0, 0.0, 0.0))
    case Transform => NoValue
    case Rect => RectVal(0.0, 0.0, 0.0, 0.0)
  }

  /** A stored value read back as T: kept when of the right type, `default(T)` otherwise. */
  function Coerce(v: Value, f: Format): (r: Value)
    ensures HasFormat(r, f)
    ensures HasFormat(v, f) ==> r == v
    ensures !HasFormat(v, f) ==> r == Default(f)
  {
    if HasFormat(v, f) then v else Default(f)
  }

  /**
   * The product `d * e` of a float by a ratio, kept under its own name so
   * that the bounds below are stated about one term.
   */
  function Scale(d: real, e: real): real
  {
    d * e
  }

  /** Scaling a non-negative amount by a ratio in [0, 1] keeps it between 0 and the amount. */
  lemma ScaleInUnit(d: real, e: real)
    requires d >= 0.0 && 0.0 <= e <= 1.0
    ensures 0.0 <= Scale(d, e) <= d
  {
    assert d * (1.0 - e) >= 0.0;
  }

  /** `a + (b - a) * e` on floats. */
  function LerpReal(a: real, b: real, e: real): (x: real)
    ensures e == 0.0 ==> x == a
    ensures e == 1.0 ==> x == b
  {
    a + Scale(b - a, e)
  }

  /** For a ratio in [0, 1] the interpolated float lies between the two ends. */
  lemma LerpRealBetween(a: real, b: real, e: real)
    requires 0.0 <= e <= 1.0
    ensures a <= b ==> a <= LerpReal(a, b, e) <= b
    ensures b <= a ==> b <= LerpReal(a, b, e) <= a
  {
    if a <= b {
      ScaleInUnit(b - a, e);
    } else {
      ScaleInUnit(a - b, e);
      assert Scale(b - a, e) == -Scale(a - b, e);
    }
  }

  /** Unity's vector arithmetic `a + (b - a) * e`, component by component. */
  function LerpVector(a: seq<real>, b: seq<real>, e: real): (v: seq<real>)
    requires |a| == |b|
    ensures |v| == |a|
    ensures e == 0.0 ==> v == a
    ensures e == 1.0 ==> v == b
  {
    seq(|a|, i requires 0 <= i < |a| => LerpReal(a[i], b[i], e))
  }

  /** Every component of an interpolated vector lies between the two end components. */
  lemma LerpVectorBetween(a: seq<real>, b: seq<real>, e: real, i: nat)
    requires |a| == |b| && i < |a| && 0.0 <= e <= 1.0
    ensures var v := LerpVector(a, b, e);
            (a[i] <= b[i] ==> a[i] <= v[i] <= b[i]) && (b[i] <= a[i] ==> b[i] <= v[i] <= a[i])
  {
    LerpRealBetween(a[i], b[i], e);
  }

  /**
   * IntTween: `(int)(from + (to - from) * e)`; the sum is a float and the
   * cast truncates toward zero.
   */
  function LerpInt(a: int, b: int, e: real): (n: int)
    ensures e == 0.0 ==> n == a
    ensures e == 1.0 ==> n == b
  {
    TruncToInt(a as real + (b - a) as real * e)
  }

  /** The truncating cast rounds toward zero, not down: from 0 to -3 at one half the tween writes -1. */
  lemma LerpIntTruncatesTowardZero()
    ensures LerpInt(0, -3, 0.5) == -1
    ensures LerpInt(0, 3, 0.5) == 1
  {
    assert 0 as real + (-3 - 0) as real * 0.5 == -1.5;
  }

  /**
   * The value written by the Lerp of a tween of a linear format: Float, Int,
   * the vector-like formats component-wise, and Rect edge by edge on a copy
   * of `from`, all with the same eased ratio e.
   */
  function LinearLerp(f: Format, from: Value, to: Value, e: real): (v: Value)
    requires IsLinear(f) && HasFormat(from, f) && HasFormat(to, f)
    ensures HasFormat(v, f)
    ensures e == 0.0 ==> v == from
    ensures e == 1.0 ==> v == to
  {
    match f
    case Float => FloatVal(LerpReal(from.f, to.f, e))
    case Int => IntVal(LerpInt(from.n, to.n, e))
    case Rect => RectVal(LerpReal(from.xMin, to.xMin, e), LerpReal(from.xMax, to.xMax, e),
                         LerpReal(from.yMin, to.yMin, e), LerpReal(from.yMax, to.yMax, e))
    case Vector2 => VectorVal(LerpVector(from.xs, to.xs, e))
    case Vector3 => VectorVal(LerpVector(from.xs, to.xs, e))
    case Vector4 => VectorVal(LerpVector(from.xs, to.xs, e))
    case Color => VectorVal(LerpVector(from.xs, to.xs, e))
  }

  /** RectTween moves each edge independently: an edge equal at both ends stays put. */
  lemma RectEdgesIndependent(from: Value, to: Value, e: real)
    requires from.RectVal? && to.RectVal?
    ensures var v := LinearLerp(Rect, from, to, e);
            (from.xMin == to.xMin ==> v.xMin == from.xMin) && (from.xMax == to.xMax ==> v.xMax == from.xMax)
            && (from.yMin == to.yMin ==> v.yMin == from.yMin) && (from.yMax == to.yMax ==> v.yMax == from.yMax)
  {
  }

  /** QuaternionTween: Slerp(from, to, e) with e = easing(progress). */
  function RotationLerp(from: Value, to: Value, e: real): (v: Value)
    requires from.RotationVal? && to.RotationVal?
    ensures v.RotationVal? && v.q.Slerp? && v.q.t == e
  {
    RotationVal(Slerp(from.q, to.q, e))
  }

  /**
   * TransformTween: position and scale move linearly from the snapshot taken
   * at start to the target transform's, the rotation slerps between them.
   */
  function TransformLerp(snapshot: Value, to: Value, e: real): (v: Value)
    requires snapshot.TransformVal? && HasFormat(snapshot, Transform)
    requires to.TransformVal? && HasFormat(to, Transform)
    ensures HasFormat(v, Transform) && v.TransformVal?
    ensures e == 0.0 ==> v.position == snapshot.position && v.scale == snapshot.scale
    ensures e == 1.0 ==> v.position == to.position && v.scale == to.scale
    ensures v.rotation == Slerp(snapshot.rotation, to.rotation, e)
  {
    TransformVal(LerpVector(snapshot.position, to.position, e),
                 Slerp(snapshot.rotation, to.rotation, e),
                 LerpVector(snapshot.scale, to.scale, e))
  }
}
