/**
 * The dynamically typed values a player record's `MiscData` bag holds
 * (`map[string]interface{}` in the source), and the coercion helpers of
 * cycledata/util.go.
 */
module Values {
  import opened GoInt
  import opened Wrappers

  /**
   * A Go float64 or float32. The model keeps only the value truncated toward
   * zero, which is all the integer coercions look at; float arithmetic is not
   * modelled.
   */
  datatype Float = Float(truncated: int)

  /** The dynamic type and value held by an `interface{}`. */
  datatype Value =
    | VNil                              // an interface holding nil
    | VInt(i: Int64)                    // Go `int` (64 bits)
    | VInt32(i32: Int32)
    | VInt64(i64: Int64)
    | VFloat64(f64: Float)
    | VFloat32(f32: Float)
    | VString(s: string)
    | VInt32Slice(items: seq<Int32>)    // []int32
    | VInt32Map(entries: map<Int32, Int32>) // map[int32]int32
    | VList(elems: seq<Value>)          // []interface{}
    | VOther(tag: nat)                  // any other dynamic type

  /** A record's extension bag. */
  type Misc = map<string, Value>

  predicate IsIntegerKind(v: Value) { v.VInt? || v.VInt32? || v.VInt64? }

  /** `toInt`: accepts int, int32, int64 and float64, and nothing else. */
  function ToInt(v: Value): (r: Option<Int64>)
    ensures r.Some? <==> IsIntegerKind(v) || v.VFloat64?
    ensures v.VInt? ==> r == Some(v.i)
    ensures v.VInt32? ==> r == Some(v.i32)
    ensures v.VInt64? ==> r == Some(v.i64)
  {
    match v
    case VInt(i) => Option<Int64>.Some(i)
    case VInt32(i) => Option<Int64>.Some(i)
    case VInt64(i) => Option<Int64>.Some(i)
    case VFloat64(f) => Option<Int64>.Some(Wrap64(f.truncated))
    case _ => None
  }

  /** `toInt32`: the same kinds as `toInt`, narrowed by two's complement truncation. */
  function ToInt32(v: Value): (r: Option<Int32>)
    ensures r.Some? <==> IsIntegerKind(v) || v.VFloat64?
    ensures v.VInt32? ==> r == Some(v.i32)
  {
    match v
    case VInt32(i) => Some(i)
    case VInt(i) => Some(Wrap32(i))
    case VInt64(i) => Some(Wrap32(i))
    case VFloat64(f) => Some(Wrap32(f.truncated))
    case _ => None
  }

  /** `toInt64`: the same kinds as `toInt`; widening keeps the value. */
  function ToInt64(v: Value): (r: Option<Int64>)
    ensures r.Some? <==> IsIntegerKind(v) || v.VFloat64?
    ensures IsIntegerKind(v) ==> r == ToInt(v)
  {
    match v
    case VInt64(i) => Option<Int64>.Some(i)
    case VInt(i) => Option<Int64>.Some(i)
    case VInt32(i) => Option<Int64>.Some(i)
    case VFloat64(f) => Option<Int64>.Some(Wrap64(f.truncated))
    case _ => None
  }

  /** `toFloat64`, as far as which dynamic types it accepts. */
  function ToFloat64Accepts(v: Value): (ok: bool)
    ensures ok <==> ToInt(v).Some? || v.VFloat32?
  {
    v.VFloat64? || v.VFloat32? || v.VInt? || v.VInt64? || v.VInt32?
  }

  /** The three integer coercions agree: toInt32 is toInt narrowed, toInt64 is toInt. */
  lemma CoercionsAgree(v: Value)
    ensures ToInt32(v).Some? <==> ToInt(v).Some?
    ensures ToInt(v).Some? ==> ToInt32(v) == Some(Wrap32(ToInt(v).value))
    ensures ToInt64(v) == ToInt(v)
  {
    if v.VFloat64? { Wrap32OfWrap64(v.f64.truncated); }
  }

  /**
   * `toInt32Slice`: a []int32 is returned as it is; a []interface{} is converted
   * element by element with the `toInt32` rules and fails as a whole on the
   * first element of another type; anything else fails.
   */
  method ToInt32Slice(v: Value) returns (r: Option<seq<Int32>>)
    ensures v.VInt32Slice? ==> r == Some(v.items)
    ensures v.VList? ==> (r.Some? <==> forall i :: 0 <= i < |v.elems| ==> ToInt32(v.elems[i]).Some?)
    ensures v.VList? && r.Some? ==>
      |r.value| == |v.elems| && forall i :: 0 <= i < |v.elems| ==> Some(r.value[i]) == ToInt32(v.elems[i])
    ensures !v.VInt32Slice? && !v.VList? ==> r == None
  {
    match v {
      case VInt32Slice(items) =>
        return Some(items);
      case VList(elems) =>
        var result: seq<Int32> := [];
        var k := 0;
        while k < |elems|
          invariant 0 <= k <= |elems|
          invariant |result| == k
          invariant forall i :: 0 <= i < k ==> ToInt32(elems[i]) == Some(result[i])
        {
          var n := ToInt32(elems[k]);
          if n.None? {
            return None;
          }
          result := result + [n.value];
          k := k + 1;
        }
        return Some(result);
      case _ =>
        return None;
    }
  }

  /** `UtilCopyMap`: a new map with exactly the same key/value pairs. */
  method CopyMap(src: Misc) returns (dst: Misc)
    ensures dst.Keys == src.Keys
    ensures forall k :: k in src ==> dst[k] == src[k]
  {
    dst := map[];
    var todo := src.Keys;
    while todo != {}
      invariant todo <= src.Keys
      invariant dst.Keys == src.Keys - todo
      invariant forall k :: k in dst ==> dst[k] == src[k]
      decreases |todo|
    {
      var k :| k in todo;
      dst := dst[k := src[k]];
      todo := todo - {k};
    }
  }
}
