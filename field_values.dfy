// A field of a line of a LOAD file set into a value of its column's type
// (Value::setData in executor_insert.h's get_values).
module FieldValues {
  import opened Wrappers
  import opened Errors
  import opened PyStr
  import opened Values
  import opened Catalog
  import opened ExecManager
  import opened LoadFile

  /**
   * A field setData accepts without failing an assertion: a DATETIME
   * field is 19 bytes in a 19-byte column, a STRING field fits its
   * column. (FLOAT columns are not part of this model.)
   */
  predicate FieldFits(c: ColMeta, f: seq<byte>)
  {
    && c.colType != TypeFloat
    && (c.colType == TypeDatetime ==> |f| == 19 && c.len == 19)
    && (c.colType == TypeString ==> |f| <= c.len)
  }

  /**
   * setData of a field into a value of its column's type: an INT or
   * BIGINT field is parsed (ResultOutOfRangeError beyond the type), a
   * STRING or DATETIME field copied and zero-filled to the column's length.
   */
  function FieldValue(c: ColMeta, f: seq<byte>): (r: Result<Literal, DbError>)
    requires FieldFits(c, f)
    ensures r.Ok? ==> r.value.litType == c.colType && InRange(r.value)
    ensures r.Err? ==> r.error == ResultOutOfRange && (c.colType == TypeInt || c.colType == TypeBigint)
    ensures c.colType == TypeString || c.colType == TypeDatetime ==>
      r.Ok? && |r.value.raw| == c.len && r.value.raw[..|f|] == f
  {
    var s := Chars(f);
    if c.colType == TypeInt then
      var p := IntField(s);
      if p.Err? then Err(ResultOutOfRange) else Ok(Literal(TypeInt, p.value, Int32Bytes(p.value)))
    else if c.colType == TypeBigint then
      var p := BigintField(s);
      if p.Err? then Err(ResultOutOfRange) else Ok(Literal(TypeBigint, p.value, Int64Bytes(p.value)))
    else
      var raw := f + Zeros(c.len - |f|);
      assert raw[..|f|] == f;
      Ok(Literal(c.colType, 0, raw))
  }

  /** An INT written out in decimal loads as itself; a BIGINT likewise. */
  lemma NumberFieldLoads(c: ColMeta, v: int)
    requires (c.colType == TypeInt && IsInt32(v)) || (c.colType == TypeBigint && IsInt64(v))
    ensures FieldFits(c, Ascii(IntToString(v)))
    ensures FieldValue(c, Ascii(IntToString(v))).Ok? && FieldValue(c, Ascii(IntToString(v))).value.num == v
  {
    var f := Ascii(IntToString(v));
    assert Chars(f) == IntToString(v);
    if c.colType == TypeInt {
      IntFieldRoundTrip(v);
    } else {
      BigintFieldRoundTrip(v);
    }
  }

  /** values_[col].setData(...), on a fresh value. */
  method LoadField(c: ColMeta, f: seq<byte>) returns (r: Result<Literal, DbError>)
    requires FieldFits(c, f)
    ensures r == FieldValue(c, f)
  {
    var v := new Value(TypeInt, 0, []);
    var s := Chars(f);
    assert Ascii(s) == f;
    var e := v.SetData(c.colType, c.len, s);
    if e.Err? {
      return Err(e.error);
    }
    return Ok(Literal(v.valType, v.num, v.raw));
  }
}
