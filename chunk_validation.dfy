/**
 * The check an insert runs before it touches any buffer: every field of the
 * collection's schema must be present in the chunk, and every present,
 * non-null field must hold exactly `count` rows of the field's row width.
 */
module ChunkValidation {
  import opened MemTypes

  /** Integer division rounding toward zero, as C++ `/` does on int64. */
  function TruncDiv(a: int, d: int): (q: int)
    requires d > 0
    ensures a >= 0 ==> q >= 0 && 0 <= a - q * d < d
    ensures a < 0 ==> q <= 0 && -d < a - q * d <= 0
  {
    if a >= 0 then a / d else -((-a) / d)
  }

  /** What the size check expects of one row of a field. */
  datatype RowWidth =
    | Unchecked          // the type's size is not checked
    | NoDimension        // a vector field whose parameters hold no dimension
    | PerRow(bytes: int) // each row takes this many bytes

  /**
   * The per-type row width: sizeof the C++ element type for scalars, the
   * dimension divided by 8 (truncating) for binary vectors and the dimension
   * times sizeof(float) for float vectors.
   */
  function RowWidthOf(f: Field): (r: RowWidth)
    ensures r.Unchecked? <==> f.ftype.Other?
    ensures r.NoDimension? <==> f.ftype in {VectorFloat, VectorBinary} && f.dim.None?
    ensures r.PerRow? && f.ftype !in {VectorFloat, VectorBinary} ==> r.bytes in {1, 2, 4, 8}
    ensures f.ftype in {Bool, Int8} ==> r == PerRow(1)
    ensures f.ftype == Int16 ==> r == PerRow(2)
    ensures f.ftype in {Int32, Float} ==> r == PerRow(4)
    ensures f.ftype in {Int64, Double} ==> r == PerRow(8)
    ensures f.ftype == VectorFloat && f.dim.Some? ==> r == PerRow(4 * f.dim.value)
    ensures f.ftype == VectorBinary && f.dim.Some? && f.dim.value >= 0 ==>
              r.PerRow? && 0 <= f.dim.value - 8 * r.bytes < 8
  {
    match f.ftype
    case Bool => PerRow(1)
    case Double => PerRow(8)
    case Float => PerRow(4)
    case Int8 => PerRow(1)
    case Int16 => PerRow(2)
    case Int32 => PerRow(4)
    case Int64 => PerRow(8)
    case VectorFloat => if f.dim.None? then NoDimension else PerRow(f.dim.value * 4)
    case VectorBinary => if f.dim.None? then NoDimension else PerRow(TruncDiv(f.dim.value, 8))
    case Other(_) => Unchecked
  }

  /** The size rule a present field of `count` rows and `size` bytes has to meet. */
  predicate SizeMatches(f: Field, count: nat, size: nat)
  {
    match RowWidthOf(f)
    case Unchecked => true
    case NoDimension => false
    case PerRow(w) => size == count * w
  }

  /** A schema field is acceptable in a chunk: present, and null or of the right size. */
  predicate FieldAccepted(f: Field, c: DataChunk)
  {
    && f.name in c.fixedFields
    && (c.fixedFields[f.name].Some? ==> SizeMatches(f, c.count, |c.fixedFields[f.name].value|))
  }

  /** Every field of the schema is acceptable in the chunk. */
  predicate Accepts(schema: Schema, c: DataChunk)
  {
    forall i | 0 <= i < |schema.fields| :: FieldAccepted(schema.fields[i], c)
  }

  /** The body of the loop over the schema's field names, for one field. */
  function CheckField(f: Field, c: DataChunk): (s: Status)
    ensures s.Ok? <==> FieldAccepted(f, c)
    ensures s == Err(MissedField(f.name)) <==> f.name !in c.fixedFields
    ensures s == Err(MissingDimension(f.name)) <==>
              && f.name in c.fixedFields && c.fixedFields[f.name].Some?
              && f.ftype in {VectorFloat, VectorBinary} && f.dim.None?
    ensures s.Err? ==> s.error in {MissedField(f.name), MissingDimension(f.name), IllegalDataSize(f.name)}
  {
    if f.name !in c.fixedFields then Err(MissedField(f.name))
    else match c.fixedFields[f.name]
      case None => Ok
      case Some(data) =>
        match RowWidthOf(f)
        case Unchecked => Ok
        case NoDimension => Err(MissingDimension(f.name))
        case PerRow(w) => if |data| == c.count * w then Ok else Err(IllegalDataSize(f.name))
  }

  /** The loop over the schema's fields, stopping at the first field that fails. */
  function ValidateFields(fields: seq<Field>, c: DataChunk): (s: Status)
    ensures fields == [] ==> s == Ok
    ensures s.Ok? ==> forall i | 0 <= i < |fields| :: FieldAccepted(fields[i], c)
    ensures s.Err? ==> s.error.MissedField? || s.error.MissingDimension? || s.error.IllegalDataSize?
  {
    if fields == [] then Ok
    else
      var s := CheckField(fields[0], c);
      if s.Err? then s else ValidateFields(fields[1..], c)
  }

  /**
   * ValidateChunk: a null chunk is refused first, then a failed snapshot
   * lookup is passed on, then the fields are checked in schema order.
   */
  function ValidateChunk(chunk: Option<DataChunk>, snapshot: Result<Schema>): (s: Status)
    ensures chunk.None? ==> s == Err(NullChunk)
    ensures chunk.Some? && snapshot.Failure? ==> s == Err(snapshot.error)
    ensures s.Ok? ==> chunk.Some? && snapshot.Success?
  {
    if chunk.None? then Err(NullChunk)
    else if snapshot.Failure? then Err(snapshot.error)
    else ValidateFields(snapshot.value.fields, chunk.value)
  }

  lemma {:induction false} ValidateFieldsCorrect(fields: seq<Field>, c: DataChunk)
    ensures ValidateFields(fields, c) == Ok <==> Accepts(Schema(fields), c)
    decreases |fields|
  {
    if fields != [] {
      ValidateFieldsCorrect(fields[1..], c);
      if Accepts(Schema(fields), c) {
        assert FieldAccepted(fields[0], c);
        forall i | 0 <= i < |fields[1..]| ensures FieldAccepted(fields[1..][i], c) {
          assert fields[1..][i] == fields[i + 1];
        }
      }
    }
  }

  /** A chunk validates against a schema exactly when every schema field is acceptable. */
  lemma ValidateChunkCorrect(c: DataChunk, schema: Schema)
    ensures ValidateChunk(Some(c), Success(schema)) == Ok <==> Accepts(schema, c)
  {
    ValidateFieldsCorrect(schema.fields, c);
  }

  lemma {:induction false} ValidateFieldsFirstError(fields: seq<Field>, c: DataChunk)
    requires ValidateFields(fields, c).Err?
    ensures exists i | 0 <= i < |fields| ::
              && CheckField(fields[i], c) == ValidateFields(fields, c)
              && forall j | 0 <= j < i :: FieldAccepted(fields[j], c)
    decreases |fields|
  {
    if CheckField(fields[0], c).Ok? {
      ValidateFieldsFirstError(fields[1..], c);
      var i :| 0 <= i < |fields[1..]| &&
               CheckField(fields[1..][i], c) == ValidateFields(fields[1..], c) &&
               forall j | 0 <= j < i :: FieldAccepted(fields[1..][j], c);
      assert fields[i + 1] == fields[1..][i];
      forall j | 0 <= j < i + 1 ensures FieldAccepted(fields[j], c) {
        if j > 0 { assert fields[j] == fields[1..][j - 1]; }
      }
    } else {
      assert CheckField(fields[0], c) == ValidateFields(fields, c);
    }
  }

  /**
   * A failing validation reports the first failing field of the schema: every
   * field before it is acceptable, and the error is that field's own error.
   */
  lemma ValidateChunkFirstError(c: DataChunk, schema: Schema)
    requires ValidateChunk(Some(c), Success(schema)).Err?
    ensures exists i | 0 <= i < |schema.fields| ::
              && CheckField(schema.fields[i], c) == ValidateChunk(Some(c), Success(schema))
              && !FieldAccepted(schema.fields[i], c)
              && forall j | 0 <= j < i :: FieldAccepted(schema.fields[j], c)
  {
    ValidateFieldsFirstError(schema.fields, c);
  }

  /** A schema field with no entry in the chunk makes validation fail. */
  lemma MissingFieldRejected(c: DataChunk, schema: Schema, i: nat)
    requires i < |schema.fields| && schema.fields[i].name !in c.fixedFields
    ensures ValidateChunk(Some(c), Success(schema)).Err?
  {
    ValidateChunkCorrect(c, schema);
    assert !FieldAccepted(schema.fields[i], c);
  }

  /** Fields whose value is a null pointer are skipped, whatever their type and the row count. */
  lemma NullFieldsSkipped(c: DataChunk, schema: Schema)
    requires forall i | 0 <= i < |schema.fields| ::
               schema.fields[i].name in c.fixedFields && c.fixedFields[schema.fields[i].name].None?
    ensures ValidateChunk(Some(c), Success(schema)) == Ok
  {
    ValidateChunkCorrect(c, schema);
  }

  /** Chunk entries that name no schema field play no part in validation. */
  lemma {:induction false} ExtraFieldIgnored(fields: seq<Field>, c: DataChunk, name: string, v: Option<seq<byte>>)
    requires forall i | 0 <= i < |fields| :: fields[i].name != name
    ensures ValidateFields(fields, c.(fixedFields := c.fixedFields[name := v])) == ValidateFields(fields, c)
    decreases |fields|
  {
    if fields != [] {
      var c' := c.(fixedFields := c.fixedFields[name := v]);
      assert CheckField(fields[0], c') == CheckField(fields[0], c);
      ExtraFieldIgnored(fields[1..], c, name, v);
    }
  }
}
