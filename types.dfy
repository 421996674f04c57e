/**
 * Values shared by the insert buffer manager: statuses, the collection
 * schema as seen through a snapshot, and the data chunks handed to an insert.
 */
module MemTypes {

  datatype Option<+T> = None | Some(value: T)

  /** The reasons a manager operation can fail. */
  datatype Error =
    | NullChunk                       // the chunk pointer was null
    | SnapshotError(reason: string)   // the snapshot of the collection could not be obtained
    | MissedField(name: string)       // a schema field has no entry in the chunk
    | IllegalDataSize(name: string)   // a field's byte length does not match count * row width
    | MissingDimension(name: string)  // a vector field's parameters carry no dimension
    | BufferError(collectionId: int)  // a failure reported by a buffer (add, delete, serialize)

  datatype Status = Ok | Err(error: Error)

  datatype Result<+T> = Success(value: T) | Failure(error: Error)

  newtype byte = x: int | 0 <= x < 256

  /** Field types of a collection schema. */
  datatype DataType =
    | Bool | Int8 | Int16 | Int32 | Int64 | Float | Double
    | VectorFloat | VectorBinary
    | Other(code: int)   // every other type (strings, ids, ...): its size is not checked

  /**
   * A schema field: its name, its type, and, when the field's parameters
   * hold a dimension, that dimension (read as a signed 64-bit integer).
   */
  datatype Field = Field(name: string, ftype: DataType, dim: Option<int>)

  /** The fields of a collection, in the order the snapshot lists their names. */
  datatype Schema = Schema(fields: seq<Field>)

  /**
   * A chunk of entities to insert: the number of rows and, per field name,
   * the field's raw bytes, or None where the chunk holds a null pointer.
   */
  datatype DataChunk = DataChunk(count: nat, fixedFields: map<string, Option<seq<byte>>>)
}
