/** Values shared by every decoder: the outcome of a decode step, the error
    taxonomy of the Python decoders, the column keys of a station table and
    the scalar values that end up in it. */
module Common {

  /** A byte of the input stream. */
  type Byte = x: int | 0 <= x < 256

  datatype Option<T> = None | Some(value: T)

  /** Why a decode aborts. The Python decoders raise these as exceptions:
      - BadMagic: the ValueError of the magic check (also a UnicodeDecodeError,
        which is a ValueError, and a short first read);
      - Truncated: the struct.error raised when a read returns fewer bytes than
        the format needs;
      - UnknownVariable: the KeyError of the catalogue lookup `id_dtype[var_id]`;
      - UnknownTypeTag: the KeyError of `corr_dtype[tag]` for a tag outside 1..7;
      - MissingColumn: the KeyError of `data[var_id]` for an undeclared odd ID;
      - RowOutOfRange: the IndexError of `data[key][idx] = v`;
      - BadGeometry: a negative lattice count, which makes the struct format
        or the numpy reshape fail;
      - BadAxis: the ZeroDivisionError or ValueError of `np.arange` for an
        axis whose spacing is zero or whose start, end or spacing is an
        infinity or a NaN. */
  datatype Error =
    | BadMagic
    | Truncated
    | UnknownVariable(varId: int)
    | UnknownTypeTag(tag: int)
    | MissingColumn(key: Key)
    | RowOutOfRange(key: Key, row: int)
    | BadGeometry
    | BadAxis

  datatype Result<T> = Ok(value: T) | Err(error: Error) {
    predicate IsFailure() { Err? }

    function PropagateFailure<U>(): Result<U>
      requires Err?
    {
      Err(error)
    }

    function Extract(): T
      requires Ok?
    {
      value
    }
  }

  /** What a read at some position yields, and the position after it. */
  datatype Step<T> = Step(item: T, next: nat)

  function ItemOf<T>(r: Result<Step<T>>): Result<T> {
    match r
    case Ok(s) => Ok(s.item)
    case Err(e) => Err(e)
  }

  /** A key of the `data` dictionary: the three fixed names or a variable ID. */
  datatype Key = ID | Lon | Lat | Var(id: int)

  /** A decoded scalar. Integers are decoded; IEEE floats stay opaque words
      of their 4 or 8 bytes; a one-character field (tag 7) and a text
      station ID are kept as their bytes. */
  datatype Value = Int(i: int) | Float(bits: seq<Byte>) | Chars(bytes: seq<Byte>)

  /** Python's `i % 2 != 0`; Python and Dafny agree on `% 2` for every sign. */
  predicate Odd(i: int) { i % 2 == 1 }
}
