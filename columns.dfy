/** The `data` dictionary both station decoders build: a map from column key
    to a list, grown by `create_dict` and written by index or by append. */
module Columns {
  import opened Common

  /** A cell of a pre-sized mdfs.py column: `None` until a value is written. */
  type Cell = Option<Value>

  /** `create_dict`: adds `key` with the given fresh list unless the key is
      already present. mdfs.py passes `[None] * size`, read_mdfs.py `list()`. */
  function CreateDict<T>(data: map<Key, seq<T>>, key: Key, column: seq<T>): (r: map<Key, seq<T>>)
    ensures r.Keys == data.Keys + {key}
    ensures forall k :: k in data ==> r[k] == data[k]
    ensures key !in data ==> r[key] == column
  {
    if key in data then data else data[key := column]
  }

  /** Calling `create_dict` again for a key changes nothing, whatever list it
      is given. */
  lemma CreateDictIdempotent<T>(data: map<Key, seq<T>>, key: Key, column: seq<T>, again: seq<T>)
    ensures CreateDict(CreateDict(data, key, column), key, again) == CreateDict(data, key, column)
  {
  }

  /** `[None] * n`, which is the empty list for a negative n. */
  function Nones(n: int): (r: seq<Cell>)
    ensures |r| == if n < 0 then 0 else n
    ensures forall i :: 0 <= i < |r| ==> r[i] == None
  {
    seq(if n < 0 then 0 else n, _ => None)
  }

  /** `data[key][row] = v`: a KeyError when the column is missing, an
      IndexError when the row is past its end. */
  function SetItem(data: map<Key, seq<Cell>>, key: Key, row: nat, v: Value): (r: Result<map<Key, seq<Cell>>>)
    ensures r.Ok? <==> key in data && row < |data[key]|
    ensures r.Err? ==> r.error == if key in data then RowOutOfRange(key, row) else MissingColumn(key)
    ensures r.Ok? ==> r.value.Keys == data.Keys && r.value[key] == data[key][row := Some(v)]
    ensures r.Ok? ==> forall k :: k in data && k != key ==> r.value[k] == data[k]
  {
    if key !in data then Err(MissingColumn(key))
    else if row >= |data[key]| then Err(RowOutOfRange(key, row))
    else Ok(data[key := data[key][row := Some(v)]])
  }
}
