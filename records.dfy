/**
 * The records the program exchanges with the key-value backend: keys made
 * of namespace, set and user key, and records as maps from bin name to bin
 * value. The bin accessors read a bin the way Program.cs does after its
 * `as` casts.
 */
module Records {
  import opened Wrappers

  /** A byte of a blob. */
  newtype byte = x: int | 0 <= x < 256

  /** A bin value as the client returns it: the kinds this program stores, or null. */
  datatype Value = Nil | Int(i: int) | Str(s: string) | Bytes(b: seq<byte>) | List(items: seq<Value>)

  /** A record: its bins by name. */
  type Bins = map<string, Value>

  datatype Key = Key(ns: string, setName: string, userKey: string)

  const Namespace: string := "test"
  const SetName: string := "demo"
  const PositionBin: string := "pos"
  const PartBin: string := "part"
  const SizeBin: string := "size"
  const ListBin: string := "list"

  /** The fixed key of the metadata record. */
  const MetadataKey: Key := Key(Namespace, SetName, "metadata")

  function GetValue(rec: Bins, name: string): Value
  {
    if name in rec then rec[name] else Nil
  }

  /** `GetValue(name) as byte[]`: the payload, or null when the bin is missing or not bytes. */
  function GetBytes(rec: Bins, name: string): Option<seq<byte>>
  {
    match GetValue(rec, name)
    case Bytes(b) => Some(b)
    case _ => None
  }

  /** `GetList(name) as List<object>`: the list, or null when the bin is missing or not a list. */
  function GetList(rec: Bins, name: string): Option<seq<Value>>
  {
    match GetValue(rec, name)
    case List(items) => Some(items)
    case _ => None
  }

  /** `GetInt(name)`: the integer in the bin, 0 when the bin holds no integer. */
  function GetInt(rec: Bins, name: string): int
  {
    match GetValue(rec, name)
    case Int(i) => i
    case _ => 0
  }

  /** The bins of chunk record `pos`: `{part: payload, pos: pos}`. */
  function ChunkBins(part: seq<byte>, pos: int): Bins
  {
    map[PartBin := Bytes(part), PositionBin := Int(pos)]
  }

  /** The bins of the metadata record: `{list: ids, size: ids.Count}`. */
  function MetadataBins(ids: seq<string>): Bins
  {
    map[ListBin := List(seq(|ids|, i requires 0 <= i < |ids| => Str(ids[i]))), SizeBin := Int(|ids|)]
  }
}
