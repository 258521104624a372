/** The part of the Redis keyspace the service touches: TYPE, DEL, HGETALL, HGET and HSET. */
module Redis {
  import opened Basics

  /** The Redis value types other than a hash. */
  datatype OtherType = StringType | ListType | SetType | SortedSetType | StreamType

  /** The value stored under one key: a hash (field -> value) or a value of another type. */
  datatype Entry = HashValue(fields: map<string, string>) | Other(kind: OtherType)

  type Keyspace = map<string, Entry>

  /** A command's reply: a value, or the WRONGTYPE error a hash command raises on a non-hash key. */
  datatype Reply<T> = Ok(value: T) | WrongType

  /** Redis never keeps a hash with no fields: the last HDEL removes the key. */
  predicate WellFormed(ks: Keyspace) {
    forall key :: key in ks && ks[key].HashValue? ==> |ks[key].fields| > 0
  }

  function TypeName(kind: OtherType): (name: string)
    ensures name != "hash" && name != "none"
  {
    match kind
    case StringType => "string"
    case ListType => "list"
    case SetType => "set"
    case SortedSetType => "zset"
    case StreamType => "stream"
  }

  /** TYPE key. */
  function Type(ks: Keyspace, key: string): (t: string)
    ensures t == "none" <==> key !in ks
    ensures t == "hash" <==> key in ks && ks[key].HashValue?
  {
    if key !in ks then "none"
    else match ks[key]
      case HashValue(_) => "hash"
      case Other(kind) => TypeName(kind)
  }

  /** DEL key. */
  function Delete(ks: Keyspace, key: string): (r: Keyspace)
    ensures key !in r
    ensures forall k :: k in ks && k != key ==> k in r && r[k] == ks[k]
    ensures forall k :: k in r ==> k in ks
    ensures WellFormed(ks) ==> WellFormed(r)
  {
    ks - {key}
  }

  /** HGETALL key: the field map, empty for a missing key. */
  function HGetAll(ks: Keyspace, key: string): (r: Reply<map<string, string>>)
    ensures r.WrongType? <==> key in ks && !ks[key].HashValue?
    ensures key !in ks ==> r == Ok(map[])
    ensures key in ks && ks[key].HashValue? ==> r == Ok(ks[key].fields)
  {
    if key !in ks then Ok(map[])
    else match ks[key]
      case HashValue(fields) => Ok(fields)
      case Other(_) => WrongType
  }

  /** HGET key field: the field's value, or nothing. */
  function HGet(ks: Keyspace, key: string, field: string): (r: Reply<Option<string>>)
    ensures r.WrongType? <==> HGetAll(ks, key).WrongType?
    ensures r.Ok? ==> (r.value.Some? <==> field in HGetAll(ks, key).value)
    ensures r.Ok? && r.value.Some? ==> r.value.value == HGetAll(ks, key).value[field]
  {
    match HGetAll(ks, key)
    case WrongType => WrongType
    case Ok(fields) => Ok(if field in fields then Some(fields[field]) else None)
  }

  /** HSET key field value: creates the hash if needed and (over)writes one field. */
  function HSet(ks: Keyspace, key: string, field: string, value: string): (r: Reply<Keyspace>)
    ensures r.WrongType? <==> key in ks && !ks[key].HashValue?
    ensures r.Ok? ==> HGet(r.value, key, field) == Ok(Some(value))
    ensures r.Ok? ==> forall f :: f != field ==> HGet(r.value, key, f) == HGet(ks, key, f)
    ensures r.Ok? ==> r.value.Keys == ks.Keys + {key}
    ensures r.Ok? ==> forall k :: k in ks && k != key ==> r.value[k] == ks[k]
    ensures r.Ok? && WellFormed(ks) ==> WellFormed(r.value)
  {
    match HGetAll(ks, key)
    case WrongType => WrongType
    case Ok(fields) => Ok(ks[key := HashValue(fields[field := value])])
  }

}
