/** The facade of lion-common's RedisUtil: typed wrappers over the key-value server that
    turn a missing reply into a default, and a file cache that keeps a file's name and its
    Base64-encoded bytes as a two-field hash under the key "file:" + name.

    The server is reached through a `Client`, which holds the server's keyspace and whether
    the client is pipelining.  Inside a pipeline every call hands back null instead of the
    server's reply, and an error reply is only reported when the pipeline is closed. */
module RedisUtil {
  import opened Wrappers
  import Base64
  import Redis

  /** The exceptions a facade call can end in. */
  datatype Fault =
    | NullPointer                        // NullPointerException
    | IOFailure                          // IOException while reading the file to cache
    | IllegalBase64                      // IllegalArgumentException from the Base64 decoder
    | StoreError(cause: Redis.Failure)   // an error reply from the server

  // ================================================================ null normalisation

  /** `count == null ? 0 : count` */
  function OrZero(reply: Option<int>): (n: int)
    ensures reply.None? ==> n == 0
    ensures reply.Some? ==> n == reply.value
  {
    match reply
    case None => 0
    case Some(count) => count
  }

  /** `Optional.ofNullable(reply).orElse(false)` */
  function OrFalse(reply: Option<bool>): (b: bool)
    ensures b ==> reply == Some(true)
    ensures reply == Some(true) ==> b
  {
    match reply
    case None => false
    case Some(answer) => answer
  }

  // ================================================================ file cache layout

  const CACHE_KEY_PREFIX: string := "file:"
  const FIELD_FILE_NAME: string := "fileName"
  const FIELD_FILE_CONTENT: string := "fileContent"

  /** A file handed to the cache: its name (the last component of its path) and the bytes
      that reading it yields, or `None` when reading it fails. */
  datatype SourceFile = SourceFile(name: string, content: Option<seq<bv8>>)

  /** A file that the cache writes into the temporary directory: its path and contents. */
  datatype Restored = Restored(path: string, bytes: seq<bv8>)

  /** The key a file is cached under. */
  function CacheKey(name: string): (key: string)
    ensures |key| == |CACHE_KEY_PREFIX| + |name|
    ensures key[..|CACHE_KEY_PREFIX|] == CACHE_KEY_PREFIX && key[|CACHE_KEY_PREFIX|..] == name
  {
    CACHE_KEY_PREFIX + name
  }

  /** Different names never share a cache key, so caching one file never touches another. */
  lemma CacheKeyInjective(a: string, b: string)
    ensures CacheKey(a) == CacheKey(b) <==> a == b
  {
    if CacheKey(a) == CacheKey(b) {
      calc {
        a;
        CacheKey(a)[|CACHE_KEY_PREFIX|..];
        CacheKey(b)[|CACHE_KEY_PREFIX|..];
        b;
      }
    }
  }

  /** The hash written for a file: exactly two fields, its name and its encoded bytes. */
  function FileRecord(name: string, data: seq<bv8>): (record: map<string, string>)
    ensures record.Keys == {FIELD_FILE_NAME, FIELD_FILE_CONTENT}
    ensures record[FIELD_FILE_NAME] == name
    ensures Base64.Decode(record[FIELD_FILE_CONTENT]) == Some(data)
    ensures |record[FIELD_FILE_CONTENT]| == 4 * ((|data| + 2) / 3)
    ensures Base64.WellPadded(record[FIELD_FILE_CONTENT], Base64.Padding(|data|))
  {
    Base64.DecodeEncode(data);
    map[FIELD_FILE_NAME := name, FIELD_FILE_CONTENT := Base64.Encode(data)]
  }

  /** MapUtils.getString: the field's value, or null when the map is null or lacks it. */
  function GetString(entries: Option<map<string, string>>, field: string): (r: Option<string>)
    ensures r.Some? <==> entries.Some? && field in entries.value
    ensures r.Some? ==> r.value == entries.value[field]
  {
    if entries.Some? && field in entries.value then Some(entries.value[field]) else None
  }

  /** MapUtils.isEmpty: a null map counts as empty. */
  predicate IsEmpty(entries: Option<map<string, string>>) {
    entries.None? || entries.value == map[]
  }

  /** Java's `+` on strings writes a null reference as "null". */
  function JavaConcat(prefix: string, s: Option<string>): string {
    prefix + if s.Some? then s.value else "null"
  }

  /** Base64.getDecoder().decode(String): a null text throws NullPointerException,
      malformed text IllegalArgumentException. */
  function DecodeText(text: Option<string>): (r: Result<seq<bv8>, Fault>)
    ensures text.None? <==> r == Err(NullPointer)
    ensures text.Some? ==> (r.Err? <==> Base64.Decode(text.value).None?)
    ensures r.Ok? ==> Base64.Decode(text.value) == Some(r.value)
    ensures r.Err? ==> r.error == NullPointer || r.error == IllegalBase64
  {
    match text
    case None => Err(NullPointer)
    case Some(s) =>
      match Base64.Decode(s)
      case None => Err(IllegalBase64)
      case Some(data) => Ok(data)
  }

  /** What fileGetBytes makes of the hash it read: the decoded `fileContent` field. */
  function ContentBytes(entries: Option<map<string, string>>): (r: Result<seq<bv8>, Fault>)
    ensures GetString(entries, FIELD_FILE_CONTENT).None? ==> r == Err(NullPointer)
    ensures GetString(entries, FIELD_FILE_CONTENT).Some? ==>
              match Base64.Decode(entries.value[FIELD_FILE_CONTENT])
              case Some(data) => r == Ok(data)
              case None => r == Err(IllegalBase64)
    ensures r.Ok? ==> FIELD_FILE_CONTENT in entries.value
                      && Base64.Decode(entries.value[FIELD_FILE_CONTENT]) == Some(r.value)
  {
    DecodeText(GetString(entries, FIELD_FILE_CONTENT))
  }

  /** What fileGet makes of the hash it read: nothing for a null or empty hash; otherwise
      the decoded `fileContent` written to the temporary directory under the STORED
      `fileName`, joined to the directory without a separator. */
  function Materialise(entries: Option<map<string, string>>, tempDir: string): (r: Result<Option<Restored>, Fault>)
    ensures r == Ok(None) <==> IsEmpty(entries)
    ensures r.Ok? && r.value.Some? ==>
              && r.value.value.path == JavaConcat(tempDir, GetString(entries, FIELD_FILE_NAME))
              && ContentBytes(entries) == Ok(r.value.value.bytes)
    ensures r.Err? ==> ContentBytes(entries) == Err(r.error)
  {
    if IsEmpty(entries) then Ok(None)
    else
      var path := JavaConcat(tempDir, GetString(entries, FIELD_FILE_NAME));
      match ContentBytes(entries)
      case Err(e) => Err(e)
      case Ok(data) => Ok(Some(Restored(path, data)))
  }

  /** A record read back from a hash that a file was cached into, whatever fields the hash
      held before, gives the file's own name and bytes. */
  lemma ReadBackRecord(previous: map<string, string>, name: string, data: seq<bv8>, tempDir: string)
    ensures var entries := Some(previous + FileRecord(name, data));
            && ContentBytes(entries) == Ok(data)
            && Materialise(entries, tempDir) == Ok(Some(Restored(tempDir + name, data)))
  {
    var record := FileRecord(name, data);
    var entries := previous + record;
    assert entries[FIELD_FILE_CONTENT] == record[FIELD_FILE_CONTENT];
    assert entries[FIELD_FILE_NAME] == name;
    assert !IsEmpty(Some(entries));
  }

  /** Round trip: once a file is cached, reading its record back gives its bytes, and the
      restored file carries its name; this holds for the empty file too. */
  lemma StoreThenRead(db: Redis.Db, name: string, data: seq<bv8>, tempDir: string)
    requires Redis.HGetAll(db, CacheKey(name)).Ok?
    ensures Redis.HSetAll(db, CacheKey(name), FileRecord(name, data)).Ok?
    ensures var stored := Redis.HSetAll(db, CacheKey(name), FileRecord(name, data)).value;
            var entries := Some(Redis.HGetAll(stored, CacheKey(name)).value);
            && ContentBytes(entries) == Ok(data)
            && Materialise(entries, tempDir) == Ok(Some(Restored(tempDir + name, data)))
  {
    var key := CacheKey(name);
    var record := FileRecord(name, data);
    assert FIELD_FILE_NAME in record;
    var stored := Redis.HSetAll(db, key, record).value;
    assert Redis.HGetAll(stored, key) == Ok(Redis.HGetAll(db, key).value + record);
    ReadBackRecord(Redis.HGetAll(db, key).value, name, data, tempDir);
  }

  /** Overwrite: caching a second file under the same name replaces both fields, so only
      the second content can be read back. */
  lemma OverwriteKeepsLatest(db: Redis.Db, name: string, first: seq<bv8>, second: seq<bv8>)
    requires Redis.HGetAll(db, CacheKey(name)).Ok?
    ensures Redis.HSetAll(db, CacheKey(name), FileRecord(name, first)).Ok?
    ensures var once := Redis.HSetAll(db, CacheKey(name), FileRecord(name, first)).value;
            && Redis.HSetAll(once, CacheKey(name), FileRecord(name, second)).Ok?
            && var twice := Redis.HSetAll(once, CacheKey(name), FileRecord(name, second)).value;
            && Redis.HGetAll(twice, CacheKey(name)) == Ok(Redis.HGetAll(db, CacheKey(name)).value + FileRecord(name, second))
            && ContentBytes(Some(Redis.HGetAll(twice, CacheKey(name)).value)) == Ok(second)
  {
    var key := CacheKey(name);
    var r1, r2 := FileRecord(name, first), FileRecord(name, second);
    assert FIELD_FILE_NAME in r1 && FIELD_FILE_NAME in r2;
    var before := Redis.HGetAll(db, key).value;
    WriteTwice(db, key, r1, r2);
    OverrideSameKeys(before, r1, r2);
    ReadBackRecord(before, name, second, "");
  }

  lemma OverrideSameKeys(m: map<string, string>, e1: map<string, string>, e2: map<string, string>)
    requires e1.Keys == e2.Keys
    ensures m + e1 + e2 == m + e2
  {
  }

  /** Two writes into one hash leave the old fields overridden by the first entries, then
      by the second. */
  lemma WriteTwice(db: Redis.Db, key: string, e1: map<string, string>, e2: map<string, string>)
    requires Redis.HGetAll(db, key).Ok? && e1 != map[] && e2 != map[]
    ensures Redis.HSetAll(db, key, e1).Ok?
    ensures var once := Redis.HSetAll(db, key, e1).value;
            && Redis.HSetAll(once, key, e2).Ok?
            && Redis.HGetAll(Redis.HSetAll(once, key, e2).value, key) == Ok(Redis.HGetAll(db, key).value + e1 + e2)
  {
  }

  /** Caching a file leaves the record of every other name as it was. */
  lemma OtherFilesUntouched(db: Redis.Db, name: string, other: string, data: seq<bv8>)
    requires name != other
    requires Redis.HGetAll(db, CacheKey(name)).Ok?
    ensures Redis.HSetAll(db, CacheKey(name), FileRecord(name, data)).Ok?
    ensures var stored := Redis.HSetAll(db, CacheKey(name), FileRecord(name, data)).value;
            Redis.HGetAll(stored, CacheKey(other)) == Redis.HGetAll(db, CacheKey(other))
  {
    var record := FileRecord(name, data);
    assert FIELD_FILE_NAME in record;
    CacheKeyInjective(name, other);
    var stored := Redis.HSetAll(db, CacheKey(name), record).value;
    assert CacheKey(other) in stored <==> CacheKey(other) in db;
    if CacheKey(other) in db {
      assert stored[CacheKey(other)] == (stored - {CacheKey(name)})[CacheKey(other)];
    }
  }

  /** Without a record the hash reads as empty: there is nothing to restore, and reading
      the bytes is an error, not an empty result. */
  lemma AbsentRecord(db: Redis.Db, name: string, tempDir: string)
    requires CacheKey(name) !in db
    ensures Redis.HGetAll(db, CacheKey(name)) == Ok(map[])
    ensures Materialise(Some(Redis.HGetAll(db, CacheKey(name)).value), tempDir) == Ok(None)
    ensures ContentBytes(Some(Redis.HGetAll(db, CacheKey(name)).value)) == Err(NullPointer)
  {
  }

  /** The file reads make the same of a null hash as of an empty one, so whether a reply
      inside a pipeline is null or the empty map does not change their outcome. */
  lemma NullHashReadsAsEmpty(tempDir: string)
    ensures Materialise(None, tempDir) == Materialise(Some(map[]), tempDir) == Ok(None)
    ensures ContentBytes(None) == ContentBytes(Some(map[])) == Err(NullPointer)
  {
  }

  // ================================================================ the client

  class Client {
    /** The server's keyspace. */
    var db: Redis.Db
    /** Whether the client is pipelining, so that every reply it hands back is null. */
    var pipelined: bool

    predicate Valid()
      reads this
    {
      Redis.Valid(db)
    }

    constructor (keyspace: Redis.Db, pipelining: bool)
      requires Redis.Valid(keyspace)
      ensures Valid() && db == keyspace && pipelined == pipelining
    {
      db := keyspace;
      pipelined := pipelining;
    }

    // ------------------------------------------------------------ strings

    /** setValue(key, value): stores the value and returns it unchanged. */
    method SetValue(key: string, value: string) returns (r: string)
      requires Valid()
      modifies this
      ensures Valid() && pipelined == old(pipelined)
      ensures r == value
      ensures db == Redis.Set(old(db), key, value)
    {
      db := Redis.Set(db, key, value);
      r := value;
    }

    /** setValue(key, value, seconds): stores the value with a timeout and returns it
        unchanged; the server refuses a timeout that is not positive. */
    method SetValueFor(key: string, value: string, seconds: int) returns (r: Result<string, Fault>)
      requires Valid()
      modifies this
      ensures Valid() && pipelined == old(pipelined)
      ensures r.Ok? ==> r.value == value
      ensures seconds <= 0 ==>
                db == old(db) && r == (if pipelined then Ok(value) else Err(StoreError(Redis.InvalidExpireTime)))
      ensures seconds > 0 ==>
                r == Ok(value) && Redis.Get(db, key) == Ok(Some(value)) && db - {key} == old(db) - {key}
    {
      var outcome := Redis.SetEx(db, key, value, seconds);
      match outcome {
        case Ok(db') =>
          db := db';
          r := Ok(value);
        case Err(e) =>
          r := if pipelined then Ok(value) else Err(StoreError(e));
      }
    }

    /** getValue(key): the string under `key`, or null. */
    function GetValue(key: string): (r: Result<Option<string>, Fault>)
      reads this
      ensures pipelined ==> r == Ok(None)
      ensures !pipelined ==> (r.Err? <==> key in db && !db[key].Text?)
      ensures !pipelined && key !in db ==> r == Ok(None)
      ensures !pipelined && key in db && db[key].Text? ==> r == Ok(Some(db[key].text))
      ensures r.Ok? && r.value.Some? ==> key in db && db[key] == Redis.Text(r.value.value)
    {
      if pipelined then Ok(None)
      else match Redis.Get(db, key)
        case Err(e) => Err(StoreError(e))
        case Ok(value) => Ok(value)
    }

    // ------------------------------------------------------------ hashes

    /** hashPut(key, hashKey, value): writes one field and returns the value unchanged. */
    method HashPut(key: string, hashKey: string, value: string) returns (r: Result<string, Fault>)
      requires Valid()
      modifies this
      ensures Valid() && pipelined == old(pipelined)
      ensures r.Ok? ==> r.value == value
      ensures match Redis.HGetAll(old(db), key)
              case Err(e) => db == old(db) && r == (if pipelined then Ok(value) else Err(StoreError(e)))
              case Ok(fields) =>
                && r == Ok(value)
                && Redis.HGetAll(db, key) == Ok(fields[hashKey := value])
                && db - {key} == old(db) - {key}
    {
      var entry := map[hashKey := value];
      assert hashKey in entry;
      var outcome := Redis.HSetAll(db, key, entry);
      match outcome {
        case Ok(db') =>
          assert Redis.HGetAll(db, key).value + entry == Redis.HGetAll(db, key).value[hashKey := value];
          db := db';
          r := Ok(value);
        case Err(e) =>
          r := if pipelined then Ok(value) else Err(StoreError(e));
      }
    }

    /** hashPutAll(key, entries): writes all the entries and returns them unchanged; an
        empty map is not sent to the server at all. */
    method HashPutAll(key: string, entries: map<string, string>) returns (r: Result<map<string, string>, Fault>)
      requires Valid()
      modifies this
      ensures Valid() && pipelined == old(pipelined)
      ensures r.Ok? ==> r.value == entries
      ensures entries == map[] ==> db == old(db) && r == Ok(entries)
      ensures entries != map[] ==>
                match Redis.HGetAll(old(db), key)
                case Err(e) => db == old(db) && r == (if pipelined then Ok(entries) else Err(StoreError(e)))
                case Ok(fields) =>
                  && r == Ok(entries)
                  && Redis.HGetAll(db, key) == Ok(fields + entries)
                  && db - {key} == old(db) - {key}
    {
      if entries == map[] {
        return Ok(entries);
      }
      var outcome := Redis.HSetAll(db, key, entries);
      match outcome {
        case Ok(db') =>
          db := db';
          r := Ok(entries);
        case Err(e) =>
          r := if pipelined then Ok(entries) else Err(StoreError(e));
      }
    }

    /** hashGet(key, hashKey): one field of the hash, or null. */
    function HashGet(key: string, hashKey: string): (r: Result<Option<string>, Fault>)
      reads this
      ensures pipelined ==> r == Ok(None)
      ensures !pipelined ==> (r.Err? <==> Redis.HGetAll(db, key).Err?)
      ensures !pipelined && Redis.HGetAll(db, key).Ok? ==>
                r.Ok? && (r.value.Some? <==> hashKey in Redis.HGetAll(db, key).value)
      ensures r.Ok? && r.value.Some? ==>
                && Redis.HGetAll(db, key).Ok?
                && hashKey in Redis.HGetAll(db, key).value
                && Redis.HGetAll(db, key).value[hashKey] == r.value.value
    {
      if pipelined then Ok(None)
      else match Redis.HGet(db, key, hashKey)
        case Err(e) => Err(StoreError(e))
        case Ok(value) => Ok(value)
    }

    /** hashMultiGet(key, hashKeys): the listed fields in order, each present or null.  An
        empty list is answered without asking the server, and the null reply inside a
        pipeline is handed back as the empty list. */
    function HashMultiGet(key: string, hashKeys: seq<string>): (r: Result<seq<Option<string>>, Fault>)
      reads this
      ensures hashKeys == [] || pipelined ==> r == Ok([])
      ensures hashKeys != [] && !pipelined ==> (r.Err? <==> Redis.HGetAll(db, key).Err?)
      ensures hashKeys != [] && !pipelined && r.Ok? ==>
                && |r.value| == |hashKeys|
                && forall i :: 0 <= i < |hashKeys| ==> Ok(r.value[i]) == Redis.HGet(db, key, hashKeys[i])
    {
      if hashKeys == [] || pipelined then Ok([])
      else match Redis.HMGet(db, key, hashKeys)
        case Err(e) => Err(StoreError(e))
        case Ok(values) => Ok(values)
    }

    /** hashGetAll(key): every field of the hash; an absent key gives the empty map, and so
        does the null reply inside a pipeline. */
    function HashGetAll(key: string): (r: Result<map<string, string>, Fault>)
      reads this
      ensures pipelined ==> r == Ok(map[])
      ensures !pipelined ==> (r.Err? <==> key in db && !db[key].Hash?)
      ensures !pipelined && key !in db ==> r == Ok(map[])
      ensures !pipelined && key in db && db[key].Hash? ==> r == Ok(db[key].fields)
      ensures !pipelined && Valid() ==> (r == Ok(map[]) <==> key !in db)
    {
      if pipelined then Ok(map[])
      else match Redis.HGetAll(db, key)
        case Err(e) => Err(StoreError(e))
        case Ok(fields) => Ok(fields)
    }

    /** hashDeleteKey(key, hashKey): removes one field; the reply counts it if it was there.
        The reply is unboxed without a null check, so inside a pipeline the call throws. */
    method HashDeleteKey(key: string, hashKey: string) returns (r: Result<int, Fault>)
      requires Valid()
      modifies this
      ensures Valid() && pipelined == old(pipelined)
      ensures match Redis.HGetAll(old(db), key)
              case Err(e) => db == old(db) && r == Err(if pipelined then NullPointer else StoreError(e))
              case Ok(fields) =>
                && Redis.HGetAll(db, key) == Ok(fields - {hashKey})
                && db - {key} == old(db) - {key}
                && r == (if pipelined then Err(NullPointer) else Ok(if hashKey in fields then 1 else 0))
    {
      var outcome := Redis.HDel(db, key, {hashKey});
      if outcome.Ok? {
        db := outcome.value.db;
      }
      if pipelined {
        r := Err(NullPointer);
      } else if outcome.Err? {
        r := Err(StoreError(outcome.error));
      } else {
        r := Ok(outcome.value.reply);
      }
    }

    /** hashDeleteKeys(key, hashKeys) as written: the collection is handed to a varargs
        parameter as ONE argument, so the server is asked to delete the single field that
        the hash-key serialiser `serialise` makes of the whole collection. */
    method HashDeleteKeysAsWritten(key: string, hashKeys: seq<string>, serialise: seq<string> -> string)
      returns (r: Result<int, Fault>)
      requires Valid()
      modifies this
      ensures Valid() && pipelined == old(pipelined)
      ensures var sent := serialise(hashKeys);
              match Redis.HGetAll(old(db), key)
              case Err(e) => db == old(db) && r == Err(if pipelined then NullPointer else StoreError(e))
              case Ok(fields) =>
                && Redis.HGetAll(db, key) == Ok(fields - {sent})
                && db - {key} == old(db) - {key}
                && r == (if pipelined then Err(NullPointer) else Ok(if sent in fields then 1 else 0))
    {
      r := HashDeleteKey(key, serialise(hashKeys));
    }

    /** hashDeleteKeys(key, hashKeys) as evidently intended: every listed field is removed
        and the reply counts those that were present. */
    method HashDeleteKeys(key: string, hashKeys: seq<string>) returns (r: Result<int, Fault>)
      requires Valid()
      modifies this
      ensures Valid() && pipelined == old(pipelined)
      ensures match Redis.HDel(old(db), key, Redis.Elements(hashKeys))
              case Err(e) => db == old(db) && r == Err(if pipelined then NullPointer else StoreError(e))
              case Ok(_) =>
                var before := Redis.HGetAll(old(db), key).value;
                && Redis.HGetAll(db, key) == Ok(before - Redis.Elements(hashKeys))
                && db - {key} == old(db) - {key}
                && r == (if pipelined then Err(NullPointer) else Ok(|before| - |before - Redis.Elements(hashKeys)|))
    {
      var outcome := Redis.HDel(db, key, Redis.Elements(hashKeys));
      if outcome.Ok? {
        db := outcome.value.db;
      }
      if pipelined {
        r := Err(NullPointer);
      } else if outcome.Err? {
        r := Err(StoreError(outcome.error));
      } else {
        r := Ok(outcome.value.reply);
      }
    }

    // ------------------------------------------------------------ sets

    /** setAdd(key, values...): the number of new members, 0 for a null reply. */
    method SetAdd(key: string, values: seq<string>) returns (r: Result<int, Fault>)
      requires Valid()
      modifies this
      ensures Valid() && pipelined == old(pipelined)
      ensures values == [] ==>
                db == old(db) && r == (if pipelined then Ok(0) else Err(StoreError(Redis.WrongArity)))
      ensures values != [] ==>
                match Redis.SMembers(old(db), key)
                case Err(e) =>
                  db == old(db) && r == (if pipelined then Ok(0) else Err(StoreError(e)))
                case Ok(before) =>
                  && Redis.SMembers(db, key) == Ok(before + Redis.Elements(values))
                  && db - {key} == old(db) - {key}
                  && r == Ok(if pipelined then 0 else |Redis.Elements(values) - before|)
    {
      var outcome := Redis.SAdd(db, key, values);
      if outcome.Ok? {
        db := outcome.value.db;
      }
      if !pipelined && outcome.Err? {
        return Err(StoreError(outcome.error));
      }
      var count: Option<int> := if pipelined then None else Some(outcome.value.reply);
      r := Ok(OrZero(count));
    }

    /** setDelete(key, values...): the number of members removed, 0 for a null reply. */
    method SetDelete(key: string, values: seq<string>) returns (r: Result<int, Fault>)
      requires Valid()
      modifies this
      ensures Valid() && pipelined == old(pipelined)
      ensures values == [] ==>
                db == old(db) && r == (if pipelined then Ok(0) else Err(StoreError(Redis.WrongArity)))
      ensures values != [] ==>
                match Redis.SMembers(old(db), key)
                case Err(e) =>
                  db == old(db) && r == (if pipelined then Ok(0) else Err(StoreError(e)))
                case Ok(before) =>
                  && Redis.SMembers(db, key) == Ok(before - Redis.Elements(values))
                  && db - {key} == old(db) - {key}
                  && r == Ok(if pipelined then 0 else |before * Redis.Elements(values)|)
    {
      var outcome := Redis.SRem(db, key, values);
      if outcome.Ok? {
        db := outcome.value.db;
      }
      if !pipelined && outcome.Err? {
        return Err(StoreError(outcome.error));
      }
      var count: Option<int> := if pipelined then None else Some(outcome.value.reply);
      r := Ok(OrZero(count));
    }

    /** setGetAll(key): the members of the set; an absent key gives the empty set, and so
        does the null reply inside a pipeline. */
    function SetGetAll(key: string): (r: Result<set<string>, Fault>)
      reads this
      ensures pipelined ==> r == Ok({})
      ensures !pipelined ==> (r.Err? <==> key in db && !db[key].Members?)
      ensures !pipelined && key !in db ==> r == Ok({})
      ensures !pipelined && key in db && db[key].Members? ==> r == Ok(db[key].members)
    {
      if pipelined then Ok({})
      else match Redis.SMembers(db, key)
        case Err(e) => Err(StoreError(e))
        case Ok(members) => Ok(members)
    }

    // ------------------------------------------------------------ lists

    /** listPush(key, value) and both listPushAll overloads: appends the values at the
        right; the new length of the list, 0 for a null reply. */
    method ListPushAll(key: string, values: seq<string>) returns (r: Result<int, Fault>)
      requires Valid()
      modifies this
      ensures Valid() && pipelined == old(pipelined)
      ensures values == [] ==>
                db == old(db) && r == (if pipelined then Ok(0) else Err(StoreError(Redis.WrongArity)))
      ensures values != [] ==>
                match Redis.LAll(old(db), key)
                case Err(e) =>
                  db == old(db) && r == (if pipelined then Ok(0) else Err(StoreError(e)))
                case Ok(before) =>
                  && Redis.LAll(db, key) == Ok(before + values)
                  && db - {key} == old(db) - {key}
                  && r == Ok(if pipelined then 0 else |before| + |values|)
    {
      var outcome := Redis.RPush(db, key, values);
      if outcome.Ok? {
        db := outcome.value.db;
      }
      if !pipelined && outcome.Err? {
        return Err(StoreError(outcome.error));
      }
      var count: Option<int> := if pipelined then None else Some(outcome.value.reply);
      r := Ok(OrZero(count));
    }

    /** listPush(key, value): one value appended at the right. */
    method ListPush(key: string, value: string) returns (r: Result<int, Fault>)
      requires Valid()
      modifies this
      ensures Valid() && pipelined == old(pipelined)
      ensures match Redis.LAll(old(db), key)
              case Err(e) =>
                db == old(db) && r == (if pipelined then Ok(0) else Err(StoreError(e)))
              case Ok(before) =>
                && Redis.LAll(db, key) == Ok(before + [value])
                && db - {key} == old(db) - {key}
                && r == Ok(if pipelined then 0 else |before| + 1)
    {
      r := ListPushAll(key, [value]);
    }

    /** listGet(key, start, end): the elements from position `start` to position `stop`,
        both included, a negative position counting back from the end.  The null reply
        inside a pipeline is handed back as the empty list. */
    function ListGet(key: string, start: int, stop: int): (r: Result<seq<string>, Fault>)
      reads this
      ensures pipelined ==> r == Ok([])
      ensures !pipelined ==> (r.Err? <==> key in db && !db[key].Items?)
      ensures !pipelined && r.Ok? ==>
                && Redis.LAll(db, key).Ok?
                && var items := Redis.LAll(db, key).value;
                && var w := Redis.Window(|items|, start, stop);
                && r.value == items[w.0..w.1]
    {
      if pipelined then Ok([])
      else match Redis.LRange(db, key, start, stop)
        case Err(e) => Err(StoreError(e))
        case Ok(items) => Ok(items)
    }

    /** listGetAll(key): listGet(key, 0, -1), the whole list. */
    function ListGetAll(key: string): (r: Result<seq<string>, Fault>)
      reads this
      ensures pipelined ==> r == Ok([])
      ensures !pipelined ==> (r.Err? <==> key in db && !db[key].Items?)
      ensures !pipelined && r.Ok? ==> Redis.LAll(db, key) == Ok(r.value)
    {
      Redis.LRangeWhole(db, key);
      ListGet(key, 0, -1)
    }

    // ------------------------------------------------------------ keys

    /** hasKey(key): whether the key exists; false for a null reply. */
    function HasKey(key: string): (b: bool)
      reads this
      ensures b <==> !pipelined && key in db
    {
      OrFalse(if pipelined then None else Some(Redis.Exists(db, key)))
    }

    /** hasKey(key, hashKey): whether the hash has the field; false for a null reply. */
    function HashHasKey(key: string, hashKey: string): (r: Result<bool, Fault>)
      reads this
      ensures pipelined ==> r == Ok(false)
      ensures !pipelined ==> (r.Err? <==> Redis.HGetAll(db, key).Err?)
      ensures r == Ok(true) <==> !pipelined && Redis.HGet(db, key, hashKey).Ok? && Redis.HGet(db, key, hashKey).value.Some?
    {
      if pipelined then Ok(OrFalse(None))
      else match Redis.HExists(db, key, hashKey)
        case Err(e) => Err(StoreError(e))
        case Ok(answer) => Ok(OrFalse(Some(answer)))
    }

    /** delete(key): removes the key; whether it existed, false for a null reply. */
    method Delete(key: string) returns (b: bool)
      requires Valid()
      modifies this
      ensures Valid() && pipelined == old(pipelined)
      ensures key !in db && db - {key} == old(db) - {key}
      ensures b <==> !pipelined && key in old(db)
    {
      var step := Redis.Del(db, key);
      db := step.db;
      b := OrFalse(if pipelined then None else Some(step.reply));
    }

    /** deleteKeys(keys): removes the keys; how many existed, 0 for a null reply.  An empty
        collection is answered without asking the server. */
    method DeleteKeys(keys: set<string>) returns (n: int)
      requires Valid()
      modifies this
      ensures Valid() && pipelined == old(pipelined)
      ensures db.Keys == old(db).Keys - keys
      ensures forall key :: key in db ==> db[key] == old(db)[key]
      ensures n == if pipelined && keys != {} then 0 else |old(db)| - |db|
    {
      if keys == {} {
        return 0;
      }
      var step := Redis.DelMany(db, keys);
      db := step.db;
      n := OrZero(if pipelined then None else Some(step.reply));
    }

    /** expire(key, seconds): whether the key exists (and now has the timeout), false for a
        null reply.  A timeout that is not positive deletes the key. */
    method Expire(key: string, seconds: int) returns (b: bool)
      requires Valid()
      modifies this
      ensures Valid() && pipelined == old(pipelined)
      ensures db - {key} == old(db) - {key}
      ensures key in db <==> key in old(db) && seconds > 0
      ensures key in db ==> db[key] == old(db)[key]
      ensures b <==> !pipelined && key in old(db)
    {
      var step := Redis.Expire(db, key, seconds);
      db := step.db;
      b := OrFalse(if pipelined then None else Some(step.reply));
    }

    // ------------------------------------------------------------ file cache

    /** fileSet(file): caches the file's name and Base64-encoded bytes under
        "file:" + name.  A null file or a failed read ends the call before any write.
        Fields already in the hash other than the two written are kept. */
    method FileSet(file: Option<SourceFile>) returns (r: Result<(), Fault>)
      requires Valid()
      modifies this
      ensures Valid() && pipelined == old(pipelined)
      ensures file.None? ==> r == Err(NullPointer) && db == old(db)
      ensures file.Some? && file.value.content.None? ==> r == Err(IOFailure) && db == old(db)
      ensures file.Some? && file.value.content.Some? ==>
                var key := CacheKey(file.value.name);
                match Redis.HGetAll(old(db), key)
                case Err(e) =>
                  db == old(db) && r == (if pipelined then Ok(()) else Err(StoreError(e)))
                case Ok(fields) =>
                  && r == Ok(())
                  && Redis.HGetAll(db, key) == Ok(fields + FileRecord(file.value.name, file.value.content.value))
                  && db - {key} == old(db) - {key}
      ensures r.Ok? && !pipelined ==> FileGetBytes(Some(file.value.name)) == Ok(file.value.content.value)
      ensures r.Ok? && !pipelined ==>
                forall tempDir :: FileGet(Some(file.value.name), tempDir)
                                  == Ok(Some(Restored(tempDir + file.value.name, file.value.content.value)))
    {
      if file.None? {
        return Err(NullPointer);
      }
      var name := file.value.name;
      if file.value.content.None? {
        return Err(IOFailure);
      }
      var data := file.value.content.value;
      var key := CacheKey(name);
      var outcome := Redis.HSetAll(db, key, FileRecord(name, data));
      match outcome {
        case Ok(db') =>
          db := db';
          r := Ok(());
          forall tempDir {
            ReadBackRecord(Redis.HGetAll(old(db), key).value, name, data, tempDir);
          }
        case Err(e) =>
          r := if pipelined then Ok(()) else Err(StoreError(e));
      }
    }

    /** fileGet(fileName): restores the cached file into the temporary directory `tempDir`.
        Nothing (null) when the hash under "file:" + name is empty; otherwise the file is
        named after the STORED `fileName` field and holds the decoded `fileContent`. */
    function FileGet(fileName: Option<string>, tempDir: string): (r: Result<Option<Restored>, Fault>)
      reads this
      ensures fileName.None? ==> r == Err(NullPointer)
      ensures fileName.Some? && Valid() ==>
                (r == Ok(None) <==> pipelined || CacheKey(fileName.value) !in db)
      ensures fileName.Some? && pipelined ==> r == Ok(None)
      ensures fileName.Some? && !pipelined ==>
                match Redis.HGetAll(db, CacheKey(fileName.value))
                case Err(e) => r == Err(StoreError(e))
                case Ok(fields) => r == Materialise(Some(fields), tempDir)
      ensures r.Ok? && r.value.Some? ==>
                && fileName.Some? && !pipelined
                && Redis.HGetAll(db, CacheKey(fileName.value)).Ok?
                && var fields := Redis.HGetAll(db, CacheKey(fileName.value)).value;
                && r.value.value.path == JavaConcat(tempDir, GetString(Some(fields), FIELD_FILE_NAME))
                && FIELD_FILE_CONTENT in fields
                && Base64.Decode(fields[FIELD_FILE_CONTENT]) == Some(r.value.value.bytes)
    {
      if fileName.None? then Err(NullPointer)
      else match HashGetAll(CacheKey(fileName.value))
        case Err(e) => Err(e)
        case Ok(entries) => Materialise(Some(entries), tempDir)
    }

    /** fileGetBytes(fileName): the decoded `fileContent` of the hash under
        "file:" + name.  A missing record or field hands null to the decoder, which throws. */
    function FileGetBytes(fileName: Option<string>): (r: Result<seq<bv8>, Fault>)
      reads this
      ensures fileName.None? ==> r == Err(NullPointer)
      ensures fileName.Some? && !pipelined && CacheKey(fileName.value) !in db ==> r == Err(NullPointer)
      ensures fileName.Some? && pipelined ==> r == Err(NullPointer)
      ensures fileName.Some? && !pipelined ==>
                match Redis.HGetAll(db, CacheKey(fileName.value))
                case Err(e) => r == Err(StoreError(e))
                case Ok(fields) => r == ContentBytes(Some(fields))
      ensures r.Ok? ==>
                && fileName.Some? && !pipelined
                && Redis.HGetAll(db, CacheKey(fileName.value)).Ok?
                && var fields := Redis.HGetAll(db, CacheKey(fileName.value)).value;
                && FIELD_FILE_CONTENT in fields
                && Base64.Decode(fields[FIELD_FILE_CONTENT]) == Some(r.value)
    {
      if fileName.None? then Err(NullPointer)
      else match HashGetAll(CacheKey(fileName.value))
        case Err(e) => Err(e)
        case Ok(entries) => ContentBytes(Some(entries))
    }
  }

  /** As written, hashDeleteKeys removes no listed field other than one that happens to be
      the name `sent` that the serialiser makes of the whole collection. */
  lemma AsWrittenKeepsListedFields(db: Redis.Db, key: string, hashKeys: seq<string>, sent: string)
    requires Redis.HGetAll(db, key).Ok?
    ensures Redis.HDel(db, key, {sent}).Ok?
    ensures var after := Redis.HGetAll(Redis.HDel(db, key, {sent}).value.db, key).value;
            forall f :: f in hashKeys && f != sent && f in Redis.HGetAll(db, key).value ==> f in after
  {
  }

  /** The example hash of the discrepancy below: field "a" holding "1" under key "k". */
  function ExampleDb(): (db: Redis.Db)
    ensures Redis.HGetAll(db, "k") == Ok(map["a" := "1"])
  {
    map["k" := Redis.Hash(map["a" := "1"])]
  }

  /** As written, the call sends the one field "[a]", which the hash lacks: nothing goes. */
  lemma ExampleAsWritten()
    ensures Redis.HDel(ExampleDb(), "k", {"[a]"}) == Ok(Redis.Step(ExampleDb(), 0))
  {
    var h := map["a" := "1"];
    assert "[a]" !in h;
    assert h - {"[a]"} == h;
    assert h.Keys * {"[a]"} == {};
    assert ExampleDb()["k" := Redis.Hash(h)] == ExampleDb();
  }

  /** As intended, field "a" goes, and with it the hash, now empty. */
  lemma ExampleIntended()
    ensures Redis.HDel(ExampleDb(), "k", Redis.Elements(["a"])) == Ok(Redis.Step(map[], 1))
  {
    var h := map["a" := "1"];
    assert Redis.Elements(["a"]) == {"a"};
    assert h - {"a"} == map[];
    assert h.Keys * {"a"} == {"a"};
    assert ExampleDb() - {"k"} == map[];
  }

  /** The discrepancy of hashDeleteKeys: asked to delete field "a" of a hash that has it,
      the call as written leaves it in place, while the intended call removes it. */
  lemma HashDeleteKeysMissesListedFields()
    ensures Redis.HGetAll(ExampleDb(), "k") == Ok(map["a" := "1"])
    ensures var asWritten := Redis.HDel(ExampleDb(), "k", {"[a]"});
            asWritten.Ok? && Redis.HGetAll(asWritten.value.db, "k") == Ok(map["a" := "1"]) && asWritten.value.reply == 0
    ensures var intended := Redis.HDel(ExampleDb(), "k", Redis.Elements(["a"]));
            intended.Ok? && Redis.HGetAll(intended.value.db, "k") == Ok(map[]) && intended.value.reply == 1
  {
    ExampleAsWritten();
    ExampleIntended();
  }

  /** The scenario of caching "Hello" as a.txt, reading it back, and deleting it. */
  method HelloScenario()
  {
    var hello: seq<bv8> := [72, 101, 108, 108, 111];
    var key := CacheKey("a.txt");
    assert key == "file:a.txt";
    var client := new Client(map[], false);
    assert Redis.HGetAll(client.db, key) == Ok(map[]);
    var stored := client.FileSet(Some(SourceFile("a.txt", Some(hello))));
    assert stored == Ok(());
    assert client.FileGetBytes(Some("a.txt")) == Ok(hello);
    assert FIELD_FILE_NAME in Redis.HGetAll(client.db, key).value;
    assert client.HasKey(key);
    var deleted := client.Delete(key);
    assert deleted;
    assert client.FileGetBytes(Some("a.txt")) == Err(NullPointer);
    assert client.FileGet(Some("a.txt"), "/tmp/") == Ok(None);
  }
}
