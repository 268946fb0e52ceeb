# RedisUtil file cache and wrappers, modelled in Dafny

This project models `RedisUtil` of the lion-common module. That class is a static facade over a Redis
server. It has two parts:

- **Thin wrappers.** These sit over strings, hashes, sets, lists and keys. They turn a null reply
  into `0` or `false`.
- **A file cache.** `fileSet` stores a file as a two-field hash under the key `"file:" + name`. The
  `fileName` field holds the file's name and `fileContent` holds its bytes in basic Base64. `fileGet`
  restores the file into the temporary directory. `fileGetBytes` hands back the decoded bytes.

The project has four modules:

- **`Wrappers`:** `Option` and `Result`.
- **`Base64`:** the basic encoder and decoder of the Java platform, following section 4 of RFC 4648.
  - The encoder always pads.
  - The decoder accepts a final unit of two or three characters, with or without padding.
  - It rejects a final unit of one character, any `=` in the wrong place, anything after the padding,
    and any character outside the alphabet.
  - It does not check the unused low bits.
- **`Redis`:** the server's single keyspace, as pure functions from a keyspace to a new keyspace and
  a reply.
  - A key holds one kind of value.
  - A command on the wrong kind fails with WRONGTYPE.
  - A command given nothing to add or remove fails with an arity error.
  - No empty hash, set or list is ever kept (the invariant `Redis.Valid`).
- **`RedisUtil`:** the facade.
  - A `Client` object holds the keyspace and whether the connection is pipelining. Inside a
    pipeline the connection answers every command with null, and an error reply only surfaces
    when the pipeline is closed. The template hands a null string, count or flag back as null.
    It turns a null map, list or set into an empty one, so `hashGetAll`, `hashMultiGet`,
    `setGetAll` and `listGet(All)` answer an empty collection inside a pipeline.
  - Each wrapper is a method that updates the keyspace, or a function that reads it.
  - Java exceptions are `Err(Fault)` results: `NullPointer`, `IOFailure`, `IllegalBase64`, or
    `StoreError`, an error reply from the server.

Three behaviours of the code that a caller may not expect, which the model follows as written:

- **`fileGetBytes` on a name with no record** hands a null string to the Base64 decoder. That throws
  `NullPointerException`; it does not return an empty array (`RedisUtil.Client.FileGetBytes`).
- **`fileGet`** names the restored file after the *stored* `fileName` field. It joins that name to
  the temporary directory path with no separator. A missing field is written as `"null"`.
- **`hashDeleteKey` and `hashDeleteKeys`** unbox the `Long` reply with no null check. Inside a
  pipeline they therefore throw `NullPointerException`.

## Model

| member | source | states |
|---|---|---|
| `Base64.Encode` | lion-common/src/main/java/com/lion/common/util/RedisUtil.java:299-302 | The encoding of n bytes has 4·⌈n/3⌉ characters: alphabet characters followed by exactly (3 − n mod 3) mod 3 padding characters. |
| `Base64.Decode` | lion-common/src/main/java/com/lion/common/util/RedisUtil.java:329 | The decoder succeeds exactly on well-shaped text: alphabet characters followed by no padding or, when the length is a multiple of four, by one or two `=`, and never a length one over a multiple of four. Everything else is the IllegalArgumentException path (`None`). |
| `Base64.DecodeFinalUnit` | lion-common/src/main/java/com/lion/common/util/RedisUtil.java:329 | A last unit is accepted exactly when it is two or three alphabet characters followed by the padding that completes it to four, or by none. |
| `Base64.DecodeEncode` | lion-common/src/main/java/com/lion/common/util/RedisUtil.java:300 | Round trip: decoding the encoder's output gives back exactly the original bytes, for every byte sequence including the empty one. |
| `Base64.DecodeUnpadded` | lion-common/src/main/java/com/lion/common/util/RedisUtil.java:342 | The decoder also accepts the encoding with its trailing `=` removed, and gives back the same bytes. |
| `Base64.DecodeRejectsDanglingChar` | lion-common/src/main/java/com/lion/common/util/RedisUtil.java:342 | Every input whose length leaves one character over a multiple of four is rejected. |
| `Base64.UnusedBitsIgnored` | lion-common/src/main/java/com/lion/common/util/RedisUtil.java:329 | The unused low bits of the last character are not checked: "QR==" decodes to the same byte 0x41 as "QQ==". |
| `Base64.TestVectors` | lion-common/src/main/java/com/lion/common/util/RedisUtil.java:300 | The encoder produces the section 10 vectors of RFC 4648, from "" through "Zm9vYmFy". |
| `Base64.ValueChar` | lion-common/src/main/java/com/lion/common/util/RedisUtil.java:300 | Each 6-bit value maps to a character of the alphabet that decodes back to that value. |
| `Redis.Del` | lion-common/src/main/java/com/lion/common/util/RedisUtil.java:369-371 | DEL removes the key and changes nothing else; the reply is true exactly when the key existed. |
| `Redis.DelMany` | lion-common/src/main/java/com/lion/common/util/RedisUtil.java:378-380 | DEL on several keys removes exactly those keys and keeps every other key's value; the reply is the number of keys that went away, at most the number asked for. |
| `Redis.Expire` | lion-common/src/main/java/com/lion/common/util/RedisUtil.java:388-390 | The reply is whether the key exists. The key survives, with its value unchanged, exactly when it existed and the timeout is positive. No other key changes. |
| `Redis.Get` | lion-common/src/main/java/com/lion/common/util/RedisUtil.java:77-79 | GET fails exactly on a key of another kind, and reads nothing exactly when the key is absent. A string read is the one stored under the key. |
| `Redis.Set` | lion-common/src/main/java/com/lion/common/util/RedisUtil.java:55-58 | After SET, GET reads the new value; every other key is unchanged. |
| `Redis.SetEx` | lion-common/src/main/java/com/lion/common/util/RedisUtil.java:67-70 | SET with EX fails exactly when the timeout is not positive; otherwise it behaves as SET. |
| `Redis.HGetAll` | lion-common/src/main/java/com/lion/common/util/RedisUtil.java:150-152 | HGETALL fails exactly on a key of another kind. An absent key reads as the empty map; a present hash reads as its stored fields. In a valid keyspace the map is empty exactly when the key is absent. |
| `Redis.HGet` | lion-common/src/main/java/com/lion/common/util/RedisUtil.java:120-122 | HGET finds a value exactly when the field is in the hash, and that value is the field's. |
| `Redis.HMGet` | lion-common/src/main/java/com/lion/common/util/RedisUtil.java:141-143 | HMGET answers one entry per requested field, in order, each equal to HGET of that field. |
| `Redis.HExists` | lion-common/src/main/java/com/lion/common/util/RedisUtil.java:360-362 | HEXISTS is true exactly when HGET finds the field. |
| `Redis.HSetAll` | lion-common/src/main/java/com/lion/common/util/RedisUtil.java:109-112 | Fails exactly on an empty map or a key of another kind. Otherwise the hash becomes the old fields overridden by the new ones, no other key changes, and validity is kept. |
| `Redis.HDel` | lion-common/src/main/java/com/lion/common/util/RedisUtil.java:160-162 | Fails exactly on no fields or a key of another kind. Otherwise the hash loses exactly the listed fields and the reply counts the fields that were removed. An emptied hash disappears. |
| `Redis.SMembers` | lion-common/src/main/java/com/lion/common/util/RedisUtil.java:201-203 | SMEMBERS fails exactly on a key of another kind. An absent key reads as the empty set; a present set reads as its stored members. In a valid keyspace the set is empty exactly when the key is absent. |
| `Redis.SAdd` | lion-common/src/main/java/com/lion/common/util/RedisUtil.java:180-183 | The set becomes the union with the values, and the reply is how much it grew. No values is an arity error. |
| `Redis.SRem` | lion-common/src/main/java/com/lion/common/util/RedisUtil.java:191-194 | The set loses exactly the values, and the reply is how much it shrank. No values is an arity error. |
| `Redis.LAll` | lion-common/src/main/java/com/lion/common/util/RedisUtil.java:277-279 | The whole list fails exactly on a key of another kind. An absent key reads as the empty list; a present list reads as its stored items. In a valid keyspace it is empty exactly when the key is absent. |
| `Redis.Window` | lion-common/src/main/java/com/lion/common/util/RedisUtil.java:268-270 | LRANGE selects a position exactly when it lies between start and stop, both included, a negative bound counting from the end; the window stays inside the list. |
| `Redis.LRange` | lion-common/src/main/java/com/lion/common/util/RedisUtil.java:268-270 | LRANGE fails exactly on a key of another kind. Otherwise it answers the elements of the list in the positions `Window` selects, in order. |
| `Redis.LRangeWhole` | lion-common/src/main/java/com/lion/common/util/RedisUtil.java:277-279 | LRANGE 0 -1 is the whole list. |
| `Redis.LRangeInside` | lion-common/src/main/java/com/lion/common/util/RedisUtil.java:268-270 | Positions inside the list give the slice from start to stop, both included. |
| `Redis.LRangeFromEnd` | lion-common/src/main/java/com/lion/common/util/RedisUtil.java:268-270 | A negative position that does not reach past the head selects the same elements as the position it stands for. |
| `Redis.RPush` | lion-common/src/main/java/com/lion/common/util/RedisUtil.java:256-259 | The list becomes the old list followed by the values in order. The reply is its new, positive length. No values is an arity error. |
| `RedisUtil.OrZero` | lion-common/src/main/java/com/lion/common/util/RedisUtil.java:182 | A null count becomes 0; a present count is kept. |
| `RedisUtil.OrFalse` | lion-common/src/main/java/com/lion/common/util/RedisUtil.java:351 | The result is true exactly when the reply is a present true. |
| `RedisUtil.CacheKey` | lion-common/src/main/java/com/lion/common/util/RedisUtil.java:306 | The cache key is "file:" followed by the name. |
| `RedisUtil.CacheKeyInjective` | lion-common/src/main/java/com/lion/common/util/RedisUtil.java:284 | Two names share a cache key exactly when they are equal. |
| `RedisUtil.FileRecord` | lion-common/src/main/java/com/lion/common/util/RedisUtil.java:303-305 | The record has exactly the fields `fileName` and `fileContent`. The name field is the name. The content decodes back to the bytes and has the encoder's length and padding. |
| `RedisUtil.GetString` | lion-common/src/main/java/com/lion/common/util/RedisUtil.java:322-323 | A field is found exactly when the map is present and holds it, and the value found is that field's value. |
| `RedisUtil.DecodeText` | lion-common/src/main/java/com/lion/common/util/RedisUtil.java:329 | A null text throws NullPointerException, malformed text IllegalArgumentException; otherwise the result is what the decoder gives. |
| `RedisUtil.ContentBytes` | lion-common/src/main/java/com/lion/common/util/RedisUtil.java:342 | A missing `fileContent` field is the NullPointerException path. A present one gives its decoding when it decodes, and the IllegalArgumentException path when it does not. |
| `RedisUtil.Materialise` | lion-common/src/main/java/com/lion/common/util/RedisUtil.java:319-331 | Nothing is restored exactly when the hash is null or empty. A restored file's path is the directory joined to the stored name, and its bytes are the decoded content. A failure is the decoder's failure. |
| `RedisUtil.ReadBackRecord` | lion-common/src/main/java/com/lion/common/util/RedisUtil.java:322-329 | A hash the record was merged into reads back as the file's own name and bytes, whatever other fields it held. |
| `RedisUtil.StoreThenRead` | lion-common/src/main/java/com/lion/common/util/RedisUtil.java:296-332 | Round trip: after the record is written, reading it back gives the file's bytes and restores a file with the file's name. |
| `RedisUtil.OverwriteKeepsLatest` | lion-common/src/main/java/com/lion/common/util/RedisUtil.java:303-306 | Caching a second file under the same name replaces both fields, so only the second content is read back. |
| `RedisUtil.OtherFilesUntouched` | lion-common/src/main/java/com/lion/common/util/RedisUtil.java:306 | Caching a file leaves the record of every other name as it was. |
| `RedisUtil.AbsentRecord` | lion-common/src/main/java/com/lion/common/util/RedisUtil.java:318-320 | With no record under the cache key, the store reads the hash as empty. Restoring from that read gives nothing, and reading its bytes is a NullPointerException, not an empty array. |
| `RedisUtil.NullHashReadsAsEmpty` | lion-common/src/main/java/com/lion/common/util/RedisUtil.java:319-342 | The file reads make the same of a null hash as of an empty one: nothing to restore, and a NullPointerException for the bytes. |
| `RedisUtil.Client.SetValue` | lion-common/src/main/java/com/lion/common/util/RedisUtil.java:55-58 | Returns the value unchanged. The keyspace becomes SET of it. |
| `RedisUtil.Client.SetValueFor` | lion-common/src/main/java/com/lion/common/util/RedisUtil.java:67-70 | Returns the value. A non-positive timeout changes nothing and raises the server's error, except inside a pipeline. Otherwise GET reads the value and no other key changes. |
| `RedisUtil.Client.GetValue` | lion-common/src/main/java/com/lion/common/util/RedisUtil.java:77-79 | The result is null inside a pipeline or for an absent key, and an error exactly on a key of another kind. Outside a pipeline a stored string is returned, and any string returned is the one stored. |
| `RedisUtil.Client.HashPut` | lion-common/src/main/java/com/lion/common/util/RedisUtil.java:98-101 | Returns the value. The hash gains or overwrites exactly that field, and no other key changes. A WRONGTYPE failure writes nothing. |
| `RedisUtil.Client.HashPutAll` | lion-common/src/main/java/com/lion/common/util/RedisUtil.java:109-112 | Returns the map. An empty map sends nothing. Otherwise the hash becomes the old fields overridden by the map. |
| `RedisUtil.Client.HashGet` | lion-common/src/main/java/com/lion/common/util/RedisUtil.java:120-122 | The result is null inside a pipeline and an error exactly on a key of another kind. Outside a pipeline, on a hash or an absent key, a value is returned exactly when the field is present, and it is that field's value. |
| `RedisUtil.Client.HashMultiGet` | lion-common/src/main/java/com/lion/common/util/RedisUtil.java:141-143 | No fields, or a call inside a pipeline, gives the empty list. Otherwise the result is an error exactly on a key of another kind, and is otherwise one entry per field equal to that field's HGET, in order. |
| `RedisUtil.Client.HashGetAll` | lion-common/src/main/java/com/lion/common/util/RedisUtil.java:150-152 | Inside a pipeline the result is the empty map. Outside it, the result is an error exactly on a key of another kind. A stored hash is returned whole, and an absent key gives the empty map. In a valid keyspace the map is empty exactly when the key is absent. |
| `RedisUtil.Client.HashDeleteKey` | lion-common/src/main/java/com/lion/common/util/RedisUtil.java:160-162 | The hash loses the field. The reply is 1 if the field was there and 0 if not. Inside a pipeline the unboxing throws. |
| `RedisUtil.Client.HashDeleteKeysAsWritten` | lion-common/src/main/java/com/lion/common/util/RedisUtil.java:170-172 | As written: the hash loses only the one field that the serialiser makes of the whole collection, and the reply is 1 if that field was there and 0 if not. Inside a pipeline the unboxing throws. |
| `RedisUtil.AsWrittenKeepsListedFields` | lion-common/src/main/java/com/lion/common/util/RedisUtil.java:170-172 | As written, every listed field that the hash held is still there afterwards, unless it happens to be the name the serialiser made of the collection. |
| `RedisUtil.HashDeleteKeysMissesListedFields` | lion-common/src/main/java/com/lion/common/util/RedisUtil.java:170-172 | Counterexample: on the hash {a: 1} with the collection ["a"] sent as the field "[a]", the call as written leaves the hash as it was and replies 0, while HDEL of the listed field removes it and replies 1. |
| `RedisUtil.Client.HashDeleteKeys` | lion-common/src/main/java/com/lion/common/util/RedisUtil.java:170-172 | As intended: the hash loses exactly the listed fields, and the reply counts the fields that were present. Inside a pipeline the unboxing throws. |
| `RedisUtil.Client.SetAdd` | lion-common/src/main/java/com/lion/common/util/RedisUtil.java:180-183 | The set becomes the union with the values. The result is the number of new members, or 0 for a null reply. No values is an arity error outside a pipeline. |
| `RedisUtil.Client.SetDelete` | lion-common/src/main/java/com/lion/common/util/RedisUtil.java:191-194 | The set loses the values. The result is the number of members that were removed, or 0 for a null reply. |
| `RedisUtil.Client.SetGetAll` | lion-common/src/main/java/com/lion/common/util/RedisUtil.java:201-203 | Inside a pipeline the result is the empty set. Outside it, the result is an error exactly on a key of another kind. An absent key gives the empty set, and a stored set is returned whole. |
| `RedisUtil.Client.ListPushAll` | lion-common/src/main/java/com/lion/common/util/RedisUtil.java:244-259 | The list becomes the old list followed by the values. The result is its new length, or 0 for a null reply. No values is an arity error outside a pipeline. |
| `RedisUtil.Client.ListPush` | lion-common/src/main/java/com/lion/common/util/RedisUtil.java:233-236 | The list gains the one value at its end. The result is its new length, or 0 for a null reply. |
| `RedisUtil.Client.ListGet` | lion-common/src/main/java/com/lion/common/util/RedisUtil.java:268-270 | Inside a pipeline the result is the empty list. Outside it, the result is an error exactly on a key of another kind, and is otherwise the elements of the list in LRANGE's window. |
| `RedisUtil.Client.ListGetAll` | lion-common/src/main/java/com/lion/common/util/RedisUtil.java:277-279 | Inside a pipeline the result is the empty list. Outside it, the result is an error exactly on a key of another kind, and is otherwise the whole list. |
| `RedisUtil.Client.HasKey` | lion-common/src/main/java/com/lion/common/util/RedisUtil.java:350-352 | True exactly when not pipelining and the key exists. |
| `RedisUtil.Client.HashHasKey` | lion-common/src/main/java/com/lion/common/util/RedisUtil.java:360-362 | True exactly when not pipelining and HGET finds the field. False inside a pipeline. An error exactly on a key of another kind. |
| `RedisUtil.Client.Delete` | lion-common/src/main/java/com/lion/common/util/RedisUtil.java:369-371 | The key is gone and nothing else changes. The result is true exactly when not pipelining and the key existed. |
| `RedisUtil.Client.DeleteKeys` | lion-common/src/main/java/com/lion/common/util/RedisUtil.java:378-380 | The keys are gone and every other value is kept. The result is the number removed, or 0 for an empty collection or a null reply. |
| `RedisUtil.Client.Expire` | lion-common/src/main/java/com/lion/common/util/RedisUtil.java:388-390 | The key stays exactly when it existed and the timeout is positive; nothing else changes. The result is true exactly when not pipelining and the key existed. |
| `RedisUtil.Client.FileSet` | lion-common/src/main/java/com/lion/common/util/RedisUtil.java:296-307 | A null file or an unreadable file ends the call before any write. Otherwise the hash under "file:" + name becomes the old fields overridden by the record, and no other key changes. When it succeeds outside a pipeline, `FileGetBytes` of the name gives back the file's bytes, and `FileGet` of the name restores, in every directory, a file with the file's name and bytes. |
| `RedisUtil.Client.FileGet` | lion-common/src/main/java/com/lion/common/util/RedisUtil.java:315-332 | A null name is a NullPointerException, and inside a pipeline nothing is restored. Outside a pipeline the result is a WRONGTYPE error or `Materialise` of the stored hash: nothing exactly when no record exists, otherwise a file named after the stored `fileName` holding the decoded `fileContent`. |
| `RedisUtil.Client.FileGetBytes` | lion-common/src/main/java/com/lion/common/util/RedisUtil.java:339-343 | A null name, a call inside a pipeline, or an absent record is a NullPointerException. Otherwise the result is a WRONGTYPE error or `ContentBytes` of the stored hash: the decoding of the stored `fileContent`. |

## Left out

- **Connection:** obtaining the connection and the Spring bean lookup of the template (line 47)
  are not part of this model. The client is given its keyspace.
- **Filesystem I/O:** the file system is a parameter.
  - Reading the file in `fileSet` is `SourceFile.content`, where `None` stands for an IOException.
  - `FileUtils.getTempDirectoryPath()` is the `tempDir` parameter.
  - `fileGet` returns the path and bytes it would write; the write itself is not modelled. A write
    failure and a file truncated before a decoding failure are therefore not modelled.
- **Time:** the passing of time and key expiry are not modelled.
  - `Client.SetValueFor` and `Client.Expire` record only what the call does at once.
- **Reflection casts:** `getValue(key, clazz)` and `hashGet(key, hashKey, clazz)` (lines 87-89 and
  131-133) add only a `Class.cast`. Values are modelled as their serialised text, so a
  ClassCastException has nothing to stand for.
- **Sorted sets:** `zsetAdd` and `zsetDelete` (lines 211-225) are left out, because their members
  carry floating-point scores.
- **Serialisation:** the template's serialisers are not modelled. Keys, fields and values are
  strings. The one place a serialiser decides the outcome, the field name that `hashDeleteKeys`
  as written makes of a whole collection, is the function parameter `serialise` of
  `Client.HashDeleteKeysAsWritten`. A serialiser that refuses a collection, and so throws, is not
  modelled.
- **Null arguments:** null keys, fields and values passed to the wrappers (other than the file and
  the file name) are not modelled.
- **Transactions and concurrency:** MULTI/EXEC transactions are treated like a pipeline (null
  replies). Concurrent clients are not modelled.

## Findings

| source | as written | input that shows it | evidently intended | confidence | as-written member | corrected member |
|---|---|---|---|---|---|---|
| lion-common/src/main/java/com/lion/common/util/RedisUtil.java:170-172 | `delete(key, hashKeys)` passes the whole `Collection` as one element of the `Object...` parameter, so HDEL is asked to remove a single field named by the serialised collection. | A hash `k` = {a: 1} and `hashKeys` = ["a"]: the call sends a single field, for example "[a]", replies 0, and field `a` stays. | Remove every listed field and reply with how many were present. | medium; not executed | `RedisUtil.Client.HashDeleteKeysAsWritten`, `RedisUtil.AsWrittenKeepsListedFields`, `RedisUtil.HashDeleteKeysMissesListedFields` | `RedisUtil.Client.HashDeleteKeys` |
