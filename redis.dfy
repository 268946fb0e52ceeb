/** The key-value server that the facade talks to, as pure functions over its keyspace.

    One keyspace maps each key to a value of one kind: a string, a hash (field to value),
    a set or a list.  A command that expects another kind than the key holds fails with
    `WrongType`; a command given nothing to add or remove fails with `WrongArity`.  The
    server never keeps an empty hash, set or list: removing the last element removes the
    key.  Stored values are modelled by their serialised text. */
module Redis {
  import opened Wrappers

  datatype Value =
    | Text(text: string)
    | Hash(fields: map<string, string>)
    | Members(members: set<string>)
    | Items(items: seq<string>)

  type Db = map<string, Value>

  /** The error replies this model distinguishes. */
  datatype Failure = WrongType | WrongArity | InvalidExpireTime

  /** A command's effect: the keyspace afterwards and the server's reply. */
  datatype Step<T> = Step(db: Db, reply: T)

  predicate NonEmpty(v: Value) {
    match v
    case Text(_) => true
    case Hash(fields) => fields != map[]
    case Members(members) => members != {}
    case Items(items) => items != []
  }

  /** The keyspace invariant: no key holds an empty aggregate. */
  predicate Valid(db: Db) {
    forall key :: key in db ==> NonEmpty(db[key])
  }

  function Elements(xs: seq<string>): (s: set<string>)
    ensures forall x :: x in s <==> x in xs
  {
    set x | x in xs
  }

  lemma DifferenceSize(a: set<string>, b: set<string>)
    ensures |a - b| == |a| - |a * b|
  {
    assert a == (a - b) + (a * b) && (a - b) !! (a * b);
  }

  lemma UnionSize(a: set<string>, b: set<string>)
    ensures |a + b| == |a| + |b - a|
  {
    assert a + b == a + (b - a) && a !! (b - a);
  }

  // ---------------------------------------------------------------- keys

  /** EXISTS on one key. */
  function Exists(db: Db, key: string): bool {
    key in db
  }

  /** DEL on one key; the reply says whether a key was removed. */
  function Del(db: Db, key: string): (r: Step<bool>)
    ensures r.reply <==> Exists(db, key)
    ensures !Exists(r.db, key) && r.db - {key} == db - {key}
    ensures Valid(db) ==> Valid(r.db)
  {
    Step(db - {key}, key in db)
  }

  /** DEL on several keys; the reply counts the keys that were removed. */
  function DelMany(db: Db, keys: set<string>): (r: Step<int>)
    ensures r.db.Keys == db.Keys - keys
    ensures forall key :: key in r.db ==> r.db[key] == db[key]
    ensures r.reply == |db| - |r.db| && 0 <= r.reply <= |keys|
    ensures Valid(db) ==> Valid(r.db)
  {
    var removed := keys * db.Keys;
    assert db.Keys == (db.Keys - keys) + removed;
    assert removed <= keys;
    Step(db - keys, |removed|)
  }

  /** EXPIRE (or PEXPIRE): the reply says whether the key exists.  A timeout that is not
      positive deletes the key at once; a positive one leaves the keyspace as it is (the
      passing of time is not modelled). */
  function Expire(db: Db, key: string, seconds: int): (r: Step<bool>)
    ensures r.reply <==> Exists(db, key)
    ensures r.db - {key} == db - {key}
    ensures Exists(r.db, key) <==> Exists(db, key) && seconds > 0
    ensures Exists(r.db, key) ==> r.db[key] == db[key]
    ensures Valid(db) ==> Valid(r.db)
  {
    if key !in db then Step(db, false)
    else if seconds <= 0 then Step(db - {key}, true)
    else Step(db, true)
  }

  // ---------------------------------------------------------------- strings

  /** GET: the string under `key`, or nothing when the key is absent. */
  function Get(db: Db, key: string): (r: Result<Option<string>, Failure>)
    ensures r.Err? <==> Exists(db, key) && !db[key].Text?
    ensures r == Ok(None) <==> !Exists(db, key)
    ensures r.Ok? && r.value.Some? ==> Exists(db, key) && db[key] == Text(r.value.value)
  {
    if key !in db then Ok(None)
    else if db[key].Text? then Ok(Some(db[key].text))
    else Err(WrongType)
  }

  /** SET: replaces whatever the key held. */
  function Set(db: Db, key: string, value: string): (r: Db)
    ensures Get(r, key) == Ok(Some(value))
    ensures r - {key} == db - {key}
    ensures Valid(db) ==> Valid(r)
  {
    db[key := Text(value)]
  }

  /** SET with EX: replaces whatever the key held and gives it a timeout, which must be
      positive (the passing of time is not modelled). */
  function SetEx(db: Db, key: string, value: string, seconds: int): (r: Result<Db, Failure>)
    ensures r.Err? <==> seconds <= 0
    ensures r.Ok? ==> Get(r.value, key) == Ok(Some(value)) && r.value - {key} == db - {key}
    ensures r.Ok? && Valid(db) ==> Valid(r.value)
  {
    if seconds <= 0 then Err(InvalidExpireTime) else Ok(Set(db, key, value))
  }

  // ---------------------------------------------------------------- hashes

  /** HGETALL: the fields of the hash under `key`; an absent key reads as the empty hash. */
  function HGetAll(db: Db, key: string): (r: Result<map<string, string>, Failure>)
    ensures r.Err? <==> Exists(db, key) && !db[key].Hash?
    ensures Valid(db) ==> (r == Ok(map[]) <==> !Exists(db, key))
    ensures !Exists(db, key) ==> r == Ok(map[])
    ensures r.Ok? && Exists(db, key) ==> db[key] == Hash(r.value)
  {
    if key !in db then Ok(map[])
    else if db[key].Hash? then Ok(db[key].fields)
    else Err(WrongType)
  }

  /** HGET: one field of the hash under `key`. */
  function HGet(db: Db, key: string, field: string): (r: Result<Option<string>, Failure>)
    ensures r.Err? <==> HGetAll(db, key).Err?
    ensures r.Ok? ==> (r.value.Some? <==> field in HGetAll(db, key).value)
    ensures r.Ok? && r.value.Some? ==> r.value.value == HGetAll(db, key).value[field]
  {
    match HGetAll(db, key)
    case Err(e) => Err(e)
    case Ok(fields) => Ok(if field in fields then Some(fields[field]) else None)
  }

  /** HMGET: the listed fields, in order, each present or absent. */
  function HMGet(db: Db, key: string, fields: seq<string>): (r: Result<seq<Option<string>>, Failure>)
    ensures r.Ok? ==> |r.value| == |fields|
    ensures r.Ok? ==> forall i :: 0 <= i < |fields| ==> Ok(r.value[i]) == HGet(db, key, fields[i])
    ensures r.Err? <==> fields != [] && HGetAll(db, key).Err?
  {
    if fields == [] then Ok([])
    else match HGetAll(db, key)
      case Err(e) => Err(e)
      case Ok(h) => Ok(seq(|fields|, i requires 0 <= i < |fields| =>
                         if fields[i] in h then Some(h[fields[i]]) else None))
  }

  /** HEXISTS: whether the hash under `key` has `field`. */
  function HExists(db: Db, key: string, field: string): (r: Result<bool, Failure>)
    ensures r.Err? <==> HGetAll(db, key).Err?
    ensures r.Ok? ==> (r.value <==> HGet(db, key, field).value.Some?)
  {
    match HGetAll(db, key)
    case Err(e) => Err(e)
    case Ok(fields) => Ok(field in fields)
  }

  /** HSET/HMSET: writes the given fields into the hash under `key`, creating it if absent
      and keeping the fields not given. */
  function HSetAll(db: Db, key: string, entries: map<string, string>): (r: Result<Db, Failure>)
    ensures r.Err? <==> entries == map[] || HGetAll(db, key).Err?
    ensures r.Ok? ==> HGetAll(r.value, key) == Ok(HGetAll(db, key).value + entries)
    ensures r.Ok? ==> r.value - {key} == db - {key}
    ensures r.Ok? && Valid(db) ==> Valid(r.value)
  {
    if entries == map[] then Err(WrongArity)
    else match HGetAll(db, key)
      case Err(e) => Err(e)
      case Ok(fields) => Ok(db[key := Hash(fields + entries)])
  }

  /** HDEL: removes the given fields; the reply counts those that were present. */
  function HDel(db: Db, key: string, fields: set<string>): (r: Result<Step<int>, Failure>)
    ensures r.Err? <==> fields == {} || HGetAll(db, key).Err?
    ensures r.Ok? ==> HGetAll(r.value.db, key) == Ok(HGetAll(db, key).value - fields)
    ensures r.Ok? ==> r.value.db - {key} == db - {key}
    ensures r.Ok? ==> r.value.reply == |HGetAll(db, key).value| - |HGetAll(r.value.db, key).value|
    ensures r.Ok? && Valid(db) ==> Valid(r.value.db)
  {
    if fields == {} then Err(WrongArity)
    else match HGetAll(db, key)
      case Err(e) => Err(e)
      case Ok(h) =>
        var left := h - fields;
        var removed := h.Keys * fields;
        assert left.Keys == h.Keys - fields;
        DifferenceSize(h.Keys, fields);
        var db' := if left == map[] then db - {key} else db[key := Hash(left)];
        Ok(Step(db', |removed|))
  }

  // ---------------------------------------------------------------- sets

  /** SMEMBERS: the members of the set under `key`; an absent key reads as the empty set. */
  function SMembers(db: Db, key: string): (r: Result<set<string>, Failure>)
    ensures r.Err? <==> Exists(db, key) && !db[key].Members?
    ensures Valid(db) ==> (r == Ok({}) <==> !Exists(db, key))
    ensures !Exists(db, key) ==> r == Ok({})
    ensures r.Ok? && Exists(db, key) ==> db[key] == Members(r.value)
  {
    if key !in db then Ok({})
    else if db[key].Members? then Ok(db[key].members)
    else Err(WrongType)
  }

  /** SADD: the reply counts the members that were not already in the set. */
  function SAdd(db: Db, key: string, values: seq<string>): (r: Result<Step<int>, Failure>)
    ensures r.Err? <==> values == [] || SMembers(db, key).Err?
    ensures r.Ok? ==> SMembers(r.value.db, key) == Ok(SMembers(db, key).value + Elements(values))
    ensures r.Ok? ==> r.value.reply == |SMembers(r.value.db, key).value| - |SMembers(db, key).value|
    ensures r.Ok? ==> r.value.db - {key} == db - {key}
    ensures r.Ok? && Valid(db) ==> Valid(r.value.db)
  {
    if values == [] then Err(WrongArity)
    else match SMembers(db, key)
      case Err(e) => Err(e)
      case Ok(current) =>
        var added := Elements(values) - current;
        UnionSize(current, Elements(values));
        assert values[0] in current + Elements(values);
        Ok(Step(db[key := Members(current + Elements(values))], |added|))
  }

  /** SREM: the reply counts the members that were in the set. */
  function SRem(db: Db, key: string, values: seq<string>): (r: Result<Step<int>, Failure>)
    ensures r.Err? <==> values == [] || SMembers(db, key).Err?
    ensures r.Ok? ==> SMembers(r.value.db, key) == Ok(SMembers(db, key).value - Elements(values))
    ensures r.Ok? ==> r.value.reply == |SMembers(db, key).value| - |SMembers(r.value.db, key).value|
    ensures r.Ok? ==> r.value.db - {key} == db - {key}
    ensures r.Ok? && Valid(db) ==> Valid(r.value.db)
  {
    if values == [] then Err(WrongArity)
    else match SMembers(db, key)
      case Err(e) => Err(e)
      case Ok(current) =>
        var left := current - Elements(values);
        var removed := current * Elements(values);
        DifferenceSize(current, Elements(values));
        var db' := if left == {} then db - {key} else db[key := Members(left)];
        Ok(Step(db', |removed|))
  }

  // ---------------------------------------------------------------- lists

  /** LRANGE 0 -1: the whole list under `key`; an absent key reads as the empty list. */
  function LAll(db: Db, key: string): (r: Result<seq<string>, Failure>)
    ensures r.Err? <==> Exists(db, key) && !db[key].Items?
    ensures Valid(db) ==> (r == Ok([]) <==> !Exists(db, key))
    ensures !Exists(db, key) ==> r == Ok([])
    ensures r.Ok? && Exists(db, key) ==> db[key] == Items(r.value)
  {
    if key !in db then Ok([])
    else if db[key].Items? then Ok(db[key].items)
    else Err(WrongType)
  }

  /** A list position as LRANGE reads it: a negative one counts back from the end. */
  function FromEnd(len: nat, index: int): int {
    if index < 0 then len + index else index
  }

  /** Whether LRANGE start stop selects position `i` of a list of length `len`: both
      bounds are inclusive. */
  predicate Selects(len: nat, start: int, stop: int, i: int) {
    FromEnd(len, start) <= i <= FromEnd(len, stop)
  }

  /** The positions LRANGE start stop answers with, as a half-open range after clamping
      both bounds to the list. */
  function Window(len: nat, start: int, stop: int): (w: (nat, nat))
    ensures w.0 <= w.1 <= len
    ensures forall i :: 0 <= i < len ==> (w.0 <= i < w.1 <==> Selects(len, start, stop, i))
  {
    var first := FromEnd(len, start);
    var last := FromEnd(len, stop);
    var lo := if first < 0 then 0 else first;
    if lo > last || lo >= len then (0, 0)
    else (lo, if last >= len then len else last + 1)
  }

  /** LRANGE: the elements of the list under `key` between two positions. */
  function LRange(db: Db, key: string, start: int, stop: int): (r: Result<seq<string>, Failure>)
    ensures r.Err? <==> Exists(db, key) && !db[key].Items?
    ensures r.Ok? ==> var items := LAll(db, key).value;
                      var w := Window(|items|, start, stop);
                      r.value == items[w.0..w.1]
  {
    match LAll(db, key)
    case Err(e) => Err(e)
    case Ok(items) =>
      var w := Window(|items|, start, stop);
      Ok(items[w.0..w.1])
  }

  /** LRANGE 0 -1 answers with the whole list. */
  lemma LRangeWhole(db: Db, key: string)
    ensures LRange(db, key, 0, -1) == LAll(db, key)
  {
    if LAll(db, key).Ok? {
      var items := LAll(db, key).value;
      assert Window(|items|, 0, -1) == (0, |items|);
      assert items[0..|items|] == items;
    }
  }

  /** Positions inside the list are taken as they are: the slice from `start` to `stop`,
      both included. */
  lemma LRangeInside(db: Db, key: string, start: nat, stop: nat)
    requires LAll(db, key).Ok? && start <= stop < |LAll(db, key).value|
    ensures LRange(db, key, start, stop) == Ok(LAll(db, key).value[start..stop + 1])
  {
  }

  /** A position counted back from the end selects the same elements as the position it
      stands for, as long as it does not reach back past the head of the list. */
  lemma {:induction false} LRangeFromEnd(db: Db, key: string, start: int, stop: int)
    requires LAll(db, key).Ok?
    requires -|LAll(db, key).value| <= start && -|LAll(db, key).value| <= stop
    ensures var len := |LAll(db, key).value|;
            LRange(db, key, start, stop) == LRange(db, key, FromEnd(len, start), FromEnd(len, stop))
  {
    var len := |LAll(db, key).value|;
    assert FromEnd(len, FromEnd(len, start)) == FromEnd(len, start);
    assert FromEnd(len, FromEnd(len, stop)) == FromEnd(len, stop);
  }

  /** RPUSH: appends the values in order; the reply is the new length of the list. */
  function RPush(db: Db, key: string, values: seq<string>): (r: Result<Step<int>, Failure>)
    ensures r.Err? <==> values == [] || LAll(db, key).Err?
    ensures r.Ok? ==> LAll(r.value.db, key) == Ok(LAll(db, key).value + values)
    ensures r.Ok? ==> r.value.reply == |LAll(r.value.db, key).value| && r.value.reply > 0
    ensures r.Ok? ==> r.value.db - {key} == db - {key}
    ensures r.Ok? && Valid(db) ==> Valid(r.value.db)
  {
    if values == [] then Err(WrongArity)
    else match LAll(db, key)
      case Err(e) => Err(e)
      case Ok(current) =>
        var items := current + values;
        Ok(Step(db[key := Items(items)], |items|))
  }
}
