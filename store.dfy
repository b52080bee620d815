/**
 * The key-value commands (`Request::get`, `set`, `del` and the dispatch
 * of `Request::operator()`) over the database map `commandMap.db`.
 *
 * Entries are numbered: `keys[id]` and `vals[id]` are the key and value of
 * entry id, and `live` is the set of entries currently linked into the
 * map. `Valid` says the map holds exactly one node per live entry, whose
 * code is the hash of its key, that no two live entries share a key, and
 * that every value fits in a response. `Db()` is the database as a
 * dictionary from keys to values; the commands are specified on it, and
 * `Command` is the reference semantics of one request on a dictionary.
 */
module Store {
  import opened Wire
  import opened StringHash
  import opened HashTable
  import opened HashMap
  import opened Request
  import opened Entry

  /** The status a command answers with. */
  datatype Response = OK | ERR | NX

  /** The result of `operator()`: -1 for a malformed request, else 0 with a status and what was written to the response value. */
  datatype Outcome = BadRequest | Handled(res: Response, written: Option<bytes>)

  const GET: bytes := Ascii("get")
  const SET: bytes := Ascii("set")
  const DEL: bytes := Ascii("del")
  const UNKNOWN_COMMAND: bytes := Ascii("Unknown command")

  /** `tolower` in the C locale: only 'A'..'Z' change. */
  function ToLower(b: byte): byte
  {
    if 65 <= b <= 90 then b + 32 else b
  }

  function Lower(s: bytes): (r: bytes)
    ensures |r| == |s|
  {
    seq(|s|, i requires 0 <= i < |s| => ToLower(s[i]))
  }

  /** What `c_str()` shows of a string: its bytes up to the first NUL. */
  function CString(s: bytes): (r: bytes)
    ensures r <= s && 0 !in r
    ensures |r| < |s| ==> s[|r|] == 0
  {
    if s == [] || s[0] == 0 then [] else [s[0]] + CString(s[1..])
  }

  /** `isCommand`: `strcasecmp(word.c_str(), name) == 0`. */
  predicate IsCommand(word: bytes, name: bytes)
  {
    Lower(CString(word)) == Lower(CString(name))
  }

  lemma {:induction false} CStringOfLower(s: bytes)
    ensures CString(Lower(s)) == Lower(CString(s))
    decreases |s|
  {
    if s != [] && s[0] != 0 {
      assert Lower(s)[1..] == Lower(s[1..]);
      CStringOfLower(s[1..]);
      assert Lower(CString(s)) == [ToLower(s[0])] + Lower(CString(s[1..]));
    }
  }

  /**
   * Command names are matched case-insensitively: two words that agree up
   * to the case of their letters are both a command or both not.
   */
  lemma IsCommandIgnoresCase(word: bytes, word': bytes, name: bytes)
    requires Lower(word) == Lower(word')
    ensures IsCommand(word, name) <==> IsCommand(word', name)
  {
    CStringOfLower(word);
    CStringOfLower(word');
    LowerTwice(CString(word));
    LowerTwice(CString(word'));
  }

  lemma LowerTwice(s: bytes)
    ensures Lower(Lower(s)) == Lower(s)
  {
  }

  /** Bytes after a NUL are not seen: "get" followed by a NUL and anything is the command get. */
  lemma {:induction false} IsCommandStopsAtNul(name: bytes, rest: bytes)
    requires 0 !in name
    ensures IsCommand(name + [0] + rest, name)
    decreases |name|
  {
    CStringUpToNul(name, rest);
  }

  lemma {:induction false} CStringUpToNul(name: bytes, rest: bytes)
    requires 0 !in name
    ensures CString(name + [0] + rest) == CString(name) == name
    decreases |name|
  {
    if name != [] {
      assert (name + [0] + rest)[1..] == name[1..] + [0] + rest;
      CStringUpToNul(name[1..], rest);
    }
  }

  /** The three command names are told apart: no word is two of them. */
  lemma CommandsDiffer(word: bytes)
    ensures !(IsCommand(word, GET) && IsCommand(word, SET))
    ensures !(IsCommand(word, GET) && IsCommand(word, DEL))
    ensures !(IsCommand(word, SET) && IsCommand(word, DEL))
  {
    assert CString(GET) == GET by { CStringUpToNul(GET, []); assert GET + [0] + [] == GET + [0]; CStringOfPlain(GET); }
    assert CString(SET) == SET by { CStringOfPlain(SET); }
    assert CString(DEL) == DEL by { CStringOfPlain(DEL); }
    assert Lower(GET)[0] != Lower(SET)[0] && Lower(GET)[0] != Lower(DEL)[0] && Lower(SET)[0] != Lower(DEL)[0];
  }

  lemma {:induction false} CStringOfPlain(s: bytes)
    requires 0 !in s
    ensures CString(s) == s
    decreases |s|
  {
    if s != [] {
      CStringOfPlain(s[1..]);
    }
  }

  /** The database after one request and what that request answers, on a dictionary. */
  function Command(db: map<bytes, bytes>, args: seq<bytes>): (r: (Response, Option<bytes>, map<bytes, bytes>))
  {
    if |args| == 2 && IsCommand(args[0], GET) then
      if args[1] in db then (OK, Some(db[args[1]]), db) else (NX, None, db)
    else if |args| == 3 && IsCommand(args[0], SET) then (OK, None, db[args[1] := args[2]])
    else if |args| == 2 && IsCommand(args[0], DEL) then (OK, None, db - {args[1]})
    else (ERR, Some(UNKNOWN_COMMAND), db)
  }

  /** A get answers the value a set stored, whatever the key held before. */
  lemma GetAfterSet(db: map<bytes, bytes>, setWord: bytes, getWord: bytes, key: bytes, val: bytes)
    requires IsCommand(setWord, SET) && IsCommand(getWord, GET)
    ensures var db' := Command(db, [setWord, key, val]).2;
      Command(db, [setWord, key, val]).0 == OK && Command(db', [getWord, key]) == (OK, Some(val), db')
  {
    CommandsDiffer(getWord);
  }

  /** After a del the key is missing, and a get answers NX; del answers OK whether or not the key existed. */
  lemma GetAfterDel(db: map<bytes, bytes>, delWord: bytes, getWord: bytes, key: bytes)
    requires IsCommand(delWord, DEL) && IsCommand(getWord, GET)
    ensures var db' := Command(db, [delWord, key]).2;
      Command(db, [delWord, key]).0 == OK && key !in db' && Command(db', [getWord, key]) == (NX, None, db')
  {
    CommandsDiffer(getWord);
    CommandsDiffer(delWord);
  }

  /** A get leaves the database as it is and answers NX exactly when the key is missing. */
  lemma GetKeepsDb(db: map<bytes, bytes>, getWord: bytes, key: bytes)
    requires IsCommand(getWord, GET)
    ensures Command(db, [getWord, key]).2 == db
    ensures Command(db, [getWord, key]).0 == NX <==> key !in db
  {
  }

  /** Set and del change only the key they name. */
  lemma OtherKeysUnchanged(db: map<bytes, bytes>, args: seq<bytes>, other: bytes)
    requires |args| >= 2 && other != args[1] && other in db
    ensures other in Command(db, args).2 && Command(db, args).2[other] == db[other]
  {
  }

  /** A request that is none of get/2, set/3, del/2 answers ERR "Unknown command", 15 bytes, and changes nothing. */
  lemma UnknownCommand(db: map<bytes, bytes>, args: seq<bytes>)
    requires |args| !in {2, 3} || (!IsCommand(args[0], GET) && !IsCommand(args[0], SET) && !IsCommand(args[0], DEL))
    ensures Command(db, args) == (ERR, Some(UNKNOWN_COMMAND), db) && |UNKNOWN_COMMAND| == 15
  {
  }

  /** The map node of entry id: the hash of its key and a payload naming the entry. */
  function DbNode(keys: seq<bytes>, id: nat): HNode<EntryRef>
    requires id < |keys|
  {
    HNode(Hash(keys[id]), Stored(id, keys[id]))
  }

  /** The map nodes of the live entries. */
  ghost function DbNodes(keys: seq<bytes>, live: set<nat>): set<HNode<EntryRef>>
  {
    set id | id in live && id < |keys| :: DbNode(keys, id)
  }

  /** No two live entries share a key. */
  ghost predicate KeysDistinct(keys: seq<bytes>, live: set<nat>)
  {
    forall a, b :: a in live && b in live && a < |keys| && b < |keys| && keys[a] == keys[b] ==> a == b
  }

  /** The database as a dictionary: each live entry's key maps to its value. */
  ghost function Db(keys: seq<bytes>, vals: seq<bytes>, live: set<nat>): map<bytes, bytes>
    requires |keys| == |vals| && KeysDistinct(keys, live)
  {
    map id | id in live && id < |keys| :: keys[id] := vals[id]
  }

  /** A node of the map is the node of a live entry. */
  lemma NodeOfLive(keys: seq<bytes>, live: set<nat>, n: HNode<EntryRef>)
    requires n in multiset(DbNodes(keys, live))
    ensures n.item.Stored? && n.item.id in live && n.item.id < |keys| && n == DbNode(keys, n.item.id)
  {
  }

  /** A live entry's key is in the database with that entry's value. */
  lemma DbOfLive(keys: seq<bytes>, vals: seq<bytes>, live: set<nat>, id: nat)
    requires |keys| == |vals| && KeysDistinct(keys, live) && id in live && id < |keys|
    ensures keys[id] in Db(keys, vals, live) && Db(keys, vals, live)[keys[id]] == vals[id]
  {
  }

  /** When no node of the map matches the probe for key, no live entry has that key. */
  lemma AbsentKey(keys: seq<bytes>, vals: seq<bytes>, live: set<nat>, key: bytes)
    requires |keys| == |vals| && KeysDistinct(keys, live)
    requires forall n :: n in multiset(DbNodes(keys, live)) ==> !Matches(n, HNode(Hash(key), Probe(key)), EntryEquality)
    ensures forall id :: id in live && id < |keys| ==> keys[id] != key
    ensures key !in Db(keys, vals, live) && Db(keys, vals, live) - {key} == Db(keys, vals, live)
  {
    forall id | id in live && id < |keys|
      ensures keys[id] != key
    {
      var n := DbNode(keys, id);
      assert n in DbNodes(keys, live);
      assert n in multiset(DbNodes(keys, live));
      assert !Matches(n, HNode(Hash(key), Probe(key)), EntryEquality);
    }
  }

  /**
   * The invariant tying the map's nodes to the entries: one node per live
   * entry, live keys distinct, every value small enough for a response.
   */
  ghost predicate DbInv(nodes: multiset<HNode<EntryRef>>, keys: seq<bytes>, vals: seq<bytes>, live: set<nat>)
  {
    |keys| == |vals|
    && (forall id :: id in live ==> id < |keys| && |vals[id]| <= MAX_MESSAGE_SIZE)
    && KeysDistinct(keys, live)
    && nodes == multiset(DbNodes(keys, live))
  }

  /** Overwriting a live entry's value updates its key in the database and leaves the nodes alone. */
  lemma DbUpdate(nodes: multiset<HNode<EntryRef>>, keys: seq<bytes>, vals: seq<bytes>, live: set<nat>, id: nat, val: bytes)
    requires DbInv(nodes, keys, vals, live) && id in live && |val| <= MAX_MESSAGE_SIZE
    ensures DbInv(nodes, keys, vals[id := val], live)
    ensures Db(keys, vals[id := val], live) == Db(keys, vals, live)[keys[id] := val]
  {
  }

  /** Adding an entry of a new key adds that key to the database and one node to the map. */
  lemma DbAdd(nodes: multiset<HNode<EntryRef>>, keys: seq<bytes>, vals: seq<bytes>, live: set<nat>, key: bytes, val: bytes)
    requires DbInv(nodes, keys, vals, live) && |val| <= MAX_MESSAGE_SIZE
    requires forall id :: id in live ==> keys[id] != key
    ensures DbInv(nodes + multiset{DbNode(keys + [key], |keys|)}, keys + [key], vals + [val], live + {|keys|})
    ensures Db(keys + [key], vals + [val], live + {|keys|}) == Db(keys, vals, live)[key := val]
  {
    var keys', vals', live' := keys + [key], vals + [val], live + {|keys|};
    NodesAdd(keys, live, key);
    assert KeysDistinct(keys', live') by {
      forall a, b | a in live' && b in live' && a < |keys'| && b < |keys'| && keys'[a] == keys'[b]
        ensures a == b
      {
        if a != |keys| && b != |keys| {
          assert keys'[a] == keys[a] && keys'[b] == keys[b];
        }
      }
    }
    DbAppend(keys, vals, live, key, val);
  }

  lemma NodesAdd(keys: seq<bytes>, live: set<nat>, key: bytes)
    requires forall id :: id in live ==> id < |keys| && keys[id] != key
    ensures multiset(DbNodes(keys + [key], live + {|keys|})) == multiset(DbNodes(keys, live)) + multiset{DbNode(keys + [key], |keys|)}
  {
    var keys', live', n := keys + [key], live + {|keys|}, DbNode(keys + [key], |keys|);
    assert DbNodes(keys', live') == DbNodes(keys, live) + {n} by {
      forall id | id in live && id < |keys|
        ensures DbNode(keys', id) == DbNode(keys, id)
      {
        assert keys'[id] == keys[id];
      }
    }
    assert n !in DbNodes(keys, live);
  }

  lemma DbAppend(keys: seq<bytes>, vals: seq<bytes>, live: set<nat>, key: bytes, val: bytes)
    requires |keys| == |vals| && KeysDistinct(keys, live) && KeysDistinct(keys + [key], live + {|keys|})
    requires forall id :: id in live ==> id < |keys| && keys[id] != key
    ensures Db(keys + [key], vals + [val], live + {|keys|}) == Db(keys, vals, live)[key := val]
  {
    var a, b := Db(keys + [key], vals + [val], live + {|keys|}), Db(keys, vals, live)[key := val];
    forall id | id in live
      ensures (keys + [key])[id] == keys[id] && (vals + [val])[id] == vals[id]
    {
    }
    assert a.Keys == b.Keys;
  }

  /** Unlinking a live entry removes its key from the database and its node from the map. */
  lemma DbRemove(nodes: multiset<HNode<EntryRef>>, keys: seq<bytes>, vals: seq<bytes>, live: set<nat>, id: nat)
    requires DbInv(nodes, keys, vals, live) && id in live
    ensures DbInv(nodes - multiset{DbNode(keys, id)}, keys, vals, live - {id})
    ensures Db(keys, vals, live - {id}) == Db(keys, vals, live) - {keys[id]}
  {
    NodesRemove(keys, live, id);
    assert KeysDistinct(keys, live - {id});
    DbWithout(keys, vals, live, id);
  }

  lemma DbWithout(keys: seq<bytes>, vals: seq<bytes>, live: set<nat>, id: nat)
    requires |keys| == |vals| && KeysDistinct(keys, live) && id in live && id < |keys|
    ensures KeysDistinct(keys, live - {id})
    ensures Db(keys, vals, live - {id}) == Db(keys, vals, live) - {keys[id]}
  {
    DbWithoutKeeps(keys, vals, live, id);
    DbWithoutAdds(keys, vals, live, id);
    MapExt(Db(keys, vals, live - {id}), Db(keys, vals, live) - {keys[id]});
  }

  lemma MapExt<K, V>(a: map<K, V>, b: map<K, V>)
    requires forall k :: k in b ==> k in a && a[k] == b[k]
    requires forall k :: k in a ==> k in b
    ensures a == b
  {
  }

  lemma DbWithoutKeeps(keys: seq<bytes>, vals: seq<bytes>, live: set<nat>, id: nat)
    requires |keys| == |vals| && KeysDistinct(keys, live) && id in live && id < |keys|
    ensures KeysDistinct(keys, live - {id})
    ensures var a, b := Db(keys, vals, live - {id}), Db(keys, vals, live) - {keys[id]};
      forall k :: k in b ==> k in a && a[k] == b[k]
  {
    var a, b := Db(keys, vals, live - {id}), Db(keys, vals, live) - {keys[id]};
    forall k | k in b
      ensures k in a && a[k] == b[k]
    {
      var x := DbWitness(keys, vals, live, k);
      DbOfLive(keys, vals, live - {id}, x);
    }
  }

  lemma DbWithoutAdds(keys: seq<bytes>, vals: seq<bytes>, live: set<nat>, id: nat)
    requires |keys| == |vals| && KeysDistinct(keys, live) && id in live && id < |keys|
    ensures KeysDistinct(keys, live - {id})
    ensures var a, b := Db(keys, vals, live - {id}), Db(keys, vals, live) - {keys[id]};
      forall k :: k in a ==> k in b
  {
    var a, b := Db(keys, vals, live - {id}), Db(keys, vals, live) - {keys[id]};
    forall k | k in a
      ensures k in b
    {
      var x := DbWitness(keys, vals, live - {id}, k);
      DbOfLive(keys, vals, live, x);
    }
  }

  /** Every key of the database is the key of a live entry, which holds its value. */
  lemma DbWitness(keys: seq<bytes>, vals: seq<bytes>, live: set<nat>, k: bytes) returns (x: nat)
    requires |keys| == |vals| && KeysDistinct(keys, live) && k in Db(keys, vals, live)
    ensures x in live && x < |keys| && keys[x] == k && Db(keys, vals, live)[k] == vals[x]
  {
    x :| x in live && x < |keys| && keys[x] == k;
  }

  /** A node popped for key is the node of the live entry with that key; the rest of the map is the database without key. */
  lemma PopLive(nodes: multiset<HNode<EntryRef>>, nodes': multiset<HNode<EntryRef>>, keys: seq<bytes>, vals: seq<bytes>, live: set<nat>, key: bytes, n: HNode<EntryRef>)
    requires DbInv(nodes, keys, vals, live)
    requires n in nodes && nodes' + multiset{n} == nodes && Matches(n, HNode(Hash(key), Probe(key)), EntryEquality)
    ensures n.item.Stored? && n.item.id in live
    ensures DbInv(nodes', keys, vals, live - {n.item.id})
    ensures Db(keys, vals, live - {n.item.id}) == Db(keys, vals, live) - {key}
  {
    NodeOfLive(keys, live, n);
    var id := n.item.id;
    assert keys[id] == key;
    assert nodes' == nodes - multiset{DbNode(keys, id)};
    DbRemove(nodes, keys, vals, live, id);
  }

  lemma NodesRemove(keys: seq<bytes>, live: set<nat>, id: nat)
    requires id in live && id < |keys|
    ensures multiset(DbNodes(keys, live - {id})) == multiset(DbNodes(keys, live)) - multiset{DbNode(keys, id)}
  {
    var n := DbNode(keys, id);
    assert DbNodes(keys, live - {id}) == DbNodes(keys, live) - {n} by {
      forall m | m in DbNodes(keys, live) && m != n
        ensures m in DbNodes(keys, live - {id})
      {
      }
    }
  }

  /** Every argument of a request is no longer than the request. */
  lemma ArgsWithinRequest(msg: bytes)
    requires ParseRequest(msg).Some?
    ensures forall a :: a in ParseRequest(msg).value ==> |a| <= |msg|
  {
    EncodeOfParse(msg);
    var args := ParseRequest(msg).value;
    forall a | a in args
      ensures |a| <= |msg|
    {
      ArgWithinList(args, a);
    }
  }

  lemma {:induction false} ArgWithinList(args: seq<bytes>, a: bytes)
    requires Encodable(args) && a in args
    ensures |a| <= |EncodeList(args)|
    decreases |args|
  {
    if args[0] != a {
      assert a in args[1..];
      ArgWithinList(args[1..], a);
    }
  }

  /** The database of `Request::commandMap`. */
  class Store {
    const db: CMap<EntryRef>
    var keys: seq<bytes>
    var vals: seq<bytes>
    ghost var live: set<nat>

    ghost predicate Valid()
      reads this, db
    {
      db.Valid() && DbInv(db.Contents(), keys, vals, live)
    }

    /** The database as a dictionary. */
    ghost function Contents(): map<bytes, bytes>
      reads this, db
      requires Valid()
    {
      Db(keys, vals, live)
    }

    constructor ()
      ensures Valid() && Contents() == map[] && fresh(db)
    {
      db := new CMap();
      keys, vals, live := [], [], {};
    }

    /** The map node matching key, looked up with `entryEquality` on a probe whose code is the key's hash. */
    method Find(key: bytes) returns (r: Option<nat>)
      requires Valid()
      modifies db
      ensures Valid() && Contents() == old(Contents()) && keys == old(keys) && vals == old(vals)
      ensures r.Some? ==> r.value in live && r.value < |keys| && keys[r.value] == key
      ensures r.None? ==> key !in Contents() && forall id :: id in live ==> keys[id] != key
    {
      var code := ComputeHash(key);
      var node := db.LookUp(HNode(code, Probe(key)), EntryEquality);
      if node.None? {
        AbsentKey(keys, vals, live, key);
        return None;
      }
      NodeOfLive(keys, live, node.value);
      return Some(node.value.item.id);
    }

    /** `get`: NX when the key is missing; otherwise OK and the key's value, which fits in a response. */
    method Get(key: bytes) returns (res: Response, value: Option<bytes>)
      requires Valid()
      modifies db
      ensures Valid() && Contents() == old(Contents())
      ensures res == NX <==> key !in Contents()
      ensures res != NX ==> res == OK && value == Some(Contents()[key]) && |value.value| <= MAX_MESSAGE_SIZE
      ensures res == NX ==> value.None?
    {
      var found := Find(key);
      if found.None? {
        return NX, None;
      }
      var id := found.value;
      DbOfLive(keys, vals, live, id);
      return OK, Some(vals[id]);
    }

    /** `set`: overwrites the value of an existing key in place, or links a new entry; answers OK. */
    method Set(key: bytes, val: bytes) returns (res: Response)
      requires Valid() && |val| <= MAX_MESSAGE_SIZE
      modifies this, db
      ensures Valid() && Contents() == old(Contents())[key := val] && res == OK
    {
      var found := Find(key);
      ghost var nodes, before := db.Contents(), Db(keys, vals, live);
      ghost var after: map<bytes, bytes>;
      if found.Some? {
        var id := found.value;
        DbUpdate(nodes, keys, vals, live, id, val);
        after := Db(keys, vals[id := val], live);
        vals := vals[id := val];
      } else {
        DbAdd(nodes, keys, vals, live, key, val);
        var id: nat := |keys|;
        after := Db(keys + [key], vals + [val], live + {id});
        var node := DbNode(keys + [key], id);
        db.Insert(node);
        keys, vals, live := keys + [key], vals + [val], live + {id};
      }
      assert after == before[key := val];
      assert Contents() == after;
      return OK;
    }

    /** `del`: unlinks the key's entry if there is one; answers OK either way. */
    method Del(key: bytes) returns (res: Response)
      requires Valid()
      modifies this, db
      ensures Valid() && Contents() == old(Contents()) - {key} && res == OK
    {
      var code := ComputeHash(key);
      ghost var nodes, before := db.Contents(), Db(keys, vals, live);
      var node := db.Pop(HNode(code, Probe(key)), EntryEquality);
      if node.None? {
        assert db.Contents() == nodes;
        AbsentKey(keys, vals, live, key);
        return OK;
      }
      var id := node.value.item.id;
      PopLive(nodes, db.Contents(), keys, vals, live, key, node.value);
      ghost var after := Db(keys, vals, live - {id});
      assert after == before - {key};
      live := live - {id};
      assert DbInv(db.Contents(), keys, vals, live);
      assert Db(keys, vals, live) == after;
      return OK;
    }

    /**
     * `operator()`: a body that does not parse is a bad request (-1);
     * otherwise get/2, set/3 and del/2, by case-insensitive name, run on
     * the database, and anything else answers ERR "Unknown command".
     * Either way the database and the answer are those of `Command`.
     */
    method Handle(msg: bytes) returns (r: Outcome)
      requires Valid() && |msg| <= MAX_MESSAGE_SIZE
      modifies this, db
      ensures Valid()
      ensures r.BadRequest? <==> ParseRequest(msg).None?
      ensures r.BadRequest? ==> Contents() == old(Contents())
      ensures r.Handled? ==>
        var (res, written, db') := Command(old(Contents()), ParseRequest(msg).value);
        r == Handled(res, written) && Contents() == db'
    {
      var args := Parse(msg);
      if args.None? {
        return BadRequest;
      }
      var words := args.value;
      ArgsWithinRequest(msg);
      if |words| == 2 && IsCommand(words[0], GET) {
        var res, value := Get(words[1]);
        return Handled(res, value);
      } else if |words| == 3 && IsCommand(words[0], SET) {
        assert words[2] in words;
        var res := Set(words[1], words[2]);
        return Handled(res, None);
      } else if |words| == 2 && IsCommand(words[0], DEL) {
        var res := Del(words[1]);
        return Handled(res, None);
      }
      return Handled(ERR, Some(UNKNOWN_COMMAND));
    }
  }
}
