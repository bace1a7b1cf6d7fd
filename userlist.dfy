/** The call page's list of connected users: the three updaters it applies
    to its `connectedUsers` state on `user-joined`, `user-left` and
    `peer-registered`, and the list it displays as callable, with the rule
    that disables a call button. */
module UserList {
  import opened Messages
  import Table

  /** Some entry of `us` has socket id `id` (`us.some(u => u.socketId === id)`). */
  predicate HasId(us: seq<Record>, id: string)
  {
    exists u | u in us :: u.socketId == id
  }

  predicate DistinctIds(us: seq<Record>)
  {
    forall i, j | 0 <= i < j < |us| :: us[i].socketId != us[j].socketId
  }

  /** `user-joined`: append `u` unless an entry with its socket id is present. */
  function Joined(us: seq<Record>, u: Record): (r: seq<Record>)
    ensures HasId(us, u.socketId) ==> r == us
    ensures !HasId(us, u.socketId) ==> r == us + [u]
  {
    if HasId(us, u.socketId) then us else us + [u]
  }

  lemma JoinedKeepsIdsDistinct(us: seq<Record>, u: Record)
    requires DistinctIds(us)
    ensures DistinctIds(Joined(us, u))
    ensures |us| <= |Joined(us, u)| <= |us| + 1
    ensures HasId(Joined(us, u), u.socketId)
    ensures forall v | v in us :: v in Joined(us, u)
  {
    if !HasId(us, u.socketId) {
      var r := us + [u];
      forall i, j | 0 <= i < j < |r| ensures r[i].socketId != r[j].socketId {
        if j == |us| {
          assert r[i] in us;
        }
      }
      assert r[|us|] == u;
    }
  }

  /** `user-left`, and the first step of the display list: keep the
      entries whose socket id is not `id`, in their order. */
  function Left(us: seq<Record>, id: string): (r: seq<Record>)
    ensures forall v :: v in r <==> v in us && v.socketId != id
    ensures |r| <= |us|
    ensures !HasId(r, id)
  {
    if us == [] then []
    else (if us[0].socketId == id then [] else [us[0]]) + Left(us[1..], id)
  }

  /** Removing by id distributes over concatenation, which with the
      membership contract of `Left` fixes the order of what is kept. */
  lemma {:induction false} LeftDistributes(a: seq<Record>, b: seq<Record>, id: string)
    ensures Left(a + b, id) == Left(a, id) + Left(b, id)
    decreases |a|
  {
    if a == [] {
      assert a + b == b;
    } else {
      assert (a + b)[0] == a[0];
      assert (a + b)[1..] == a[1..] + b;
      LeftDistributes(a[1..], b, id);
    }
  }

  /** A list with no entry for `id` is left as it is. */
  lemma {:induction false} LeftWithoutIdIsIdentity(us: seq<Record>, id: string)
    requires !HasId(us, id)
    ensures Left(us, id) == us
    decreases |us|
  {
    if us != [] {
      assert us[0] in us;
      assert !HasId(us[1..], id) by {
        forall v | v in us[1..] ensures v.socketId != id {
          assert v in us;
        }
      }
      LeftWithoutIdIsIdentity(us[1..], id);
      assert us == [us[0]] + us[1..];
    }
  }

  lemma LeftKeepsIdsDistinct(us: seq<Record>, id: string)
    requires DistinctIds(us)
    ensures DistinctIds(Left(us, id))
    decreases |us|
  {
    if us != [] {
      assert DistinctIds(us[1..]) by {
        forall i, j | 0 <= i < j < |us[1..]| ensures us[1..][i].socketId != us[1..][j].socketId {
          assert us[1..][i] == us[i + 1] && us[1..][j] == us[j + 1];
        }
      }
      LeftKeepsIdsDistinct(us[1..], id);
      var rest := Left(us[1..], id);
      forall v | v in rest ensures v.socketId != us[0].socketId {
        assert v in us[1..];
        var k :| 0 <= k < |us[1..]| && us[1..][k] == v;
        assert us[k + 1] == v;
      }
    }
  }

  /** `peer-registered`: every entry with the socket id of `u` becomes `u`. */
  function Replaced(us: seq<Record>, u: Record): (r: seq<Record>)
    ensures |r| == |us|
    ensures forall i | 0 <= i < |us| :: r[i].socketId == us[i].socketId
    ensures forall i | 0 <= i < |us| && us[i].socketId != u.socketId :: r[i] == us[i]
    ensures forall i | 0 <= i < |us| && us[i].socketId == u.socketId :: r[i] == u
  {
    seq(|us|, i requires 0 <= i < |us| => if us[i].socketId == u.socketId then u else us[i])
  }

  /** Replacing by the same record twice is replacing once; the ids, and
      so their distinctness, do not change. */
  lemma ReplacedIdempotent(us: seq<Record>, u: Record)
    ensures Replaced(Replaced(us, u), u) == Replaced(us, u)
    ensures DistinctIds(us) <==> DistinctIds(Replaced(us, u))
  {
  }

  /** The socket ids of `us`, each once, in order of first occurrence:
      the keys of `new Map(us.map(u => [u.socketId, u]))`. */
  function EntryKeys(us: seq<Record>): (keys: seq<string>)
    ensures Table.Distinct(keys)
    ensures forall k :: k in keys <==> HasId(us, k)
    decreases |us|
  {
    if us == [] then []
    else
      var init := us[..|us| - 1];
      assert us == init + [us[|us| - 1]];
      Table.Put(EntryKeys(init), us[|us| - 1].socketId)
  }

  /** Adding an entry sets its socket id in the Map: a new id goes last and
      an id already present keeps its place, so the keys come in order of
      first occurrence. */
  lemma {:induction false} EntryKeysAppend(us: seq<Record>, u: Record)
    ensures EntryKeys(us + [u]) == Table.Put(EntryKeys(us), u.socketId)
  {
    assert (us + [u])[..|us|] == us;
  }

  /** The entry `v` is the last one of `us` with its socket id. */
  predicate LastWithId(us: seq<Record>, v: Record)
  {
    exists i | 0 <= i < |us| :: us[i] == v && forall j | i < j < |us| :: us[j].socketId != v.socketId
  }

  /** The values of that Map: a later entry with the same socket id
      overwrites an earlier one. */
  function EntryMap(us: seq<Record>): (m: map<string, Record>)
    ensures forall k :: k in m <==> HasId(us, k)
    ensures forall k | k in m :: m[k].socketId == k && m[k] in us
    decreases |us|
  {
    if us == [] then map[]
    else
      var init, last := us[..|us| - 1], us[|us| - 1];
      assert us == init + [last];
      EntryMap(init)[last.socketId := last]
  }

  /** Each value of the Map is the last entry of `us` with its key. */
  lemma {:induction false} EntryMapKeepsLast(us: seq<Record>)
    ensures forall k | k in EntryMap(us) :: LastWithId(us, EntryMap(us)[k])
    decreases |us|
  {
    if us != [] {
      var init, last := us[..|us| - 1], us[|us| - 1];
      assert us == init + [last];
      EntryMapKeepsLast(init);
      var m0, m := EntryMap(init), EntryMap(us);
      forall k | k in m ensures LastWithId(us, m[k]) {
        if k == last.socketId {
          assert us[|us| - 1] == m[k];
        } else {
          LastWithIdExtends(init, last, m0[k]);
        }
      }
    }
  }

  /** Appending an entry with another socket id keeps `v` the last with its id. */
  lemma LastWithIdExtends(init: seq<Record>, last: Record, v: Record)
    requires LastWithId(init, v) && v.socketId != last.socketId
    ensures LastWithId(init + [last], v)
  {
    var us := init + [last];
    var i :| 0 <= i < |init| && init[i] == v && forall j | i < j < |init| :: init[j].socketId != v.socketId;
    assert us[i] == v;
    forall j | i < j < |us| ensures us[j].socketId != v.socketId {
      if j < |init| { assert us[j] == init[j]; }
    }
  }

  /** `Array.from(new Map(us.map(u => [u.socketId, u])).values())`. */
  function Dedup(us: seq<Record>): (r: seq<Record>)
    ensures DistinctIds(r)
    ensures |r| <= |us|
    ensures forall v | v in r :: LastWithId(us, v) && v in us
    ensures forall k :: HasId(r, k) <==> HasId(us, k)
  {
    KeysBound(us);
    DedupIds(us);
    DedupLast(us);
    Table.Values(EntryKeys(us), EntryMap(us))
  }

  /** The values of the Map carry its keys, in key order. */
  lemma DedupIds(us: seq<Record>)
    ensures var r := Table.Values(EntryKeys(us), EntryMap(us));
            && DistinctIds(r)
            && (forall k :: HasId(r, k) <==> HasId(us, k))
  {
    ValuesByKey(EntryKeys(us), EntryMap(us));
  }

  /** Values listed in the order of distinct keys they carry have distinct
      ids, and exactly those ids. */
  lemma ValuesByKey(keys: seq<string>, m: map<string, Record>)
    requires Table.Distinct(keys)
    requires forall k | k in keys :: k in m && m[k].socketId == k
    ensures var r := Table.Values(keys, m);
            && DistinctIds(r)
            && (forall k :: HasId(r, k) <==> k in keys)
  {
    var r := Table.Values(keys, m);
    forall k | k in keys ensures HasId(r, k) {
      var i :| 0 <= i < |keys| && keys[i] == k;
      assert r[i] in r;
    }
  }

  /** Every value kept is the last entry of `us` with its socket id. */
  lemma DedupLast(us: seq<Record>)
    ensures forall v | v in Table.Values(EntryKeys(us), EntryMap(us)) :: LastWithId(us, v) && v in us
  {
    EntryMapKeepsLast(us);
    var r := Table.Values(EntryKeys(us), EntryMap(us));
    forall v | v in r ensures LastWithId(us, v) && v in us {
      var i :| 0 <= i < |r| && r[i] == v;
    }
  }

  /** There are no more distinct socket ids than entries. */
  lemma {:induction false} KeysBound(us: seq<Record>)
    ensures |EntryKeys(us)| <= |us|
    decreases |us|
  {
    if us != [] {
      KeysBound(us[..|us| - 1]);
    }
  }

  /** On a list whose socket ids are distinct the Map round trip is the identity. */
  lemma {:induction false} DedupOfDistinctIsIdentity(us: seq<Record>)
    requires DistinctIds(us)
    ensures Dedup(us) == us
  {
    EntryKeysOfDistinct(us);
    EntryMapOfDistinct(us);
    var r := Dedup(us);
    assert |r| == |us|;
    forall i | 0 <= i < |us| ensures r[i] == us[i] {
      assert r[i] == EntryMap(us)[EntryKeys(us)[i]];
    }
  }

  /** With distinct socket ids, each entry is the one its id maps to. */
  lemma EntryMapOfDistinct(us: seq<Record>)
    requires DistinctIds(us)
    ensures forall i | 0 <= i < |us| :: us[i].socketId in EntryMap(us) && EntryMap(us)[us[i].socketId] == us[i]
  {
    var m := EntryMap(us);
    forall i | 0 <= i < |us| ensures us[i].socketId in m && m[us[i].socketId] == us[i] {
      assert HasId(us, us[i].socketId) by { assert us[i] in us; }
      var v := m[us[i].socketId];
      var k :| 0 <= k < |us| && us[k] == v && forall j | k < j < |us| :: us[j].socketId != v.socketId;
      assert k == i;
    }
  }

  lemma {:induction false} EntryKeysOfDistinct(us: seq<Record>)
    requires DistinctIds(us)
    ensures |EntryKeys(us)| == |us|
    ensures forall i | 0 <= i < |us| :: EntryKeys(us)[i] == us[i].socketId
    decreases |us|
  {
    if us != [] {
      var init, last := us[..|us| - 1], us[|us| - 1];
      DistinctInit(us);
      EntryKeysOfDistinct(init);
      var keys := EntryKeys(init);
      assert last.socketId !in keys;
      assert EntryKeys(us) == keys + [last.socketId];
      forall i | 0 <= i < |us| ensures EntryKeys(us)[i] == us[i].socketId {
        if i < |init| {
          assert init[i] == us[i];
        }
      }
    }
  }

  /** Dropping the last entry keeps the ids distinct, and no earlier entry
      has the last one's id. */
  lemma DistinctInit(us: seq<Record>)
    requires DistinctIds(us) && us != []
    ensures DistinctIds(us[..|us| - 1])
    ensures !HasId(us[..|us| - 1], us[|us| - 1].socketId)
  {
    var init, last := us[..|us| - 1], us[|us| - 1];
    forall i, j | 0 <= i < j < |init| ensures init[i].socketId != init[j].socketId {
      assert init[i] == us[i] && init[j] == us[j];
    }
    forall v | v in init ensures v.socketId != last.socketId {
      var k :| 0 <= k < |init| && init[k] == v;
      assert us[k] == v;
    }
  }

  /** The socket ids kept by `Left` are those of `us` other than `id`. */
  lemma LeftIds(us: seq<Record>, id: string)
    ensures forall k :: HasId(Left(us, id), k) <==> HasId(us, k) && k != id
  {
    forall k | HasId(us, k) && k != id ensures HasId(Left(us, id), k) {
      var u :| u in us && u.socketId == k;
      assert u in Left(us, id);
    }
  }

  /** The list of users the page offers to call: the other users, one
      entry per socket id. */
  function Callable(us: seq<Record>, mySocketId: string): (r: seq<Record>)
    ensures !HasId(r, mySocketId)
    ensures DistinctIds(r)
    ensures forall v | v in r :: v in us
    ensures forall k :: HasId(r, k) <==> HasId(us, k) && k != mySocketId
  {
    LeftIds(us, mySocketId);
    Dedup(Left(us, mySocketId))
  }

  /** `disabled={user.inCall || !user.peerId}`. */
  function CallDisabled(u: Record): (b: bool)
    ensures b <==> u.inCall || u.peerId == None || u.peerId == Some("")
  {
    u.inCall || !Truthy(u.peerId)
  }

  /** A `peer-registered` broadcast always says `inCall: false`, so after a
      client applies one with a non-empty peer id, every entry for that
      socket shows an enabled call button, whether or not the server's
      record is in a call. */
  lemma RegisteredPeerLooksCallable(us: seq<Record>, id: string, peerId: string)
    requires peerId != ""
    ensures forall v | v in Replaced(us, Record(id, Some(peerId), false)) && v.socketId == id :: !CallDisabled(v)
  {
    var r := Replaced(us, Record(id, Some(peerId), false));
    forall v | v in r && v.socketId == id ensures !CallDisabled(v) {
      var i :| 0 <= i < |r| && r[i] == v;
    }
  }
}
