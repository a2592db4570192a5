/** The table of registered device keys: one row per key id, never updated once inserted. */
module EnclaveKeys {
  import opened Wrappers

  datatype Key = Key(id: string, userId: string, pem: string, algorithm: string, registeredAt: int)

  type Table = map<string, Key>

  ghost predicate Keyed(t: Table) {
    forall id :: id in t ==> t[id].id == id
  }

  datatype RepositoryError = DatabaseFault | DuplicateKey | KeyNotFound

  ghost predicate NewestFirst(keys: seq<Key>) {
    forall i, j :: 0 <= i < j < |keys| ==> keys[i].registeredAt >= keys[j].registeredAt
  }

  ghost predicate DistinctIds(keys: seq<Key>) {
    forall i, j :: 0 <= i < j < |keys| ==> keys[i].id != keys[j].id
  }

  /** A possible answer to the query for a user's keys: each of them once, newest first. */
  ghost predicate IsListing(t: Table, user: string, keys: seq<Key>) {
    && NewestFirst(keys) && DistinctIds(keys)
    && (forall key :: key in keys <==> key.id in t && t[key.id] == key && key.userId == user)
  }

  /** The place of a row in a list that is newest first. */
  method Place(keys: seq<Key>, key: Key) returns (i: nat)
    requires NewestFirst(keys)
    ensures i <= |keys|
    ensures forall j :: 0 <= j < i ==> keys[j].registeredAt >= key.registeredAt
    ensures forall j :: i <= j < |keys| ==> keys[j].registeredAt < key.registeredAt
  {
    i := 0;
    while i < |keys| && keys[i].registeredAt >= key.registeredAt
      invariant i <= |keys|
      invariant forall j :: 0 <= j < i ==> keys[j].registeredAt >= key.registeredAt
    {
      i := i + 1;
    }
  }

  lemma PlacedKeeps(keys: seq<Key>, i: nat, key: Key, placed: seq<Key>)
    requires i <= |keys| && placed == keys[..i] + [key] + keys[i..]
    requires NewestFirst(keys) && DistinctIds(keys) && forall k :: k in keys ==> k.id != key.id
    requires forall j :: 0 <= j < i ==> keys[j].registeredAt >= key.registeredAt
    requires forall j :: i <= j < |keys| ==> keys[j].registeredAt < key.registeredAt
    ensures NewestFirst(placed) && DistinctIds(placed)
    ensures forall k :: k in placed <==> k == key || k in keys
  {
    PlacedMembers(keys, i, key, placed);
    PlacedInOrder(keys, i, key, placed);
    PlacedApart(keys, i, key, placed);
  }

  lemma PlacedInOrder(keys: seq<Key>, i: nat, key: Key, placed: seq<Key>)
    requires i <= |keys| && placed == keys[..i] + [key] + keys[i..] && NewestFirst(keys)
    requires forall j :: 0 <= j < i ==> keys[j].registeredAt >= key.registeredAt
    requires forall j :: i <= j < |keys| ==> keys[j].registeredAt < key.registeredAt
    ensures NewestFirst(placed)
  {
    assert forall j :: 0 <= j < |placed| ==>
              placed[j] == if j < i then keys[j] else if j == i then key else keys[j - 1];
  }

  lemma PlacedApart(keys: seq<Key>, i: nat, key: Key, placed: seq<Key>)
    requires i <= |keys| && placed == keys[..i] + [key] + keys[i..]
    requires DistinctIds(keys) && forall k :: k in keys ==> k.id != key.id
    ensures DistinctIds(placed)
  {
    assert forall j :: 0 <= j < |keys| ==> keys[j] in keys;
    assert forall j :: 0 <= j < |placed| ==>
              placed[j] == if j < i then keys[j] else if j == i then key else keys[j - 1];
  }

  lemma PlacedMembers(keys: seq<Key>, i: nat, key: Key, placed: seq<Key>)
    requires i <= |keys| && placed == keys[..i] + [key] + keys[i..]
    ensures forall k :: k in placed <==> k == key || k in keys
  {
    assert keys == keys[..i] + keys[i..];
  }

  class EnclaveKeyRepository {
    var rows: Table

    ghost predicate Valid()
      reads this
    {
      Keyed(rows)
    }

    constructor ()
      ensures Valid() && rows == map[]
    {
      rows := map[];
    }

    /** `fault` says whether the database rejects the statement for reasons of its own. */
    method SaveKey(key: Key, fault: bool) returns (r: Result<(), RepositoryError>)
      requires Valid()
      modifies this
      ensures Valid()
      ensures r.Ok? <==> !fault && key.id !in old(rows)
      ensures r.Err? ==> r.error == if fault then DatabaseFault else DuplicateKey
      ensures rows == if r.Ok? then old(rows)[key.id := key] else old(rows)
    {
      if fault {
        return Err(DatabaseFault);
      }
      if key.id in rows {
        return Err(DuplicateKey);
      }
      rows := rows[key.id := key];
      return Ok(());
    }

    method GetKeysByUserID(user: string, fault: bool) returns (r: Result<seq<Key>, RepositoryError>)
      requires Valid()
      ensures r.Ok? <==> !fault
      ensures r.Err? ==> r.error == DatabaseFault
      ensures r.Ok? ==> IsListing(rows, user, r.value)
      ensures r.Ok? ==>
                forall i, j :: 0 <= i < j < |r.value| ==> r.value[i].registeredAt >= r.value[j].registeredAt
    {
      if fault {
        return Err(DatabaseFault);
      }
      var keys: seq<Key>, rest := [], rows.Keys;
      while rest != {}
        invariant rest <= rows.Keys
        invariant NewestFirst(keys) && DistinctIds(keys)
        invariant forall key :: key in keys <==>
                    key.id in rows && rows[key.id] == key && key.userId == user && key.id !in rest
        decreases rest
      {
        var id :| id in rest;
        rest := rest - {id};
        if rows[id].userId == user {
          var i := Place(keys, rows[id]);
          ghost var before := keys;
          keys := keys[..i] + [rows[id]] + keys[i..];
          PlacedKeeps(before, i, rows[id], keys);
        }
      }
      return Ok(keys);
    }

    method DeleteKey(id: string, fault: bool) returns (r: Result<(), RepositoryError>)
      requires Valid()
      modifies this
      ensures Valid()
      ensures r.Ok? <==> !fault && id in old(rows)
      ensures r.Err? ==> r.error == if fault then DatabaseFault else KeyNotFound
      ensures rows == if r.Ok? then old(rows) - {id} else old(rows)
    {
      if fault {
        return Err(DatabaseFault);
      }
      if id !in rows {
        return Err(KeyNotFound);
      }
      rows := map k | k in rows && k != id :: rows[k];
      return Ok(());
    }
  }
}
