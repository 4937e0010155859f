/** The `users_audit` table behind `UserAuditRepository` (a Spring Data
    `ListCrudRepository<UserAudit, Integer>`): rows keyed by the primary key
    the database assigns from a 32-bit sequence. Read and write failures of
    the database are environment conditions carried beside the rows. */
module AuditStore {
  import opened Wrappers
  import opened Domain
  import JavaInteger

  /** Message of the failure raised when the id sequence has no value left. */
  const SequenceExhausted := "nextval: reached maximum value of sequence"
  /** Message of the failure raised when the next sequence value is already a key. */
  const DuplicateKey := "duplicate key value violates unique constraint"
  /** Message of the failure raised when an entity with a set id has no row. */
  const UpdateMissing := "Failed to update entity: id not found in database"

  /** A snapshot of the table. `nextId` is the next value of the primary-key
      sequence; `readFault` / `writeFault`, when set, make every read / write
      fail with that message. */
  datatype Table = Table(
    rows: map<int, UserAudit>,
    nextId: int,
    readFault: Option<string>,
    writeFault: Option<string>)
  {
    /** Each row sits under its own primary key, and every key was drawn
        from the sequence before `nextId`. */
    ghost predicate Valid() {
      && 1 <= nextId <= JavaInteger.MaxValue + 1
      && forall k :: k in rows ==> 1 <= k < nextId && rows[k].id == Some(k)
    }

    /** `findById`: the row under primary key `k`, if any. */
    function FindById(k: int): (r: Result<Option<UserAudit>>)
      ensures r.Err? <==> readFault.Some?
      ensures r.Ok? ==> (r.value.Some? <==> k in rows)
      ensures r.Ok? && r.value.Some? ==> r.value.value == rows[k]
      ensures Valid() && r.Ok? && r.value.Some? ==> r.value.value.id == Some(k)
    {
      if readFault.Some? then Err(readFault.value)
      else if k in rows then Ok(Some(rows[k]))
      else Ok(None)
    }

    /** The primary keys present at or after `lo`, in ascending order. */
    function KeysFrom(lo: int): (ks: seq<int>)
      decreases nextId - lo
      ensures forall i :: 0 <= i < |ks| ==> lo <= ks[i] < nextId && ks[i] in rows
      ensures forall i, j :: 0 <= i < j < |ks| ==> ks[i] < ks[j]
      ensures forall k :: lo <= k < nextId && k in rows ==> k in ks
    {
      if lo >= nextId then []
      else if lo in rows then [lo] + KeysFrom(lo + 1)
      else KeysFrom(lo + 1)
    }

    /** Every row, in ascending primary-key order (see ListedCoversRows). */
    function Listed(): (rs: seq<UserAudit>)
      ensures forall i :: 0 <= i < |rs| ==> rs[i] in rows.Values
      ensures Valid() ==> forall i, j :: 0 <= i < j < |rs| ==>
                rs[i].id.Some? && rs[j].id.Some? && rs[i].id.value < rs[j].id.value
    {
      var ks := KeysFrom(1);
      seq(|ks|, i requires 0 <= i < |ks| => rows[ks[i]])
    }

    /** Nothing stored is missing from the listing. */
    lemma ListedCoversRows()
      requires Valid()
      ensures forall k :: k in rows ==> rows[k] in Listed()
    {
      var ks := KeysFrom(1);
      forall k | k in rows
        ensures rows[k] in Listed()
      {
        var i :| 0 <= i < |ks| && ks[i] == k;
        assert Listed()[i] == rows[k];
      }
    }

    /** `findAll`: every stored row exactly once. */
    function FindAll(): (r: Result<seq<UserAudit>>)
      ensures r.Err? <==> readFault.Some?
      ensures r.Ok? ==> r.value == Listed()
    {
      if readFault.Some? then Err(readFault.value) else Ok(Listed())
    }

    /** `save`: an entity without an id is inserted under the next sequence
        value and returned with that id set; an entity with an id replaces
        the row under it, and fails when there is none. */
    function Save(rec: UserAudit): (r: (Result<UserAudit>, Table))
      ensures r.0.Err? ==> r.1 == this
      ensures r.0.Ok? ==> && r.0.value.id.Some?
                          && r.0.value == rec.(id := r.0.value.id)
                          && r.1.rows == rows[r.0.value.id.value := r.0.value]
      ensures rec.id.None? ==> (r.0.Ok? <==> writeFault.None? && nextId <= JavaInteger.MaxValue && nextId !in rows)
      ensures rec.id.None? && r.0.Ok? ==> && r.0.value.id == Some(nextId)
                                          && r.1.nextId == nextId + 1
      ensures rec.id.Some? ==> (r.0.Ok? <==> writeFault.None? && rec.id.value in rows)
      ensures rec.id.Some? && r.0.Ok? ==> r.0.value == rec
      ensures rec.id.Some? ==> r.1.nextId == nextId
      ensures r.1.readFault == readFault && r.1.writeFault == writeFault
      ensures Valid() ==> r.1.Valid()
    {
      if writeFault.Some? then (Err(writeFault.value), this)
      else match rec.id
        case None =>
          if nextId > JavaInteger.MaxValue then (Err(SequenceExhausted), this)
          else if nextId in rows then (Err(DuplicateKey), this)
          else
            var saved := rec.(id := Some(nextId));
            (Ok(saved), this.(rows := rows[nextId := saved], nextId := nextId + 1))
        case Some(k) =>
          if k in rows then (Ok(rec), this.(rows := rows[k := rec]))
          else (Err(UpdateMissing), this)
    }
  }

  /** A freshly created, empty, healthy table. */
  const EmptyTable := Table(map[], 1, None, None)

  /** The repository object. Its fields are the table; `Save` is its one
      mutating operation, and reads go through `Snapshot()`. */
  class UserAuditRepository {
    var rows: map<int, UserAudit>
    var nextId: int
    var readFault: Option<string>
    var writeFault: Option<string>

    function Snapshot(): Table
      reads this
    {
      Table(rows, nextId, readFault, writeFault)
    }

    ghost predicate Valid()
      reads this
    {
      Snapshot().Valid()
    }

    constructor()
      ensures Valid() && Snapshot() == EmptyTable
    {
      rows := map[];
      nextId := 1;
      readFault := None;
      writeFault := None;
    }

    method Save(rec: UserAudit) returns (r: Result<UserAudit>)
      requires Valid()
      modifies this
      ensures Valid()
      ensures (r, Snapshot()) == old(Snapshot()).Save(rec)
    {
      if writeFault.Some? {
        return Err(writeFault.value);
      }
      match rec.id
      case None =>
        // No DuplicateKey branch: Valid() keeps every key below nextId.
        if nextId > JavaInteger.MaxValue {
          r := Err(SequenceExhausted);
        } else {
          var saved := rec.(id := Some(nextId));
          rows := rows[nextId := saved];
          nextId := nextId + 1;
          r := Ok(saved);
        }
      case Some(k) =>
        if k in rows {
          rows := rows[k := rec];
          r := Ok(rec);
        } else {
          r := Err(UpdateMissing);
        }
    }
  }
}
