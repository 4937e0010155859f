/** `UserService` (SpringDataJdbcApplication.java, lines 92-123): the
    read-through lookup of a profile by id, and the two administrative
    queries over the audit table. */
module Service {
  import opened Wrappers
  import opened Domain
  import opened JavaInteger
  import opened AuditStore
  import opened PlaceholderClient

  /** The exceptions a service pipeline can end with. */
  datatype Failure =
    | NumberFormat(input: string)    // NumberFormatException from Integer.valueOf
    | UserNotFound(message: string)  // UserNotFoundException, answered with 404
    | NoSuchElement                  // NoSuchElementException from Optional.orElseThrow
    | DataAccess(message: string)    // any failure raised by the repository

  /** What a subscriber to a `Mono<T>` observes: one value, completion
      without a value, or an error. */
  datatype Mono<+T> = Just(value: T) | Empty | Error(failure: Failure)

  /** One lookup: its reply, the table afterwards, and the ids requested
      from the upstream service, in order. */
  datatype Outcome = Outcome(reply: Mono<User>, after: Table, requests: seq<string>)

  /** The row under primary key `key` holds a profile. */
  predicate Cached(t: Table, key: int) {
    key in t.rows && t.rows[key].data.Some?
  }

  /** The read succeeds and finds no profile under the parsed key, so the
      lookup has to ask the upstream service. */
  predicate Misses(t: Table, id: string) {
    ValueOf(id).Some? && t.readFault.None? && !Cached(t, ValueOf(id).value)
  }

  /** `getUserById(id)` as written: parse the id, read the row whose PRIMARY
      KEY is that number (a missing row becomes the all-null sentinel), serve
      its profile when there is one; otherwise fetch the raw `id` upstream,
      translate a fetch error into UserNotFound, and save a new row with an
      unset primary key and `userId` = the parsed id, replying with the saved
      row's profile. Repository failures are not translated. */
  function ReadThrough(t: Table, respond: string -> Fetch, id: string): (o: Outcome)
    ensures o.requests == [] || o.requests == [id]
    ensures o.after != t ==> o.requests == [id] && o.reply.Just? && respond(id) == Fetched(o.reply.value)
    ensures o.reply.Error? && o.reply.failure.UserNotFound? ==>
              o.requests == [id] && respond(id) == Failed(o.reply.failure.message) && o.after == t
    ensures t.Valid() ==> o.after.Valid()
  {
    match ValueOf(id)
    case None => Outcome(Error(NumberFormat(id)), t, [])
    case Some(key) =>
      match t.FindById(key)
      case Err(m) => Outcome(Error(DataAccess(m)), t, [])
      case Ok(found) =>
        var audit := found.GetOr(UserAudit(None, None, None));
        if audit.data.Some? then Outcome(Just(audit.data.value), t, [])
        else FetchAndSave(t, respond, id, key)
  }

  /** The miss path shared by both lookups: fetch the raw `id` upstream,
      translate a fetch error into UserNotFound, and save a new row with an
      unset primary key and `userId` = `key`, replying with the saved row's
      profile. A failing save is not translated. */
  function FetchAndSave(t: Table, respond: string -> Fetch, id: string, key: int): (o: Outcome)
    ensures o.requests == [id]
    ensures o.after != t ==> o.reply.Just? && respond(id) == Fetched(o.reply.value)
    ensures o.reply.Error? && o.reply.failure.UserNotFound? ==>
              respond(id) == Failed(o.reply.failure.message) && o.after == t
    ensures t.Valid() ==> o.after.Valid()
  {
    match respond(id)
    case Failed(m) => Outcome(Error(UserNotFound(m)), t, [id])
    case NoBody => Outcome(Empty, t, [id])
    case Fetched(u) =>
      var (saved, t') := t.Save(UserAudit(None, Some(key), Some(u)));
      match saved
      case Err(m) => Outcome(Error(DataAccess(m)), t', [id])
      case Ok(rec) => Outcome(Just(rec.data.value), t', [id])
  }

  /** A non-numeric id fails at Integer.valueOf: nothing is read, fetched or
      written. */
  lemma NumberFormatFirst(t: Table, respond: string -> Fetch, id: string)
    requires ValueOf(id).None?
    ensures ReadThrough(t, respond, id) == Outcome(Error(NumberFormat(id)), t, [])
  {
  }

  /** A failing read propagates as is, before any fetch. */
  lemma ReadFailurePropagates(t: Table, respond: string -> Fetch, id: string)
    requires ValueOf(id).Some? && t.readFault.Some?
    ensures ReadThrough(t, respond, id) == Outcome(Error(DataAccess(t.readFault.value)), t, [])
  {
  }

  /** Cache hit: the stored profile is served, the upstream is not asked and
      the table is unchanged. */
  lemma CacheHit(t: Table, respond: string -> Fetch, id: string)
    requires ValueOf(id).Some? && t.readFault.None? && Cached(t, ValueOf(id).value)
    ensures ReadThrough(t, respond, id) == Outcome(Just(t.rows[ValueOf(id).value].data.value), t, [])
  {
  }

  /** The upstream is asked, for the raw id string, exactly when the read
      finds no profile under the parsed key (no row, or a row whose data is
      null). */
  lemma FetchIffMiss(t: Table, respond: string -> Fetch, id: string)
    ensures ReadThrough(t, respond, id).requests == [id] <==> Misses(t, id)
  {
  }

  /** A successful fetch inserts exactly one row, under the next sequence
      value, with `userId` the parsed id and the fetched profile, and the
      reply is that profile. */
  lemma FetchSuccessInserts(t: Table, respond: string -> Fetch, id: string, u: User)
    requires Misses(t, id) && respond(id) == Fetched(u)
    requires t.writeFault.None? && t.nextId <= MaxValue && t.nextId !in t.rows
    ensures var o := ReadThrough(t, respond, id);
            && o.reply == Just(u)
            && o.requests == [id]
            && o.after == t.(rows := t.rows[t.nextId := UserAudit(Some(t.nextId), ValueOf(id), Some(u))],
                             nextId := t.nextId + 1)
    ensures t.Valid() ==> |ReadThrough(t, respond, id).after.rows| == |t.rows| + 1
  {
    var o := ReadThrough(t, respond, id);
    if t.Valid() {
      assert t.nextId !in t.rows;
      assert o.after.rows.Keys == t.rows.Keys + {t.nextId};
    }
  }

  /** A failed fetch becomes UserNotFound carrying the upstream's message,
      and nothing is saved. */
  lemma FetchFailureTranslated(t: Table, respond: string -> Fetch, id: string, m: string)
    requires Misses(t, id) && respond(id) == Failed(m)
    ensures ReadThrough(t, respond, id) == Outcome(Error(UserNotFound(m)), t, [id])
  {
  }

  /** An upstream answer without a body completes the lookup empty, and
      nothing is saved. */
  lemma EmptyFetchCompletesEmpty(t: Table, respond: string -> Fetch, id: string)
    requires Misses(t, id) && respond(id) == NoBody
    ensures ReadThrough(t, respond, id) == Outcome(Empty, t, [id])
  {
  }

  /** A failing save happens after the error translation, so it propagates
      as a repository failure, never as UserNotFound, and leaves the table
      unchanged. */
  lemma SaveFailureNotTranslated(t: Table, respond: string -> Fetch, id: string, u: User)
    requires Misses(t, id) && respond(id) == Fetched(u)
    requires t.writeFault.Some? || t.nextId > MaxValue || t.nextId in t.rows
    ensures var o := ReadThrough(t, respond, id);
            && o.reply.Error? && o.reply.failure.DataAccess?
            && o.reply.failure.message == (if t.writeFault.Some? then t.writeFault.value
                                           else if t.nextId > MaxValue then SequenceExhausted
                                           else DuplicateKey)
            && o.after == t && o.requests == [id]
  {
  }

  /** After a lookup that fetched and saved, repeating it is served from the
      table, with the fetched profile, exactly when the primary key the
      database assigned happens to equal the requested id. Otherwise it
      fetches again and, while the sequence has a value left, inserts a
      second row with the same `userId` under the next key; at the end of
      the sequence the save fails and nothing is added. */
  lemma RepeatLookup(t: Table, respond: string -> Fetch, id: string)
    requires t.Valid()
    requires ReadThrough(t, respond, id).requests == [id] && ReadThrough(t, respond, id).reply.Just?
    ensures var o1 := ReadThrough(t, respond, id);
            ReadThrough(o1.after, respond, id).requests == [] <==> ValueOf(id) == Some(t.nextId)
    ensures var o1 := ReadThrough(t, respond, id);
            ValueOf(id) == Some(t.nextId) ==> ReadThrough(o1.after, respond, id) == Outcome(o1.reply, o1.after, [])
    ensures var o1 := ReadThrough(t, respond, id);
            var o2 := ReadThrough(o1.after, respond, id);
            ValueOf(id) != Some(t.nextId) && t.nextId < MaxValue ==>
              && o2.reply == o1.reply
              && o2.requests == [id]
              && o2.after.nextId == t.nextId + 2
              && o2.after.rows == o1.after.rows[t.nextId + 1 := UserAudit(Some(t.nextId + 1), ValueOf(id), Some(o1.reply.value))]
              && o2.after.rows[t.nextId].userId == o2.after.rows[t.nextId + 1].userId == ValueOf(id)
    ensures var o1 := ReadThrough(t, respond, id);
            ValueOf(id) != Some(t.nextId) && t.nextId == MaxValue ==>
              ReadThrough(o1.after, respond, id) == Outcome(Error(DataAccess(SequenceExhausted)), o1.after, [id])
  {
    FetchIffMiss(t, respond, id);
    var o := ReadThrough(t, respond, id);
    var key := ValueOf(id).value;
    FetchSuccessInserts(t, respond, id, o.reply.value);
    FetchIffMiss(o.after, respond, id);
    if key != t.nextId {
      assert Cached(o.after, key) == Cached(t, key);
      if t.nextId < MaxValue {
        FetchSuccessInserts(o.after, respond, id, o.reply.value);
      } else {
        SaveFailureNotTranslated(o.after, respond, id, o.reply.value);
      }
    } else {
      CacheHit(o.after, respond, id);
    }
  }

  /** Looking up a cached id twice serves the same profile both times with
      no request and no write. */
  lemma IdempotentHit(t: Table, respond: string -> Fetch, id: string)
    requires ValueOf(id).Some? && t.readFault.None? && Cached(t, ValueOf(id).value)
    ensures var o := ReadThrough(t, respond, id);
            ReadThrough(o.after, respond, id) == o && o.requests == [] && o.after == t
  {
    CacheHit(t, respond, id);
  }

  /** Path ids that differ only by a leading zero share a cache key: both
      hit or both miss, but on a miss the upstream is asked for the raw
      string, zero included. */
  lemma LeadingZeroLookup(t: Table, respond: string -> Fetch, s: string)
    requires s != [] && AllDigits(s)
    ensures Misses(t, "0" + s) == Misses(t, s)
    ensures ReadThrough(t, respond, "0" + s).requests == (if Misses(t, s) then ["0" + s] else [])
  {
    LeadingZeroIgnored(s);
    FetchIffMiss(t, respond, "0" + s);
  }

  /** Empty table, upstream knows "1": the first lookup fetches and stores
      one row with userId 1; the second is served from the table because
      the first assigned primary key is 1 as well. */
  lemma FirstLookupThenHit(respond: string -> Fetch, u: User)
    requires respond("1") == Fetched(u)
    ensures var o1 := ReadThrough(EmptyTable, respond, "1");
            && o1 == Outcome(Just(u), EmptyTable.(rows := map[1 := UserAudit(Some(1), Some(1), Some(u))], nextId := 2), ["1"])
            && ReadThrough(o1.after, respond, "1") == Outcome(Just(u), o1.after, [])
  {
    assert ValueOf("1") == Some(1);
  }

  /** Upstream failing for "999" with "404 Not Found" yields UserNotFound
      with that message and stores nothing. */
  lemma UpstreamNotFound(respond: string -> Fetch)
    requires respond("999") == Failed("404 Not Found")
    ensures ReadThrough(EmptyTable, respond, "999") == Outcome(Error(UserNotFound("404 Not Found")), EmptyTable, ["999"])
  {
    assert ValueOf("999") == Some(999) by {
      assert DigitsValue("999") == DigitsValue("99") * 10 + 9;
      assert DigitsValue("99") == DigitsValue("9") * 10 + 9;
    }
  }

  /** Because the hit check reads by primary key while the miss path stores
      the requested id in `userId`: on an empty table, looking up "2" stores
      user 2's profile under primary key 1, and a later lookup of "1" serves
      that profile without asking the upstream service. */
  lemma WrongProfileServed(respond: string -> Fetch, u2: User)
    requires respond("2") == Fetched(u2)
    ensures var o1 := ReadThrough(EmptyTable, respond, "2");
            && o1.after.rows == map[1 := UserAudit(Some(1), Some(2), Some(u2))]
            && ReadThrough(o1.after, respond, "1") == Outcome(Just(u2), o1.after, [])
  {
    assert ValueOf("2") == Some(2);
    assert ValueOf("1") == Some(1);
  }

  /** The first stored profile whose `userId` is `key`. */
  function FirstCached(rs: seq<UserAudit>, key: int): (r: Option<User>)
    ensures r.Some? ==> exists i :: && 0 <= i < |rs| && rs[i].userId == Some(key) && rs[i].data == Some(r.value)
                                    && forall j :: 0 <= j < i ==> !(rs[j].userId == Some(key) && rs[j].data.Some?)
    ensures r.None? ==> forall i :: 0 <= i < |rs| ==> !(rs[i].userId == Some(key) && rs[i].data.Some?)
  {
    if rs == [] then None
    else if rs[0].userId == Some(key) && rs[0].data.Some? then rs[0].data
    else FirstCached(rs[1..], key)
  }

  /** The lookup with the hit check reading by `userId`, the column the miss
      path writes; otherwise identical to ReadThrough. A served profile was
      stored for the requested id. */
  function ReadThroughByUserId(t: Table, respond: string -> Fetch, id: string): (o: Outcome)
    ensures o.requests == [] || o.requests == [id]
    ensures o.after != t ==> o.requests == [id] && o.reply.Just? && respond(id) == Fetched(o.reply.value)
    ensures o.reply.Error? && o.reply.failure.UserNotFound? ==>
              o.requests == [id] && respond(id) == Failed(o.reply.failure.message) && o.after == t
    ensures o.reply.Just? && o.requests == [] ==>
              exists r :: r in t.rows.Values && r.userId == ValueOf(id) && r.data == Some(o.reply.value)
    ensures t.Valid() ==> o.after.Valid()
  {
    match ValueOf(id)
    case None => Outcome(Error(NumberFormat(id)), t, [])
    case Some(key) =>
      if t.readFault.Some? then Outcome(Error(DataAccess(t.readFault.value)), t, [])
      else
        match FirstCached(t.Listed(), key)
        case Some(u) => Outcome(Just(u), t, [])
        case None => FetchAndSave(t, respond, id, key)
  }

  /** With the corrected hit check, an id that has a stored profile is
      served from the table: no request and no write. */
  lemma ByUserIdHit(t: Table, respond: string -> Fetch, id: string)
    requires t.Valid() && ValueOf(id).Some? && t.readFault.None?
    requires exists k :: k in t.rows && t.rows[k].userId == ValueOf(id) && t.rows[k].data.Some?
    ensures var o := ReadThroughByUserId(t, respond, id);
            o.requests == [] && o.after == t && o.reply.Just?
  {
    var k :| k in t.rows && t.rows[k].userId == ValueOf(id) && t.rows[k].data.Some?;
    t.ListedCoversRows();
    assert t.rows[k] in t.Listed();
  }

  lemma {:induction false} KeysFromAfterInsert(t: Table, rec: UserAudit, lo: int)
    requires t.Valid() && lo <= t.nextId
    ensures var t' := t.(rows := t.rows[t.nextId := rec], nextId := t.nextId + 1);
            t'.KeysFrom(lo) == t.KeysFrom(lo) + [t.nextId]
    decreases t.nextId - lo
  {
    if lo < t.nextId {
      KeysFromAfterInsert(t, rec, lo + 1);
    }
  }

  /** Inserting under the next sequence value appends to the listing. */
  lemma ListedAfterInsert(t: Table, rec: UserAudit)
    requires t.Valid()
    ensures t.(rows := t.rows[t.nextId := rec], nextId := t.nextId + 1).Listed() == t.Listed() + [rec]
  {
    var t' := t.(rows := t.rows[t.nextId := rec], nextId := t.nextId + 1);
    KeysFromAfterInsert(t, rec, 1);
    var ks, ks' := t.KeysFrom(1), t'.KeysFrom(1);
    var listed, listed' := t.Listed(), t'.Listed();
    assert |ks'| == |ks| + 1 && |listed| == |ks| && |listed'| == |ks'|;
    forall i | 0 <= i < |listed'|
      ensures listed'[i] == (listed + [rec])[i]
    {
      assert ks'[i] == (ks + [t.nextId])[i];
      if i < |ks| {
        assert ks[i] in t.rows && ks[i] != t.nextId;
        assert listed'[i] == t'.rows[ks[i]] == t.rows[ks[i]] == listed[i];
      } else {
        assert listed'[i] == t'.rows[t.nextId] == rec;
      }
    }
    assert listed' == listed + [rec];
  }

  lemma {:induction false} FirstCachedAppend(rs: seq<UserAudit>, rec: UserAudit, key: int)
    requires FirstCached(rs, key).None?
    requires rec.userId == Some(key) && rec.data.Some?
    ensures FirstCached(rs + [rec], key) == rec.data
  {
    if rs != [] {
      assert (rs + [rec])[1..] == rs[1..] + [rec];
      FirstCachedAppend(rs[1..], rec, key);
    }
  }

  /** With the corrected hit check, a lookup that fetched and saved is
      served from the table when repeated: same profile, no request, no
      write. */
  lemma ByUserIdRepeatHits(t: Table, respond: string -> Fetch, id: string)
    requires t.Valid()
    requires ReadThroughByUserId(t, respond, id).requests == [id]
    requires ReadThroughByUserId(t, respond, id).reply.Just?
    ensures var o := ReadThroughByUserId(t, respond, id);
            ReadThroughByUserId(o.after, respond, id) == Outcome(o.reply, o.after, [])
  {
    var o := ReadThroughByUserId(t, respond, id);
    var key := ValueOf(id).value;
    var u := o.reply.value;
    var rec := UserAudit(Some(t.nextId), Some(key), Some(u));
    assert o.after == t.(rows := t.rows[t.nextId := rec], nextId := t.nextId + 1);
    ListedAfterInsert(t, rec);
    FirstCachedAppend(t.Listed(), rec, key);
  }

  class UserService {
    const client: JsonPlaceholderClient
    const repo: UserAuditRepository

    constructor(client: JsonPlaceholderClient, repo: UserAuditRepository)
      ensures this.client == client && this.repo == repo
    {
      this.client := client;
      this.repo := repo;
    }

    /** `getUserById`: one sequential run of the read-through pipeline. */
    method GetUserById(id: string) returns (r: Mono<User>)
      requires repo.Valid()
      modifies repo, client`requests
      ensures repo.Valid()
      ensures var o := ReadThrough(old(repo.Snapshot()), client.respond, id);
              && r == o.reply
              && repo.Snapshot() == o.after
              && client.requests == old(client.requests) + o.requests
    {
      var key := ValueOf(id);
      if key.None? {
        return Error(NumberFormat(id));
      }
      var found := repo.Snapshot().FindById(key.value);
      if found.Err? {
        return Error(DataAccess(found.message));
      }
      var audit := found.value.GetOr(UserAudit(None, None, None));
      if audit.data.Some? {
        return Just(audit.data.value);
      }
      var fetched := client.GetUserById(id);
      match fetched
      case Failed(m) =>
        r := Error(UserNotFound(m));
      case NoBody =>
        r := Empty;
      case Fetched(u) =>
        var saved := repo.Save(UserAudit(None, Some(key.value), Some(u)));
        match saved
        case Err(m) =>
          r := Error(DataAccess(m));
        case Ok(rec) =>
          r := Just(rec.data.value);
    }

    /** `getAllDbUsers`: every row of the table, each once. */
    function GetAllDbUsers(): (r: Mono<seq<UserAudit>>)
      reads repo
      requires repo.Valid()
      ensures r != Empty
      ensures r.Error? <==> repo.readFault.Some?
      ensures r.Error? ==> r.failure == DataAccess(repo.readFault.value)
      ensures r.Just? ==> forall k :: k in repo.rows ==> repo.rows[k] in r.value
      ensures r.Just? ==> forall i :: 0 <= i < |r.value| ==> r.value[i] in repo.rows.Values
      ensures r.Just? ==> forall i, j :: 0 <= i < j < |r.value| ==> r.value[i] != r.value[j]
    {
      repo.Snapshot().ListedCoversRows();
      match repo.Snapshot().FindAll()
      case Err(m) => Error(DataAccess(m))
      case Ok(rs) => Just(rs)
    }

    /** `getDbUserById`: the row whose primary key is the parsed id; a
        missing row fails with NoSuchElement. */
    function GetDbUserById(id: string): (r: Mono<UserAudit>)
      reads repo
      requires repo.Valid()
      ensures r != Empty
      ensures ValueOf(id).None? ==> r == Error(NumberFormat(id))
      ensures ValueOf(id).Some? && repo.readFault.Some? ==> r == Error(DataAccess(repo.readFault.value))
      ensures r.Just? <==> ValueOf(id).Some? && repo.readFault.None? && ValueOf(id).value in repo.rows
      ensures r.Just? ==> r.value.id == ValueOf(id) && r.value in repo.rows.Values
      ensures r == Error(NoSuchElement) <==>
                ValueOf(id).Some? && repo.readFault.None? && ValueOf(id).value !in repo.rows
    {
      match ValueOf(id)
      case None => Error(NumberFormat(id))
      case Some(k) =>
        match repo.Snapshot().FindById(k)
        case Err(m) => Error(DataAccess(m))
        case Ok(None) => Error(NoSuchElement)
        case Ok(Some(rec)) => Just(rec)
    }
  }
}
