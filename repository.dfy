/**
 * The link repository (repositories/LinkRepositories.java, the contract, and
 * repositories/LinkRepository.java, its SQL implementation). The table
 * `links` is a map from link_id to its row plus the next id the store will
 * assign; an SQLException is the result `Fault`, chosen by the environment.
 */
module Repository {
  import opened Common
  import opened Entities

  /** A row of the table: the url and the date stamped at insert time. */
  datatype Row = Row(url: string, dateCreate: Timestamp)

  /** The table's contents and its identity counter. */
  datatype StoreState = StoreState(rows: map<int, Row>, nextId: int)

  /** Ids are positive and below the next id: a fresh id is never in use. */
  predicate WellFormed(s: StoreState) {
    s.nextId >= 1 && forall id :: id in s.rows ==> 1 <= id < s.nextId
  }

  const EmptyStore: StoreState := StoreState(map[], 1)

  /** A repository result: a value, or a storage fault (SQLException). */
  datatype RepoResult<+T> = Value(value: T) | Fault

  /** How the environment lets a save go: where, if anywhere, it faults. */
  datatype SaveEnv = SaveEnv(insertFault: bool, keyReturned: bool, readBackFault: bool)

  const NormalSave: SaveEnv := SaveEnv(false, true, false)

  /** The repository operations, recorded in the order they are called. */
  datatype Call = GetByIdCall(linkId: int) | SaveCall(link: Link) | SizeCall | DeleteByIdCall(linkId: int)

  /** SELECT * FROM links WHERE link_id = ?, read into a Link. */
  function GetByIdSpec(s: StoreState, linkId: int, fault: bool): (r: RepoResult<Option<Link>>)
    ensures r.Fault? <==> fault
    ensures r.Value? ==> (r.value.Some? <==> linkId in s.rows)
    ensures r.Value? && r.value.Some? ==>
              && r.value.value.linkId == Some(linkId)
              && r.value.value.url == s.rows[linkId].url
              && r.value.value.dateCreate == Some(s.rows[linkId].dateCreate)
  {
    if fault then Fault
    else if linkId in s.rows then Value(Some(Link(Some(linkId), s.rows[linkId].url, Some(s.rows[linkId].dateCreate))))
    else Value(None)
  }

  /** INSERT INTO links (url) VALUES (?): the store assigns the id and the date. */
  function Insert(s: StoreState, url: string, now: Timestamp): StoreState {
    StoreState(s.rows[s.nextId := Row(url, now)], s.nextId + 1)
  }

  /** The table after save: one new row unless the insert itself faulted. */
  function SaveState(s: StoreState, link: Link, now: Timestamp, env: SaveEnv): StoreState {
    if env.insertFault then s else Insert(s, link.url, now)
  }

  /**
   * What save returns: the row read back by its generated key (0 when no key
   * comes back); a read-back that finds nothing is a fault, not an absence.
   */
  function SaveResult(s: StoreState, link: Link, now: Timestamp, env: SaveEnv): RepoResult<Link> {
    if env.insertFault then Fault
    else
      var linkId := if env.keyReturned then s.nextId else 0;
      match GetByIdSpec(Insert(s, link.url, now), linkId, env.readBackFault)
      case Value(Some(l)) => Value(l)
      case _ => Fault
  }

  /** SELECT COUNT(*) FROM links; 0 when no count row comes back. */
  function SizeSpec(s: StoreState, fault: bool, rowProduced: bool): (r: RepoResult<int>)
    ensures r.Fault? <==> fault
    ensures r.Value? ==> r.value == (if rowProduced then |s.rows| else 0)
  {
    if fault then Fault else if rowProduced then Value(|s.rows|) else Value(0)
  }

  /** DELETE FROM links WHERE link_id = ?: the table afterwards. */
  function DeleteState(s: StoreState, linkId: int, fault: bool): StoreState {
    if fault then s else StoreState(s.rows - {linkId}, s.nextId)
  }

  /** Whether deleteById reports a deleted row. */
  function DeleteResult(s: StoreState, linkId: int, fault: bool): RepoResult<bool> {
    if fault then Fault else Value(linkId in s.rows)
  }

  /**
   * A successful save returns exactly the row it inserted, with the fresh id
   * and the stamped date, and that row is then found by its id. Save succeeds
   * exactly when nothing faults and the generated key comes back.
   */
  lemma SaveReturnsInsertedRow(s: StoreState, link: Link, now: Timestamp, env: SaveEnv)
    requires WellFormed(s)
    ensures SaveResult(s, link, now, env).Value? <==> !env.insertFault && env.keyReturned && !env.readBackFault
    ensures SaveResult(s, link, now, env).Value? ==>
              && SaveResult(s, link, now, env).value == Link(Some(s.nextId), link.url, Some(now))
              && GetByIdSpec(SaveState(s, link, now, env), s.nextId, false) == Value(Some(SaveResult(s, link, now, env).value))
  {
    assert 0 !in Insert(s, link.url, now).rows;
  }

  /** The id 0 that a missing generated key leaves behind is never in the table, so save faults. */
  lemma MissingKeyIsFault(s: StoreState, link: Link, now: Timestamp, env: SaveEnv)
    requires WellFormed(s)
    requires !env.keyReturned
    ensures SaveResult(s, link, now, env) == Fault
  {
    assert 0 !in Insert(s, link.url, now).rows;
  }

  /** Save reads only the url: the incoming id and date make no difference. */
  lemma SaveIgnoresIdAndDate(s: StoreState, a: Link, b: Link, now: Timestamp, env: SaveEnv)
    requires a.url == b.url
    ensures SaveState(s, a, now, env) == SaveState(s, b, now, env)
    ensures SaveResult(s, a, now, env) == SaveResult(s, b, now, env)
  {
  }

  /** Save keeps the store well formed; a stored row adds exactly one to the size. */
  lemma SavePreservesWellFormed(s: StoreState, link: Link, now: Timestamp, env: SaveEnv)
    requires WellFormed(s)
    ensures WellFormed(SaveState(s, link, now, env))
    ensures |SaveState(s, link, now, env).rows| == |s.rows| + (if env.insertFault then 0 else 1)
    ensures SaveState(s, link, now, env).nextId >= s.nextId
  {
    assert s.nextId !in s.rows;
  }

  /** The same url saved twice into an empty table gives two rows, ids 1 then 2. */
  lemma SaveTwiceIntoEmpty(url: string, t1: Timestamp, t2: Timestamp)
    ensures var link := Link(None, url, None);
            var s1 := SaveState(EmptyStore, link, t1, NormalSave);
            && SaveResult(EmptyStore, link, t1, NormalSave) == Value(Link(Some(1), url, Some(t1)))
            && SaveResult(s1, link, t2, NormalSave) == Value(Link(Some(2), url, Some(t2)))
            && |SaveState(s1, link, t2, NormalSave).rows| == 2
  {
    var link := Link(None, url, None);
    var s1 := SaveState(EmptyStore, link, t1, NormalSave);
    assert s1.rows == map[1 := Row(url, t1)];
    assert SaveState(s1, link, t2, NormalSave).rows.Keys == {1, 2};
  }

  /**
   * deleteById reports true exactly when the row existed; it removes that row
   * and no other, and never touches the id counter.
   */
  lemma DeleteRemovesOnlyThatRow(s: StoreState, linkId: int, fault: bool, other: int)
    requires WellFormed(s)
    requires other != linkId
    ensures DeleteResult(s, linkId, fault) == (if fault then Fault else Value(linkId in s.rows))
    ensures WellFormed(DeleteState(s, linkId, fault))
    ensures !fault ==> GetByIdSpec(DeleteState(s, linkId, fault), linkId, false) == Value(None)
    ensures GetByIdSpec(DeleteState(s, linkId, fault), other, false) == GetByIdSpec(s, other, false)
    ensures |DeleteState(s, linkId, fault).rows| ==
              |s.rows| - (if DeleteResult(s, linkId, fault) == Value(true) then 1 else 0)
    ensures DeleteState(s, linkId, fault).nextId == s.nextId
  {
    if !fault && linkId in s.rows {
      assert (s.rows - {linkId}).Keys == s.rows.Keys - {linkId};
    } else if !fault {
      assert s.rows - {linkId} == s.rows;
    }
  }

  /** The repository over the links table. */
  class LinkRepository {
    var rows: map<int, Row>
    var nextId: int
    /** The repository operations called so far (specification only). */
    ghost var log: seq<Call>

    function State(): StoreState
      reads this
    {
      StoreState(rows, nextId)
    }

    ghost predicate Valid()
      reads this
    {
      WellFormed(State())
    }

    /**
     * A repository over the table as the data source holds it: empty, or
     * already filled with rows.
     */
    constructor (initial: StoreState)
      requires WellFormed(initial)
      ensures Valid() && State() == initial && log == []
    {
      rows := initial.rows;
      nextId := initial.nextId;
      log := [];
    }

    /** The SELECT by id that getById runs and that save reuses for its read-back. */
    method Select(linkId: int, fault: bool) returns (link: RepoResult<Option<Link>>)
      ensures link == GetByIdSpec(State(), linkId, fault)
    {
      if fault {
        return Fault;
      }
      link := Value(None);
      if linkId in rows {
        var row := rows[linkId];
        link := Value(Some(Link(Some(linkId), row.url, Some(row.dateCreate))));
      }
    }

    method GetById(linkId: int, fault: bool) returns (link: RepoResult<Option<Link>>)
      requires Valid()
      modifies this`log
      ensures Valid() && State() == old(State())
      ensures link == GetByIdSpec(State(), linkId, fault)
      ensures log == old(log) + [GetByIdCall(linkId)]
    {
      log := log + [GetByIdCall(linkId)];
      link := Select(linkId, fault);
    }

    method Save(link: Link, now: Timestamp, env: SaveEnv) returns (saved: RepoResult<Link>)
      requires Valid()
      modifies this
      ensures Valid()
      ensures State() == SaveState(old(State()), link, now, env)
      ensures saved == SaveResult(old(State()), link, now, env)
      ensures log == old(log) + [SaveCall(link)]
    {
      log := log + [SaveCall(link)];
      var linkId := 0;
      if env.insertFault {
        return Fault;
      }
      var generated := nextId;
      rows := rows[generated := Row(link.url, now)];
      nextId := nextId + 1;
      if env.keyReturned {
        linkId := generated;
      }
      var found := Select(linkId, env.readBackFault);
      match found {
        case Value(Some(l)) => saved := Value(l);
        case _ => saved := Fault;
      }
    }

    method Size(fault: bool, rowProduced: bool) returns (size: RepoResult<int>)
      requires Valid()
      modifies this`log
      ensures Valid() && State() == old(State())
      ensures size == SizeSpec(State(), fault, rowProduced)
      ensures log == old(log) + [SizeCall]
    {
      log := log + [SizeCall];
      if fault {
        return Fault;
      }
      var count := 0;
      if rowProduced {
        count := |rows|;
      }
      size := Value(count);
    }

    method DeleteById(linkId: int, fault: bool) returns (deleted: RepoResult<bool>)
      requires Valid()
      modifies this
      ensures Valid()
      ensures State() == DeleteState(old(State()), linkId, fault)
      ensures deleted == DeleteResult(old(State()), linkId, fault)
      ensures log == old(log) + [DeleteByIdCall(linkId)]
    {
      log := log + [DeleteByIdCall(linkId)];
      if fault {
        return Fault;
      }
      var countDeleted := if linkId in rows then 1 else 0;
      rows := rows - {linkId};
      deleted := Value(countDeleted > 0);
    }
  }

}
