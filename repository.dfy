/** An in-memory model of the JPA repository behind the service: the users table as a map from
    id to row plus the identity generator's next value, the managed entity class, and the
    repository operations the service calls (findById, existsByUsername, save, deleteById,
    findAll with paging). */
module Repository {
  import opened Wrappers

  /** The persisted columns of one account besides its id, which is the row's key. */
  datatype UserRow = UserRow(name: string, username: string, password: Option<string>)

  /** The whole table. */
  datatype Store = Store(rows: map<int, UserRow>, nextId: int)

  /** Spring Data's Page: one slice of the table and the numbers describing it. */
  datatype Page<T> = Page(content: seq<T>, number: int, size: int, totalPages: int, totalElements: int)

  predicate UniqueUsernames(rows: map<int, UserRow>) {
    forall a, b :: a in rows && b in rows && rows[a].username == rows[b].username ==> a == b
  }

  /** The table's invariant: generated ids are positive and below the generator, every
      account has a credential, and no two accounts share a username. */
  ghost predicate Valid(s: Store) {
    && 1 <= s.nextId
    && (forall id :: id in s.rows ==> 1 <= id < s.nextId)
    && (forall id :: id in s.rows ==> s.rows[id].password.Some?)
    && UniqueUsernames(s.rows)
  }

  predicate UsernameExists(s: Store, username: string) {
    exists id | id in s.rows :: s.rows[id].username == username
  }

  /** The ids of `rows` in [0, n), in ascending order: the table's natural order. */
  function IdsBelow(rows: map<int, UserRow>, n: int): (ids: seq<int>)
    decreases n
    ensures forall i, j :: 0 <= i < j < |ids| ==> ids[i] < ids[j]
    ensures forall k :: k in ids <==> k in rows && 0 <= k < n
  {
    if n <= 0 then []
    else
      var prev := IdsBelow(rows, n - 1);
      assert forall i :: 0 <= i < |prev| ==> prev[i] in prev;
      prev + (if n - 1 in rows then [n - 1] else [])
  }

  ghost function KeysBelow(rows: map<int, UserRow>, n: int): set<int> {
    set k | k in rows && 0 <= k < n
  }

  lemma KeysBelowStep(rows: map<int, UserRow>, n: int)
    requires 0 < n
    ensures n - 1 !in KeysBelow(rows, n - 1)
    ensures KeysBelow(rows, n) == KeysBelow(rows, n - 1) + (if n - 1 in rows then {n - 1} else {})
  {
  }

  /** The enumeration lists each key in range exactly once. */
  lemma {:induction false} IdsBelowCount(rows: map<int, UserRow>, n: int)
    decreases n
    ensures |IdsBelow(rows, n)| == |KeysBelow(rows, n)|
  {
    if n <= 0 {
      assert KeysBelow(rows, n) == {};
    } else {
      IdsBelowCount(rows, n - 1);
      KeysBelowStep(rows, n);
    }
  }

  /** Every row of the table with its id, in ascending id order. */
  function OrderedRows(s: Store): (ordered: seq<(int, UserRow)>)
    ensures |ordered| == |IdsBelow(s.rows, s.nextId)|
    ensures forall i :: 0 <= i < |ordered| ==> ordered[i].0 in s.rows && s.rows[ordered[i].0] == ordered[i].1
    ensures forall i, j :: 0 <= i < j < |ordered| ==> ordered[i].0 < ordered[j].0
  {
    var ids := IdsBelow(s.rows, s.nextId);
    assert forall i :: 0 <= i < |ids| ==> ids[i] in ids;
    seq(|ids|, i requires 0 <= i < |ids| => (ids[i], s.rows[ids[i]]))
  }

  function Min(a: int, b: int): int { if a <= b then a else b }

  /** findAll(PageRequest.of(page, size)): the rows at positions [page * size, page * size + size)
      of the natural order, the request's page number and size, the number of pages of that
      size needed to hold every row, and the number of rows. */
  function FindPage(s: Store, page: int, size: int): (p: Page<(int, UserRow)>)
    requires 0 <= page && 0 < size
  {
    var ordered := OrderedRows(s);
    var total := |ordered|;
    var from := Min(page * size, total);
    Page(ordered[from..Min(from + size, total)], page, size, (total + size - 1) / size, total)
  }

  /** A page holds at most `size` stored rows, in ascending id order. */
  lemma FindPageSlice(s: Store, page: int, size: int)
    requires 0 <= page && 0 < size
    ensures var p := FindPage(s, page, size);
      && |p.content| <= size
      && p.number == page && p.size == size
      && (forall j :: 0 <= j < |p.content| ==> p.content[j].0 in s.rows && s.rows[p.content[j].0] == p.content[j].1)
      && (forall i, j :: 0 <= i < j < |p.content| ==> p.content[i].0 < p.content[j].0)
  {
    var ordered := OrderedRows(s);
    var from := Min(page * size, |ordered|);
    var to := Min(from + size, |ordered|);
    assert FindPage(s, page, size).content == ordered[from..to];
  }

  /** On a valid table the page reports the true number of rows. */
  lemma {:induction false} FindPageCount(s: Store, page: int, size: int)
    requires Valid(s) && 0 <= page && 0 < size
    ensures FindPage(s, page, size).totalElements == |s.rows|
  {
    IdsBelowCount(s.rows, s.nextId);
    assert KeysBelow(s.rows, s.nextId) == s.rows.Keys;
  }

  /** A managed UserEntity: the service loads it, changes its fields and saves it back. */
  class UserEntity {
    var id: Option<int>
    var name: string
    var username: string
    var password: Option<string>

    constructor (id: Option<int>, name: string, username: string, password: Option<string>)
      ensures this.id == id && this.name == name && this.username == username && this.password == password
    {
      this.id := id;
      this.name := name;
      this.username := username;
      this.password := password;
    }

    /** The columns this entity writes when saved. */
    function Row(): UserRow
      reads this
    {
      UserRow(name, username, password)
    }
  }

  class UserRepository {
    var rows: map<int, UserRow>
    var nextId: int

    constructor ()
      ensures rows == map[] && nextId == 1
    {
      rows := map[];
      nextId := 1;
    }

    function State(): Store
      reads this
    {
      Store(rows, nextId)
    }

    /** A fresh entity loaded from row `id`, or nothing when there is no such row. */
    method FindById(id: int) returns (found: Option<UserEntity>)
      ensures found.None? <==> id !in rows
      ensures found.Some? ==> fresh(found.value) && found.value.id == Some(id) && found.value.Row() == rows[id]
    {
      if id in rows {
        var row := rows[id];
        var e := new UserEntity(Some(id), row.name, row.username, row.password);
        found := Some(e);
      } else {
        found := None;
      }
    }

    method ExistsByUsername(username: string) returns (b: bool)
      ensures b <==> exists id :: id in rows && rows[id].username == username
    {
      b := UsernameExists(State(), username);
    }

    /** Inserts an entity without id under a newly generated id, which it sets on the entity,
        or overwrites the row of an entity that has one; returns the same entity. */
    method Save(e: UserEntity) returns (saved: UserEntity)
      modifies this, e
      ensures saved == e && e.Row() == old(e.Row())
      ensures old(e.id).None? ==>
        e.id == Some(old(nextId)) && rows == old(rows)[old(nextId) := e.Row()] && nextId == old(nextId) + 1
      ensures old(e.id).Some? ==>
        e.id == old(e.id) && rows == old(rows)[e.id.value := e.Row()] && nextId == old(nextId)
    {
      if e.id.None? {
        e.id := Some(nextId);
        nextId := nextId + 1;
      }
      rows := rows[e.id.value := e.Row()];
      saved := e;
    }

    method DeleteById(id: int)
      modifies this
      ensures rows == old(rows) - {id} && nextId == old(nextId)
    {
      rows := rows - {id};
    }

    /** findAll(pageable): the page FindPage describes, with a fresh entity for each row. */
    method FindAll(page: int, size: int) returns (p: Page<UserEntity>)
      requires 0 <= page && 0 < size
      ensures var spec := FindPage(State(), page, size);
        && p.number == spec.number && p.size == spec.size
        && p.totalPages == spec.totalPages && p.totalElements == spec.totalElements
        && |p.content| == |spec.content|
        && forall j :: 0 <= j < |p.content| ==>
             p.content[j].id == Some(spec.content[j].0) && p.content[j].Row() == spec.content[j].1
    {
      var spec := FindPage(State(), page, size);
      var content: seq<UserEntity> := [];
      var i := 0;
      while i < |spec.content|
        invariant 0 <= i <= |spec.content| && |content| == i
        invariant forall j :: 0 <= j < i ==>
          content[j].id == Some(spec.content[j].0) && content[j].Row() == spec.content[j].1
      {
        var (id, row) := spec.content[i];
        var e := new UserEntity(Some(id), row.name, row.username, row.password);
        content := content + [e];
        i := i + 1;
      }
      p := Page(content, spec.number, spec.size, spec.totalPages, spec.totalElements);
    }
  }
}
