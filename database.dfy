/** The in-memory stand-in for Fluent over MySQL: four tables of rows, a
    `save` that inserts a new row with an unused id or replaces the row
    with the same id, and a `delete` by id. No foreign-key constraint is
    declared by the migrations, so none is enforced here. */
module Database {
  import opened Wrappers
  import opened Seqs
  import opened Uuids
  import opened Users
  import opened Acronyms
  import opened Categories
  import opened Pivots

  /** A snapshot of the four tables, on which queries are evaluated. */
  datatype Tables = Tables(
    users: seq<User>,
    acronyms: seq<Acronym>,
    categories: seq<Category>,
    pivots: seq<AcronymCategoryPivot>)

  /** Every stored row has been given an id, and no two rows of a table share one. */
  ghost predicate Keyed(t: Tables) {
    && (forall u :: u in t.users ==> u.id.Some?)
    && (forall a :: a in t.acronyms ==> a.id.Some?)
    && (forall c :: c in t.categories ==> c.id.Some?)
    && (forall p :: p in t.pivots ==> p.id.Some?)
    && DistinctKeys(t.users, UserKey)
    && DistinctKeys(t.acronyms, AcronymKey)
    && DistinctKeys(t.categories, CategoryKey)
    && DistinctKeys(t.pivots, PivotKey)
  }

  /** `Acronym.find(id)`. */
  function FindAcronym(t: Tables, id: int): (r: Option<Acronym>)
    ensures r.Some? ==> r.value in t.acronyms && r.value.id == Some(id)
    ensures r.None? <==> forall a :: a in t.acronyms ==> a.id != Some(id)
  {
    Find(t.acronyms, AcronymKey, Some(id))
  }

  /** `Category.find(id)`. */
  function FindCategory(t: Tables, id: int): (r: Option<Category>)
    ensures r.Some? ==> r.value in t.categories && r.value.id == Some(id)
    ensures r.None? <==> forall c :: c in t.categories ==> c.id != Some(id)
  {
    Find(t.categories, CategoryKey, Some(id))
  }

  /** `User.find(id)`. */
  function FindUser(t: Tables, id: UUID): (r: Option<User>)
    ensures r.Some? ==> r.value in t.users && r.value.id == Some(id)
    ensures r.None? <==> forall u :: u in t.users ==> u.id != Some(id)
  {
    Find(t.users, UserKey, Some(id))
  }

  /** In keyed tables every stored acronym is what `find` returns for its id. */
  lemma FindStoredAcronym(t: Tables, a: Acronym)
    requires Keyed(t) && a in t.acronyms
    ensures FindAcronym(t, a.id.value) == Some(a)
  {
    FindKeyed(t.acronyms, AcronymKey, a);
  }

  /** In keyed tables every stored user is what `find` returns for its id. */
  lemma FindStoredUser(t: Tables, u: User)
    requires Keyed(t) && u in t.users
    ensures FindUser(t, u.id.value) == Some(u)
  {
    FindKeyed(t.users, UserKey, u);
  }

  /** The database. Ids for new rows come from counters: the Int ids of
      acronyms and categories as MySQL's AUTO_INCREMENT hands them out,
      and the UUIDs of users and pivot rows from one running number. */
  class Store {
    var users: seq<User>
    var acronyms: seq<Acronym>
    var categories: seq<Category>
    var pivots: seq<AcronymCategoryPivot>
    var nextAcronymID: int
    var nextCategoryID: int
    var nextUuid: nat

    function View(): Tables
      reads this
    {
      Tables(users, acronyms, categories, pivots)
    }

    /** Keyed tables whose ids all lie below the counters, so the next id
        handed out is not in use. */
    ghost predicate Valid()
      reads this
    {
      && Keyed(View())
      && (forall a :: a in acronyms ==> a.id.value < nextAcronymID)
      && (forall c :: c in categories ==> c.id.value < nextCategoryID)
      && (forall u :: u in users ==> u.id.value.bits < nextUuid)
      && (forall p :: p in pivots ==> p.id.value.bits < nextUuid)
    }

    /** An empty database. */
    constructor ()
      ensures Valid()
      ensures View() == Tables([], [], [], [])
    {
      users, acronyms, categories, pivots := [], [], [], [];
      nextAcronymID, nextCategoryID, nextUuid := 1, 1, 0;
    }

    /** `save` of an acronym: a new one (no id) is inserted with an id no
        stored acronym has; one with an id replaces the row with that id
        (and, as an `UPDATE` matching no row, changes nothing if there is none). */
    method SaveAcronym(a: Acronym) returns (saved: Acronym)
      requires Valid()
      modifies this
      ensures Valid()
      ensures saved.id.Some?
      ensures saved == a.(id := saved.id)
      ensures a.id.Some? ==> saved == a && acronyms == ReplaceKey(old(acronyms), AcronymKey, a)
      ensures a.id.None? ==> (forall b :: b in old(acronyms) ==> b.id != saved.id)
      ensures a.id.None? ==> acronyms == old(acronyms) + [saved]
      ensures users == old(users) && categories == old(categories) && pivots == old(pivots)
      ensures nextCategoryID == old(nextCategoryID) && nextUuid == old(nextUuid)
    {
      if a.id.None? {
        saved := a.(id := Some(nextAcronymID));
        acronyms := acronyms + [saved];
        nextAcronymID := nextAcronymID + 1;
      } else {
        saved := a;
        acronyms := ReplaceKey(acronyms, AcronymKey, a);
      }
    }

    /** `delete` of the acronym with id `id`: every other row stays. */
    method DeleteAcronym(id: int)
      requires Valid()
      modifies this`acronyms
      ensures Valid()
      ensures acronyms == RemoveKey(old(acronyms), AcronymKey, Some(id))
    {
      RemoveKeyDistinct(acronyms, AcronymKey, Some(id));
      acronyms := RemoveKey(acronyms, AcronymKey, Some(id));
    }

    /** `save` of a new `AcronymCategoryPivot(acronymID:categoryID:)`:
        inserted with a UUID no stored pivot row has. */
    method SaveNewPivot(acronymID: int, categoryID: int) returns (saved: AcronymCategoryPivot)
      requires Valid()
      modifies this`pivots, this`nextUuid
      ensures Valid()
      ensures saved == NewPivot(acronymID, categoryID).(id := saved.id)
      ensures saved.id.Some? && forall p :: p in old(pivots) ==> p.id != saved.id
      ensures pivots == old(pivots) + [saved]
      ensures nextUuid == old(nextUuid) + 1
    {
      saved := NewPivot(acronymID, categoryID).(id := Some(UUID(nextUuid)));
      pivots := pivots + [saved];
      nextUuid := nextUuid + 1;
    }

    /** `save` of a new `User(name:userName:)`: inserted with a UUID no
        stored user has. */
    method SaveNewUser(name: string, userName: string) returns (saved: User)
      requires Valid()
      modifies this`users, this`nextUuid
      ensures Valid()
      ensures saved == NewUser(name, userName).(id := saved.id)
      ensures saved.id.Some? && forall u :: u in old(users) ==> u.id != saved.id
      ensures users == old(users) + [saved]
      ensures nextUuid == old(nextUuid) + 1
    {
      saved := NewUser(name, userName).(id := Some(UUID(nextUuid)));
      users := users + [saved];
      nextUuid := nextUuid + 1;
    }

    /** `save` of a new `Category(name:)`: inserted with an Int id no
        stored category has. */
    method SaveNewCategory(name: string) returns (saved: Category)
      requires Valid()
      modifies this`categories, this`nextCategoryID
      ensures Valid()
      ensures saved == NewCategory(name).(id := saved.id)
      ensures saved.id.Some? && forall c :: c in old(categories) ==> c.id != saved.id
      ensures categories == old(categories) + [saved]
      ensures nextCategoryID == old(nextCategoryID) + 1
    {
      saved := NewCategory(name).(id := Some(nextCategoryID));
      categories := categories + [saved];
      nextCategoryID := nextCategoryID + 1;
    }
  }
}
