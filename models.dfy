// The four records of the glossary. Each starts life without an id; the
// store fills the id in when the record is first saved.

/** Foundation's UUID, used for the ids of users and pivot rows. Its random
    bits are modelled as a number the store hands out. */
module Uuids {
  datatype UUID = UUID(bits: nat)
}

/** Sources/App/Models/User.swift */
module Users {
  import opened Wrappers
  import opened Uuids

  datatype User = User(id: Option<UUID>, name: string, userName: string)

  /** `init(name:userName:)`: stores both names and leaves the id unset. */
  function NewUser(name: string, userName: string): (u: User)
    ensures u.id == None
    ensures u.name == name && u.userName == userName
  {
    User(None, name, userName)
  }

  /** The primary key of the users table. */
  function UserKey(u: User): Option<UUID> { u.id }
}

/** Sources/App/Models/Acronym.swift */
module Acronyms {
  import opened Wrappers
  import opened Uuids

  /** `creatorID` is the acronym's only foreign key (a `User.ID`). The
      Swift class declares it `let`, yet the update handler assigns it;
      here it is an ordinary field that an update may change. */
  datatype Acronym = Acronym(id: Option<int>, short: string, long: string, creatorID: UUID)

  /** `init(short:long:creatorID:)`: stores the three fields as given and
      leaves the id unset. */
  function NewAcronym(short: string, long: string, creatorID: UUID): (a: Acronym)
    ensures a.id == None
    ensures a.short == short && a.long == long && a.creatorID == creatorID
  {
    Acronym(None, short, long, creatorID)
  }

  /** The primary key of the acronyms table. */
  function AcronymKey(a: Acronym): Option<int> { a.id }
}

/** Sources/App/Models/Category.swift */
module Categories {
  import opened Wrappers

  /** `name` carries no uniqueness constraint: two categories may share it. */
  datatype Category = Category(id: Option<int>, name: string)

  /** `init(name:)`: stores the name and leaves the id unset. */
  function NewCategory(name: string): (c: Category)
    ensures c.id == None && c.name == name
  {
    Category(None, name)
  }

  /** The primary key of the categories table. */
  function CategoryKey(c: Category): Option<int> { c.id }
}

/** Sources/App/Models/AcronymCategoryPivot.swift */
module Pivots {
  import opened Wrappers
  import opened Uuids

  /** One acronym-category link. Its left side is the acronym, keyed by
      `acronymID`; its right side is the category, keyed by `categoryID`.
      Nothing makes the pair unique: each row has an id of its own. */
  datatype AcronymCategoryPivot = AcronymCategoryPivot(id: Option<UUID>, acronymID: int, categoryID: int)

  /** `init(acronymID:categoryID:)`: stores both keys and leaves the id unset. */
  function NewPivot(acronymID: int, categoryID: int): (p: AcronymCategoryPivot)
    ensures p.id == None
    ensures p.acronymID == acronymID && p.categoryID == categoryID
  {
    AcronymCategoryPivot(None, acronymID, categoryID)
  }

  /** The primary key of the pivot table. */
  function PivotKey(p: AcronymCategoryPivot): Option<UUID> { p.id }

  /** Whether a pivot row links the acronym `acronymID` to the category `categoryID`. */
  predicate Links(p: AcronymCategoryPivot, acronymID: int, categoryID: int) {
    p.acronymID == acronymID && p.categoryID == categoryID
  }
}
