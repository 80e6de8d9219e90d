/** The relationships of the models, resolved on demand over the tables:
    the parent/children link through `creatorID` and the siblings link
    through pivot rows. Nothing here is stored; each is a query. */
module Relationships {
  import opened Wrappers
  import opened Seqs
  import opened Uuids
  import opened Users
  import opened Acronyms
  import opened Categories
  import opened Pivots
  import opened Database

  /** `acronym.creator.get(on:)`: the user whose id is the acronym's
      `creatorID`; fails when no stored user has that id (for instance
      after the user was deleted: nothing cascades). */
  function Creator(t: Tables, a: Acronym): (r: Result<User>)
    ensures r.Success? ==> r.value in t.users && r.value.id == Some(a.creatorID)
    ensures r.Failure? <==> forall u :: u in t.users ==> u.id != Some(a.creatorID)
    ensures r.Failure? ==> r.status == NotFound
  {
    match FindUser(t, a.creatorID)
    case Some(u) => Success(u)
    case None => Failure(NotFound)
  }

  /** `user.acronyms`, the children through `creatorID`: the stored
      acronyms whose creator is the user with id `userID`. */
  function AcronymsOfUser(t: Tables, userID: UUID): (r: seq<Acronym>)
    ensures |r| <= |t.acronyms|
    ensures forall a :: a in r <==> a in t.acronyms && a.creatorID == userID
  {
    Filter(t.acronyms, (a: Acronym) => a.creatorID == userID)
  }

  /** Each child appears among a user's acronyms exactly as often as it is
      stored, and nothing else appears. */
  lemma AcronymsOfUserCount(t: Tables, userID: UUID, a: Acronym)
    ensures Count(AcronymsOfUser(t, userID), a) == if a.creatorID == userID then Count(t.acronyms, a) else 0
  {
    FilterCount(t.acronyms, (a: Acronym) => a.creatorID == userID, a);
  }

  /** Some pivot row links acronym `acronymID` to category `categoryID`. */
  ghost predicate Tagged(pivots: seq<AcronymCategoryPivot>, acronymID: int, categoryID: int) {
    exists p :: p in pivots && Links(p, acronymID, categoryID)
  }

  function LinksPair(acronymID: int, categoryID: int): AcronymCategoryPivot -> bool {
    (p: AcronymCategoryPivot) => Links(p, acronymID, categoryID)
  }

  /** How many pivot rows link the pair: duplicates are allowed. */
  function LinkCount(pivots: seq<AcronymCategoryPivot>, acronymID: int, categoryID: int): (n: nat)
    ensures n <= |pivots|
    ensures n > 0 <==> Tagged(pivots, acronymID, categoryID)
  {
    var r := Filter(pivots, LinksPair(acronymID, categoryID));
    assert |r| > 0 ==> r[0] in r;
    assert forall q :: q in pivots && Links(q, acronymID, categoryID) ==> q in r;
    |r|
  }

  /** A pivot row appended to the table adds one to the count of its own
      pair and leaves every other pair's count as it was. */
  lemma LinkCountAppend(pivots: seq<AcronymCategoryPivot>, p: AcronymCategoryPivot, acronymID: int, categoryID: int)
    ensures LinkCount(pivots + [p], acronymID, categoryID)
         == LinkCount(pivots, acronymID, categoryID) + if Links(p, acronymID, categoryID) then 1 else 0
  {
    FilterAppend(pivots, [p], LinksPair(acronymID, categoryID));
    assert [p][1..] == [];
  }

  /** How often a category is joined to acronym `acronymID`: once per pivot row. */
  function CategoryLinks(pivots: seq<AcronymCategoryPivot>, acronymID: int): Category -> nat {
    (c: Category) => if c.id.Some? then LinkCount(pivots, acronymID, c.id.value) else 0
  }

  /** How often an acronym is joined to category `categoryID`: once per pivot row. */
  function AcronymLinks(pivots: seq<AcronymCategoryPivot>, categoryID: int): Acronym -> nat {
    (a: Acronym) => if a.id.Some? then LinkCount(pivots, a.id.value, categoryID) else 0
  }

  /** `acronym.categroies`, the siblings: the categories joined through
      the pivot rows whose left key (`acronymID`) is the acronym's id, each
      category once per such row (an inner join on the right key). */
  function CategoriesOf(t: Tables, acronymID: int): (r: seq<Category>)
    ensures forall c :: c in r <==> c in t.categories && c.id.Some? && Tagged(t.pivots, acronymID, c.id.value)
  {
    Join(t.categories, CategoryLinks(t.pivots, acronymID))
  }

  /** `category.acronyms`, the reverse siblings: the acronyms joined through
      the pivot rows whose right key (`categoryID`) is the category's id. */
  function AcronymsOfCategory(t: Tables, categoryID: int): (r: seq<Acronym>)
    ensures forall a :: a in r <==> a in t.acronyms && a.id.Some? && Tagged(t.pivots, a.id.value, categoryID)
  {
    Join(t.acronyms, AcronymLinks(t.pivots, categoryID))
  }

  /** In keyed tables a stored category appears among an acronym's
      categories exactly once per pivot row linking the two. */
  lemma CategoriesOfCount(t: Tables, acronymID: int, c: Category)
    requires Keyed(t) && c in t.categories
    ensures Count(CategoriesOf(t, acronymID), c) == LinkCount(t.pivots, acronymID, c.id.value)
  {
    JoinCountKeyed(t.categories, CategoryKey, CategoryLinks(t.pivots, acronymID), c);
  }

  /** In keyed tables a stored acronym appears among a category's
      acronyms exactly once per pivot row linking the two. */
  lemma AcronymsOfCategoryCount(t: Tables, categoryID: int, a: Acronym)
    requires Keyed(t) && a in t.acronyms
    ensures Count(AcronymsOfCategory(t, categoryID), a) == LinkCount(t.pivots, a.id.value, categoryID)
  {
    JoinCountKeyed(t.acronyms, AcronymKey, AcronymLinks(t.pivots, categoryID), a);
  }

  /** The siblings link is symmetric: a category is among an acronym's
      categories exactly when the acronym is among the category's
      acronyms, and as many times. */
  lemma SiblingsSymmetric(t: Tables, a: Acronym, c: Category)
    requires Keyed(t) && a in t.acronyms && c in t.categories
    ensures c in CategoriesOf(t, a.id.value) <==> a in AcronymsOfCategory(t, c.id.value)
    ensures Count(CategoriesOf(t, a.id.value), c) == Count(AcronymsOfCategory(t, c.id.value), a)
  {
    CategoriesOfCount(t, a.id.value, c);
    AcronymsOfCategoryCount(t, c.id.value, a);
  }

  /** The parent and children links are dual: in keyed tables an acronym
      is among a stored user's acronyms exactly when it is stored and its
      creator resolves to that user. */
  lemma ParentChildrenDual(t: Tables, u: User, a: Acronym)
    requires Keyed(t) && u in t.users
    ensures a in AcronymsOfUser(t, u.id.value) <==> a in t.acronyms && Creator(t, a) == Success(u)
  {
    FindStoredUser(t, u);
  }

  /** Nothing cascades from users to acronyms: once a creator's row is
      gone, the creator's acronyms stay and resolving their creator fails. */
  lemma CreatorOfOrphanFails(t: Tables, u: User, a: Acronym)
    requires Keyed(t) && u in t.users && a in AcronymsOfUser(t, u.id.value)
    ensures var t' := t.(users := RemoveKey(t.users, UserKey, u.id));
      a in t'.acronyms && Creator(t', a) == Failure(NotFound)
  {
  }
}
