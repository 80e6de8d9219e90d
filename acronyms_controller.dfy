/** Sources/App/Controllers/AcronymController.swift: the JSON API over
    acronyms. Read handlers are functions of the tables; the handlers that
    save or delete rows are methods on the store. The authenticated user a
    bearer token resolves to is an input, `None` when the request carries
    no valid token. */
module AcronymsController {
  import opened Wrappers
  import opened Seqs
  import opened Uuids
  import opened Users
  import opened Acronyms
  import opened Categories
  import opened Pivots
  import opened Database
  import opened Relationships

  /** The decoded JSON body of a create or update request. */
  datatype AcronymCreateData = AcronymCreateData(short: string, long: string)

  datatype Verb = GET | POST | PUT | DELETE
  datatype Segment = Lit(s: string) | AcronymParam | CategoryParam
  datatype Handler =
    | GetAll | Get | GetCreator | GetCategories | AddCategories | Search
    | Create | Delete | Update
  datatype Route = Route(verb: Verb, path: seq<Segment>, handler: Handler, tokenAuth: bool)

  /** The handlers that save or delete rows. */
  predicate Mutates(h: Handler) {
    h == Create || h == Delete || h == Update || h == AddCategories
  }

  /** Some route of the table dispatches to handler `h`. */
  ghost predicate Registered(routes: seq<Route>, h: Handler) {
    exists i :: 0 <= i < |routes| && routes[i].handler == h
  }

  /** The position at which `boot` registers handler `h`. */
  function Slot(h: Handler): nat {
    match h
    case GetAll => 0 case Get => 1 case GetCreator => 2 case GetCategories => 3
    case AddCategories => 4 case Search => 5 case Create => 6 case Delete => 7 case Update => 8
  }

  /** `boot`: one route under /api/acronyms for each handler. The reads
      are GETs; create, delete and update sit in the token-auth group, while
      the reads and tagging do not. */
  function Boot(): (routes: seq<Route>)
    ensures forall h: Handler :: Registered(routes, h)
    ensures forall i, j :: 0 <= i < |routes| && 0 <= j < |routes| && routes[i].handler == routes[j].handler ==> i == j
    ensures forall i :: 0 <= i < |routes| ==> (routes[i].verb == GET <==> !Mutates(routes[i].handler))
    ensures forall i :: 0 <= i < |routes| ==>
      |routes[i].path| >= 2 && routes[i].path[0] == Lit("api") && routes[i].path[1] == Lit("acronyms")
    ensures forall i :: 0 <= i < |routes| ==>
      (routes[i].tokenAuth <==> Mutates(routes[i].handler) && routes[i].handler != AddCategories)
  {
    var routes := [
      Route(GET, [Lit("api"), Lit("acronyms")], GetAll, false),
      Route(GET, [Lit("api"), Lit("acronyms"), AcronymParam], Get, false),
      Route(GET, [Lit("api"), Lit("acronyms"), AcronymParam, Lit("creator")], GetCreator, false),
      Route(GET, [Lit("api"), Lit("acronyms"), AcronymParam, Lit("categories")], GetCategories, false),
      Route(POST, [Lit("api"), Lit("acronyms"), AcronymParam, Lit("category"), CategoryParam], AddCategories, false),
      Route(GET, [Lit("api"), Lit("acronyms"), Lit("search")], Search, false),
      Route(POST, [Lit("api"), Lit("acronyms")], Create, true),
      Route(DELETE, [Lit("api"), Lit("acronyms"), AcronymParam], Delete, true),
      Route(PUT, [Lit("api"), Lit("acronyms"), AcronymParam], Update, true) ];
    forall i | 0 <= i < |routes| ensures Slot(routes[i].handler) == i {
    }
    forall h: Handler ensures Registered(routes, h) {
      assert routes[Slot(h)].handler == h;
    }
    routes
  }

  /** `getAllHandler`: the stored acronyms, all of them, in table order. */
  function GetAllHandler(t: Tables): (r: seq<Acronym>)
    ensures r == t.acronyms
  {
    t.acronyms
  }

  /** `getHandler`: the acronym the path parameter names, or 404. */
  function GetHandler(t: Tables, id: int): (r: Result<Acronym>)
    ensures r.Success? ==> r.value in t.acronyms && r.value.id == Some(id)
    ensures r.Failure? <==> forall a :: a in t.acronyms ==> a.id != Some(id)
    ensures r.Failure? ==> r.status == NotFound
  {
    match FindAcronym(t, id)
    case Some(a) => Success(a)
    case None => Failure(NotFound)
  }

  /** `getCreatorHandler`: the creator of the acronym the path parameter
      names; 404 when there is no such acronym or no such user. */
  function GetCreatorHandler(t: Tables, id: int): (r: Result<User>)
    ensures r.Success? ==> r.value in t.users
    ensures r.Success? ==> exists a :: a in t.acronyms && a.id == Some(id) && r.value.id == Some(a.creatorID)
    ensures (forall a :: a in t.acronyms ==> a.id != Some(id)) ==> r == Failure(NotFound)
    ensures r.Failure? ==> r.status == NotFound
  {
    match GetHandler(t, id)
    case Success(a) => Creator(t, a)
    case Failure(s) => Failure(s)
  }

  /** In keyed tables the creator handler on a stored acronym's id resolves
      that acronym's parent. */
  lemma GetCreatorOfStored(t: Tables, a: Acronym)
    requires Keyed(t) && a in t.acronyms
    ensures GetCreatorHandler(t, a.id.value) == Creator(t, a)
    ensures GetCreatorHandler(t, a.id.value).Success?
        <==> exists u :: u in t.users && u.id == Some(a.creatorID)
  {
    FindStoredAcronym(t, a);
  }

  /** `getCategoriesHandler`: the categories of the acronym the path
      parameter names, or 404. */
  function GetCategoriesHandler(t: Tables, id: int): (r: Result<seq<Category>>)
    ensures r.Failure? <==> forall a :: a in t.acronyms ==> a.id != Some(id)
    ensures r.Failure? ==> r.status == NotFound
    ensures r.Success? ==>
      forall c :: c in r.value <==> c in t.categories && c.id.Some? && Tagged(t.pivots, id, c.id.value)
    ensures r.Success? ==> r.value == CategoriesOf(t, id)
  {
    match GetHandler(t, id)
    case Success(a) => Success(CategoriesOf(t, id))
    case Failure(s) => Failure(s)
  }

  /** `searchHandler`: without a `term` query parameter, 400; otherwise
      the acronyms whose short or long form equals the term exactly. */
  function SearchHandler(t: Tables, term: Option<string>): (r: Result<seq<Acronym>>)
    ensures r.Failure? <==> term.None?
    ensures r.Failure? ==> r.status == BadRequest
    ensures r.Success? ==> |r.value| <= |t.acronyms|
    ensures r.Success? ==>
      forall a :: a in r.value <==> a in t.acronyms && (a.short == term.value || a.long == term.value)
  {
    match term
    case None => Failure(BadRequest)
    case Some(s) => Success(Filter(t.acronyms, (a: Acronym) => a.short == s || a.long == s))
  }

  /** A search returns each matching acronym exactly as often as it is
      stored, and nothing else. */
  lemma SearchCount(t: Tables, term: string, a: Acronym)
    ensures Count(SearchHandler(t, Some(term)).value, a) ==
      if a.short == term || a.long == term then Count(t.acronyms, a) else 0
  {
    FilterCount(t.acronyms, (a: Acronym) => a.short == term || a.long == term, a);
  }

  /** Search matches whole forms only: a term that is merely a word of
      an acronym's long form finds nothing. */
  lemma SearchIsExactMatch(creator: UUID)
    ensures
      var rofl := Acronym(Some(1), "ROFL", "Rolling on floor laughing", creator);
      var t := Tables([], [rofl], [], []);
      SearchHandler(t, Some("floor")) == Success([]) && SearchHandler(t, Some("ROFL")) == Success([rofl])
  {
    var rofl := Acronym(Some(1), "ROFL", "Rolling on floor laughing", creator);
    var t := Tables([], [rofl], [], []);
    assert |"floor"| != |rofl.short| && |"floor"| != |rofl.long|;
    assert [rofl][1..] == [];
    var found := SearchHandler(t, Some("floor")).value;
    assert rofl !in found;
    var exact := SearchHandler(t, Some("ROFL")).value;
    assert rofl in exact && |exact| <= 1;
    assert exact == [rofl] by {
      var i :| 0 <= i < |exact| && exact[i] == rofl;
      assert i == 0;
    }
  }

  /** `createHandler`: behind token auth. Saves a new acronym with the
      body's short and long forms, created by the authenticated user,
      under an id no stored acronym has; nothing else changes. */
  method CreateHandler(db: Store, auth: Option<UUID>, body: Option<AcronymCreateData>)
    returns (r: Result<Acronym>)
    requires db.Valid()
    modifies db
    ensures db.Valid()
    ensures auth.None? ==> r == Failure(Unauthorized)
    ensures auth.Some? && body.None? ==> r == Failure(BadRequest)
    ensures r.Success? <==> auth.Some? && body.Some?
    ensures r.Failure? ==> unchanged(db)
    ensures r.Success? ==> r.value.short == body.value.short && r.value.long == body.value.long
    ensures r.Success? ==> r.value.creatorID == auth.value
    ensures r.Success? ==> r.value.id.Some? && forall b :: b in old(db.acronyms) ==> b.id != r.value.id
    ensures r.Success? ==> db.acronyms == old(db.acronyms) + [r.value]
    ensures r.Success? ==> GetHandler(db.View(), r.value.id.value) == Success(r.value)
    ensures db.users == old(db.users) && db.categories == old(db.categories) && db.pivots == old(db.pivots)
  {
    if auth.None? {
      return Failure(Unauthorized);
    }
    if body.None? {
      return Failure(BadRequest);
    }
    var acronym := NewAcronym(body.value.short, body.value.long, auth.value);
    var saved := db.SaveAcronym(acronym);
    FindStoredAcronym(db.View(), saved);
    r := Success(saved);
  }

  /** `deleteHandler`: behind token auth. Deletes the acronym the path
      parameter names, whoever created it, and answers 204. Its pivot rows
      and every other row stay. */
  method DeleteHandler(db: Store, auth: Option<UUID>, id: int) returns (r: Result<Status>)
    requires db.Valid()
    modifies db
    ensures db.Valid()
    ensures auth.None? ==> r == Failure(Unauthorized)
    ensures auth.Some? ==> (r.Success? <==> GetHandler(old(db.View()), id).Success?)
    ensures auth.Some? && GetHandler(old(db.View()), id).Failure? ==> r == Failure(NotFound)
    ensures r.Failure? ==> unchanged(db)
    ensures r.Success? ==> r.value == NoContent
    ensures r.Success? ==> db.acronyms == RemoveKey(old(db.acronyms), AcronymKey, Some(id))
    ensures r.Success? ==> |db.acronyms| == |old(db.acronyms)| - 1
    ensures r.Success? ==> GetHandler(db.View(), id) == Failure(NotFound)
    ensures db.users == old(db.users) && db.categories == old(db.categories) && db.pivots == old(db.pivots)
  {
    if auth.None? {
      return Failure(Unauthorized);
    }
    var found := GetHandler(db.View(), id);
    if found.Failure? {
      return Failure(NotFound);
    }
    RemoveKeyLength(db.acronyms, AcronymKey, Some(id));
    db.DeleteAcronym(id);
    r := Success(NoContent);
  }

  /** `updateHandler`: behind token auth. Overwrites the short and long
      forms of the acronym the path parameter names with the body's and
      makes the authenticated user its creator, whoever created it; the id
      and every other row stay. */
  method UpdateHandler(db: Store, auth: Option<UUID>, id: int, body: Option<AcronymCreateData>)
    returns (r: Result<Acronym>)
    requires db.Valid()
    modifies db
    ensures db.Valid()
    ensures auth.None? ==> r == Failure(Unauthorized)
    ensures auth.Some? && GetHandler(old(db.View()), id).Failure? ==> r == Failure(NotFound)
    ensures auth.Some? && GetHandler(old(db.View()), id).Success? && body.None? ==> r == Failure(BadRequest)
    ensures r.Success? <==> auth.Some? && GetHandler(old(db.View()), id).Success? && body.Some?
    ensures r.Failure? ==> unchanged(db)
    ensures r.Success? ==>
      r.value == GetHandler(old(db.View()), id).value.(short := body.value.short,
                                                       long := body.value.long,
                                                       creatorID := auth.value)
    ensures r.Success? ==> db.acronyms == ReplaceKey(old(db.acronyms), AcronymKey, r.value)
    ensures r.Success? ==> GetHandler(db.View(), id) == Success(r.value)
    ensures r.Success? ==> r.value in AcronymsOfUser(db.View(), auth.value)
    ensures r.Success? ==> forall u :: u != auth.value ==> r.value !in AcronymsOfUser(db.View(), u)
    ensures db.users == old(db.users) && db.categories == old(db.categories) && db.pivots == old(db.pivots)
  {
    if auth.None? {
      return Failure(Unauthorized);
    }
    var found := GetHandler(db.View(), id);
    if found.Failure? {
      return Failure(NotFound);
    }
    if body.None? {
      return Failure(BadRequest);
    }
    var acronym := found.value.(short := body.value.short, long := body.value.long, creatorID := auth.value);
    ghost var i :| 0 <= i < |db.acronyms| && db.acronyms[i] == found.value;
    var saved := db.SaveAcronym(acronym);
    assert db.acronyms[i] == saved;
    FindStoredAcronym(db.View(), saved);
    r := Success(saved);
  }

  /** `addCategoriesHandler`: not behind token auth. Saves a new pivot row
      linking the acronym and the category the path parameters name, even
      when the pair is already linked, and answers 200. */
  method AddCategoriesHandler(db: Store, acronymID: int, categoryID: int) returns (r: Result<Status>)
    requires db.Valid()
    modifies db
    ensures db.Valid()
    ensures r.Success? <==> FindAcronym(old(db.View()), acronymID).Some? && FindCategory(old(db.View()), categoryID).Some?
    ensures r.Failure? ==> r.status == NotFound && unchanged(db)
    ensures r.Success? ==> r.value == OK
    ensures r.Success? ==>
      var n := |old(db.pivots)|;
      |db.pivots| == n + 1 && db.pivots[..n] == old(db.pivots) && Links(db.pivots[n], acronymID, categoryID)
      && db.pivots[n].id.Some? && forall q :: q in old(db.pivots) ==> q.id != db.pivots[n].id
    ensures r.Success? ==>
      LinkCount(db.pivots, acronymID, categoryID) == LinkCount(old(db.pivots), acronymID, categoryID) + 1
    ensures r.Success? ==>
      var c := FindCategory(old(db.View()), categoryID).value;
      Count(CategoriesOf(db.View(), acronymID), c) == Count(CategoriesOf(old(db.View()), acronymID), c) + 1
    ensures db.users == old(db.users) && db.acronyms == old(db.acronyms) && db.categories == old(db.categories)
  {
    var acronym := FindAcronym(db.View(), acronymID);
    var category := FindCategory(db.View(), categoryID);
    if acronym.None? || category.None? {
      return Failure(NotFound);
    }
    ghost var before := db.View();
    var pivot := db.SaveNewPivot(acronym.value.id.value, category.value.id.value);
    LinkCountAppend(before.pivots, pivot, acronymID, categoryID);
    CategoriesOfCount(before, acronymID, category.value);
    CategoriesOfCount(db.View(), acronymID, category.value);
    r := Success(OK);
  }

  /** Tagging is not idempotent: tagging the same pair twice leaves two
      more pivot rows for it, and the category listed twice more. */
  method TagTwice(db: Store, acronymID: int, categoryID: int) returns (first: Result<Status>, second: Result<Status>)
    requires db.Valid()
    modifies db
    ensures db.Valid()
    ensures first.Success? <==> second.Success?
    ensures first.Success? <==>
      FindAcronym(old(db.View()), acronymID).Some? && FindCategory(old(db.View()), categoryID).Some?
    ensures first.Failure? ==> first == second == Failure(NotFound) && unchanged(db)
    ensures first.Success? ==>
      var n := |old(db.pivots)|;
      |db.pivots| == n + 2 && db.pivots[..n] == old(db.pivots)
      && Links(db.pivots[n], acronymID, categoryID) && Links(db.pivots[n + 1], acronymID, categoryID)
      && db.pivots[n].id != db.pivots[n + 1].id
    ensures first.Success? ==>
      LinkCount(db.pivots, acronymID, categoryID) == LinkCount(old(db.pivots), acronymID, categoryID) + 2
    ensures first.Success? ==>
      var c := FindCategory(old(db.View()), categoryID).value;
      Count(CategoriesOf(db.View(), acronymID), c) == Count(CategoriesOf(old(db.View()), acronymID), c) + 2
    ensures db.users == old(db.users) && db.acronyms == old(db.acronyms) && db.categories == old(db.categories)
  {
    ghost var t0 := db.View();
    first := AddCategoriesHandler(db, acronymID, categoryID);
    ghost var t1 := db.View();
    second := AddCategoriesHandler(db, acronymID, categoryID);
    if first.Success? {
      assert FindAcronym(t1, acronymID) == FindAcronym(t0, acronymID);
      assert FindCategory(t1, categoryID) == FindCategory(t0, categoryID);
      AppendedTwice(t0.pivots, t1.pivots, db.pivots);
    }
  }

  /** Two single-row appends leave the first table as a prefix and the two
      new rows after it, with distinct ids when the second id is fresh. */
  lemma AppendedTwice(p0: seq<AcronymCategoryPivot>, p1: seq<AcronymCategoryPivot>, p2: seq<AcronymCategoryPivot>)
    requires |p1| == |p0| + 1 && p1[..|p0|] == p0
    requires |p2| == |p1| + 1 && p2[..|p1|] == p1
    requires forall q :: q in p1 ==> q.id != p2[|p1|].id
    ensures |p2| == |p0| + 2 && p2[..|p0|] == p0
    ensures p2[|p0|] == p1[|p0|] && p2[|p0| + 1] == p2[|p1|]
    ensures p2[|p0|].id != p2[|p0| + 1].id
  {
    assert p2[..|p0|] == p2[..|p1|][..|p0|];
    assert p1[|p0|] in p1;
  }
}
