/** Sources/App/Controllers/WebsiteController.swift: the values handed to
    the template renderer for the home page and an acronym's page. The
    rendering itself is not part of this model. */
module WebsiteController {
  import opened Wrappers
  import opened Users
  import opened Acronyms
  import opened Database
  import opened Relationships

  datatype IndexContent = IndexContent(title: string, acronyms: Option<seq<Acronym>>)

  datatype AcronymDetail = AcronymDetail(title: string, acronym: Acronym, creator: User)

  /** `indexHandler`'s context: the title "Homepage" and every stored
      acronym, with an empty table given as nil rather than as an empty list. */
  function IndexContext(t: Tables): (c: IndexContent)
    ensures c.title == "Homepage"
    ensures c.acronyms.None? <==> t.acronyms == []
    ensures c.acronyms.Some? ==> c.acronyms.value == t.acronyms
    ensures c.acronyms != Some([])
  {
    var acronyms := t.acronyms;
    IndexContent("Homepage", if |acronyms| == 0 then None else Some(acronyms))
  }

  /** `acronymHandler`'s context: the acronym the path parameter names,
      titled with its short form, and its creator; 404 when either is missing. */
  function AcronymContext(t: Tables, id: int): (r: Result<AcronymDetail>)
    ensures r.Success? ==> r.value.acronym in t.acronyms && r.value.acronym.id == Some(id)
    ensures r.Success? ==> r.value.title == r.value.acronym.short
    ensures r.Success? ==> r.value.creator in t.users && r.value.creator.id == Some(r.value.acronym.creatorID)
    ensures r.Failure? ==> r.status == NotFound
    ensures r.Success? <==> FindAcronym(t, id).Some? && Creator(t, FindAcronym(t, id).value).Success?
    ensures r.Success? ==> Success(r.value.creator) == Creator(t, r.value.acronym)
  {
    match FindAcronym(t, id)
    case None => Failure(NotFound)
    case Some(a) =>
      match Creator(t, a)
      case Failure(s) => Failure(s)
      case Success(u) => Success(AcronymDetail(a.short, a, u))
  }

  /** In keyed tables an acronym's page can be built exactly when the
      acronym is stored and a stored user has its `creatorID`. */
  lemma AcronymContextDefined(t: Tables, id: int)
    requires Keyed(t)
    ensures AcronymContext(t, id).Success?
        <==> exists a, u :: a in t.acronyms && a.id == Some(id) && u in t.users && u.id == Some(a.creatorID)
  {
    match FindAcronym(t, id)
    case None =>
    case Some(a) =>
      forall b, u | b in t.acronyms && b.id == Some(id) && u in t.users && u.id == Some(b.creatorID)
        ensures AcronymContext(t, id).Success?
      {
        FindStoredAcronym(t, b);
      }
  }
}
