# Acronym glossary core (TIL app) in Dafny

This project models the relational core of a Vapor/Fluent web app that
stores acronyms. It covers four tables:

- users;
- acronyms, each carrying a `creatorID` that points at a user;
- categories;
- acronym–category pivot rows.

It also models the JSON handlers of `AcronymsController` that read and
change those tables, the relationships between the records, and the values
the website controller passes to its templates.

- `wrappers.dfy`: `Option`; `Result`, whose failure is an HTTP status
  (400, 401 or 404).
- `seqs.dfy`: table helpers. These are the filter a query runs, lookup
  by primary key, `DELETE`/`UPDATE ... WHERE id = k`, and the
  repetition an inner join produces.
- `models.dfy`: the four records (`User`, `Acronym`, `Category`,
  `AcronymCategoryPivot`) and their initialisers. Every record starts
  with no id.
- `database.dfy`: `Tables`, a snapshot of the four tables, and `Store`.
  `Store` is a class standing in for Fluent over MySQL. Its `save` gives a
  new row an id no other row of the table has, or replaces the row with
  the same id. Its `delete` removes a row by id.
- `relationships.dfy`: the links between records.
  - Parent: `creator` of an acronym.
  - Children: `acronyms` of a user.
  - Siblings: `categroies` of an acronym (the source spells it this way)
    and `acronyms` of a category.
  - Also the lemmas that the parent/children link is dual and that the
    sibling link is symmetric.
- `acronyms_controller.dfy`: the route table of `boot`. The read handlers
  are functions of a `Tables` snapshot. The create, update, delete and tag
  handlers are methods that change a `Store`.
- `website_controller.dfy`: the `IndexContent` and `AcronymDetail`
  contexts.

Behaviour the model keeps from the source:

- An update makes the editor the acronym's creator.
- Delete checks no ownership and leaves the acronym's pivot rows behind.
- Search compares `short` and `long` with the term for equality, not
  substring containment.
- Tagging needs no token. It always inserts a new pivot row, so tagging
  a pair twice gives two rows, and the category then appears twice among
  the acronym's categories. The join is an inner join, so a category
  appears once per pivot row.
- No migration declares a foreign key or a unique column, so none is
  checked.
  - Nothing enforces a unique `userName` or that `creatorID` names a
    stored user; a create stores the authenticated user's id as given.
  - Deleting rows never cascades; an acronym whose creator's row is gone
    stays stored, and resolving its creator fails.
- `Acronym.creatorID` is declared `let` (Sources/App/Models/Acronym.swift:8),
  yet `updateHandler` assigns it
  (Sources/App/Controllers/AcronymController.swift:52). The model treats
  it as an updatable field, as the handler intends.
- `deleteHandler` never reads the authenticated user. The model assumes
  that its place in the token-auth route group protects it (see
  `DeleteHandler` under "Left out").

## Model

| member | source | states |
|---|---|---|
| `Users.NewUser` | Sources/App/Models/User.swift:14-17 | a new user has the given name and userName and no id yet |
| `Acronyms.NewAcronym` | Sources/App/Models/Acronym.swift:10-14 | a new acronym has the given short, long and creatorID and no id until saved |
| `Categories.NewCategory` | Sources/App/Models/Category.swift:8-10 | a new category has the given name and no id yet |
| `Pivots.NewPivot` | Sources/App/Models/AcronymCategoryPivot.swift:16-19 | a new pivot row has the given acronymID and categoryID and no id yet |
| `Database.Store.SaveAcronym` | Sources/App/Models/Acronym.swift:4-8 | saving an acronym without an id appends it under an Int id no stored acronym has; saving one with an id replaces that row; the other tables are untouched and the tables stay keyed |
| `Database.Store.DeleteAcronym` | Sources/App/Controllers/AcronymController.swift:42 | deletion keeps exactly the acronyms whose id differs and keeps the ids distinct |
| `Database.Store.SaveNewPivot` | Sources/App/Models/AcronymCategoryPivot.swift:12-19 | a saved pivot row keeps its two keys and gets a UUID no other pivot row has; it is appended |
| `Database.Store.SaveNewUser` | Sources/App/Models/User.swift:9-18 | a saved user keeps its names and gets a UUID no other user has |
| `Database.Store.SaveNewCategory` | Sources/App/Models/Category.swift:4-10 | a saved category keeps its name (no uniqueness) and gets an Int id no other category has |
| `Relationships.Creator` | Sources/App/Models/Acronym.swift:18-20 | the creator is a stored user whose id is the acronym's creatorID; it fails with 404 exactly when no stored user has that id |
| `Relationships.CreatorOfOrphanFails` | Sources/App/Models/Acronym.swift:18-20 | after a creator's row is removed, their acronyms remain and resolving the creator fails |
| `Relationships.AcronymsOfUser` | Sources/App/Models/User.swift:22-24 | a user's acronyms are exactly the stored acronyms whose creatorID is the user's id |
| `Relationships.AcronymsOfUserCount` | Sources/App/Models/User.swift:22-24 | each acronym appears among a user's acronyms exactly as often as it is stored when its creatorID is the user's id, and never otherwise, so a child is listed once per stored row |
| `Relationships.ParentChildrenDual` | Sources/App/Models/User.swift:22-24 | an acronym is among a stored user's acronyms exactly when it is stored and its creator resolves to that user |
| `Relationships.LinkCount` | Sources/App/Models/AcronymCategoryPivot.swift:12-14 | the number of pivot rows for a pair is positive exactly when some row links the pair |
| `Relationships.LinkCountAppend` | Sources/App/Models/AcronymCategoryPivot.swift:12-19 | an appended pivot row raises its own pair's count by one, even when the pair is already linked, and leaves other pairs alone |
| `Relationships.CategoriesOf` | Sources/App/Models/Acronym.swift:22-24 | an acronym's categories are exactly the stored categories that some pivot row links to it through the left key acronymID and the right key categoryID |
| `Relationships.CategoriesOfCount` | Sources/App/Models/AcronymCategoryPivot.swift:6-10 | a stored category appears among an acronym's categories once per pivot row linking the two |
| `Relationships.AcronymsOfCategory` | Sources/App/Models/Category.swift:14-16 | a category's acronyms are exactly the stored acronyms that some pivot row links to it |
| `Relationships.AcronymsOfCategoryCount` | Sources/App/Models/Category.swift:14-16 | a stored acronym appears among a category's acronyms once per pivot row linking the two |
| `Relationships.SiblingsSymmetric` | Sources/App/Models/Category.swift:14-16 | a category is among an acronym's categories exactly when the acronym is among the category's acronyms, and equally often |
| `AcronymsController.Boot` | Sources/App/Controllers/AcronymController.swift:5-18 | every handler has exactly one route, all under /api/acronyms; the reads are GETs and the mutations are not; a route is in the token-auth group exactly when its handler is create, delete or update, so tagging and the reads are registered ungated |
| `AcronymsController.GetAllHandler` | Sources/App/Controllers/AcronymController.swift:21-23 | the result is every stored acronym, in table order |
| `AcronymsController.GetHandler` | Sources/App/Controllers/AcronymController.swift:25-27 | the result is a stored acronym with the requested id; it fails with 404 exactly when there is none |
| `AcronymsController.GetCreatorHandler` | Sources/App/Controllers/AcronymController.swift:57-61 | the result is a stored user whose id is the creatorID of a stored acronym with the requested id; a missing acronym gives 404 |
| `AcronymsController.GetCreatorOfStored` | Sources/App/Controllers/AcronymController.swift:57-61 | for a stored acronym the handler resolves its creator, and succeeds exactly when a stored user has its creatorID |
| `AcronymsController.GetCategoriesHandler` | Sources/App/Controllers/AcronymController.swift:63-67 | fails with 404 exactly when no acronym has the id; otherwise yields exactly the categories that pivot rows link to that id, each once per linking row (the sibling join) |
| `AcronymsController.SearchHandler` | Sources/App/Controllers/AcronymController.swift:80-88 | without a term it fails with 400; otherwise the result is exactly the stored acronyms whose short or long equals the term |
| `AcronymsController.SearchCount` | Sources/App/Controllers/AcronymController.swift:84-87 | each acronym appears in a search result exactly as often as it is stored when its short or long form equals the term, and never otherwise |
| `AcronymsController.SearchIsExactMatch` | Sources/App/Controllers/AcronymController.swift:84-87 | in a table holding only the ROFL acronym, the term "floor" (a word of its long form) finds nothing, while the term "ROFL" finds exactly that row |
| `AcronymsController.CreateHandler` | Sources/App/Controllers/AcronymController.swift:29-38 | 401 without a user and 400 without a body, both with the store unchanged; otherwise exactly one acronym is appended, with the body's forms, the user as creator and an unused id, and a get of that id returns it |
| `AcronymsController.DeleteHandler` | Sources/App/Controllers/AcronymController.swift:40-44 | 401 without a user and 404 for a missing acronym, both with the store unchanged; with a user it succeeds (204) exactly when the acronym exists, whoever created it, and removes that one row only, leaving its pivot rows |
| `AcronymsController.UpdateHandler` | Sources/App/Controllers/AcronymController.swift:46-55 | succeeds exactly with a user, an existing acronym and a body; otherwise 401, 404 or 400 in that order with the store unchanged; on success short and long come from the body, the creator becomes the editor (and no other user), the id is kept and only that row changes |
| `AcronymsController.AddCategoriesHandler` | Sources/App/Controllers/AcronymController.swift:69-78 | needs no user; 404 unless both the acronym and the category exist, with the store unchanged; otherwise appends exactly one pivot row after the unchanged old rows, linking the pair and with an id no earlier row has, so the pair's count and the category's multiplicity among the acronym's categories rise by one; the other tables are untouched |
| `AcronymsController.TagTwice` | Sources/App/Controllers/AcronymController.swift:69-78 | tagging the same pair twice either fails both times with 404 and changes nothing, or appends exactly two pivot rows after the unchanged old ones, both linking the pair and with different ids, so the pair's count and the category's multiplicity rise by two; the other tables are untouched and the store stays valid |
| `WebsiteController.IndexContext` | Sources/App/Controllers/WebsiteController.swift:10-15 | the title is "Homepage"; the acronyms are nil exactly when none is stored and are otherwise every stored acronym, never an empty list |
| `WebsiteController.AcronymContext` | Sources/App/Controllers/WebsiteController.swift:17-24 | the title is the acronym's short form, the acronym is the stored one with the id, and the creator is the stored user with its creatorID, the same user its parent relationship resolves to; it succeeds exactly when the acronym is found and its creator resolves, and fails with 404 otherwise |
| `WebsiteController.AcronymContextDefined` | Sources/App/Controllers/WebsiteController.swift:17-24 | the page can be built exactly when a stored acronym has the id and a stored user has its creatorID |

## Left out

- `GetAllHandler`: `query(on:).all()` and the other queries carry no
  `ORDER BY`, so the source promises no order; the model returns rows in
  table order, which is ascending id order.
- Template rendering (`req.leaf().render`): only the context values are modelled.
- Futures and event loops: each handler is one sequential step.
- Concurrent requests: the model has no interleaving, so the
  last-writer-wins behaviour of concurrent updates is not modelled.
- SQL, connections, migrations and the MySQL driver: an in-memory store
  with id counters replaces them.
  - Acronym and category ids count up as AUTO_INCREMENT does.
  - UUIDs come from a running number instead of random bits.
- JSON decoding of `AcronymCreateData`: the decoded body is an input, with
  `None` for a body that does not decode (400).
- Path-parameter parsing: a parameter is an id that either resolves or
  fails with 404. A parameter that is not an integer is not modelled.
- The token middleware (`User.tokenAuthMiddleware()`) and the Token
  entity: their code is not part of this model. The authenticated user is
  an `Option` of a user id.
- Sessions, passwords and login: no such code is in the modelled files.
- `Package.swift`: a build manifest.
- `Relationships.Creator`: Fluent's parent lookup raises an error of its
  own when the creator's row is missing; the model reports it as 404.
- `SearchHandler`: the source's `==` filters become MySQL `=` comparisons
  under the column's collation, which by default ignores case; the model
  compares strings exactly, case included.
- `CreateHandler`: the model assumes the token middleware rejects a
  request without an authenticated user (401) before the handler runs;
  the handler itself decodes the body before it reads the user.
- `UpdateHandler`: the model assumes the token middleware rejects a
  request without an authenticated user (401) before the handler runs;
  the handler itself resolves the acronym and decodes the body first, and
  when both fail the model reports the 404.
- `DeleteHandler`: the model assumes the token middleware rejects a
  request without an authenticated user (401) before the handler runs;
  the handler itself never reads the user.
