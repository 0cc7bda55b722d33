/**
 * The /authors routes: the name filter, the detail view with its books, and
 * the bodies of create, edit, rename and delete.
 */
module AuthorsRoutes {
  import opened Common
  import opened Seqs
  import opened Text
  import opened BookSchema
  import opened AuthorSchema
  import opened Ownership
  import opened Store

  /** The `name` condition of an author search, if any. */
  predicate NameMatches(pattern: Option<string>, a: Author)
  {
    pattern.Some? ==> MatchesIgnoringCase(a.name, pattern.value)
  }

  /** The search options of GET /authors: a name pattern only for a non-empty parameter. */
  method BuildSearchOptions(name: Option<string>) returns (pattern: Option<string>)
    ensures forall a :: NameMatches(pattern, a) <==> (Present(name) ==> MatchesIgnoringCase(a.name, name.value))
  {
    pattern := None;
    if name.Some? && name.value != "" {
      pattern := name;
    }
  }

  /** The authors a search selects, in the store's natural order. */
  function MatchingAuthors(order: seq<Id>, authors: map<Id, Author>, pattern: Option<string>): (r: seq<Id>)
    ensures forall k :: k in r <==> k in order && k in authors && NameMatches(pattern, authors[k])
    ensures Distinct(order) ==> Distinct(r)
  {
    Filter(order, k => k in authors && NameMatches(pattern, authors[k]))
  }

  /** GET /authors: every author for an empty search, else those whose name matches. */
  method ListAuthors(c: Catalog, name: Option<string>) returns (ids: seq<Id>)
    requires c.Valid()
    ensures Distinct(ids)
    ensures !Present(name) ==> forall k :: k in ids <==> k in c.authors
    ensures Present(name) ==> forall k :: k in ids <==> k in c.authors && MatchesIgnoringCase(c.authors[k].name, name.value)
  {
    var pattern := BuildSearchOptions(name);
    ids := MatchingAuthors(c.authorOrder, c.authors, pattern);
  }

  /** POST /authors. The route has no login guard: the owner is whoever is logged in, if anyone. */
  method CreateAuthor(c: Catalog, caller: Option<Id>, name: Option<string>) returns (r: Result<Id>)
    requires c.Valid()
    modifies c
    ensures c.Valid()
    ensures c.books == old(c.books) && c.bookOrder == old(c.bookOrder)
    ensures r.Ok? <==> Present(name) && caller.Some? && !NameTaken(old(c.authors), name.value, None)
    ensures caller.None? || !Present(name) ==> r == Err(ValidationFailed)
    ensures Present(name) && caller.Some? && NameTaken(old(c.authors), name.value, None) ==> r == Err(DuplicateName)
    ensures r.Err? ==> c.authors == old(c.authors) && c.authorOrder == old(c.authorOrder)
    ensures r.Ok? ==> r.value !in old(c.authors) && c.authorOrder == old(c.authorOrder) + [r.value]
    ensures r.Ok? ==> c.authors == old(c.authors)[r.value := Author(name.value, caller.value)]
  {
    r := c.InsertAuthor(AuthorFields(name, caller));
  }

  /** What the detail page shows: the author and some of its books. */
  datatype AuthorPage = AuthorPage(author: Author, booksByAuthor: seq<Id>)

  /** The detail page lists at most this many books. */
  const BOOKS_SHOWN: nat := 5

  /** `Book.find({ author: id })`, in the store's natural order. */
  function BooksOf(order: seq<Id>, books: map<Id, Book>, author: Id): (r: seq<Id>)
    ensures forall k :: k in r <==> k in order && k in books && books[k].author == author
    ensures Distinct(order) ==> Distinct(r)
  {
    Filter(order, k => k in books && books[k].author == author)
  }

  /** When the order lists every book once, the query finds every dependent book once. */
  lemma BooksOfCount(order: seq<Id>, books: map<Id, Book>, author: Id)
    requires Distinct(order)
    requires forall k :: k in order <==> k in books
    ensures |BooksOf(order, books, author)| == |DependentBooks(books, author)|
  {
    var all := BooksOf(order, books, author);
    DistinctCard(all);
    var shown := set k: Id | k in all;
    assert |shown| == |all|;
    assert shown == DependentBooks(books, author) by {
      forall k | k in DependentBooks(books, author) ensures k in shown {
        assert k in order;
      }
    }
  }

  /**
   * GET /authors/:id: the author and the first five of its books; all of
   * them when it has five or fewer.
   */
  method ShowAuthor(c: Catalog, id: Id) returns (r: Result<AuthorPage>)
    requires c.Valid()
    ensures r.Ok? <==> id in c.authors
    ensures r.Err? ==> r.error == NotFound
    ensures r.Ok? ==>
      var shown := r.value.booksByAuthor;
      && r.value.author == c.authors[id]
      && Distinct(shown)
      && (forall k :: k in shown ==> k in c.books && c.books[k].author == id)
      && |shown| == (if |DependentBooks(c.books, id)| < BOOKS_SHOWN then |DependentBooks(c.books, id)| else BOOKS_SHOWN)
      && (|DependentBooks(c.books, id)| <= BOOKS_SHOWN ==> forall k :: k in DependentBooks(c.books, id) ==> k in shown)
  {
    if id !in c.authors {
      return Err(NotFound);
    }
    var all := BooksOf(c.bookOrder, c.books, id);
    BooksOfCount(c.bookOrder, c.books, id);
    var shown := if |all| < BOOKS_SHOWN then all else all[..BOOKS_SHOWN];
    assert Distinct(shown);
    r := Ok(AuthorPage(c.authors[id], shown));
  }

  /** The record `findById` returns, if any, and its owner. */
  function AuthorOwner(authors: map<Id, Author>, id: Id): Option<Id>
  {
    if id in authors then Some(authors[id].user) else None
  }

  /** GET /authors/:id/edit: the record, for its owner only. */
  method EditAuthor(c: Catalog, id: Id, caller: Option<Id>) returns (r: Result<Author>)
    requires c.Valid()
    ensures r.Ok? <==> caller.Some? && id in c.authors && c.authors[id].user == caller.value
    ensures r.Ok? ==> r.value == c.authors[id]
    ensures r.Err? ==> r.error == Authorize(AuthorOwner(c.authors, id), caller).error
  {
    var access := Authorize(AuthorOwner(c.authors, id), caller);
    if access.Fail? {
      return Err(access.error);
    }
    r := Ok(c.authors[id]);
  }

  /** PUT /authors/:id: only the name changes; the id and the owner stay. */
  method RenameAuthor(c: Catalog, id: Id, caller: Option<Id>, name: Option<string>) returns (r: Outcome)
    requires c.Valid()
    modifies c
    ensures c.Valid()
    ensures c.books == old(c.books) && c.bookOrder == old(c.bookOrder) && c.authorOrder == old(c.authorOrder)
    ensures Authorize(AuthorOwner(old(c.authors), id), caller).Fail? ==> r == Authorize(AuthorOwner(old(c.authors), id), caller)
    ensures r.Pass? <==> caller.Some? && id in old(c.authors) && old(c.authors)[id].user == caller.value
                         && Present(name) && !NameTaken(old(c.authors), name.value, Some(id))
    ensures r.Fail? ==> c.authors == old(c.authors)
    ensures Authorize(AuthorOwner(old(c.authors), id), caller).Pass? && r.Fail? ==>
      r.error == if Present(name) then DuplicateName else ValidationFailed
    ensures r.Pass? ==> c.authors == old(c.authors)[id := Author(name.value, old(c.authors)[id].user)]
  {
    var access := Authorize(AuthorOwner(c.authors, id), caller);
    if access.Fail? {
      return access;
    }
    var author := AuthorSnapshot(c.authors[id]);
    author := author.(name := name);
    r := c.ReplaceAuthor(id, author);
  }

  /**
   * DELETE /authors/:id. `lookupFailed` stands for the hook's `Book.find`
   * reporting an error.
   */
  method DeleteAuthor(c: Catalog, id: Id, caller: Option<Id>, lookupFailed: bool) returns (r: Outcome)
    requires c.Valid()
    modifies c
    ensures c.Valid()
    ensures c.books == old(c.books) && c.bookOrder == old(c.bookOrder)
    ensures Authorize(AuthorOwner(old(c.authors), id), caller).Fail? ==> r == Authorize(AuthorOwner(old(c.authors), id), caller)
    ensures r.Pass? <==> caller.Some? && id in old(c.authors) && old(c.authors)[id].user == caller.value
                         && !lookupFailed && DependentBooks(c.books, id) == {}
    ensures (Authorize(AuthorOwner(old(c.authors), id), caller).Pass? && !lookupFailed && DependentBooks(c.books, id) != {})
              ==> r == Fail(HasDependentBooks) && id in c.authors
    ensures Authorize(AuthorOwner(old(c.authors), id), caller).Pass? && lookupFailed ==> r == Fail(StoreError)
    ensures r.Fail? ==> c.authors == old(c.authors) && c.authorOrder == old(c.authorOrder)
    ensures r.Pass? ==> c.authors == old(c.authors) - {id} && c.authorOrder == Without(old(c.authorOrder), id)
    ensures r.Pass? ==> forall k :: k in c.books ==> c.books[k].author != id
    ensures ReferencesResolve(old(c.authors), c.books) ==> ReferencesResolve(c.authors, c.books)
  {
    var access := Authorize(AuthorOwner(c.authors, id), caller);
    if access.Fail? {
      return access;
    }
    r := c.RemoveAuthor(id, lookupFailed);
  }
}
