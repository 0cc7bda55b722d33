/**
 * The document store behind both models: the Author and Book collections,
 * their natural (insertion) order, and what `save` and `remove` do to them,
 * including the unique indexes and the Author pre("remove") hook.
 */
module Store {
  import opened Common
  import opened Seqs
  import opened BookSchema
  import opened AuthorSchema

  /** `book.save()` of a document whose record id is `self` (None for a new one). */
  function CheckBook(books: map<Id, Book>, f: BookFields, self: Option<Id>): (r: Result<Book>)
    ensures r.Ok? <==> HasRequired(f) && !TitleTaken(books, f.title.value, self)
    ensures r.Ok? ==> WellFormed(r.value) && Snapshot(r.value) == f
    ensures r.Err? ==> r.error == if HasRequired(f) then DuplicateTitle else ValidationFailed
  {
    match Validate(f)
    case Err(e) => Err(e)
    case Ok(b) => if TitleTaken(books, b.title, self) then Err(DuplicateTitle) else Ok(b)
  }

  /** `author.save()` of a document whose record id is `self` (None for a new one). */
  function CheckAuthor(authors: map<Id, Author>, f: AuthorFields, self: Option<Id>): (r: Result<Author>)
    ensures r.Ok? <==> Present(f.name) && f.user.Some? && !NameTaken(authors, f.name.value, self)
    ensures r.Ok? ==> r.value.name != "" && AuthorSnapshot(r.value) == f
    ensures r.Err? ==> r.error == if Present(f.name) && f.user.Some? then DuplicateName else ValidationFailed
  {
    match ValidateAuthor(f)
    case Err(e) => Err(e)
    case Ok(a) => if NameTaken(authors, a.name, self) then Err(DuplicateName) else Ok(a)
  }

  /** Every book refers to a stored author. */
  ghost predicate ReferencesResolve(authors: map<Id, Author>, books: map<Id, Book>)
  {
    forall k :: k in books ==> books[k].author in authors
  }

  class Catalog {
    var authors: map<Id, Author>
    var books: map<Id, Book>
    /** The order in which a query returns records: the order they were inserted. */
    var authorOrder: seq<Id>
    var bookOrder: seq<Id>
    /** The next ObjectId to hand out; every stored id is smaller. */
    var nextId: Id

    ghost predicate Valid()
      reads this
    {
      && AuthorsValid(authors)
      && BooksValid(books)
      && (forall k :: k in authorOrder <==> k in authors)
      && (forall k :: k in bookOrder <==> k in books)
      && Distinct(authorOrder)
      && Distinct(bookOrder)
      && (forall k :: k in authors ==> k < nextId)
      && (forall k :: k in books ==> k < nextId)
    }

    constructor ()
      ensures Valid() && authors == map[] && books == map[]
    {
      authors, books := map[], map[];
      authorOrder, bookOrder := [], [];
      nextId := 0;
    }

    /** `save` of a new Book document. */
    method InsertBook(f: BookFields) returns (r: Result<Id>)
      requires Valid()
      modifies this
      ensures Valid()
      ensures authors == old(authors) && authorOrder == old(authorOrder)
      ensures r.Ok? <==> CheckBook(old(books), f, None).Ok?
      ensures r.Err? ==> r.error == CheckBook(old(books), f, None).error
      ensures r.Err? ==> books == old(books) && bookOrder == old(bookOrder)
      ensures r.Ok? ==> r.value !in old(books) && bookOrder == old(bookOrder) + [r.value]
      ensures r.Ok? ==> books == old(books)[r.value := CheckBook(old(books), f, None).value]
    {
      var checked := CheckBook(books, f, None);
      if checked.Err? {
        return Err(checked.error);
      }
      var id := nextId;
      assert id !in bookOrder;
      books := books[id := checked.value];
      bookOrder := bookOrder + [id];
      nextId := nextId + 1;
      r := Ok(id);
    }

    /** `save` of a Book document loaded from record `id`. */
    method ReplaceBook(id: Id, f: BookFields) returns (r: Outcome)
      requires Valid() && id in books
      modifies this
      ensures Valid()
      ensures authors == old(authors) && authorOrder == old(authorOrder) && bookOrder == old(bookOrder)
      ensures r.Pass? <==> CheckBook(old(books), f, Some(id)).Ok?
      ensures r.Fail? ==> r.error == CheckBook(old(books), f, Some(id)).error && books == old(books)
      ensures r.Pass? ==> books == old(books)[id := CheckBook(old(books), f, Some(id)).value]
    {
      var checked := CheckBook(books, f, Some(id));
      if checked.Err? {
        return Fail(checked.error);
      }
      StoreKeepsBooksValid(books, id, checked.value);
      books := books[id := checked.value];
      r := Pass;
    }

    /** `remove` of Book record `id`; the Book model has no hook. */
    method RemoveBook(id: Id)
      requires Valid() && id in books
      modifies this
      ensures Valid()
      ensures authors == old(authors) && authorOrder == old(authorOrder)
      ensures books == old(books) - {id} && bookOrder == Without(old(bookOrder), id)
    {
      books := books - {id};
      bookOrder := Without(bookOrder, id);
    }

    /** `save` of a new Author document. */
    method InsertAuthor(f: AuthorFields) returns (r: Result<Id>)
      requires Valid()
      modifies this
      ensures Valid()
      ensures books == old(books) && bookOrder == old(bookOrder)
      ensures r.Ok? <==> CheckAuthor(old(authors), f, None).Ok?
      ensures r.Err? ==> r.error == CheckAuthor(old(authors), f, None).error
      ensures r.Err? ==> authors == old(authors) && authorOrder == old(authorOrder)
      ensures r.Ok? ==> r.value !in old(authors) && authorOrder == old(authorOrder) + [r.value]
      ensures r.Ok? ==> authors == old(authors)[r.value := CheckAuthor(old(authors), f, None).value]
    {
      var checked := CheckAuthor(authors, f, None);
      if checked.Err? {
        return Err(checked.error);
      }
      var id := nextId;
      assert id !in authorOrder;
      authors := authors[id := checked.value];
      authorOrder := authorOrder + [id];
      nextId := nextId + 1;
      r := Ok(id);
    }

    /** `save` of an Author document loaded from record `id`. */
    method ReplaceAuthor(id: Id, f: AuthorFields) returns (r: Outcome)
      requires Valid() && id in authors
      modifies this
      ensures Valid()
      ensures books == old(books) && bookOrder == old(bookOrder) && authorOrder == old(authorOrder)
      ensures r.Pass? <==> CheckAuthor(old(authors), f, Some(id)).Ok?
      ensures r.Fail? ==> r.error == CheckAuthor(old(authors), f, Some(id)).error && authors == old(authors)
      ensures r.Pass? ==> authors == old(authors)[id := CheckAuthor(old(authors), f, Some(id)).value]
    {
      var checked := CheckAuthor(authors, f, Some(id));
      if checked.Err? {
        return Fail(checked.error);
      }
      authors := authors[id := checked.value];
      r := Pass;
    }

    /**
     * `remove` of Author record `id`: the pre("remove") hook runs first and
     * the record goes only if the hook lets it. `lookupFailed` stands for the
     * hook's `Book.find` reporting an error.
     */
    method RemoveAuthor(id: Id, lookupFailed: bool) returns (r: Outcome)
      requires Valid() && id in authors
      modifies this
      ensures Valid()
      ensures books == old(books) && bookOrder == old(bookOrder)
      ensures r == PreRemove(books, id, lookupFailed)
      ensures r.Pass? ==> authors == old(authors) - {id} && authorOrder == Without(old(authorOrder), id)
      ensures r.Fail? ==> authors == old(authors) && authorOrder == old(authorOrder)
      ensures ReferencesResolve(old(authors), books) ==> ReferencesResolve(authors, books)
    {
      r := PreRemove(books, id, lookupFailed);
      if r.Pass? {
        authors := authors - {id};
        authorOrder := Without(authorOrder, id);
      }
    }
  }
}
