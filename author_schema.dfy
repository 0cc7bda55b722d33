/**
 * The Author model: its schema (a required, unique `name` and a required
 * owner) and the pre("remove") hook that refuses to delete an author whose
 * books are still stored.
 */
module AuthorSchema {
  import opened Common
  import opened BookSchema

  /** A stored Author record. */
  datatype Author = Author(name: string, user: Id)

  /** The paths of an Author document before validation. */
  datatype AuthorFields = AuthorFields(name: Option<string>, user: Option<Id>)

  /** The document `findById` loads for a stored record. */
  function AuthorSnapshot(a: Author): AuthorFields
  {
    AuthorFields(Some(a.name), Some(a.user))
  }

  /** Mongoose validation: `name` set and non-empty, `user` set. */
  function ValidateAuthor(f: AuthorFields): (r: Result<Author>)
    ensures r.Ok? <==> Present(f.name) && f.user.Some?
    ensures r.Ok? ==> r.value.name != "" && AuthorSnapshot(r.value) == f
    ensures r.Err? ==> r.error == ValidationFailed
  {
    if Present(f.name) && f.user.Some? then Ok(Author(f.name.value, f.user.value))
    else Err(ValidationFailed)
  }

  /** Another record than `self` already holds `name` (the unique index on `name`). */
  predicate NameTaken(authors: map<Id, Author>, name: string, self: Option<Id>)
  {
    exists k :: k in authors && Some(k) != self && authors[k].name == name
  }

  /** What the schema guarantees of the Author collection. */
  ghost predicate AuthorsValid(authors: map<Id, Author>)
  {
    && (forall k :: k in authors ==> authors[k].name != "")
    && (forall j, k :: j in authors && k in authors && j != k ==> authors[j].name != authors[k].name)
  }

  /** `Book.find({ author: id })`: the books that reference an author. */
  function DependentBooks(books: map<Id, Book>, author: Id): (r: set<Id>)
    ensures r <= books.Keys
    ensures r == {} <==> forall k :: k in books ==> books[k].author != author
  {
    var r := set k | k in books && books[k].author == author;
    assert forall k :: k in books && books[k].author == author ==> k in r;
    r
  }

  /**
   * The pre("remove") hook: a failed lookup aborts the removal, any
   * dependent book refuses it, and otherwise the removal proceeds.
   */
  function PreRemove(books: map<Id, Book>, author: Id, lookupFailed: bool): (r: Outcome)
    ensures r.Pass? <==> !lookupFailed && forall k :: k in books ==> books[k].author != author
    ensures lookupFailed ==> r == Fail(StoreError)
    ensures !lookupFailed && (exists k :: k in books && books[k].author == author) ==> r == Fail(HasDependentBooks)
  {
    if lookupFailed then Fail(StoreError)
    else if |DependentBooks(books, author)| > 0 then Fail(HasDependentBooks)
    else
      assert forall k :: k in books ==> (books[k].author == author ==> k in DependentBooks(books, author));
      Pass
  }
}
