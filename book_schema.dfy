/**
 * The Book model: its schema (required and unique paths, the `createdAt`
 * default), the document object a route fills in before `save`, and the
 * `coverImagePath` virtual.
 */
module BookSchema {
  import opened Common
  import opened Text
  import opened Base64

  /** A stored Book record; every required path holds a value. */
  datatype Book = Book(
    title: string,
    description: Option<string>,
    publishDate: int,
    pageCount: int,
    createdAt: int,
    coverImage: seq<byte>,
    coverImageType: string,
    author: Id,
    user: Id)

  /** The paths of a Book document before validation; any of them may be unset. */
  datatype BookFields = BookFields(
    title: Option<string>,
    description: Option<string>,
    publishDate: Option<int>,
    pageCount: Option<int>,
    createdAt: int,
    coverImage: Option<seq<byte>>,
    coverImageType: Option<string>,
    author: Option<Id>,
    user: Option<Id>)

  /** A decoded cover: its declared MIME type and its bytes. */
  datatype Cover = Cover(mime: string, image: seq<byte>)

  /**
   * Every path the schema marks `required` is set; a String must also be
   * non-empty and a Buffer must hold at least one byte. `description` is optional.
   */
  predicate HasRequired(f: BookFields)
  {
    && Present(f.title)
    && f.publishDate.Some?
    && f.pageCount.Some?
    && f.coverImage.Some? && f.coverImage.value != []
    && Present(f.coverImageType)
    && f.author.Some?
    && f.user.Some?
  }

  ghost predicate WellFormed(b: Book)
  {
    b.title != "" && b.coverImage != [] && b.coverImageType != ""
  }

  /** The document `findById` loads for a stored record. */
  function Snapshot(b: Book): BookFields
  {
    BookFields(Some(b.title), b.description, Some(b.publishDate), Some(b.pageCount), b.createdAt,
               Some(b.coverImage), Some(b.coverImageType), Some(b.author), Some(b.user))
  }

  /** Mongoose validation: the record to store, or ValidationFailed. */
  function Validate(f: BookFields): (r: Result<Book>)
    ensures r.Ok? <==> HasRequired(f)
    ensures r.Ok? ==> WellFormed(r.value) && Snapshot(r.value) == f
    ensures r.Err? ==> r.error == ValidationFailed
  {
    if HasRequired(f) then
      Ok(Book(f.title.value, f.description, f.publishDate.value, f.pageCount.value, f.createdAt,
              f.coverImage.value, f.coverImageType.value, f.author.value, f.user.value))
    else Err(ValidationFailed)
  }

  /** Another record than `self` already holds `title` (the unique index on `title`). */
  predicate TitleTaken(books: map<Id, Book>, title: string, self: Option<Id>)
  {
    exists k :: k in books && Some(k) != self && books[k].title == title
  }

  /** What the schema guarantees of the Book collection. */
  ghost predicate BooksValid(books: map<Id, Book>)
  {
    && (forall k :: k in books ==> WellFormed(books[k]))
    && (forall j, k :: j in books && k in books && j != k ==> books[j].title != books[k].title)
  }

  /** Storing a record whose title no other record holds keeps the collection valid. */
  lemma StoreKeepsBooksValid(books: map<Id, Book>, id: Id, b: Book)
    requires BooksValid(books) && WellFormed(b) && !TitleTaken(books, b.title, Some(id))
    ensures BooksValid(books[id := b])
  {
  }

  /** The document after an accepted cover (`Some`) or a rejected one (`None`). */
  function WithCover(f: BookFields, cover: Option<Cover>): (r: BookFields)
    ensures r.(coverImage := f.coverImage, coverImageType := f.coverImageType) == f
    ensures cover.Some? ==> r.coverImage == Some(cover.value.image) && r.coverImageType == Some(cover.value.mime)
    ensures cover.None? ==> r == f
  {
    match cover
    case None => f
    case Some(c) => f.(coverImage := Some(c.image), coverImageType := Some(c.mime))
  }

  /** A Book document in memory: the routes assign its paths one by one before `save`. */
  class BookDoc {
    var title: Option<string>
    var description: Option<string>
    var publishDate: Option<int>
    var pageCount: Option<int>
    var createdAt: int
    var coverImage: Option<seq<byte>>
    var coverImageType: Option<string>
    var author: Option<Id>
    var user: Option<Id>

    function Fields(): BookFields
      reads this
    {
      BookFields(title, description, publishDate, pageCount, createdAt,
                 coverImage, coverImageType, author, user)
    }

    constructor (f: BookFields)
      ensures Fields() == f
    {
      title := f.title;
      description := f.description;
      publishDate := f.publishDate;
      pageCount := f.pageCount;
      createdAt := f.createdAt;
      coverImage := f.coverImage;
      coverImageType := f.coverImageType;
      author := f.author;
      user := f.user;
    }
  }

  const SCHEME: string := "data:"

  /** The text between the MIME type and the payload, as the getter writes it. */
  const MARKER: string := "; charset= utf;base64,"

  /**
   * The `coverImagePath` virtual: undefined unless both cover paths are set,
   * otherwise a data URL carrying the type and the base64 of the bytes.
   */
  function CoverImagePath(image: Option<seq<byte>>, mime: Option<string>): (path: Option<string>)
    ensures path.Some? <==> image.Some? && mime.Some?
    ensures path.Some? ==> StartsWith(path.value, SCHEME + mime.value + MARKER)
    ensures path.Some? ==> path.value[|SCHEME + mime.value + MARKER|..] == Encode(image.value)
  {
    if image.Some? && mime.Some? then
      var path := SCHEME + mime.value + MARKER + Encode(image.value);
      assert path[..|SCHEME + mime.value + MARKER|] == SCHEME + mime.value + MARKER;
      Some(path)
    else None
  }

  /** Reads a cover back out of a path of the shape `CoverImagePath` writes. */
  function ParseCoverPath(path: string): Option<Cover>
  {
    if !StartsWith(path, SCHEME) then None
    else
      var rest := path[|SCHEME|..];
      match IndexOf(rest, ';')
      case None => None
      case Some(i) =>
        var tail := rest[i..];
        if !StartsWith(tail, MARKER) then None
        else match Decode(tail[|MARKER|..])
          case None => None
          case Some(image) => Some(Cover(rest[..i], image))
  }

  /** A path of the getter's shape splits back into its type and its payload text. */
  lemma {:induction false} ParseCoverPathOf(mime: string, payload: string)
    requires ';' !in mime
    ensures ParseCoverPath(SCHEME + mime + MARKER + payload) ==
      match Decode(payload)
      case None => None
      case Some(image) => Some(Cover(mime, image))
  {
    var path := SCHEME + mime + MARKER + payload;
    assert path == SCHEME + (mime + MARKER + payload);
    assert path[..|SCHEME|] == SCHEME;
    var rest := path[|SCHEME|..];
    assert rest == mime + (MARKER + payload);
    assert rest[|mime|] == ';';
    assert rest[..|mime|] == mime;
    assert IndexOf(rest, ';') == Some(|mime|);
    var tail := rest[|mime|..];
    assert tail == MARKER + payload;
    assert tail[..|MARKER|] == MARKER;
    assert tail[|MARKER|..] == payload;
  }

  /**
   * The path of a cover whose type has no ';' gives back that type and, by
   * decoding its base64 segment, exactly the stored bytes.
   */
  lemma {:induction false} CoverPathRoundTrip(c: Cover)
    requires ';' !in c.mime
    ensures ParseCoverPath(CoverImagePath(Some(c.image), Some(c.mime)).value) == Some(c)
  {
    ParseCoverPathOf(c.mime, Encode(c.image));
    DecodeEncode(c.image);
  }
}
