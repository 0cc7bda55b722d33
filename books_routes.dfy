/**
 * The /books routes: the cover decoder, the list query, and the bodies of
 * create, edit, update and delete behind their guards.
 */
module BooksRoutes {
  import opened Common
  import opened Seqs
  import opened Text
  import opened Base64
  import opened BookSchema
  import opened Ownership
  import opened Store

  /** The allow-list as the routes declare and use it: its GIF entry is misspelt. */
  const IMAGE_MIME_TYPES: seq<string> := ["image/jpeg", "image/png", "images/gif"]

  /** The allow-list with the GIF entry corrected. */
  const IMAGE_MIME_TYPES_CORRECTED: seq<string> := ["image/jpeg", "image/png", "image/gif"]

  /** What `JSON.parse` makes of the `cover` form field. */
  datatype Payload = ParseFailed | Parsed(mime: string, data: string)

  /** The `cover` form field: absent, the empty string, or some text. */
  datatype CoverField = NoCover | EmptyCover | Encoded(payload: Payload)

  /** The body fields a book form submits (dates and counts already cast). */
  datatype BookForm = BookForm(
    title: Option<string>,
    author: Option<Id>,
    publishDate: Option<int>,
    pageCount: Option<int>,
    description: Option<string>)

  /**
   * The cover `saveCover` keeps: only a parsed payload whose declared type is
   * in `allowed` and whose data decodes. Every other case is silent.
   */
  function DecodeCover(allowed: seq<string>, field: CoverField): (r: Option<Cover>)
    ensures r.Some? <==> field.Encoded? && field.payload.Parsed? && field.payload.mime in allowed
                         && Decode(field.payload.data).Some?
    ensures r.Some? ==> r.value.mime == field.payload.mime && Decode(field.payload.data) == Some(r.value.image)
  {
    match field
    case Encoded(Parsed(mime, data)) =>
      if mime in allowed then
        match Decode(data)
        case None => None
        case Some(image) => Some(Cover(mime, image))
      else None
    case _ => None
  }

  /** As written, a real GIF cover is never accepted. */
  lemma GifRejectedAsWritten(data: string)
    ensures DecodeCover(IMAGE_MIME_TYPES, Encoded(Parsed("image/gif", data))) == None
  {
    assert "image/gif" != "images/gif" by {
      assert "image/gif"[5] != "images/gif"[5];
    }
  }

  /** With the corrected list, a GIF cover is kept, bytes and type unchanged. */
  lemma GifAccepted(image: seq<byte>)
    ensures DecodeCover(IMAGE_MIME_TYPES_CORRECTED, Encoded(Parsed("image/gif", Encode(image)))) == Some(Cover("image/gif", image))
  {
    DecodeEncode(image);
  }

  /** No type of either list contains ';', so the cover path of a kept cover reads back. */
  lemma {:induction false} KeptCoverPathRoundTrip(c: Cover)
    requires c.mime in IMAGE_MIME_TYPES || c.mime in IMAGE_MIME_TYPES_CORRECTED
    ensures ParseCoverPath(CoverImagePath(Some(c.image), Some(c.mime)).value) == Some(c)
  {
    assert ';' !in c.mime;
    CoverPathRoundTrip(c);
  }

  /**
   * `saveCover`: overwrites the two cover paths of `book` when the payload
   * is accepted and leaves them alone otherwise; it never fails.
   */
  method SaveCover(book: BookDoc, field: CoverField)
    modifies book`coverImage, book`coverImageType
    ensures book.Fields() == WithCover(old(book.Fields()), DecodeCover(IMAGE_MIME_TYPES, field))
  {
    if field.NoCover? {
      return;
    }
    if field.EmptyCover? || field.payload.ParseFailed? {
      return;  // JSON.parse threw and the error was swallowed
    }
    var cover := field.payload;
    if cover.mime in IMAGE_MIME_TYPES {
      var image := Decode(cover.data);
      if image.Some? {
        book.coverImage := Some(image.value);
        book.coverImageType := Some(cover.mime);
      }
    }
  }

  /** A date filter parameter of the search form: absent, "", or a date. */
  datatype DateParam = Unset | Blank | Day(day: int)

  /**
   * The conditions a Mongoose query holds on the Book collection: a regex on
   * `title` and at most one `$lte` and one `$gte` on `publishDate` (a second
   * `lte` on the same path replaces the first).
   */
  datatype BookQuery = BookQuery(titlePattern: Option<string>, publishLte: Option<int>, publishGte: Option<int>)

  /** The store's reading of a query. */
  predicate Matches(q: BookQuery, b: Book)
  {
    && (q.titlePattern.Some? ==> MatchesIgnoringCase(b.title, q.titlePattern.value))
    && (q.publishLte.Some? ==> b.publishDate <= q.publishLte.value)
    && (q.publishGte.Some? ==> b.publishDate >= q.publishGte.value)
  }

  predicate TitleWanted(title: Option<string>, b: Book)
  {
    title.Some? && title.value != "" ==> MatchesIgnoringCase(b.title, title.value)
  }

  /** The search the form asks for: every non-empty parameter narrows the list. */
  predicate Wanted(title: Option<string>, before: DateParam, after: DateParam, b: Book)
  {
    && TitleWanted(title, b)
    && (before.Day? ==> b.publishDate <= before.day)
    && (after.Day? ==> b.publishDate >= after.day)
  }

  /**
   * The search the list route performs as written: `publishedAfter` is an
   * upper bound too and, when given, replaces `publishedBefore`.
   */
  predicate WantedAsWritten(title: Option<string>, before: DateParam, after: DateParam, b: Book)
  {
    && TitleWanted(title, b)
    && (if after.Day? then b.publishDate <= after.day
        else before.Day? ==> b.publishDate <= before.day)
  }

  /** The query builder of the list route, as written. */
  method BuildBookQueryAsWritten(title: Option<string>, before: DateParam, after: DateParam) returns (q: BookQuery)
    ensures forall b :: Matches(q, b) <==> WantedAsWritten(title, before, after, b)
  {
    q := BookQuery(None, None, None);
    if title.Some? && title.value != "" {
      q := q.(titlePattern := title);
    }
    if before.Day? {
      q := q.(publishLte := Some(before.day));
    }
    if after.Day? {
      q := q.(publishLte := Some(after.day));
    }
  }

  /** As written, a book published after the `publishedAfter` date is left out. */
  lemma LaterBookDroppedAsWritten(b: Book, after: int)
    requires b.publishDate > after
    ensures Wanted(None, Unset, Day(after), b)
    ensures !WantedAsWritten(None, Unset, Day(after), b)
  {
  }

  /** As written, `publishedBefore` is lost when `publishedAfter` is also given. */
  lemma BeforeBoundLostAsWritten(b: Book, before: int, after: int)
    requires before < b.publishDate <= after
    ensures !Wanted(None, Day(before), Day(after), b)
    ensures WantedAsWritten(None, Day(before), Day(after), b)
  {
  }

  /** The query builder of the list route, with `publishedAfter` as a lower bound. */
  method BuildBookQuery(title: Option<string>, before: DateParam, after: DateParam) returns (q: BookQuery)
    ensures forall b :: Matches(q, b) <==> Wanted(title, before, after, b)
  {
    q := BookQuery(None, None, None);
    if title.Some? && title.value != "" {
      q := q.(titlePattern := title);
    }
    if before.Day? {
      q := q.(publishLte := Some(before.day));
    }
    if after.Day? {
      q := q.(publishGte := Some(after.day));
    }
  }

  /** The records a query selects, in the store's natural order. */
  function MatchingBooks(order: seq<Id>, books: map<Id, Book>, q: BookQuery): (r: seq<Id>)
    ensures forall k :: k in r <==> k in order && k in books && Matches(q, books[k])
    ensures Distinct(order) ==> Distinct(r)
  {
    Filter(order, k => k in books && Matches(q, books[k]))
  }

  /** GET /books as written: the stored books the query as built selects, each once. */
  method ListBooks(c: Catalog, title: Option<string>, before: DateParam, after: DateParam) returns (ids: seq<Id>)
    requires c.Valid()
    ensures Distinct(ids)
    ensures forall k :: k in ids <==> k in c.books && WantedAsWritten(title, before, after, c.books[k])
  {
    var q := BuildBookQueryAsWritten(title, before, after);
    ids := MatchingBooks(c.bookOrder, c.books, q);
  }

  /** GET /books with `publishedAfter` as a lower bound: exactly the books the search asks for. */
  method ListBooksCorrected(c: Catalog, title: Option<string>, before: DateParam, after: DateParam) returns (ids: seq<Id>)
    requires c.Valid()
    ensures Distinct(ids)
    ensures forall k :: k in ids <==> k in c.books && Wanted(title, before, after, c.books[k])
  {
    var q := BuildBookQuery(title, before, after);
    ids := MatchingBooks(c.bookOrder, c.books, q);
  }

  /** `new Book({...})` in POST /books: `createdAt` takes its default, the cover is unset. */
  function Draft(form: BookForm, user: Id, now: int): (f: BookFields)
    ensures f.user == Some(user) && f.createdAt == now
    ensures f.coverImage.None? && f.coverImageType.None? && !HasRequired(f)
  {
    BookFields(form.title, form.description, form.publishDate, form.pageCount, now,
               None, None, form.author, Some(user))
  }

  /** The document POST /books saves. */
  function NewBook(form: BookForm, user: Id, now: int, cover: CoverField): (f: BookFields)
    ensures HasRequired(f) <==>
      && Present(form.title) && form.publishDate.Some? && form.pageCount.Some? && form.author.Some?
      && match DecodeCover(IMAGE_MIME_TYPES, cover)
         case None => false
         case Some(c) => c.image != [] && c.mime != ""
  {
    WithCover(Draft(form, user, now), DecodeCover(IMAGE_MIME_TYPES, cover))
  }

  /**
   * As written, a complete form with a GIF cover is not saved: the cover is
   * dropped, and the required cover paths stay unset.
   */
  lemma GifCoverCreateFailsAsWritten(books: map<Id, Book>, form: BookForm, user: Id, now: int, data: string)
    ensures CheckBook(books, NewBook(form, user, now, Encoded(Parsed("image/gif", data))), None) == Err(ValidationFailed)
  {
    GifRejectedAsWritten(data);
    RejectedCoverFailsCreate(books, form, user, now, Encoded(Parsed("image/gif", data)));
  }

  /** A book created with a rejected cover fails the required-cover check. */
  lemma RejectedCoverFailsCreate(books: map<Id, Book>, form: BookForm, user: Id, now: int, cover: CoverField)
    requires DecodeCover(IMAGE_MIME_TYPES, cover).None?
    ensures CheckBook(books, NewBook(form, user, now, cover), None) == Err(ValidationFailed)
  {
  }

  /** POST /books. `now` is the clock reading `Date.now` would give. */
  method CreateBook(c: Catalog, caller: Option<Id>, form: BookForm, cover: CoverField, now: int)
    returns (r: Result<Id>)
    requires c.Valid()
    modifies c
    ensures c.Valid()
    ensures c.authors == old(c.authors) && c.authorOrder == old(c.authorOrder)
    ensures caller.None? ==> r == Err(Unauthenticated)
    ensures r.Ok? <==> caller.Some? && CheckBook(old(c.books), NewBook(form, caller.value, now, cover), None).Ok?
    ensures DecodeCover(IMAGE_MIME_TYPES, cover).None? ==> r.Err?
    ensures r.Err? ==> c.books == old(c.books) && c.bookOrder == old(c.bookOrder)
    ensures r.Ok? ==> r.value !in old(c.books) && r.value in c.books
    ensures r.Ok? ==> c.books == old(c.books)[r.value := c.books[r.value]] && c.bookOrder == old(c.bookOrder) + [r.value]
    ensures r.Ok? ==>
      var b := c.books[r.value];
      && b.user == caller.value
      && b.createdAt == now
      && Some(b.title) == form.title && Some(b.author) == form.author
      && Some(b.publishDate) == form.publishDate && Some(b.pageCount) == form.pageCount
      && b.description == form.description
      && DecodeCover(IMAGE_MIME_TYPES, cover) == Some(Cover(b.coverImageType, b.coverImage))
  {
    if caller.None? {
      return Err(Unauthenticated);
    }
    var book := new BookDoc(Draft(form, caller.value, now));
    SaveCover(book, cover);
    r := c.InsertBook(book.Fields());
  }

  /** The record `findById` returns, if any, and its owner. */
  function BookOwner(books: map<Id, Book>, id: Id): Option<Id>
  {
    if id in books then Some(books[id].user) else None
  }

  /** GET /books/:id/edit: the record, for its owner only. */
  method EditBook(c: Catalog, id: Id, caller: Option<Id>) returns (r: Result<Book>)
    requires c.Valid()
    ensures r.Ok? <==> caller.Some? && id in c.books && c.books[id].user == caller.value
    ensures r.Ok? ==> r.value == c.books[id]
    ensures r.Err? ==> r.error == Authorize(BookOwner(c.books, id), caller).error
  {
    var access := Authorize(BookOwner(c.books, id), caller);
    if access.Fail? {
      return Err(access.error);
    }
    r := Ok(c.books[id]);
  }

  /** The document PUT /books/:id saves for stored record `b`. */
  function UpdatedBook(b: Book, form: BookForm, cover: CoverField): (f: BookFields)
    ensures f.user == Some(b.user) && f.createdAt == b.createdAt
    ensures (cover.Encoded? && DecodeCover(IMAGE_MIME_TYPES, cover).Some?) || 
            (f.coverImage == Some(b.coverImage) && f.coverImageType == Some(b.coverImageType))
  {
    var f := Snapshot(b).(title := form.title, author := form.author, publishDate := form.publishDate,
                          pageCount := form.pageCount, description := form.description);
    if cover.Encoded? then WithCover(f, DecodeCover(IMAGE_MIME_TYPES, cover)) else f
  }

  /**
   * What a successful PUT /books/:id stores: the form's five fields, the old
   * owner and `createdAt`, and a new cover only when a cover field was sent
   * and accepted.
   */
  lemma UpdatedBookStored(books: map<Id, Book>, id: Id, form: BookForm, cover: CoverField)
    requires id in books
    requires CheckBook(books, UpdatedBook(books[id], form, cover), Some(id)).Ok?
    ensures
      var (b, was) := (CheckBook(books, UpdatedBook(books[id], form, cover), Some(id)).value, books[id]);
      && Some(b.title) == form.title && Some(b.author) == form.author
      && Some(b.publishDate) == form.publishDate && Some(b.pageCount) == form.pageCount
      && b.description == form.description
      && b.user == was.user && b.createdAt == was.createdAt
      && if cover.Encoded? && DecodeCover(IMAGE_MIME_TYPES, cover).Some? then
           DecodeCover(IMAGE_MIME_TYPES, cover) == Some(Cover(b.coverImageType, b.coverImage))
         else
           b.coverImage == was.coverImage && b.coverImageType == was.coverImageType
  {
  }

  /** As written, sending a GIF cover with an update keeps the stored cover. */
  lemma GifCoverKeptOnUpdateAsWritten(b: Book, form: BookForm, data: string)
    ensures var f := UpdatedBook(b, form, Encoded(Parsed("image/gif", data)));
      f.coverImage == Some(b.coverImage) && f.coverImageType == Some(b.coverImageType)
  {
    GifRejectedAsWritten(data);
  }

  /** PUT /books/:id. */
  method UpdateBook(c: Catalog, id: Id, caller: Option<Id>, form: BookForm, cover: CoverField)
    returns (r: Outcome)
    requires c.Valid()
    modifies c
    ensures c.Valid()
    ensures c.authors == old(c.authors) && c.authorOrder == old(c.authorOrder) && c.bookOrder == old(c.bookOrder)
    ensures Authorize(BookOwner(old(c.books), id), caller).Fail? ==> r == Authorize(BookOwner(old(c.books), id), caller)
    ensures r.Pass? <==> caller.Some? && id in old(c.books) && old(c.books)[id].user == caller.value
                         && CheckBook(old(c.books), UpdatedBook(old(c.books)[id], form, cover), Some(id)).Ok?
    ensures r.Fail? ==> c.books == old(c.books)
    ensures Authorize(BookOwner(old(c.books), id), caller).Pass? && r.Fail? ==>
      r.error == CheckBook(old(c.books), UpdatedBook(old(c.books)[id], form, cover), Some(id)).error
    ensures r.Pass? ==>
      c.books == old(c.books)[id := CheckBook(old(c.books), UpdatedBook(old(c.books)[id], form, cover), Some(id)).value]
  {
    var access := Authorize(BookOwner(c.books, id), caller);
    if access.Fail? {
      return access;
    }
    var book := new BookDoc(Snapshot(c.books[id]));
    book.title := form.title;
    book.author := form.author;
    book.publishDate := form.publishDate;
    book.pageCount := form.pageCount;
    book.description := form.description;
    ghost var edited := book.Fields();
    assert edited == Snapshot(c.books[id]).(title := form.title, author := form.author, publishDate := form.publishDate,
                                            pageCount := form.pageCount, description := form.description);
    if cover.Encoded? {
      SaveCover(book, cover);
    }
    var f := book.Fields();
    assert f == UpdatedBook(c.books[id], form, cover);
    r := c.ReplaceBook(id, f);
  }

  /** DELETE /books/:id. */
  method DeleteBook(c: Catalog, id: Id, caller: Option<Id>) returns (r: Outcome)
    requires c.Valid()
    modifies c
    ensures c.Valid()
    ensures c.authors == old(c.authors) && c.authorOrder == old(c.authorOrder)
    ensures r == Authorize(BookOwner(old(c.books), id), caller)
    ensures r.Pass? <==> caller.Some? && id in old(c.books) && old(c.books)[id].user == caller.value
    ensures r.Pass? ==> c.books == old(c.books) - {id} && c.bookOrder == Without(old(c.bookOrder), id)
    ensures r.Fail? ==> c.books == old(c.books) && c.bookOrder == old(c.bookOrder)
  {
    r := Authorize(BookOwner(c.books, id), caller);
    if r.Fail? {
      return;
    }
    c.RemoveBook(id);
  }
}
