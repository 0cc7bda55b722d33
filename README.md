# Bookshelf catalog core in Dafny

This project models the core of Bookshelf, a small Express/Mongoose book catalog. Logged-in users
create authors and books, and each record belongs to the user who created it. Only the owner may
edit, update or delete a record. An author cannot be deleted while books still reference it.
A book carries a cover image. The cover is uploaded as JSON holding a MIME type and base64 data,
and it is shown back through a `data:` path.

The model has these modules:

- `Common` — ids, the `Option`/`Result`/`Outcome` wrappers and the error kinds.
- `Seqs` — order-preserving filtering of id sequences.
- `Text` — the case-insensitive substring match that stands in for the user-supplied regex filters.
- `Base64` — encoding and decoding per section 4 of RFC 4648, with the round trip `Decode(Encode(b)) == Some(b)` proved.
- `BookSchema` and `AuthorSchema` — the two Mongoose schemas: required and unique paths, the `createdAt` default, the `coverImagePath` virtual and the Author `pre("remove")` hook. `BookDoc` is the Book document that routes fill in one path at a time.
- `Store` — class `Catalog`. It holds both collections (`map<Id, _>`), their natural order (insertion order, as id sequences) and an id counter. Its `save`/`remove` methods keep the class invariant `Valid()`: required paths present, unique names and titles, and orders that list each stored id exactly once.
- `Ownership` — the `checkAuthenticated` plus `checkIf*Owner` guard, as one decision function.
- `BooksRoutes` and `AuthorsRoutes` — the route bodies, each stated against the store's old and new state.

The caller of a route is `Option<Id>`, where `None` means not logged in. `Date.now` is a `now`
parameter. An error reported by the remove hook's own `Book.find` is a `lookupFailed` parameter.

The cover path has the form `data:<type>; charset= utf;base64,<base64 of the bytes>`. This is not an
RFC 2397 data URL: the `; charset= utf;` segment is non-standard. The model writes the segment exactly
as the getter does. It proves that the type and the bytes can be read back from the path.

## Model

| member | source | states |
|---|---|---|
| `Base64.EncodeLength` | models/book.js:49 | the encoding of n bytes has 4·⌈n/3⌉ characters |
| `Base64.EncodeAlphabet` | models/book.js:49 | every character of an encoding is from the RFC 4648 alphabet or is the pad `=` |
| `Base64.Value` | routes/books.js:151 | decoding a character of the alphabet gives the sextet that encodes back to that character |
| `Base64.Decode` | routes/books.js:151 | text is accepted as base64 only when its length is a multiple of four |
| `Base64.DecodeEncode` | routes/books.js:151 | decoding the base64 of any byte string gives back exactly those bytes |
| `Text.ContainsIsInfix` | routes/books.js:10 | the left-to-right scan finds a pattern exactly when the pattern occurs at some position of the value |
| `Text.MatchesIgnoringCase` | routes/books.js:10 | a stored value matches a filter (`new RegExp(q, "i")`, also routes/authors.js:11) exactly when the lower-cased filter occurs somewhere in the lower-cased value |
| `Seqs.Filter` | routes/authors.js:14 | a query result keeps exactly the elements that satisfy the condition, is no longer than its input, and repeats none if the input repeats none |
| `BookSchema.Validate` | models/book.js:3-43 | a Book document validates exactly when title, publishDate, pageCount, coverImage, coverImageType, author and user are set (strings non-empty, buffer non-empty; description optional); a valid document becomes a record that loads back as the same document |
| `BookSchema.StoreKeepsBooksValid` | models/book.js:4-8 | storing a well-formed record whose title no other record holds keeps every title unique |
| `BookSchema.BookDoc.constructor` | routes/books.js:35-42 | a new document holds exactly the given paths |
| `BookSchema.WithCover` | routes/books.js:151-152 | an accepted cover sets `coverImage` to its bytes and `coverImageType` to its type and changes no other path; a rejected one changes nothing |
| `BookSchema.CoverImagePath` | models/book.js:45-51 | the path is defined exactly when both cover paths are set; it starts with `data:`, the type and `; charset= utf;base64,`, and the rest is the base64 of the bytes |
| `BookSchema.CoverPathRoundTrip` | models/book.js:45-51 | for a type without `;`, reading the path back yields the stored type and, by base64 decoding, the stored bytes |
| `AuthorSchema.ValidateAuthor` | models/author.js:4-15 | an Author document validates exactly when `name` is set and non-empty and `user` is set |
| `AuthorSchema.DependentBooks` | models/author.js:18-21 | the hook's lookup finds only stored books, and finds none exactly when no book references the author |
| `AuthorSchema.PreRemove` | models/author.js:17-27 | the hook lets the removal proceed exactly when its lookup succeeded and no book references the author; a failed lookup or any dependent book aborts it |
| `Ownership.Authorize` | routes/books.js:166-175 | a guarded route proceeds exactly when a caller is logged in and is the record's owner; otherwise it fails as unauthenticated, not found or not owner |
| `Store.CheckBook` | models/book.js:3-43 | a Book save succeeds exactly when required paths are present and no other record has the title; otherwise it fails with duplicate title or validation failure |
| `Store.CheckAuthor` | models/author.js:4-15 | an Author save succeeds exactly when name and owner are present and no other record has the name |
| `Store.Catalog.InsertBook` | models/book.js:3-43 | a successful save adds one record under a fresh id, appended to the natural order; a failed save changes nothing; uniqueness is kept |
| `Store.Catalog.ReplaceBook` | models/book.js:4-8 | saving a loaded document replaces only that record, and only if it validates and its title is unique among the other records |
| `Store.Catalog.RemoveBook` | routes/books.js:100-101 | removing a book deletes exactly that record and its place in the order |
| `Store.Catalog.InsertAuthor` | models/author.js:4-15 | a successful save adds one author under a fresh id; a failed save changes nothing |
| `Store.Catalog.ReplaceAuthor` | models/author.js:5-9 | saving a loaded author replaces only that record, and only if its name is non-empty and unique among the others |
| `Store.Catalog.RemoveAuthor` | models/author.js:17-27 | removal runs the hook first; the author goes exactly when the hook passes, otherwise nothing changes, and no book is left referencing a removed author |
| `BooksRoutes.DecodeCover` | routes/books.js:146-157 | a cover is kept exactly when the field parsed, its type is allowed and its data decodes; the kept type is the declared one and the kept bytes are the decoding of `data` |
| `BooksRoutes.SaveCover` | routes/books.js:146-157 | with the allow-list as written, only the two cover paths of the document change; they take the decoded cover when it is accepted, and a missing, empty, unparsable, disallowed or undecodable cover leaves the document as it was |
| `BooksRoutes.GifRejectedAsWritten` | routes/books.js:5 | with the allow-list as written, a cover declared `image/gif` is rejected whatever its data |
| `BooksRoutes.GifAccepted` | routes/books.js:5 | with the corrected allow-list, a GIF cover is kept with its bytes intact |
| `BooksRoutes.KeptCoverPathRoundTrip` | routes/books.js:150-152 | the cover path of any cover accepted by either allow-list reads back to that cover |
| `BooksRoutes.BuildBookQueryAsWritten` | routes/books.js:8-17 | as written, the query keeps a book exactly when it matches the title filter and lies on or before `publishedAfter` if that is given, else on or before `publishedBefore` |
| `BooksRoutes.LaterBookDroppedAsWritten` | routes/books.js:15-16 | as written, a book published after the `publishedAfter` date is dropped, though the search asks for it |
| `BooksRoutes.BeforeBoundLostAsWritten` | routes/books.js:12-17 | as written, with both dates given, a book later than `publishedBefore` but not later than `publishedAfter` is listed, though the search excludes it |
| `BooksRoutes.BuildBookQuery` | routes/books.js:8-17 | the query keeps a book exactly when every non-empty parameter holds: title matches, published on or before `publishedBefore`, on or after `publishedAfter` |
| `BooksRoutes.MatchingBooks` | routes/books.js:19 | running a query yields exactly the stored books it matches, each once |
| `BooksRoutes.ListBooks` | routes/books.js:7-27 | as written, the list holds exactly once each stored book that matches the title filter and lies on or before `publishedAfter` if that is given, else on or before `publishedBefore` |
| `BooksRoutes.ListBooksCorrected` | routes/books.js:7-27 | with `publishedAfter` as a lower bound, the list holds each stored book the search asks for exactly once, and nothing else |
| `BooksRoutes.Draft` | routes/books.js:35-42 | the document POST /books builds has the caller as owner and the creation time as `createdAt`, and no cover, so it cannot validate until a cover is accepted |
| `BooksRoutes.NewBook` | routes/books.js:35-45 | the document POST /books saves has every required path exactly when the form gives title, publishDate, pageCount and author and the allow-list as written accepts a non-empty cover |
| `BooksRoutes.GifCoverCreateFailsAsWritten` | routes/books.js:43-48 | as written, creating a book with a GIF cover always fails validation, however complete the form |
| `BooksRoutes.RejectedCoverFailsCreate` | routes/books.js:43-48 | when the cover is rejected, creating the book fails on the required cover paths |
| `BooksRoutes.CreateBook` | routes/books.js:33-50 | creation requires a login and fails whenever the allow-list as written rejects the cover; on success the one new record has the caller as owner, `createdAt` equal to the creation time, the form's fields and the decoded cover; on failure the store is unchanged |
| `BooksRoutes.EditBook` | routes/books.js:64-72 | the edit form is served exactly to the logged-in owner of an existing book |
| `BooksRoutes.UpdatedBook` | routes/books.js:77-85 | the document PUT /books/:id saves keeps the record's owner and `createdAt`, and keeps its cover unless a cover field was sent and accepted |
| `BooksRoutes.GifCoverKeptOnUpdateAsWritten` | routes/books.js:83-85 | as written, a GIF cover sent with an update leaves the stored cover in place |
| `BooksRoutes.UpdatedBookStored` | routes/books.js:77-86 | a stored update holds the form's title, author, publishDate, pageCount and description, keeps owner and `createdAt`, and has a new cover only when a non-empty cover field was accepted |
| `BooksRoutes.UpdateBook` | routes/books.js:74-95 | only the owner's update proceeds, and only if the edited document validates with a title unique among the other books; it then replaces just that record; a failed save reports the validation or duplicate-title error and changes nothing |
| `BooksRoutes.DeleteBook` | routes/books.js:97-114 | a book is deleted exactly when its owner asks; otherwise nothing changes |
| `AuthorsRoutes.BuildSearchOptions` | routes/authors.js:9-12 | an absent or empty name selects every author; a non-empty name selects exactly the authors whose name matches it case-insensitively |
| `AuthorsRoutes.MatchingAuthors` | routes/authors.js:14 | the query yields exactly the stored authors the options select, each once |
| `AuthorsRoutes.ListAuthors` | routes/authors.js:8-22 | the list holds every author for an empty search, else exactly those whose name matches, each once |
| `AuthorsRoutes.CreateAuthor` | routes/authors.js:28-44 | with no login the create fails on the required owner; otherwise it succeeds exactly for a non-empty unused name, and the new author carries that name and the caller as owner; a failed create leaves the authors unchanged |
| `AuthorsRoutes.BooksOf` | routes/authors.js:49 | the books query yields exactly the stored books referencing the author, each once |
| `AuthorsRoutes.BooksOfCount` | routes/authors.js:49 | the books query yields as many ids as there are books referencing the author |
| `AuthorsRoutes.ShowAuthor` | routes/authors.js:46-57 | an existing author is shown with at most five of its books, all of them when it has five or fewer; each one references this author |
| `AuthorsRoutes.EditAuthor` | routes/authors.js:59-67 | the edit form is served exactly to the logged-in owner of an existing author |
| `AuthorsRoutes.RenameAuthor` | routes/authors.js:69-87 | only the owner's rename proceeds; it changes only the name, keeping id and owner, and fails without change on a blank name (validation error) or a duplicate name (duplicate error) |
| `AuthorsRoutes.DeleteAuthor` | routes/authors.js:89-106 | an author is deleted exactly when the owner asks, the lookup succeeds and no book references it; an author with books stays; no deletion leaves a book pointing to a missing author |

## Left out

- server.js is not part of this model: app wiring, passport login, bcrypt, sessions, the database connection, register and logout, and the home page with its outbound HTTP call are all I/O plumbing.
- Rendering, redirects, flash messages and error texts (routes/books.js:116-144, routes/authors.js:38-43, 99-102) are presentation. A route's outcome is reduced to `Result`/`Outcome`.
- `GET /books/new`, `GET /authors/new` and `GET /books/:id` only render pages, and `populate` only joins for display. Neither is modelled.
- `checkAuthenticated` reads the session. The caller is an `Option<Id>` argument instead.
- Text.MatchesIgnoringCase: a user-supplied `new RegExp(q, "i")` is approximated by ASCII case-insensitive substring matching. Regex metacharacters and Unicode case folding are not modelled.
- `new Date(...)` parsing and Mongoose's number casting of `pageCount` are not modelled. Dates and counts are integers, and an uncastable value is an unset path.
- `JSON.parse` is reduced to `ParseFailed | Parsed(type, data)`. A JSON `null` payload counts as `ParseFailed`, since both leave the cover alone.
- BooksRoutes.DecodeCover: Node's `Buffer.from(data, "base64")` is lenient and accepts malformed input. The model decodes only well-formed RFC 4648 section 4 text and treats malformed data like a rejected cover.
- Concurrency is not modelled: each operation is atomic. This drops the non-atomic check-then-delete in the remove hook and last-write-wins updates.
- A `findById` miss inside the owner checks crashes the source with a null dereference. The model reports it as `NotFound` and changes nothing.
- Mongo's natural order is taken to be insertion order, and ObjectIds come from a counter.
- Store.Catalog.InsertBook: Mongoose does not check that a book's `author` refers to a stored author. The model does not check it either, so "every reference resolves" is kept by author deletion but is not a store invariant.

## Findings

The route members follow the source as written: `SaveCover`, `CreateBook` and `UpdateBook` use the misspelt allow-list `IMAGE_MIME_TYPES`, and `ListBooks` uses the query as built. The corrected allow-list `IMAGE_MIME_TYPES_CORRECTED`, the corrected query `BuildBookQuery` and the corrected route `ListBooksCorrected` are stated next to them.

| source | as written | input that shows it | evidently intended | confidence | as-written member | corrected member |
|---|---|---|---|---|---|---|
| routes/books.js:5 | the allow-list holds `"images/gif"` | a cover payload declaring type `image/gif` is silently dropped | `"image/gif"`, so GIF covers are accepted | high; not executed | `BooksRoutes.GifRejectedAsWritten` | `BooksRoutes.GifAccepted` |
| routes/books.js:16 | `publishedAfter` is applied with `lte`, and a second `lte` on `publishDate` replaces the first | `publishedAfter=2000-01-01` hides a book published in 2010; with `publishedBefore=1990-01-01` as well, a 1995 book is listed | `gte` for `publishedAfter`, ANDed with `publishedBefore` | high; not executed | `BooksRoutes.LaterBookDroppedAsWritten` | `BooksRoutes.BuildBookQuery` |
