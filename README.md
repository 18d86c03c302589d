# Book Store: a verified model of the catalogue, accounts and storefront scripts

The Book Store is an ASP.NET MVC shop. This project models its behaviour in Dafny and proves properties about the model. It covers three areas:

- **Catalogue administration.** The Authors, Publishers, Categories and Books controllers each work on one table of the SQL Server database.
- **Accounts.** `AccountController` registers customers and signs users in with a cookie. `HomeController` has a second, hand-validated registration form that stores a SHA-256 hex digest.
- **Storefront scripts.** `site.js` and `Slider.js` hold the currency formatter, cart counters, slider indices and a few event handlers.

The database (`ApplicationDbContext`) is one class, `Store.Database`:

- Each table is a map from primary key to row.
- The `BookAuthors` link table is a set of `(BookID, AuthorID)` pairs, which is its composite key.
- Each table has an IDENTITY counter holding the last value it issued. The next inserted row gets the counter plus one.
- `DBCC CHECKIDENT (..., RESEED, 0)` sets the counter back to 0.

`Database.Valid()` states three things:

- every key matches its row;
- every key was issued by its table's counter;
- every foreign key resolves: `BookAuthors` to books and authors, and `Books.CategoryID` and `Books.PublisherID` to categories and publishers.

Every state-changing action is proved to keep `Valid()`. The delete actions keep it only because of their "blocked" checks.

Each POST action is modelled the same way:

- It is a method over the database. Its `modifies` clause names only the tables it may change.
- It returns an `ActionResult`, which is specified by a decision function that follows the action's early returns.
- It states the whole new state, including that every other table is unchanged.
- `ModelState.IsValid` is an input, because validation from annotations is framework code.
- An insert with an explicit value for an identity column fails in the database. So does a dangling foreign key. Both answer `DatabaseError` and store nothing.

Sorting follows ordinal (code-point) order on names. A query without `OrderBy` has no order that SQL Server guarantees. The model assumes such a query reads the table in ascending key order, the order of its clustered index. This assumption decides which row `FirstOrDefault` returns in `Account.FindByEmail`.

Libraries whose results cannot be computed here are parameters:

- BCrypt hashing and verification, SHA-256 and `EmailAddressAttribute` are functions or values passed in.
- `Url.IsLocalUrl` is a function passed in.
- The clock is an integer number of seconds.

Two modules sit below the controllers:

- `Text` holds the .NET string operations the controllers use: `char.IsWhiteSpace`, `IsNullOrWhiteSpace`, `Trim`, `Split` and `Contains`.
- `IdList` holds the id-list parser that the three `BulkDelete` actions share: comma split, `int.TryParse` in the Int32 range, then distinct.

The JavaScript is modelled as follows:

- Page globals and DOM class lists are class fields.
- The slider's dots and slides are arrays of booleans that say whether each element carries `active`.
- JavaScript's truncating `%` is written out as `Browser.JsRem`.

## Model

| member | source | states |
|---|---|---|
| Text.Trim | Controllers/AuthorsController.cs:25 | the result is an infix of the input; all that is removed is white space; neither end of the result is white space; the result is empty exactly when the input is all white space |
| Text.Split | Controllers/AuthorsController.cs:132 | no piece contains the separator, and joining the pieces with it gives the input back |
| IdList.TryParseInt32 | Controllers/AuthorsController.cs:133 | every accepted value lies in the Int32 range |
| IdList.TryParseIntToString | Controllers/AuthorsController.cs:133 | the decimal form of every Int32, with '-' when negative, parses back to the same value |
| IdList.ParseIds | Controllers/AuthorsController.cs:132-137 | no id is listed twice; x is listed exactly when some non-empty comma-separated token parses to x |
| IdList.BlankParsesToNothing | Controllers/AuthorsController.cs:129-140 | a string of white space yields no ids |
| IdList.BlankDoesNotParse | Controllers/AuthorsController.cs:133 | a token of white space is not a number |
| IdList.BulkDeleteIds | Controllers/AuthorsController.cs:129-137 | a null or blank `ids` gives the empty list; any other gives the parsed list |
| IdList.IdSet | Controllers/AuthorsController.cs:155 | the rows selected by `idList.Contains` are exactly the listed ids |
| Store.Reseeded | Controllers/AuthorsController.cs:116-119 | an emptied table's counter is 0; otherwise the counter is kept |
| Store.Database.constructor | Models/ApplicationsDbContext.cs:11-16 | an empty database with all counters at 0 satisfies the integrity invariant |
| Authors.Index | Controllers/AuthorsController.cs:19-34 | exactly the authors whose name contains the trimmed query, or all authors when the query is null or blank; a matching row as often as in the table and any other row never; ordered by name |
| Authors.NameLeTotal | Controllers/AuthorsController.cs:30 | the name order relates every two authors, so the ordering is defined |
| Authors.Create | Controllers/AuthorsController.cs:45-60 | an invalid form or a name already taken redisplays the form and changes nothing; an explicit AuthorID answers DatabaseError and changes nothing; otherwise exactly one author is added under the next identity value; pairwise-distinct names stay distinct; the integrity invariant is kept |
| Authors.Edit | Controllers/AuthorsController.cs:74-94 | BadRequest on an id mismatch, NotFound for a missing author, the form again when another author has the name; otherwise only that author's Name changes; distinct names stay distinct |
| Authors.RemoveAndReseed | Controllers/AuthorsController.cs:155-162 | removes exactly the given ids and reseeds an emptied table; the invariant is kept when no link refers to them |
| Authors.Delete | Controllers/AuthorsController.cs:99-122 | NotFound for a missing id; an author linked in BookAuthors is kept and an error is reported; otherwise exactly that author goes and an emptied table is reseeded |
| Authors.BulkDelete | Controllers/AuthorsController.cs:127-165 | a blank or unparsable list changes nothing; if any listed id is linked in BookAuthors nothing is removed; otherwise exactly the listed authors go (unknown ids are ignored) and an emptied table is reseeded |
| Publishers.Index | Controllers/PublishersController.cs:19-34 | exactly the publishers whose name contains the trimmed query, or all when it is blank; a matching row as often as in the table and any other row never; ordered by name |
| Publishers.NameLeTotal | Controllers/PublishersController.cs:30 | the name order relates every two publishers |
| Publishers.Create | Controllers/PublishersController.cs:45-59 | an invalid form or a taken name redisplays the form and changes nothing; an explicit PublisherID answers DatabaseError and changes nothing; otherwise exactly one publisher is added under the next identity value; distinct names stay distinct |
| Publishers.Edit | Controllers/PublishersController.cs:73-92 | BadRequest on an id mismatch, NotFound when absent, the form again when another publisher has the name; otherwise only Name changes; distinct names stay distinct |
| Publishers.RemoveAndReseed | Controllers/PublishersController.cs:151-158 | removes exactly the given ids and reseeds an emptied table; the invariant is kept when no book refers to them |
| Publishers.Delete | Controllers/PublishersController.cs:97-119 | NotFound for a missing id; a publisher any book refers to is kept; otherwise exactly that one goes and an emptied table is reseeded |
| Publishers.BulkDelete | Controllers/PublishersController.cs:124-161 | a blank or unparsable list changes nothing; if any book has a listed non-null PublisherID nothing is removed; otherwise exactly the listed publishers go |
| Categories.Index | Controllers/CategoriesController.cs:19-27 | the rows of the table, each as often as in the table, ordered by name |
| Categories.NameLeTotal | Controllers/CategoriesController.cs:23 | the name order relates every two categories |
| Categories.Create | Controllers/CategoriesController.cs:38-47 | an invalid form redisplays the form and an explicit CategoryID answers DatabaseError, both changing nothing; otherwise exactly one category is added under the next identity value, with no check on the name |
| Categories.Edit | Controllers/CategoriesController.cs:61-74 | BadRequest on an id mismatch, NotFound when absent; otherwise exactly Name and Slug change, with no duplicate-name check |
| Categories.RemoveAndReseed | Controllers/CategoriesController.cs:142-149 | removes exactly the given ids and reseeds an emptied table; the invariant is kept when no book refers to them |
| Categories.DeleteConfirmed | Controllers/CategoriesController.cs:90-112 | NotFound for a missing id; the form again, with nothing changed, when any book has that CategoryID; otherwise exactly that category goes and an emptied table is reseeded |
| Categories.BulkDelete | Controllers/CategoriesController.cs:115-151 | a blank or unparsable list changes nothing; if any book's CategoryID is listed nothing is removed; otherwise exactly the listed categories go |
| Books.Index | Controllers/BooksController.cs:20-30 | the rows of the table, each as often as in the table, newest CreatedAt first and books without a date last |
| Books.NewerOrSameTotal | Controllers/BooksController.cs:26 | the CreatedAt-descending order relates every two books |
| Books.Create | Controllers/BooksController.cs:42-53 | an invalid form redisplays the form and changes nothing; an explicit BookID answers DatabaseError and changes nothing; foreign keys that do not resolve answer DatabaseError, add no book, but use up the identity value; otherwise exactly one book is added under the next identity value |
| Books.ApplyEdit | Controllers/BooksController.cs:81-86 | BookID and CreatedAt are kept; every other field is the form's |
| Books.Edit | Controllers/BooksController.cs:68-90 | BadRequest on an id mismatch, the form again when invalid, NotFound when absent, and DatabaseError when the foreign keys do not resolve, each with no book changed; otherwise only that book changes, by the six-field copy |
| Books.DeleteConfirmed | Controllers/BooksController.cs:108-121 | NotFound for a missing id with nothing removed; otherwise the book and exactly its BookAuthors pairs go, and pairs of other books are untouched |
| Account.NewCustomer | Controllers/AccountController.cs:39-48 | a new user is active, has Role "Customer", its Username is its Email, and it gets the creation time |
| Account.Register | Controllers/AccountController.cs:27-55 | an invalid form or an e-mail already present adds nothing; otherwise exactly one customer is added; distinct e-mails stay distinct |
| Account.FindByEmail | Controllers/AccountController.cs:75 | finds a user with that e-mail exactly when one exists, and then the one with the lowest ID |
| Account.ClaimsOf | Controllers/AccountController.cs:84-90 | the Name claim is FullName, or the Email when it is null; the Role claim is Role, or "Customer" when it is null |
| Account.Target | Controllers/AccountController.cs:109-114 | the redirect goes to returnUrl exactly when it is non-blank and local, and to Home/Index otherwise |
| Account.Login | Controllers/AccountController.cs:66-115 | an invalid form answers the form again; with a valid form, sign-in happens exactly when FindByEmail picks a user whose hash is non-empty, has BCrypt's `$2` prefix and verifies the password; a non-empty hash without that prefix makes BCrypt throw; a sign-in carries that user's claims; the cookie is persistent exactly with RememberMe and expires after 7 days, or after 1 hour without it; the redirect is Target(returnUrl) |
| Account.LoginDecidesOnTheOwner | Controllers/AccountController.cs:75-82 | when e-mails are distinct, login for a user's e-mail succeeds exactly when that user's hash is non-empty, has the `$2` prefix and verifies the password, and throws exactly when the hash is non-empty without the prefix |
| Account.NameIdentifierRoundTrip | Controllers/AccountController.cs:86 | the NameIdentifier claim parses back to the user's ID |
| Account.RegisteredCustomerCanSignIn | Controllers/AccountController.cs:31-89 | a customer just added by Register signs in with the password behind the hash, with Role claim "Customer" |
| Home.RequiredError | Controllers/HomeController.cs:57-59 | a "required" error exactly when the field is null or blank |
| Home.EmailErrors | Controllers/HomeController.cs:59-61 | no error exactly for a non-blank valid address; "invalid" only for a non-blank address that fails the check |
| Home.PasswordErrors | Controllers/HomeController.cs:63-64 | no error exactly for a non-blank password of at least 6 characters; "too short" only for a shorter non-blank one |
| Home.RegistrationErrorCauses | Controllers/HomeController.cs:57-66 | each required-field error appears exactly when its field is blank, and the mismatch error exactly when the two passwords differ |
| Home.RegistrationAccepted | Controllers/HomeController.cs:57-71 | no error is collected exactly when both names are non-blank, the e-mail is non-blank and valid, the password is non-blank with at least 6 characters, and it equals the confirmation |
| Home.AcceptedFormIsComplete | Controllers/HomeController.cs:68-79 | an accepted form has every field present |
| Home.PasswordChecksPass | Controllers/HomeController.cs:63-66 | the password checks pass exactly for a non-blank password of at least 6 characters that equals its confirmation |
| Home.Validate | Controllers/HomeController.cs:56-66 | the errors accumulated check by check are the specified error list |
| Home.HexDigit | Controllers/HomeController.cs:99 | each digit is 0-9 or lowercase a-f |
| Home.HexByte | Controllers/HomeController.cs:99 | each byte gives two lowercase hexadecimal digits |
| Home.HexEncodeShape | Controllers/HomeController.cs:94-101 | the hash has two characters per digest byte, all lowercase hexadecimal |
| Home.HexRoundTrip | Controllers/HomeController.cs:94-101 | decoding the hash gives back the digest |
| Home.HashPassword | Controllers/HomeController.cs:92-102 | the loop appends to a builder and produces the hex encoding of the SHA-256 digest, of length twice the digest's |
| Home.NewUser | Controllers/HomeController.cs:74-82 | Email and Username are both the trimmed e-mail; FullName is "last first" trimmed; the user is active with no Role |
| Home.AddUser | Controllers/HomeController.cs:84-85 | the user is added under the next identity value and the invariant is kept |
| Home.Register | Controllers/HomeController.cs:53-89 | with any error the form is shown again and nothing is added; with none, exactly one user is added with the hashed password |
| Home.RepeatedRegistrationDuplicatesEmail | Controllers/HomeController.cs:73-85 | there is no duplicate check: adding a user whose e-mail is taken leaves two users sharing it |
| Home.HexHashLacksBCryptPrefix | Controllers/HomeController.cs:94-101 | the hex digest of a non-empty hash starts with a hexadecimal digit, so it never has BCrypt's `$2` prefix |
| Home.HexHashedUserCannotSignIn | Controllers/AccountController.cs:75-77 | a user stored by Home's Register with a 32-byte SHA-256 digest, whose e-mail no other user shares, makes Account's Login throw whatever the password |
| Currency.FormatCurrency | wwwroot/js/site.js:88-90 | the regular-expression replacement yields the amount's digits grouped by threes from the right |
| Currency.SeparatedIsGroupFromRight | wwwroot/js/site.js:89 | the regular-expression scan puts the '.' exactly where grouping by threes from the right does |
| Currency.FormatCurrencyRemoveDots | wwwroot/js/site.js:88-90 | removing every '.' from the formatted amount gives its decimal digits |
| Currency.FormatCurrencyWellGrouped | wwwroot/js/site.js:88-90 | a first group of 1-3 digits, then groups of exactly 3, each after a '.' |
| Currency.FormatCurrencySmall | wwwroot/js/site.js:88-90 | the amount comes out unchanged exactly when it is below 1000 |
| Browser.JsRem | wwwroot/js/site.js:29 | JavaScript's remainder: in [0, b) for a non-negative dividend, in (-b, 0] for a negative one |
| Browser.OneHotCount | wwwroot/js/site.js:54-60 | flags set exactly at index i give one active element, or none when i is out of range |
| Site.Storefront.constructor | wwwroot/js/site.js:1-4 | the slide index, cart total and cart count start at 0 |
| Site.Storefront.UpdateSlider | wwwroot/js/site.js:46-61 | the container moves by currentSlide·100%; dot k is active exactly when k is currentSlide, so at most one dot is active |
| Site.Storefront.AdvanceSlide | wwwroot/js/site.js:28-31 | the next index is (currentSlide + 1) % 3 with JavaScript's %, and it stays in [0, 3) when it starts in range |
| Site.Storefront.GoToSlide | wwwroot/js/site.js:34-44 | sets the index with no range check and redraws the dots |
| Site.Storefront.AddToCart | wwwroot/js/site.js:64-86 | the count grows by exactly 1 and the total by exactly the price; they remain the number and the sum of the prices added; the shown total is the formatted total, whose digits are the sum |
| Site.Toggled | wwwroot/js/site.js:98-110 | `far` becomes `fas`, otherwise `fas` becomes `far`; every other class is kept |
| Site.ToggleTwice | wwwroot/js/site.js:98-110 | two clicks restore the icon exactly when it had one of `far` and `fas` but not both |
| Site.WishlistButton.Click | wwwroot/js/site.js:93-112 | the icon's classes toggle, and the button's colours follow the new state |
| Site.Closest | wwwroot/js/site.js:400 | the nearest element with the tag, starting at the target, or none |
| Site.SuppressesEnter | wwwroot/js/site.js:398-406 | Enter is suppressed exactly when the target is not a TEXTAREA and its nearest form lacks `newsletter-form` |
| Site.NewsletterForm.Subscribe | wwwroot/js/site.js:156-168 | a non-empty address is confirmed and cleared; an empty one gives no confirmation |
| Slider.NextIndex | wwwroot/js/Slider.js:16 | from an index in [-1, n) the next index is in [0, n) |
| Slider.AdvanceWraps | wwwroot/js/Slider.js:15-18 | k ≤ n steps from a valid index wrap around at most once |
| Slider.FullCycle | wwwroot/js/Slider.js:15-18 | n steps return to the starting slide, and no fewer do |
| Slider.Slideshow.constructor | wwwroot/js/Slider.js:1-3 | the index starts at 0 |
| Slider.Slideshow.ShowSlide | wwwroot/js/Slider.js:5-13 | every flag is cleared and only slide `index` and dot `index` are set; it completes exactly when both exist, and then exactly one slide and one dot are active |
| Slider.Slideshow.NextSlide | wwwroot/js/Slider.js:15-18 | the index advances modulo the slide count and stays in range; exactly that slide is shown and exactly its dot is active |
| Slider.Slideshow.CurrentSlide | wwwroot/js/Slider.js:20-23 | the index is set with no range check; the slide is shown whenever it exists, and the call completes exactly when the dot exists too |

## Left out

- The multi-source book-image pipeline: no controller, entity or script here has it. Only a table schema exists, in `Migrations/20260224154536_AddBookIsActiveAndImages.cs`.
- Entity Framework and SQL Server plumbing is not modelled: `async`, change tracking, `Include`, raw SQL. The exists-check before an insert is not atomic, and concurrent requests and their races are not modelled either.
- Name equality, `Contains` and `OrderBy` use the database collation, which is usually case-insensitive and ignores trailing spaces. The model compares characters ordinally and exactly.
- The same collation governs the e-mail comparisons in `AccountController.Register` and `Login` (`Users.Any` and `FirstOrDefault` on `Email`). `Account.EmailTaken`, `Account.EmailsDistinct` and `Account.FindByEmail` match e-mails exactly, so two e-mails that differ only in case count as distinct in the model but not in the database.
- `Account.FindByEmail`: the lowest matching ID is an assumption about the query plan, not a guarantee of SQL Server.
- `StringLength(255)` column widths: an over-long value makes `SaveChanges` fail, but the model stores strings of any length. C# string lengths count UTF-16 code units; the model counts characters.
- `Store.Reseeded`: after a reseed on a table that has never held a row, SQL Server gives the first row ID 0, not 1. The model always continues from 1.
- Orders, OrderDetails and Payments are not part of this model. `Books.DeleteConfirmed` does not model the foreign-key failure for a book with order lines.
- GET actions that only render views are not modelled: the forms, `Details`/`Delete` pages and `LoadLookups`. Neither are `Logout`, `AdminController`, `HomeController.Login` (a stub that returns the view) and `TempData`/notification texts.
- BCrypt, SHA-256, `EmailAddressAttribute.IsValid` and `Url.IsLocalUrl` are foreign library code and are taken as parameters. `Account.Register` takes the salted BCrypt hash as a value.
- `Account.Login`: of the checks BCrypt makes on a stored hash, only the `$2` version prefix is modelled, as the `VerifyThrows` outcome. Other malformed-salt cases, which also throw, are folded into the `verify` parameter. `Home.HexHashedUserCannotSignIn` shows that a user stored by `Home.Register`, when no other user has the same e-mail, reaches `VerifyThrows` whatever the password.
- `RegisterViewModel` is not part of this model. `Account.Register` takes the form's validity, e-mail and full name as inputs.
- `DateTime.Now` and `DateTime.UtcNow` become a `now` parameter in seconds. Time zones are not modelled.
- `Book.Price` is `decimal(18,2)`; the model holds it as an integer number of hundredths.
- `IdList.TryParseInt32` covers the invariant-culture rules: surrounding white space, one leading sign and decimal digits. It does not model culture-specific sign symbols or trailing NUL characters.
- `Currency.FormatCurrency` covers natural amounts whose JavaScript `toString` is their plain decimal digits, which holds for integers below 2^53. Larger numbers are not exact, and from 1e21 `toString` switches to exponent notation. On fractional numbers the regular expression also groups the digits after the decimal point.
- `Site.Storefront.AddToCart` takes natural prices. JavaScript numbers are doubles, and their rounding is not modelled.
- In the JavaScript, the DOM, `setInterval` timers and their restart on a dot click are not modelled. Neither are notifications, animations, search, lazy loading, scrolling or the category dropdown.
- `Slider.Slideshow.NextSlide` requires at least one slide. With none, the index becomes NaN, which the model cannot represent.
- The administrator seeding in `Program.cs` is not modelled. It runs at start-up and inserts the admin user only when no user has the admin e-mail.
