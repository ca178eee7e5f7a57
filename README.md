# Blog backend: posts, newsletter and image upload

This project is a Dafny model of the request handlers in `app.py` of a small Flask
blog backend. The model covers three parts:

- **Two tables in one store.** The `Post` table supports create, get, partial
  update, delete and list newest-first. The `NewsletterSubscriber` table
  supports signup, list newest-first and unsubscribe. The store is the class
  `Blog.BlogStore`. Its two tables are maps from primary key to record. Its
  invariant `Valid()` says two things: every row sits under its own key, and
  no two subscribers share an e-mail address (the `unique=True` column).
- **The newsletter send loop.** Each subscriber is attempted once. Successes
  and failures are counted, and a failure never stops the loop. The mail
  transport is a function parameter `deliver(i, email)`.
- **The upload route.** This covers the extension allow-list of
  `allowed_file`, the storage key `strftime('%Y%m%d_%H%M%S_') +
  secure_filename(name)`, and the public S3 URL built from that key. It also
  covers the answers: 400 for a missing, empty or refused file, 500 when
  storage fails, and 200 with the URL otherwise. `secure_filename` and the
  S3 transfer are function parameters.

Modules, one file each:

| file | module | what it holds |
|---|---|---|
| `values.dfy` | `Values` | the JSON request body, truthiness, HTTP statuses |
| `text.dfy` | `Text` | ASCII `str.lower()` and `str.strip()`, and e-mail normalisation |
| `records.dfy` | `Records` | the `Post` and `Subscriber` records, the create guard, partial update, the stored e-mail |
| `ordering.dfy` | `Ordering` | `ORDER BY ... DESC` over a table, and SQLite's choice of a new rowid |
| `upload.dfy` | `Upload` | `allowed_file`, the timestamp prefix, the key, the URL, and the upload route |
| `blog.dfy` | `Blog` | the store class with every table route, and the send loop |
| `scenarios.dfy` | `Scenarios` | runs of the store that the repository's tests describe |

A request body is `Option<map<string, Json>>`, where `Json` is `Null` or
`Str(s)`. `None` stands for a body that is absent or is not JSON. Python's
`not data` holds for `None` and for the empty map. A key is truthy when it
is present and holds a non-empty string.

In three places the code differs from the API's documented contract, and the model follows the code:

- **Newsletter with no subscribers.** The code answers 200 with a message and
  no counts (`app.py:228-229`). `Blog.BlogStore.SendNewsletter` therefore
  reports no counts in that case, rather than counts of zero.
- **Update with an empty title or content.** The code accepts it, because
  update does not re-validate (`app.py:154-156`).
  `Records.UpdateAcceptsEmptyTitle` states this. So after such an update a
  stored post can have an empty title.
- **Authentication.** The tests expect 401 on the admin routes
  (`test_app.py:61-72`), but `app.py` contains no authentication check.
  The model has none.

## Model

| member | source | states |
|---|---|---|
| Text.LeadingSpace | app.py:206 | the length of the whitespace run that `strip()` removes from the front: every character before it is whitespace, and the character at it is not |
| Text.ContentEnd | app.py:206 | where `strip()` cuts the back: every character from it on is whitespace, and the character before it is not |
| Text.StripSlice | app.py:206 | `strip()` returns a contiguous slice of its input, removes only whitespace, and leaves no whitespace at either end |
| Text.StripOfPadded | app.py:206 | a core with no whitespace at its ends, padded with any amount of whitespace, strips back to exactly that core |
| Text.StripIdempotent | app.py:206 | stripping twice equals stripping once |
| Text.StripIgnoresPadding | app.py:206 | extra whitespace added around a string does not change what `strip()` returns |
| Text.LowerOfLowercase | app.py:206 | `lower()` leaves a string with no upper-case letter unchanged |
| Text.LowerAppend | app.py:206 | `lower()` distributes over concatenation |
| Text.Lower | app.py:206 | `lower()` keeps the length, leaves no upper-case letter, turns each upper-case letter into its lower-case partner and keeps every other character |
| Text.Strip | app.py:206 | `strip()` leaves no whitespace at either end, keeps only characters of its input, and gives the empty string exactly for a blank input |
| Text.NormalizeEmail | app.py:206 | `email.lower().strip()` has no upper-case letter and no whitespace at either end |
| Text.NormalizeIdempotent | app.py:206-209 | normalising a stored address again gives the same address, so the duplicate lookup and the insert use the same key |
| Text.NormalizeKeepsNormal | app.py:206 | an address already in lower case with no edge whitespace is stored unchanged |
| Text.BlankEmailNormalizesToEmpty | app.py:203-206 | a whitespace-only address passes the truthiness check and is stored as the empty string |
| Text.NormalizeIgnoresPadding | app.py:206 | whitespace around an address does not change what is stored |
| Text.NormalizeIgnoresCase | app.py:206 | letter case does not change what is stored |
| Text.SameAddressUpToCaseAndPadding | app.py:206-211 | two addresses that differ only in case and surrounding whitespace are stored as the same string |
| Values.OptionalTextIff | app.py:131 | `Values.OptionalText`, i.e. `data.get(key)`, is absent exactly for an absent key or a JSON null, and otherwise the supplied string |
| Values.TruthyIff | app.py:125 | `Values.Truthy`: a key is truthy exactly when `data.get(key)` is a non-empty string |
| Values.TruthyIsNotMissing | app.py:125 | `Values.Missing` (`not data`) never holds for a body with a truthy key |
| Records.CreateAcceptedIff | app.py:125 | `Records.CreateAccepted`, the guard of `create_post`, holds exactly for an object whose title and content are non-empty strings |
| Records.NewPost | app.py:128-132 | the inserted row has the given id and creation time, and a non-empty title and content |
| Records.NewPostFields | app.py:128-132 | the created post holds the request's title and content; its image URL is absent exactly when the request's is absent or null, and otherwise equals it |
| Records.ClearsRequiredFieldIff | app.py:154-158 | `Records.ClearsRequiredField`: the commit fails exactly when a supplied title or content is not a string |
| Records.TextOr | app.py:154-155 | `data.get(key, current)` for a NOT NULL column is what `data.get(key)` gives when the key is supplied, and the current value otherwise |
| Records.NullableTextOr | app.py:156 | `data.get(key, current)` for the image URL is what `data.get(key)` gives when the key is supplied, and the current value otherwise |
| Records.UpdatedPost | app.py:154-156 | an update never changes the id or the creation time |
| Records.UpdateChangesOnlySuppliedKeys | app.py:154-156 | a field whose key is absent keeps its value; a supplied key sets the field to the supplied value, and a null image URL clears it |
| Records.UpdateWithOtherKeysIsIdentity | app.py:154-156 | a body naming none of `title`, `content`, `image_url` leaves the post unchanged |
| Records.UpdateCompose | app.py:154-156 | applying one update and then another equals applying their dictionary merge, with the later one winning |
| Records.UpdateIdempotent | app.py:154-156 | repeating an update changes nothing more |
| Records.UpdateAcceptsEmptyTitle | app.py:151-158 | update does not re-validate: a supplied empty title is stored as it is |
| Records.SignupAcceptedIff | app.py:203 | `Records.SignupAccepted`, the guard of `newsletter_signup`, holds exactly for an object whose email is a non-empty string |
| Records.SignupEmail | app.py:206 | the address looked up and stored is trimmed and is already normal |
| Records.AddKeepsEmailsUnique | app.py:58 | inserting a subscriber whose address is not taken keeps the unique-e-mail invariant |
| Records.EmailTakenAfterAdd | app.py:209 | `Records.EmailTaken`, the duplicate lookup: after inserting a subscriber under an unused id, the taken addresses are the earlier ones plus its address |
| Records.EmailsWithout | app.py:58 | removing a row removes its address from the set of addresses and keeps the others |
| Records.UniqueEmailsCount | app.py:58 | `Records.UniqueEmails`, the unique constraint: there are as many distinct addresses as subscribers |
| Ordering.InsertDesc | app.py:117 | inserting into a newest-first list keeps it newest-first and adds exactly that element |
| Ordering.SortByKeyDesc | app.py:117 | the listing is ordered by non-increasing key and is a permutation of the table's rows |
| Ordering.NextRowId | app.py:41 | a new rowid is at least 1 and above every rowid in use; it is 1 or one more than an existing rowid |
| Ordering.KeyedValuesCount | app.py:41 | a table whose rows carry their own keys has one distinct row per key |
| Upload.LastIndexOf | app.py:196 | the position `rsplit('.', 1)` splits at: a dot with no dot after it, or -1 when the name has no dot |
| Upload.LastIndexOfAt | app.py:196 | a dot followed by no other dot is the one `rsplit` finds |
| Upload.AllowedFileIff | app.py:193-196 | `Upload.AllowedFile`, the model of `allowed_file`, holds exactly when some dot has no dot after it and the lower-cased text after it is an allowed extension |
| Upload.UpperCaseExtensionAllowed | app.py:193-196 | `photo.PNG` is allowed |
| Upload.OtherExtensionRefused | app.py:193-196 | `photo.exe` is refused |
| Upload.NameWithoutDotRefused | app.py:193-196 | `png` is refused |
| Upload.OnlyLastExtensionCounts | app.py:193-196 | `photo.png.exe` is refused |
| Upload.Pad2 | app.py:182 | two-digit fields are two decimal digits |
| Upload.Pad4 | app.py:182 | the year field is four decimal digits |
| Upload.Pad2Decimal | app.py:182 | a two-digit field reads back as its value |
| Upload.Pad4Decimal | app.py:182 | the year field reads back as its value |
| Upload.TimestampPrefix | app.py:182 | the prefix is 16 characters, with `_` at positions 8 and 15 and digits everywhere else |
| Upload.TimestampRoundTrip | app.py:182 | the clock reading can be read back from the prefix |
| Upload.Extension | app.py:196 | `rsplit('.', 1)[1]` is a suffix of the name that holds no dot and directly follows a dot |
| Upload.StorageKey | app.py:180-183 | the clock reading can be read back from the first 16 characters of the key, and the rest of the key is the sanitised name |
| Upload.StorageKeyInjective | app.py:180-183 | two keys are equal only for the same second and the same sanitised name |
| Upload.PublicUrl | app.py:81 | the object key can be read back from the public URL of its bucket |
| Upload.UploadImage | app.py:169-191 | 400 exactly when there is no file, its name is empty, or the name is refused, and then storage is not called; otherwise the key is the timestamp plus the sanitised name; 200 with that key's URL exactly when storage succeeds, else 500 with no URL |
| Upload.RefusedUploadIgnoresStorage | app.py:179-191 | a refused file gets 400 whatever storage would have done |
| Upload.UploadsInDifferentSecondsDoNotCollide | app.py:181-185 | uploads of the same name in different seconds use different keys |
| Blog.DeliveredPlusFailed | app.py:231-244 | every attempt is counted exactly once, as a success or as a failure |
| Blog.AllDeliveredIff | app.py:231-238 | the success count is the total, and the failure count is zero, exactly when every attempt was delivered |
| Blog.SendAll | app.py:231-238 | exactly one attempt per recipient, in order, the i-th recording the i-th recipient and what the transport answered for that call; the success and failure counts count those answers and add up to the number of recipients |
| Blog.NewsletterAcceptedIff | app.py:224 | `Blog.NewsletterAccepted`, the guard of `send_newsletter`, holds exactly for an object whose subject and content are non-empty strings |
| Blog.BlogStore.TakenEmailHasOneRow | app.py:209 | `Blog.BlogStore.Valid`: in a valid store, the row the duplicate lookup finds for a taken address is the only row with that address |
| Blog.BlogStore.constructor | app.py:277-278 | an empty database satisfies the invariant |
| Blog.BlogStore.ListPosts | app.py:114-118 | every stored post exactly once, ordered by non-increasing creation time |
| Blog.BlogStore.CreatePost | app.py:120-137 | 400 and no change without a truthy title and content; otherwise 201, and one post built from the request is inserted under an id not in use, with every other post unchanged |
| Blog.BlogStore.GetPost | app.py:139-143 | the post stored under the id, or 404 |
| Blog.BlogStore.UpdatePost | app.py:145-159 | 404 for an unknown id, then 400 for a missing or empty body, then 500 with no change for a null title or content; otherwise 200 and only that post changes, to the update of its fields |
| Blog.BlogStore.DeletePost | app.py:161-167 | removes exactly that post, or 404 with no change |
| Blog.BlogStore.Signup | app.py:198-217 | 400 without a truthy email; 200 and no change when the normalised address is taken; otherwise 201 and one subscriber with that address under an unused id; the unique-address invariant holds afterwards |
| Blog.BlogStore.ListSubscribers | app.py:247-251 | every subscriber exactly once, ordered by non-increasing signup time |
| Blog.BlogStore.Unsubscribe | app.py:253-259 | removes exactly that subscriber, or 404 with no change |
| Blog.BlogStore.SendNewsletter | app.py:219-245 | 400 with no attempt without a truthy subject and content; 200 with no attempt and no counts when there are no subscribers; otherwise every subscriber is attempted exactly once in rowid order, and the counts are the delivered and failed attempts, adding up to the number of subscribers |
| Scenarios.PostLifecycle | test_app.py:93-166 | create, get, title-only update, delete and get answer 201, 200, 200, 200, 404; the update keeps the content, id and creation time |
| Scenarios.CreateThenGet | test_app.py:41-59 | a created post reads back with the request's title, content and image URL under the id the create answered with |
| Scenarios.CreateWithoutContent | app.py:125-126 | a create without content is refused and stores nothing |
| Scenarios.SignUpRaw | app.py:198-217 | after a signup, the taken addresses are exactly the earlier ones plus the normalised new one |
| Scenarios.SignupNormalises | test_app.py:182-200 | signing up an address and then the same address in another case without padding answers 201 and then 200, and stores one subscriber |
| Scenarios.ResubscribeAfterUnsubscribe | app.py:253-259 | an address that unsubscribed can sign up again: 201, 200, 201 |
| Scenarios.NewsletterOneFailure | app.py:231-245 | with three subscribers and the second attempt failing, the report is two successes, one failure and three subscribers |

## Left out

- Flask routing, JSON parsing, `jsonify`, CORS and the message texts: only the status and the data each route returns are modelled.
- The JSON types other than strings and `null`, and request bodies that are not JSON objects. A non-string truthy value, such as a number for `title`, is stored by the source and is not modelled.
- SQLAlchemy and SQLite are replaced by the two maps. Records are values, so the model does not capture ORM identity or in-place mutation of a loaded row. The `String(200)` and `String(120)` column lengths are left out because SQLite does not enforce them.
- Blog.BlogStore.CreatePost: promises only an unused id; SQLite's rowid rule is stated by `Ordering.NextRowId`, which the method uses. The source does not promise ids that only increase, since SQLite may reuse the highest id after a delete.
- Rowid overflow past 2^63 - 1 is left out because integers are unbounded here.
- Clock readings (`datetime.utcnow` for `created_at` and `subscribed_at`, and `datetime.now` for the upload prefix) are parameters. `isoformat` and `to_dict` serialisation are left out.
- Upload.TimestampPrefix: defined for years 1000 to 9999 only, because how `%Y` pads smaller years depends on the platform.
- `secure_filename` is the parameter `sanitize`, because its code is not part of this model. The S3 client and `upload_fileobj` are the parameter `transfer`: true exactly when `upload_fileobj` returns normally. A `ClientError` becomes `None` and so a 500; any other exception gives a 500 through the error handler; both are `transfer` false. The bucket name is a parameter. The content type passed to S3 and the 16 MB request limit are left out.
- The SMTP session in `send_newsletter_email` is the parameter `deliver`: true when no exception was raised. The message's headers and body are not modelled.
- `str.lower()` and `str.strip()` are modelled over ASCII. Unicode case mappings and Unicode whitespace are left out.
- The error handlers are reduced to their status. The 500 handler's rollback appears as "no change" in `Blog.BlogStore.UpdatePost`.
- Admin authentication, `health_check`, `config.py`, `setup.py`, `run.py` and environment loading are left out because none of them holds logic of the core.
