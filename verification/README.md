# Document store: access control, slugs, uploads and accounts

This project models the core of a document-store backend: a REST API where
authenticated users create documents and attach files to them. It also
models the account endpoints: registration, the "me" profile, password
change, password reset by email link, and logout by refresh-token
blacklisting.

The model has these parts:

- **Permissions** (`permissions.dfy`). This is the permission pipeline the REST framework runs:
  - authentication comes first;
  - then each of the view's permission classes is checked in order;
  - then, for a single object, each class's object check runs.
  
  `IsOwnerOrReadOnly` opens the safe methods (GET, HEAD, OPTIONS) to everyone and keeps mutation to the document's creator. A refusal is 401 when nobody is authenticated and 403 otherwise.
- **Slugs** (`slugs.dfy`, with `decimal.dfy` for `str(counter)`). This is the loop shared by `Document.save` and `DocumentSerializer.update`. It tries `base`, then `base-1`, `base-2`, and so on against the slugs already stored. The model proves three things:
  - the loop terminates, by a pigeonhole argument over the finite set of taken slugs;
  - the slug it returns is free;
  - that slug is the least free candidate.
- **Uploads** (`uploads.dfy`). This part contains:
  - `validate_file`: the extension whitelist and the 10 MB bound;
  - `os.path.splitext` and ASCII lowercasing, which produce the extension;
  - the storage path `documents/<document id>/<name>`, together with a parser that reads the path back.
- **Documents** (`documents.dfy`, `document_api.dfy`). This part contains:
  - the document and file tables;
  - `Document.save`, which fills in the slug, writes the row, and is subject to the unique-slug constraint;
  - the slug change on retitling;
  - the cascade delete of a document's files;
  - the two view sets, with creator and uploader stamping.

  Each request maps a store to a reply and a new store.
- **Accounts** (`accounts.dfy`, with `reset_link.dfy` and `base64url.dfy`). This part contains:
  - the user table, with its auto-increment key;
  - the refresh-token blacklist;
  - an outbox of reset mails;
  - the account views as transitions over that state.

  The reset link's `uid` is the URL-safe base64 encoding of the decimal key, with the padding dropped (RFC 4648, section 5). It is proved to decode back to that key.

Library collaborators become the function-valued fields of `Accounts.Services`. These are password hashing and checking, the password-strength validators, the email-format validator, the reset-token generator, and refresh-token verification. The properties that depend on them state the single law they need as a precondition. For example, `HashChecks` says a hash checks against the password it was made from. `slugify` is likewise a parameter. New primary keys (UUIDs) are parameters of the create actions.

## Model

| member | source | states |
|---|---|---|
| Permissions.CheckPermissions | project/backend/documents/views.py:10 | view-level check: allowed iff the credentials are not rejected and every class in the list passes; a refusal is 403 exactly when the caller is authenticated, else 401 |
| Permissions.CheckObjectPermissions | project/backend/documents/permissions.py:10-16 | object-level check: allowed iff every class's object check passes; a refusal is 403 exactly when the caller is authenticated, else 401 |
| Permissions.OwnerOrReadOnly | project/backend/documents/permissions.py:10-16 | a safe method always passes the object check; a mutating one passes iff the caller is authenticated as the creator |
| Permissions.Deny | project/backend/documents/permissions.py:10-16 | a refusal is 403 exactly when someone is authenticated, otherwise 401 |
| Permissions.DocumentAccessDecision | project/backend/documents/permissions.py:10-16 | the whole document decision in closed form: unauthenticated gives 401, a safe method or the creator passes, anyone else gets 403 |
| Permissions.SafeMethodsAllowed | project/backend/documents/permissions.py:12-13 | GET, HEAD and OPTIONS pass for every authenticated caller whoever owns the document |
| Permissions.OwnerAllowed | project/backend/documents/permissions.py:16 | the creator may use every method on the document |
| Permissions.MutationOnlyByOwner | project/backend/documents/permissions.py:15-16 | for a mutating method access is granted iff the caller is the creator; otherwise 403 |
| Permissions.StrangersUnauthorized | project/backend/documents/views.py:10 | without an authenticated identity the answer is 401, whatever the method or owner |
| Permissions.FileAccessDecision | project/backend/documents/views.py:21 | the file endpoints admit exactly the authenticated callers; the rest get 401 |
| Decimal.NatToString | project/backend/documents/models.py:26 | the counter is rendered as a non-empty digit string without a leading zero |
| Decimal.ParseNatToString | project/backend/documents/models.py:26 | parsing the rendered counter gives the counter back |
| Decimal.NatToStringInjective | project/backend/documents/models.py:26 | distinct counters render to distinct suffixes |
| Slugs.Candidate | project/backend/documents/models.py:23-27 | the k-th slug tried extends the base and equals it exactly for k = 0 |
| Slugs.CandidateInjective | project/backend/documents/models.py:25-27 | the loop never tries the same slug twice |
| Slugs.TriedSize | project/backend/documents/models.py:25-27 | after k rounds the loop has tried k distinct slugs |
| Slugs.TriedBound | project/backend/documents/models.py:25-27 | while every slug tried is taken, the counter cannot exceed the number of taken slugs (termination) |
| Slugs.FirstFreeFrom | project/backend/documents/models.py:25-27 | the loop stops at a free candidate, and every earlier candidate was taken |
| Slugs.FirstFree | project/backend/documents/models.py:24-27 | the final counter is at most the number of stored slugs |
| Slugs.Allocate | project/backend/documents/models.py:21-28 | the allocated slug is free, extends the base, is the base when the base is free, and is otherwise `base-k` for some 1 <= k <= number of stored slugs |
| Slugs.AllocateIsLeastFree | project/backend/documents/models.py:23-28 | a slug is the allocated one iff it is the least-indexed free candidate |
| Slugs.AllocateIgnoresUnrelated | project/backend/documents/models.py:25 | a stored slug that is no candidate of the base does not change the result |
| Uploads.LastIndexOf | project/backend/documents/serializers.py:45 | the last occurrence of a character, or -1 when it does not occur |
| Uploads.Splitext | project/backend/documents/serializers.py:45 | root + extension rebuild the name; the extension is empty or one dot followed by no dot or slash; it is non-empty iff the final component has a dot after some non-dot character, and then it starts at the last dot |
| Uploads.SplitextOfName | project/backend/documents/serializers.py:45 | a plain name `stem.ext` whose stem is not all dots splits into exactly stem and `.ext` |
| Uploads.DotFileRejected | project/backend/documents/serializers.py:45-50 | ".pdf" and "..pdf" have no extension and are refused whatever their size |
| Uploads.Lower | project/backend/documents/serializers.py:45 | lowering keeps the length and maps each ASCII capital to its small letter |
| Uploads.LastIndexOfLower | project/backend/documents/serializers.py:45 | lowering does not move dots or slashes |
| Uploads.SplitextLower | project/backend/documents/serializers.py:45 | splitting then lowering equals lowering then splitting |
| Uploads.HasExtensionLower | project/backend/documents/serializers.py:45 | lower-casing a name neither creates nor removes an extension |
| Uploads.LowerIdempotent | project/backend/documents/serializers.py:45 | lowering twice is lowering once |
| Uploads.ValidateFile | project/backend/documents/serializers.py:34-58 | accepted iff the lowered extension is whitelisted and the size is at most 10 MB; the extension is checked first; an accepted file is returned unchanged |
| Uploads.SizeBoundary | project/backend/documents/serializers.py:41-56 | 10485760 bytes pass, 10485761 bytes are too large |
| Uploads.ContentTypeIgnored | project/backend/documents/serializers.py:34-58 | the declared content type plays no part in the verdict |
| Uploads.SpreadsheetAccepted | project/backend/documents/tests/test_document_files_api.py:26 | "testfile.xlsx" of 17 bytes sent as text/plain is accepted |
| Uploads.ValidateFileCaseInsensitive | project/backend/documents/serializers.py:45-46 | names that agree up to case get the same extension and the same verdict |
| Uploads.DocumentFilePath | project/backend/documents/models.py:36-42 | the storage path starts with "documents/" and ends with the uploaded name |
| Uploads.IndexOf | project/backend/documents/models.py:40 | first occurrence of a character, or the length when absent |
| Uploads.ParseDocumentFilePath | project/backend/documents/models.py:36-42 | the path determines the document (or "temp") and the file name |
| Documents.FindSlug | project/backend/documents/views.py:11 | the slug lookup finds a row with that slug, and finds none exactly when no row has it |
| Documents.FindId | project/backend/documents/models.py:7 | the key lookup finds a row with that key, and finds none exactly when no row has it |
| Documents.Upsert | project/backend/documents/models.py:29 | writing a row replaces the row with the same key or appends it; keys stay distinct and the key set grows by that key |
| Documents.SavedSlug | project/backend/documents/models.py:20-28 | a non-empty slug is kept; an empty one becomes the least free candidate derived from slugify(title) (the base itself, else base-1, base-2, ...), every stored slug counting as taken |
| Documents.Save | project/backend/documents/models.py:9-29 | a save fails exactly when another row already holds the slug it would store, so never for an empty slug; a successful save keeps keys and slugs distinct, and afterwards the table holds exactly the saved row plus the rows with other keys |
| Documents.UpsertKeepsSlugsDistinct | project/backend/documents/models.py:9 | a row whose slug no other row holds keeps the unique-slug constraint |
| Documents.RetitledSlug | project/backend/documents/serializers.py:14-23 | the slug stays unless a title is supplied that differs from the current one; then it is free among the other rows, extends slugify(title), and is the least free candidate (so a document may win back its own slug) |
| Documents.RemoveAt | project/backend/documents/views.py:7 | deleting a row keeps the others in order |
| Documents.RemoveAtMembers | project/backend/documents/views.py:7 | after a delete, the rows left are exactly the other rows |
| Documents.RemoveAtKeepsDocsDistinct | project/backend/documents/models.py:7-9 | deleting a document keeps keys and slugs distinct |
| Documents.RemoveAtKeepsFilesDistinct | project/backend/documents/models.py:47 | deleting a file keeps file keys distinct |
| Documents.FilesNotOf | project/backend/documents/models.py:48 | the cascade keeps exactly the files of other documents, with distinct keys |
| DocumentApi.DocFieldErrors | project/backend/documents/models.py:8-11 | title (at most 255) and category (at most 100) are reported iff missing on a full write, blank, too long or holding a NUL; the description iff it holds a NUL |
| DocumentApi.DocumentFor | project/backend/documents/views.py:7-11 | with unique slugs: the row with that slug is returned iff its object permissions pass, and otherwise the refusal's status is the error; an unknown slug is 404 |
| DocumentApi.FindFile | project/backend/documents/views.py:18-19 | the file lookup finds the file with that key, or reports that none has it |
| DocumentApi.UploadErrors | project/backend/documents/serializers.py:28-34 | an upload is reported on the document field iff the document does not exist, and on the file field iff validate_file refuses it |
| DocumentApi.HandleDocument | project/backend/documents/views.py:7-14 | a failed document request and every read leave the store as it was; only a document delete touches the file table |
| DocumentApi.HandleFile | project/backend/documents/views.py:18-24 | file requests never touch the document table; a failed request and every read leave the store as it was |
| DocumentApi.Handle | project/backend/documents/views.py:7-24 | anyone not authenticated gets 401 and nothing changes; every failed request leaves the store as it was |
| DocumentApi.RemoveDocumentKeepsValid | project/backend/documents/models.py:48 | deleting a document with its files leaves no file without its document |
| DocumentApi.RemoveFileKeepsValid | project/backend/documents/views.py:18-21 | deleting one file keeps file keys distinct and every remaining file pointing at a stored document |
| DocumentApi.AddFileKeepsValid | project/backend/documents/views.py:23-24 | appending a file under a fresh key that points at a stored document keeps the store valid |
| DocumentApi.HandleDocumentKeepsValid | project/backend/documents/views.py:7-14 | document requests keep unique keys and slugs and the file references |
| DocumentApi.HandleFileKeepsValid | project/backend/documents/views.py:18-24 | file requests keep unique file keys and the file references |
| DocumentApi.HandleKeepsValid | project/backend/documents/views.py:7-24 | every request keeps the database constraints |
| DocumentApi.SafeActions | project/backend/documents/permissions.py:12-13 | the actions sent with a safe method are exactly the list and retrieve actions |
| DocumentApi.AuthenticatedRouted | project/backend/documents/views.py:7-24 | both viewsets' class-level permissions admit every authenticated caller, so the request reaches its handler; ownership is checked per object only |
| DocumentApi.CreateStampsCreator | project/backend/documents/views.py:13-14 | a created document belongs to the requester and holds the allocated slug, which no stored document had; the table gains exactly that row |
| DocumentApi.CreateSucceeds | project/backend/documents/models.py:20-29 | creation succeeds iff both fields pass and the key is fresh: slug allocation never collides |
| DocumentApi.NonOwnerMutationForbidden | project/backend/documents/permissions.py:15-16 | an update or delete by someone other than the creator is 403 and changes nothing |
| DocumentApi.UnknownSlugNotFound | project/backend/documents/views.py:11 | a slug no document has gives 404 on retrieve, update and delete |
| DocumentApi.OwnerDestroyRemovesExactly | project/backend/documents/models.py:48 | the owner's delete is 204 and removes exactly that document and its files |
| DocumentApi.OwnerDestroyOutcome | project/backend/documents/models.py:48 | the owner's delete of a row answers 204 and drops that row and exactly the files that point at it |
| DocumentApi.RemoveSlugRow | project/backend/documents/models.py:9 | with unique slugs, removing the row holding a slug keeps exactly the rows with another slug, and no other row holds that slug |
| DocumentApi.ListShowsAll | project/backend/documents/views.py:8 | every authenticated caller sees every document |
| DocumentApi.RetrieveOpenToAll | project/backend/documents/permissions.py:12-13 | any authenticated caller may read any document |
| DocumentApi.OwnerUpdate | project/backend/documents/serializers.py:14-24 | a valid update by the owner succeeds; supplied title, description and category replace the old values and absent ones stay; every other row is kept and files are untouched; the slug stays when the title does and otherwise is allocated from the new title against the other rows, also when the new title slugifies to nothing |
| DocumentApi.OwnerUpdateSaves | project/backend/documents/serializers.py:14-24 | the owner's valid update reaches save and save succeeds; the reply is 200 with the stored row and the table is the one save wrote |
| DocumentApi.UpdatedRow | project/backend/documents/serializers.py:14-24 | the row an update stores keeps key and creator, takes the supplied fields, and holds a slug no other row has: the old one when the title stays, otherwise the one allocated from the new title |
| DocumentApi.EmptySlugKept | project/backend/documents/models.py:20-29 | a retitled document whose new slug is empty keeps it through save, because its old slug was not empty |
| DocumentApi.UploadStampsUploader | project/backend/documents/views.py:23-24 | an accepted upload records the uploader and its document, is stored under that document's directory, and is appended to the file table |
| DocumentApi.UploadAccepted | project/backend/documents/serializers.py:34-58 | an upload is accepted iff the document exists, validate_file passes and the key is fresh |
| DocumentApi.AnyoneMayDeleteFile | project/backend/documents/views.py:21 | any authenticated caller may delete any file: that file goes, every other file stays, nothing is added and documents are untouched |
| Base64Url.SextetChar | project/backend/account/serializers.py:66 | every 6-bit value maps into the URL-safe alphabet |
| Base64Url.CharSextet | project/backend/account/serializers.py:92 | a character decodes iff it is in the URL-safe alphabet, and to the value that encodes to it |
| Base64Url.CharSextetInverse | project/backend/account/serializers.py:92 | decoding a character inverts encoding it |
| Base64Url.Encode | project/backend/account/serializers.py:66 | the encoding uses only URL-safe characters and has length ceil(4n/3) without padding |
| Base64Url.DecodeDomain | project/backend/account/serializers.py:92 | characterises `Base64Url.Decode`, the model of Django's `urlsafe_base64_decode`: decoding succeeds iff the length is not 1 modulo 4 and every character is URL-safe; the result has 3/4 of the length |
| Base64Url.DecodeEncode | project/backend/account/serializers.py:66-92 | decoding an encoding gives back the bytes |
| Base64Url.EncodeInjective | project/backend/account/serializers.py:66 | distinct byte strings have distinct encodings |
| Base64Url.TrailingBitsIgnored | project/backend/account/serializers.py:92 | unused low bits of the last character are ignored: "MR" and "MQ" both decode to the digit 1 |
| ResetLink.DigitText | project/backend/account/serializers.py:92 | ASCII digit bytes read back as the same digits |
| ResetLink.EncodeUid | project/backend/account/serializers.py:66 | the uid of a key is a non-empty URL-safe string |
| ResetLink.DecodeUid | project/backend/account/serializers.py:92-93 | a uid names a key only if it decodes |
| ResetLink.DecodeEncodeUid | project/backend/account/serializers.py:66-93 | the key decoded on confirmation is the key encoded on request |
| ResetLink.EncodeUidInjective | project/backend/account/serializers.py:66 | different users never share a uid |
| Accounts.RegisterErrors | project/backend/account/serializers.py:12-24 | the email is reported iff it is missing, blank, holds a NUL, is malformed or is taken; the password iff it is missing, blank, holds a NUL, is shorter than 8 characters or is refused by the validators; the name iff it holds a NUL |
| Accounts.RegisterUser | project/backend/account/serializers.py:12-28 | registration succeeds iff no field error, and otherwise answers 400 with the errors and changes nothing |
| Accounts.UpdateProfile | project/backend/account/views.py:28-33 | only the name is writable: email and hash never change, no other user is touched, a name holding a NUL is 400; the reply shows the stored email and the new name |
| Accounts.ShortPasswordRejected | project/backend/account/tests/test_auth_api.py:11-23 | a password of fewer than 8 characters is 400 on the password field and no user appears |
| Accounts.RegisteredUserChecks | project/backend/account/tests/test_auth_api.py:118-133 | a registered user is stored under a fresh key, the other users are kept, the stored hash checks against the password, and the reply shows email and name only |
| Accounts.DuplicateEmailRejected | project/backend/account/serializers.py:15-17 | registering a stored email is 400 on the email field and changes nothing |
| Accounts.ChangeErrors | project/backend/account/serializers.py:38-50 | the old password is reported iff missing, blank, holding a NUL or not matching; the new one iff missing, blank, holding a NUL or refused by the validators given the user |
| Accounts.ChangePassword | project/backend/account/serializers.py:38-56 | the change succeeds iff neither field is reported and otherwise answers 400 with the errors and no change; on success only the requester's hash changes, to the hash of the new password |
| Accounts.FirstWithEmail | project/backend/account/serializers.py:64 | the lookup returns the least key with that email, or reports that no user has it |
| Accounts.RequestReset | project/backend/account/serializers.py:59-75 | a missing, blank or malformed email is 400; otherwise the reply is fixed; only the outbox changes, by at most one mail, to the requested address, whose uid decodes to a user with that email |
| Accounts.ConfirmErrors | project/backend/account/serializers.py:78-85 | uid and token are reported iff missing, blank or holding a NUL; the new password iff it is also refused by the validators |
| Accounts.TicketUser | project/backend/account/serializers.py:92-93 | a uid names a stored user only when it decodes to that user's key |
| Accounts.ConfirmResetAsWritten | project/backend/account/serializers.py:87-100 | as written: agrees with the corrected handler whenever a field is reported or the uid names a stored user; otherwise 500 with no change |
| Accounts.ConfirmReset | project/backend/account/serializers.py:87-100 | corrected: every failure is 400 and leaves the state unchanged |
| Accounts.ConfirmFor | project/backend/account/serializers.py:95-100 | succeeds iff the token checks for the user, and then stores the hash of the new password for that user only; otherwise 400 with the invalid-ticket message and no change |
| Accounts.Revoke | project/backend/account/views.py:76-92 | a missing field is 400 "refresh required"; 205 iff the token is given, verifies and is not yet blacklisted, and then it is blacklisted; every other case is 400 with no change |
| Accounts.Authenticate | project/backend/account/views.py:28-33 | library behaviour, not code of these files: the JWT authenticator that resolves the `request.user` these lines return. An identity survives iff its user is stored, and then unchanged; anonymous requests and rejected credentials pass through as they are |
| Accounts.Handle | project/backend/account/views.py:22-92 | rejected credentials are 401 on every view that authenticates (all but logout); me and set_password answer 401 to anyone unauthenticated; every failure changes nothing |
| Accounts.LogoutIgnoresCredentials | project/backend/account/views.py:68-92 | logout reads no credentials: its answer and effect depend on the refresh token alone |
| Accounts.AnonymousAdmitted | project/backend/account/views.py:22-74 | register, the reset request, the reset confirmation and logout admit anonymous callers |
| Accounts.HandleKeepsValid | project/backend/account/views.py:22-92 | every request keeps keys below the counter and emails unique |
| Accounts.EmailsKeptKeepsValid | project/backend/account/views.py:28-65 | a step that keeps the keys, the counter and every email (profile update, password change, reset confirmation) keeps the state valid |
| Accounts.RegisterKeepsValid | project/backend/account/serializers.py:12-28 | registration keeps keys below the counter and emails unique, because a taken email is refused |
| Accounts.ProfileIsOwn | project/backend/account/views.py:28-33 | me reads and writes only the requester's record; the email is read-only, the update succeeds iff the name holds no NUL, and the name is replaced when supplied |
| Accounts.WrongOldPasswordRejected | project/backend/account/serializers.py:42-46 | a wrong old password is 400 on that field and the hash stays |
| Accounts.NewPasswordChecks | project/backend/account/serializers.py:52-56 | after a successful change the old password matched, the new one checks, the email stays and no other user is touched; a failure changes nothing |
| Accounts.ResetRequestSilent | project/backend/account/serializers.py:59-75 | the reply is the same whether or not the email is registered; one mail with the user's uid and token is sent iff a user has it; users and blacklist are untouched |
| Accounts.ResetRoundTrip | project/backend/account/serializers.py:62-100 | the mailed uid and token, confirmed with an acceptable password, reset that very user's password and nobody else's |
| Accounts.BadTokenRejected | project/backend/account/serializers.py:95-96 | a token that does not check for the named user is 400 and nothing changes |
| Accounts.LogoutTwice | project/backend/account/views.py:76-92 | logging out with one refresh token is 205 the first time and 400 "blacklisted or invalid" the second |
| Accounts.ConfirmResetSucceedsIff | project/backend/account/serializers.py:87-100 | confirmation succeeds iff the fields pass, the uid names a stored user and the token checks for that user; then only that user's hash changes |
| Accounts.GarbledUidIsServerError | project/backend/account/serializers.py:92-93 | the uid "!" names no user: 500 as written and 400 when corrected |
| Accounts.UnknownUserIsServerError | project/backend/account/serializers.py:93 | a well-formed uid for a key no user holds is 500 as written and 400 when corrected |

## Left out

- HTTP parsing, routing, serialization to JSON, and response rendering are left out. Requests are datatypes and replies are a status and a body.
- Timestamps (`created_at`, `updated_at`, `uploaded_at`) are left out: they depend on the clock.
- Concurrency is left out, including two saves racing for one slug. Each request is atomic in the model. `@transaction.atomic` is reflected only in that a failed request changes nothing.
- `slugify` is a parameter. The model uses nothing about it.
- The `max_length=255` of the slug column is not checked on the allocated slug. A `-k` suffix can push a 255-character slugified title past it, and the database behaviour in that case is outside the model.
- A document whose slug is empty cannot be reached by a detail route, because the router matches a non-empty slug segment. The model looks such slugs up like any other, so `DocumentApi.OwnerUpdate` states slug preservation only for non-empty slugs.
- The framework's own file-field checks are left out: the empty-file check, the 100-character limit on the file name, and storage-side renaming. Storage-side renaming covers name sanitisation and the random suffix added on collisions, so the stored path is the one `document_file_path` returns.
- Unicode case mapping is left out. `Uploads.Lower` lowers ASCII letters only. The whitelist verdict agrees with Python's full `str.lower()`: the only non-ASCII character that lowers into ASCII is KELVIN SIGN, which becomes 'k', and no whitelisted extension contains 'k'.
- OPTIONS metadata responses are left out. PUT and PATCH on files are also left out: the model covers list, upload, retrieve and delete of files.
- DRF whitespace trimming of character fields is left out. A field that is blank after trimming is modelled by the empty string only.
- The `name` field of the user model is left out beyond being stored and returned: the user model (`account/models.py`) is not part of this model. The same file decides the key type. The model assumes an auto-increment integer key, which `force_bytes(user.pk)` renders in decimal. It also decides email uniqueness, which the model assumes: the registration serializer then rejects a stored email.
- Email normalisation by the user manager is left out. The reset lookup matches the stored email exactly.
- Issuing JWTs and refreshing them (`token/`, `token/refresh/`) are left out, as are token signatures and expiry. `Services.refreshId` says only whether a refresh token verifies and what its unique id is.
- The reset token's time window and the fact that it expires once the password changes are left out. `TokenChecks` states only that a fresh token checks.
- Hash salting is left out. `Services.makePassword` is a function.
- Mail delivery failures are left out, and so is the absolute URL of the reset page. The outbox records recipient, uid and token.
- ResetLink.DecodeUid: stricter than Python's decoder. Python's non-validating base64 decoder discards characters outside its alphabet, so "M!Q" decodes to b"1" and names user 1. It also accepts the standard alphabet's '+' and '/' as 62 and 63, so "M+" decodes to b"3" and names user 3, and it accepts stray padding. `int()` accepts surrounding whitespace, a sign, underscores between digits and non-ASCII decimal digits. The model names no user for any of these uids, so for them both confirmations answer as for an undecodable uid. Unused low bits in the last character are ignored, as in Python: "MR" decodes to b"1" in both.
- DocumentApi.UploadErrors: compares document keys as exact text. Django's UUID fields also accept upper-case, unhyphenated, braced and `urn:uuid:` spellings of a stored key, and the storage path is built from the canonical `str(uuid)`. The model treats a key as its canonical lower-case hyphenated text, so for another spelling it reports the document field where the service would resolve the document.
- DocumentApi.FindFile: compares file keys as exact text, for the same reason; another spelling of a stored file's key is 404 in the model where the service would find the file.
- Deleting users, and so cascading from users to their documents, is left out: no endpoint does it.
- Accounts.HandleKeepsValid: states key bounds and email uniqueness only. Hashes and names carry no invariant.

## Findings

| source | as written | input that shows it | evidently intended | confidence | as-written member | corrected member |
|---|---|---|---|---|---|---|
| project/backend/account/serializers.py:92-93 | The uid is decoded with `urlsafe_base64_decode` and the user is fetched with `CustomUser.objects.get`, outside any handler. A uid that decodes to no digits makes the lookup raise ValueError, and a key no user holds raises DoesNotExist. Neither is a validation error, so the reply is 500. | uid "!" with any non-blank token and an acceptable new password: the decoder drops the "!" and yields b"", and `get(pk="")` raises ValueError. Or the uid of the next unused key | a 400 validation error, like a token that fails the check, whose message already reads "invalid token or user" | not executed | Accounts.ConfirmResetAsWritten (shown by Accounts.GarbledUidIsServerError and Accounts.UnknownUserIsServerError) | Accounts.ConfirmReset (Accounts.ConfirmResetSucceedsIff, Accounts.ResetRoundTrip) |

The handlers use the corrected confirmation.

Two more places where the implementation and its description differ:

- Logout with a blank `refresh` field is a field-validation error from the serializer. It escapes the view's `except` clause as a 400 with a field-error body, not as the "blacklisted or invalid" detail. `Accounts.Revoke` models this.
- Credentials that the authenticator rejects give 401 even on the register and password-reset endpoints, which allow anyone. This happens because authentication runs before the permission classes. Logout is the exception: it inherits the token views' empty list of authenticators, so it never reads credentials. `Accounts.Handle`, `Accounts.LogoutIgnoresCredentials` and `Permissions.CheckPermissions` model this.
