/**
 * The two view sets: `DocumentViewSet` (authenticated, owner-or-read-only,
 * looked up by slug, creator stamped on create) and `DocumentFileViewSet`
 * (authenticated only, uploader stamped on create), with the serializers'
 * field checks in between.  Every request maps a store to a reply and a new
 * store.
 */
module DocumentApi {
  import opened Wrappers
  import opened Http
  import opened Permissions
  import opened Documents
  import Slugs
  import Uploads

  /** Writable serializer fields as they arrive; `None` when absent from the payload. */
  datatype DocFields = DocFields(title: Option<string>, description: Option<string>, category: Option<string>)

  /** Field a validation error is reported under. */
  datatype Field = Title | Description | Category | DocumentRef | File

  /** A required, non-blank text field of bounded length without NUL; absence is fine on a partial update. */
  predicate TextFieldOk(v: Option<string>, maxLength: nat, partial: bool) {
    if v.None? then partial else 1 <= |v.value| <= maxLength && NoNullChars(v.value)
  }

  /** The description may be absent or blank, but holds no NUL. */
  predicate DescriptionOk(v: Option<string>) {
    v.None? || NoNullChars(v.value)
  }

  /**
   * Document serializer checks, collected per field: title (at most 255
   * characters) and category (at most 100) are required and may not be
   * blank; description may be absent or blank; none may hold a NUL.
   */
  function DocFieldErrors(f: DocFields, partial: bool): (errs: set<Field>)
    ensures Title in errs <==> !TextFieldOk(f.title, 255, partial)
    ensures Description in errs <==> !DescriptionOk(f.description)
    ensures Category in errs <==> !TextFieldOk(f.category, 100, partial)
    ensures errs <= {Title, Description, Category}
  {
    (if TextFieldOk(f.title, 255, partial) then {} else {Title})
    + (if DescriptionOk(f.description) then {} else {Description})
    + (if TextFieldOk(f.category, 100, partial) then {} else {Category})
  }

  datatype Action =
    | ListDocuments
    | CreateDocument(fields: DocFields, newId: string)
    | RetrieveDocument(slug: string)
    | UpdateDocument(slug: string, fields: DocFields, partial: bool)
    | DestroyDocument(slug: string)
    | ListFiles
    | UploadFile(document: string, upload: Uploads.Upload, newId: string)
    | RetrieveFile(id: string)
    | DestroyFile(id: string)
  {
    /** The HTTP method the router maps the action to. */
    function Method(): Method {
      match this
      case ListDocuments => GET
      case CreateDocument(_, _) => POST
      case RetrieveDocument(_) => GET
      case UpdateDocument(_, _, partial) => if partial then PATCH else PUT
      case DestroyDocument(_) => DELETE
      case ListFiles => GET
      case UploadFile(_, _, _) => POST
      case RetrieveFile(_) => GET
      case DestroyFile(_) => DELETE
    }

    predicate OnDocuments() {
      ListDocuments? || CreateDocument? || RetrieveDocument? || UpdateDocument? || DestroyDocument?
    }

    predicate Mutates() {
      !IsSafe(Method())
    }
  }

  /** The actions on a safe method are exactly the lists and the retrieves. */
  lemma SafeActions(a: Action)
    ensures !a.Mutates() <==> a.ListDocuments? || a.RetrieveDocument? || a.ListFiles? || a.RetrieveFile?
  {
  }

  datatype Body =
    | Empty
    | DocumentList(docs: seq<Document>)
    | DocumentBody(doc: Document)
    | FileList(files: seq<DocumentFile>)
    | FileBody(file: DocumentFile)
    | FieldErrors(fields: set<Field>)

  datatype Reply = Reply(status: int, body: Body)

  datatype Outcome = Outcome(reply: Reply, store: Store)

  function Fail(s: Store, status: int): Outcome {
    Outcome(Reply(status, Empty), s)
  }

  /** The document a detail route names, once its object permissions passed; otherwise 404 or the refusal. */
  function DocumentFor(s: Store, p: Principal, slug: string, m: Method): (r: Result<nat, int>)
    ensures r.Ok? ==> r.value < |s.docs| && s.docs[r.value].slug == slug
    ensures r.Ok? ==> CheckObjectPermissions(DocumentPermissions, p, m, s.docs[r.value].createdBy) == Allowed
    ensures r.Err? && slug !in SlugsOf(s.docs) ==> r.error == NOT_FOUND
    ensures SlugsDistinct(s.docs) ==> forall i :: 0 <= i < |s.docs| && s.docs[i].slug == slug ==>
      var d := CheckObjectPermissions(DocumentPermissions, p, m, s.docs[i].createdBy);
      (d == Allowed ==> r == Ok(i)) && (d != Allowed ==> r == Err(d.Status()))
  {
    match FindSlug(s.docs, slug)
    case None => Err(NOT_FOUND)
    case Some(i) =>
      var d := CheckObjectPermissions(DocumentPermissions, p, m, s.docs[i].createdBy);
      if d != Allowed then Err(d.Status()) else Ok(i)
  }

  /** The document after an update: supplied fields replace the old values, the slug follows the title. */
  function Updated(docs: seq<Document>, doc: Document, f: DocFields, slugify: string -> string): Document {
    doc.(title := f.title.GetOr(doc.title),
         description := f.description.GetOr(doc.description),
         category := f.category.GetOr(doc.category),
         slug := RetitledSlug(docs, doc, f.title, slugify))
  }

  /** A document request of an authenticated caller: reads and failures change nothing, and only a delete touches files. */
  function HandleDocument(s: Store, u: UserId, a: Action, slugify: string -> string): (o: Outcome)
    requires Valid(s) && a.OnDocuments()
    ensures o.reply.status >= 400 ==> o.store == s
    ensures !a.Mutates() ==> o.store == s
    ensures !a.DestroyDocument? ==> o.store.files == s.files
  {
    SafeActions(a);
    var p := Authenticated(u);
    match a
    case ListDocuments => Outcome(Reply(OK, DocumentList(s.docs)), s)
    case CreateDocument(f, newId) =>
      var errs := DocFieldErrors(f, false);
      if errs != {} then Outcome(Reply(BAD_REQUEST, FieldErrors(errs)), s)
      else if newId in DocIds(s.docs) then Fail(s, SERVER_ERROR)
      else
        var doc := Document(newId, f.title.value, "", f.description.GetOr(""), f.category.value, u);
        (match Save(s.docs, doc, slugify)
         case Err(_) => Fail(s, SERVER_ERROR)
         case Ok(docs') => Outcome(Reply(CREATED, DocumentBody(Stored(s.docs, doc, slugify))), s.(docs := docs')))
    case RetrieveDocument(slug) =>
      (match DocumentFor(s, p, slug, GET)
       case Err(status) => Fail(s, status)
       case Ok(i) => Outcome(Reply(OK, DocumentBody(s.docs[i])), s))
    case UpdateDocument(slug, f, partial) =>
      (match DocumentFor(s, p, slug, a.Method())
       case Err(status) => Fail(s, status)
       case Ok(i) =>
         var errs := DocFieldErrors(f, partial);
         if errs != {} then Outcome(Reply(BAD_REQUEST, FieldErrors(errs)), s)
         else
           var doc := Updated(s.docs, s.docs[i], f, slugify);
           (match Save(s.docs, doc, slugify)
            case Err(_) => Fail(s, SERVER_ERROR)
            case Ok(docs') => Outcome(Reply(OK, DocumentBody(Stored(s.docs, doc, slugify))), s.(docs := docs'))))
    case DestroyDocument(slug) =>
      match DocumentFor(s, p, slug, DELETE)
      case Err(status) => Fail(s, status)
      case Ok(i) =>
        Outcome(Reply(NO_CONTENT, Empty),
                Store(RemoveAt(s.docs, i), FilesNotOf(s.files, s.docs[i].id)))
  }

  function FindFile(files: seq<DocumentFile>, id: string): (r: Option<nat>)
    ensures r.Some? ==> r.value < |files| && files[r.value].id == id
    ensures r.None? ==> forall k :: 0 <= k < |files| ==> files[k].id != id
  {
    if |files| == 0 then None
    else if files[0].id == id then Some(0)
    else match FindFile(files[1..], id)
      case None => None
      case Some(k) => Some(k + 1)
  }

  /** Field errors of an upload: the document must exist and the file must pass `validate_file`. */
  function UploadErrors(s: Store, document: string, upload: Uploads.Upload): (errs: set<Field>)
    ensures DocumentRef in errs <==> document !in DocIds(s.docs)
    ensures File in errs <==> Uploads.ValidateFile(upload).Err?
    ensures errs <= {DocumentRef, File}
  {
    (if document in DocIds(s.docs) then {} else {DocumentRef})
    + (if Uploads.ValidateFile(upload).Ok? then {} else {File})
  }

  /** A file request of an authenticated caller: documents are never touched; reads and failures change nothing. */
  function HandleFile(s: Store, u: UserId, a: Action): (o: Outcome)
    requires Valid(s) && !a.OnDocuments()
    ensures o.reply.status >= 400 ==> o.store == s
    ensures !a.Mutates() ==> o.store == s
    ensures o.store.docs == s.docs
  {
    SafeActions(a);
    match a
    case ListFiles => Outcome(Reply(OK, FileList(s.files)), s)
    case UploadFile(document, upload, newId) =>
      var errs := UploadErrors(s, document, upload);
      if errs != {} then Outcome(Reply(BAD_REQUEST, FieldErrors(errs)), s)
      else if exists k :: 0 <= k < |s.files| && s.files[k].id == newId then Fail(s, SERVER_ERROR)
      else
        var file := DocumentFile(newId, document, Uploads.DocumentFilePath(Some(document), upload.name), Some(u));
        Outcome(Reply(CREATED, FileBody(file)), s.(files := s.files + [file]))
    case RetrieveFile(id) =>
      (match FindFile(s.files, id)
       case None => Fail(s, NOT_FOUND)
       case Some(k) => Outcome(Reply(OK, FileBody(s.files[k])), s))
    case DestroyFile(id) =>
      match FindFile(s.files, id)
      case None => Fail(s, NOT_FOUND)
      case Some(k) => Outcome(Reply(NO_CONTENT, Empty), s.(files := RemoveAt(s.files, k)))
  }

  /**
   * One request against either view set: the view-level permission check
   * runs first and answers 401 to anyone not authenticated; a failed request
   * leaves the store as it was.
   */
  function Handle(s: Store, p: Principal, a: Action, slugify: string -> string): (o: Outcome)
    requires Valid(s)
    ensures !p.Authenticated? ==> o == Fail(s, UNAUTHORIZED)
    ensures o.reply.status >= 400 ==> o.store == s
  {
    var perms := if a.OnDocuments() then DocumentPermissions else FilePermissions;
    var d := CheckPermissions(perms, p);
    if d != Allowed then
      Fail(s, d.Status())
    else
      if a.OnDocuments() then HandleDocument(s, p.user, a, slugify) else HandleFile(s, p.user, a)
  }

  /** Both permission lists let every authenticated caller through to the handler. */
  lemma AuthenticatedRouted(s: Store, u: UserId, a: Action, slugify: string -> string)
    requires Valid(s)
    ensures Handle(s, Authenticated(u), a, slugify)
      == if a.OnDocuments() then HandleDocument(s, u, a, slugify) else HandleFile(s, u, a)
  {
  }

  lemma RemoveDocumentKeepsValid(s: Store, i: nat)
    requires Valid(s) && i < |s.docs|
    ensures Valid(Store(RemoveAt(s.docs, i), FilesNotOf(s.files, s.docs[i].id)))
  {
    var docs := RemoveAt(s.docs, i);
    var files := FilesNotOf(s.files, s.docs[i].id);
    RemoveAtKeepsDocsDistinct(s.docs, i);
    RemoveAtMembers(s.docs, i);
    forall k | 0 <= k < |files|
      ensures files[k].document in DocIds(docs)
    {
      assert files[k] in files;
      var j :| 0 <= j < |s.files| && s.files[j] == files[k];
      var n :| 0 <= n < |s.docs| && s.docs[n].id == files[k].document;
      assert s.docs[n] in docs;
    }
  }


  lemma HandleDocumentKeepsValid(s: Store, u: UserId, a: Action, slugify: string -> string)
    requires Valid(s) && a.OnDocuments()
    ensures Valid(HandleDocument(s, u, a, slugify).store)
  {
    var o := HandleDocument(s, u, a, slugify);
    if o.store != s && a.DestroyDocument? {
      var i := DocumentFor(s, Authenticated(u), a.slug, DELETE).value;
      RemoveDocumentKeepsValid(s, i);
    }
  }

  lemma HandleFileKeepsValid(s: Store, u: UserId, a: Action)
    requires Valid(s) && !a.OnDocuments()
    ensures Valid(HandleFile(s, u, a).store)
  {
    var o := HandleFile(s, u, a);
    if o.store != s {
      match a {
        case DestroyFile(id) =>
          var k := FindFile(s.files, id).value;
          assert o.store == s.(files := RemoveAt(s.files, k));
          RemoveFileKeepsValid(s, k);
        case UploadFile(document, upload, newId) =>
          assert o.store == s.(files := s.files + [o.reply.body.file]);
          AddFileKeepsValid(s, o.reply.body.file);
        case _ =>
      }
    }
  }

  /** Deleting one file keeps file keys distinct and every remaining reference valid. */
  lemma RemoveFileKeepsValid(s: Store, k: nat)
    requires Valid(s) && k < |s.files|
    ensures Valid(s.(files := RemoveAt(s.files, k)))
  {
    RemoveAtKeepsFilesDistinct(s.files, k);
    RemoveAtMembers(s.files, k);
    var files := RemoveAt(s.files, k);
    forall j | 0 <= j < |files|
      ensures files[j].document in DocIds(s.docs)
    {
      assert files[j] == s.files[if j < k then j else j + 1];
    }
  }

  /** Appending a file with a fresh key that points at a stored document keeps the store valid. */
  lemma AddFileKeepsValid(s: Store, file: DocumentFile)
    requires Valid(s) && file.document in DocIds(s.docs)
    requires forall k :: 0 <= k < |s.files| ==> s.files[k].id != file.id
    ensures Valid(s.(files := s.files + [file]))
  {
    var files := s.files + [file];
    assert files[|s.files|] == file;
    forall a, b | 0 <= a < b < |files|
      ensures files[a].id != files[b].id
    {
      assert files[a] == s.files[a];
    }
  }

  /** Every request keeps the database constraints: unique keys and slugs, and no file without its document. */
  lemma HandleKeepsValid(s: Store, p: Principal, a: Action, slugify: string -> string)
    requires Valid(s)
    ensures Valid(Handle(s, p, a, slugify).store)
  {
    if p.Authenticated? {
      if a.OnDocuments() {
        HandleDocumentKeepsValid(s, p.user, a, slugify);
      } else {
        HandleFileKeepsValid(s, p.user, a);
      }
    }
  }

  /** A created document belongs to the requester and carries a slug no stored document had. */
  lemma CreateStampsCreator(s: Store, u: UserId, f: DocFields, newId: string, slugify: string -> string)
    requires Valid(s)
    ensures var o := Handle(s, Authenticated(u), CreateDocument(f, newId), slugify);
      o.reply.status == CREATED ==>
        && o.reply.body.DocumentBody?
        && o.reply.body.doc.createdBy == u
        && o.reply.body.doc.id == newId
        && o.reply.body.doc.slug == Slugs.Allocate(slugify(f.title.value), SlugsOf(s.docs))
        && o.reply.body.doc.slug !in SlugsOf(s.docs)
        && o.reply.body.doc in o.store.docs
        && (forall x :: x in o.store.docs <==> x == o.reply.body.doc || x in s.docs)
  {
  }

  /** Creation succeeds exactly when both fields pass and the fresh key is unused: the slug never collides. */
  lemma CreateSucceeds(s: Store, u: UserId, f: DocFields, newId: string, slugify: string -> string)
    requires Valid(s)
    ensures Handle(s, Authenticated(u), CreateDocument(f, newId), slugify).reply.status == CREATED
      <==> DocFieldErrors(f, false) == {} && newId !in DocIds(s.docs)
  {
  }

  /**
   * An authenticated caller who does not own the document is refused an
   * update or a delete with 403, and nothing changes.
   */
  lemma NonOwnerMutationForbidden(s: Store, u: UserId, a: Action, slugify: string -> string)
    requires Valid(s)
    requires a.UpdateDocument? || a.DestroyDocument?
    requires exists i :: 0 <= i < |s.docs| && s.docs[i].slug == a.slug && s.docs[i].createdBy != u
    ensures Handle(s, Authenticated(u), a, slugify) == Fail(s, FORBIDDEN)
  {
    var i :| 0 <= i < |s.docs| && s.docs[i].slug == a.slug && s.docs[i].createdBy != u;
    var k := FindSlug(s.docs, a.slug).value;
    assert k == i;
    Permissions.MutationOnlyByOwner(u, a.Method(), s.docs[i].createdBy);
  }

  /** A slug no document has is answered with 404 on every detail route, once the caller is authenticated. */
  lemma UnknownSlugNotFound(s: Store, u: UserId, a: Action, slugify: string -> string)
    requires Valid(s)
    requires a.RetrieveDocument? || a.UpdateDocument? || a.DestroyDocument?
    requires forall i :: 0 <= i < |s.docs| ==> s.docs[i].slug != a.slug
    ensures Handle(s, Authenticated(u), a, slugify) == Fail(s, NOT_FOUND)
  {
    assert a.slug !in SlugsOf(s.docs);
  }

  /** The owner's delete removes exactly that document and its files; every other row stays. */
  lemma OwnerDestroyRemovesExactly(s: Store, u: UserId, slug: string, slugify: string -> string)
    requires Valid(s)
    requires exists i :: 0 <= i < |s.docs| && s.docs[i].slug == slug && s.docs[i].createdBy == u
    ensures var o := Handle(s, Authenticated(u), DestroyDocument(slug), slugify);
      && o.reply.status == NO_CONTENT
      && (forall x :: x in o.store.docs <==> x in s.docs && x.slug != slug)
      && (forall f :: f in o.store.files <==> f in s.files && !(exists i :: 0 <= i < |s.docs| && s.docs[i].slug == slug && s.docs[i].id == f.document))
  {
    var i :| 0 <= i < |s.docs| && s.docs[i].slug == slug && s.docs[i].createdBy == u;
    AuthenticatedRouted(s, u, DestroyDocument(slug), slugify);
    OwnerDestroyOutcome(s, u, i, slugify);
    RemoveSlugRow(s.docs, i);
    forall f: DocumentFile
      ensures (exists j :: 0 <= j < |s.docs| && s.docs[j].slug == slug && s.docs[j].id == f.document) <==> f.document == s.docs[i].id
    {
      if exists j :: 0 <= j < |s.docs| && s.docs[j].slug == slug && s.docs[j].id == f.document {
        var j :| 0 <= j < |s.docs| && s.docs[j].slug == slug && s.docs[j].id == f.document;
        assert j == i;
      }
    }
  }

  /** The owner's delete of row i drops that row and the files that point at it. */
  lemma OwnerDestroyOutcome(s: Store, u: UserId, i: nat, slugify: string -> string)
    requires Valid(s) && i < |s.docs| && s.docs[i].createdBy == u
    ensures HandleDocument(s, u, DestroyDocument(s.docs[i].slug), slugify)
      == Outcome(Reply(NO_CONTENT, Empty), Store(RemoveAt(s.docs, i), FilesNotOf(s.files, s.docs[i].id)))
  {
    assert FindSlug(s.docs, s.docs[i].slug).value == i;
    Permissions.OwnerAllowed(u, DELETE);
  }

  /**
   * With unique slugs, removing the row holding a slug keeps exactly the rows
   * with another slug, and that row is the only one the slug names.
   */
  lemma RemoveSlugRow(docs: seq<Document>, i: nat)
    requires SlugsDistinct(docs) && i < |docs|
    ensures forall x :: x in RemoveAt(docs, i) <==> x in docs && x.slug != docs[i].slug
    ensures forall j :: 0 <= j < |docs| && docs[j].slug == docs[i].slug ==> j == i
  {
    RemoveAtMembers(docs, i);
    var r := RemoveAt(docs, i);
    forall x | x in r
      ensures x.slug != docs[i].slug
    {
      var k :| 0 <= k < |r| && r[k] == x;
      assert x == docs[if k < i then k else k + 1];
    }
  }

  /** Listing shows every caller every document: ownership only guards mutation. */
  lemma ListShowsAll(s: Store, u: UserId, slugify: string -> string)
    requires Valid(s)
    ensures Handle(s, Authenticated(u), ListDocuments, slugify) == Outcome(Reply(OK, DocumentList(s.docs)), s)
  {
  }

  /** Any authenticated caller may read any document, whoever created it. */
  lemma RetrieveOpenToAll(s: Store, u: UserId, slugify: string -> string, i: nat)
    requires Valid(s) && i < |s.docs|
    ensures Handle(s, Authenticated(u), RetrieveDocument(s.docs[i].slug), slugify) == Outcome(Reply(OK, DocumentBody(s.docs[i])), s)
  {
    var k := FindSlug(s.docs, s.docs[i].slug).value;
    assert k == i;
    Permissions.SafeMethodsAllowed(u, GET, s.docs[i].createdBy);
  }

  /**
   * The owner's valid update always succeeds: supplied fields replace the old
   * values, absent ones stay, and every other row is kept.  The slug it stores
   * is the old one when the title stays, and otherwise a slug no other
   * document holds, derived from the new title.
   */
  lemma OwnerUpdate(s: Store, u: UserId, i: nat, f: DocFields, partial: bool, slugify: string -> string)
    requires Valid(s) && i < |s.docs| && s.docs[i].createdBy == u
    requires DocFieldErrors(f, partial) == {}
    ensures var o := Handle(s, Authenticated(u), UpdateDocument(s.docs[i].slug, f, partial), slugify);
      && o.reply.status == OK
      && o.reply.body.DocumentBody?
      && o.reply.body.doc.id == s.docs[i].id
      && o.reply.body.doc.createdBy == u
      && o.reply.body.doc in o.store.docs
      && o.reply.body.doc.slug !in SlugsOfOthers(s.docs, s.docs[i].id)
      && ((f.title.None? || f.title.value == s.docs[i].title) && s.docs[i].slug != "" ==>
            o.reply.body.doc.slug == s.docs[i].slug)
      && (f.title.Some? && f.title.value != s.docs[i].title && (slugify(f.title.value) != "" || s.docs[i].slug != "") ==>
            o.reply.body.doc.slug == Slugs.Allocate(slugify(f.title.value), SlugsOfOthers(s.docs, s.docs[i].id)))
      && o.reply.body.doc.title == f.title.GetOr(s.docs[i].title)
      && o.reply.body.doc.description == f.description.GetOr(s.docs[i].description)
      && o.reply.body.doc.category == f.category.GetOr(s.docs[i].category)
      && (forall x :: x in o.store.docs <==> x == o.reply.body.doc || (x in s.docs && x.id != s.docs[i].id))
      && o.store.files == s.files
  {
    AuthenticatedRouted(s, u, UpdateDocument(s.docs[i].slug, f, partial), slugify);
    OwnerUpdateSaves(s, u, i, f, partial, slugify);
    var d := Updated(s.docs, s.docs[i], f, slugify);
    var stored := Stored(s.docs, d, slugify);
    UpdatedRow(s.docs, i, f, slugify);
    var o := HandleDocument(s, u, UpdateDocument(s.docs[i].slug, f, partial), slugify);
    assert o.reply.body.doc == stored;
    assert o.store == s.(docs := Save(s.docs, d, slugify).value);
  }

  /** The owner's valid update reaches `Document.save`, which succeeds. */
  lemma OwnerUpdateSaves(s: Store, u: UserId, i: nat, f: DocFields, partial: bool, slugify: string -> string)
    requires Valid(s) && i < |s.docs| && s.docs[i].createdBy == u
    requires DocFieldErrors(f, partial) == {}
    ensures var d := Updated(s.docs, s.docs[i], f, slugify);
      && Save(s.docs, d, slugify).Ok?
      && HandleDocument(s, u, UpdateDocument(s.docs[i].slug, f, partial), slugify)
         == Outcome(Reply(OK, DocumentBody(Stored(s.docs, d, slugify))), s.(docs := Save(s.docs, d, slugify).value))
  {
    var doc := s.docs[i];
    assert FindSlug(s.docs, doc.slug).value == i;
    Permissions.OwnerAllowed(u, if partial then PATCH else PUT);
    var d := Updated(s.docs, doc, f, slugify);
    UpdatedRow(s.docs, i, f, slugify);
    assert !SlugTakenByOther(s.docs, Stored(s.docs, d, slugify).slug, d.id);
  }

  /**
   * The row an update stores: the supplied fields, the old key and creator,
   * and a slug no other document holds, re-derived only when the title changes.
   */
  lemma UpdatedRow(docs: seq<Document>, i: nat, f: DocFields, slugify: string -> string)
    requires IdsDistinct(docs) && SlugsDistinct(docs) && i < |docs|
    ensures var r := Stored(docs, Updated(docs, docs[i], f, slugify), slugify);
      && r.id == docs[i].id
      && r.createdBy == docs[i].createdBy
      && r.title == f.title.GetOr(docs[i].title)
      && r.description == f.description.GetOr(docs[i].description)
      && r.category == f.category.GetOr(docs[i].category)
      && r.slug !in SlugsOfOthers(docs, docs[i].id)
      && ((f.title.None? || f.title.value == docs[i].title) && docs[i].slug != "" ==> r.slug == docs[i].slug)
      && (f.title.Some? && f.title.value != docs[i].title && (slugify(f.title.value) != "" || docs[i].slug != "") ==>
            r.slug == Slugs.Allocate(slugify(f.title.value), SlugsOfOthers(docs, docs[i].id)))
  {
    var doc := docs[i];
    var d := Updated(docs, doc, f, slugify);
    if d.slug == "" {
      assert SlugsOfOthers(docs, doc.id) <= SlugsOf(docs);
      if doc.slug != "" && f.title.Some? && f.title.value != doc.title {
        EmptySlugKept(docs, i, d, slugify);
      }
    } else if f.title.None? || f.title.value == doc.title {
      forall k | 0 <= k < |docs| && docs[k].id != doc.id
        ensures docs[k].slug != doc.slug
      {
        assert k != i;
      }
    }
  }

  /**
   * A retitled document whose new title slugifies to nothing keeps the empty
   * slug when `Document.save` runs: its own old slug was not empty, so no row
   * holds the empty one.
   */
  lemma EmptySlugKept(docs: seq<Document>, i: nat, d: Document, slugify: string -> string)
    requires IdsDistinct(docs) && i < |docs| && docs[i].slug != ""
    requires d.id == docs[i].id && d.slug == "" && "" !in SlugsOfOthers(docs, d.id) && slugify(d.title) == ""
    ensures Stored(docs, d, slugify).slug == ""
  {
    assert "" !in SlugsOf(docs) by {
      forall k | 0 <= k < |docs|
        ensures docs[k].slug != ""
      {
        if k != i {
          assert docs[k].slug in SlugsOfOthers(docs, d.id);
        }
      }
    }
  }

  /** An accepted upload records the uploader and is stored under its document's directory. */
  lemma UploadStampsUploader(s: Store, u: UserId, document: string, upload: Uploads.Upload, newId: string, slugify: string -> string)
    requires Valid(s)
    ensures var o := Handle(s, Authenticated(u), UploadFile(document, upload, newId), slugify);
      o.reply.status == CREATED ==>
        && o.reply.body.FileBody?
        && o.reply.body.file.uploadedBy == Some(u)
        && o.reply.body.file.document == document
        && (Uploads.IsUuidText(document) ==>
              Uploads.ParseFilePath(o.reply.body.file.path) == Some((Some(document), upload.name)))
        && o.store.files == s.files + [o.reply.body.file]
  {
    var o := Handle(s, Authenticated(u), UploadFile(document, upload, newId), slugify);
    if o.reply.status == CREATED && Uploads.IsUuidText(document) {
      Uploads.ParseDocumentFilePath(Some(document), upload.name);
    }
  }

  /** An upload is accepted exactly when the document exists, the file passes `validate_file`, and the fresh key is unused. */
  lemma UploadAccepted(s: Store, u: UserId, document: string, upload: Uploads.Upload, newId: string, slugify: string -> string)
    requires Valid(s)
    ensures Handle(s, Authenticated(u), UploadFile(document, upload, newId), slugify).reply.status == CREATED <==>
      && document in DocIds(s.docs)
      && Uploads.ValidateFile(upload).Ok?
      && forall k :: 0 <= k < |s.files| ==> s.files[k].id != newId
  {
  }

  /** Files carry no ownership check: any authenticated caller may delete any file. */
  lemma AnyoneMayDeleteFile(s: Store, u: UserId, k: nat, slugify: string -> string)
    requires Valid(s) && k < |s.files|
    ensures var o := Handle(s, Authenticated(u), DestroyFile(s.files[k].id), slugify);
      && o.reply.status == NO_CONTENT
      && |o.store.files| == |s.files| - 1
      && s.files[k] !in o.store.files
      && (forall j :: 0 <= j < |s.files| && j != k ==> s.files[j] in o.store.files)
      && (forall f :: f in o.store.files ==> f in s.files)
      && o.store.docs == s.docs
  {
    assert FindFile(s.files, s.files[k].id).value == k;
    var o := Handle(s, Authenticated(u), DestroyFile(s.files[k].id), slugify);
    assert o.store.files == RemoveAt(s.files, k);
    RemoveAtMembers(s.files, k);
  }
}
