/**
 * The document store and its two REST resources.  `Document.save` gives a
 * document without a slug the first free one derived from its title,
 * `DocumentSerializer.update` re-derives the slug when the title changes, and
 * the view sets put the permission pipeline, the slug lookup and the
 * creator/uploader stamping in front of them.  `slugify` is a parameter.
 */
module Documents {
  import opened Wrappers
  import opened Http
  import Slugs

  /** A row of the document table; `id` is the text of its UUID. */
  datatype Document = Document(id: string, title: string, slug: string, description: string,
                               category: string, createdBy: UserId)

  /** A row of the file table: the document it belongs to, the storage path, the uploader. */
  datatype DocumentFile = DocumentFile(id: string, document: string, path: string, uploadedBy: Option<UserId>)

  datatype Store = Store(docs: seq<Document>, files: seq<DocumentFile>)

  predicate IdsDistinct(docs: seq<Document>) {
    forall i, j :: 0 <= i < j < |docs| ==> docs[i].id != docs[j].id
  }

  /** The `unique=True` constraint on the slug column. */
  predicate SlugsDistinct(docs: seq<Document>) {
    forall i, j :: 0 <= i < j < |docs| ==> docs[i].slug != docs[j].slug
  }

  function DocIds(docs: seq<Document>): set<string> {
    set i | 0 <= i < |docs| :: docs[i].id
  }

  /** What the database guarantees: unique keys, unique slugs, and every file pointing at a stored document. */
  predicate Valid(s: Store) {
    && IdsDistinct(s.docs)
    && SlugsDistinct(s.docs)
    && (forall i, j :: 0 <= i < j < |s.files| ==> s.files[i].id != s.files[j].id)
    && (forall i :: 0 <= i < |s.files| ==> s.files[i].document in DocIds(s.docs))
  }

  function SlugsOf(docs: seq<Document>): set<string> {
    set i | 0 <= i < |docs| :: docs[i].slug
  }

  /** Slugs of every row except the one with key `id` (the `.exclude(pk=instance.pk)` of the update path). */
  function SlugsOfOthers(docs: seq<Document>, id: string): set<string> {
    set i | 0 <= i < |docs| && docs[i].id != id :: docs[i].slug
  }

  /** Position of the document with this slug (`lookup_field = 'slug'`). */
  function FindSlug(docs: seq<Document>, slug: string): (r: Option<nat>)
    ensures r.Some? ==> r.value < |docs| && docs[r.value].slug == slug
    ensures r.None? <==> slug !in SlugsOf(docs)
  {
    if |docs| == 0 then None
    else if docs[0].slug == slug then Some(0)
    else match FindSlug(docs[1..], slug)
      case None =>
        assert SlugsOf(docs) == SlugsOf(docs[1..]) + {docs[0].slug};
        None
      case Some(k) =>
        assert docs[1..][k].slug in SlugsOf(docs);
        Some(k + 1)
  }

  function FindId(docs: seq<Document>, id: string): (r: Option<nat>)
    ensures r.Some? ==> r.value < |docs| && docs[r.value].id == id
    ensures r.None? <==> id !in DocIds(docs)
  {
    if |docs| == 0 then None
    else if docs[0].id == id then Some(0)
    else match FindId(docs[1..], id)
      case None =>
        assert DocIds(docs) == DocIds(docs[1..]) + {docs[0].id};
        None
      case Some(k) =>
        assert docs[1..][k].id in DocIds(docs);
        Some(k + 1)
  }

  /** Writes a row: replaces the row with the same key, or appends it. */
  function Upsert(docs: seq<Document>, d: Document): (r: seq<Document>)
    requires IdsDistinct(docs)
    ensures IdsDistinct(r)
    ensures d in r
    ensures forall x :: x in r <==> x == d || (x in docs && x.id != d.id)
    ensures DocIds(r) == DocIds(docs) + {d.id}
  {
    match FindId(docs, d.id)
    case Some(i) =>
      var r := docs[i := d];
      assert r[i] == d;
      assert forall x :: x in r <==> x == d || (x in docs && x.id != d.id) by {
        forall x
          ensures x in r <==> x == d || (x in docs && x.id != d.id)
        {
          if x in r && x != d {
            var k :| 0 <= k < |r| && r[k] == x;
            assert k != i && docs[k] == x;
          }
          if x in docs && x.id != d.id {
            var k :| 0 <= k < |docs| && docs[k] == x;
            assert r[k] == x;
          }
        }
      }
      assert DocIds(r) == DocIds(docs) + {d.id} by {
        forall x | x in DocIds(docs)
          ensures x in DocIds(r)
        {
          var k :| 0 <= k < |docs| && docs[k].id == x;
          assert r[if k == i then i else k].id == x;
        }
      }
      r
    case None =>
      var r := docs + [d];
      assert DocIds(r) == DocIds(docs) + {d.id} by {
        assert r[|docs|] == d;
        forall x | x in DocIds(docs)
          ensures x in DocIds(r)
        {
          var k :| 0 <= k < |docs| && docs[k].id == x;
          assert r[k].id == x;
        }
      }
      r
  }

  datatype DbError = IntegrityError

  /**
   * The slug `Document.save` stores: a non-empty slug is kept, an empty one
   * becomes the least free candidate derived from the title, every stored
   * slug counting as taken.
   */
  function SavedSlug(docs: seq<Document>, doc: Document, slugify: string -> string): (slug: string)
    ensures doc.slug != "" ==> slug == doc.slug
    ensures doc.slug == "" ==> slug !in SlugsOf(docs) && slugify(doc.title) <= slug
    ensures doc.slug == "" ==> Slugs.IsLeastFree(slugify(doc.title), SlugsOf(docs), slug)
  {
    if doc.slug == "" then
      Slugs.AllocateIsLeastFree(slugify(doc.title), SlugsOf(docs), Slugs.Allocate(slugify(doc.title), SlugsOf(docs)));
      Slugs.Allocate(slugify(doc.title), SlugsOf(docs))
    else doc.slug
  }

  predicate SlugTakenByOther(docs: seq<Document>, slug: string, id: string) {
    exists i :: 0 <= i < |docs| && docs[i].id != id && docs[i].slug == slug
  }

  /** The row `Document.save` writes for doc. */
  function Stored(docs: seq<Document>, doc: Document, slugify: string -> string): Document {
    doc.(slug := SavedSlug(docs, doc, slugify))
  }

  /**
   * `Document.save`: fix the slug, then write the row; the unique slug
   * column rejects a slug already held by another row.
   */
  function Save(docs: seq<Document>, doc: Document, slugify: string -> string): (r: Result<seq<Document>, DbError>)
    requires IdsDistinct(docs)
    ensures r.Ok? ==> IdsDistinct(r.value)
    ensures r.Ok? && SlugsDistinct(docs) ==> SlugsDistinct(r.value)
    ensures doc.slug == "" ==> r.Ok?
    ensures r.Err? <==> SlugTakenByOther(docs, SavedSlug(docs, doc, slugify), doc.id)
    ensures r.Ok? ==> forall x :: x in r.value <==>
      x == Stored(docs, doc, slugify) || (x in docs && x.id != doc.id)
    ensures r.Ok? ==> DocIds(r.value) == DocIds(docs) + {doc.id}
  {
    var row := Stored(docs, doc, slugify);
    if SlugTakenByOther(docs, row.slug, row.id) then Err(IntegrityError)
    else
      var r := Upsert(docs, row);
      assert SlugsDistinct(docs) ==> SlugsDistinct(r) by {
        if SlugsDistinct(docs) {
          UpsertKeepsSlugsDistinct(docs, row);
        }
      }
      Ok(r)
  }

  lemma UpsertKeepsSlugsDistinct(docs: seq<Document>, row: Document)
    requires IdsDistinct(docs) && SlugsDistinct(docs)
    requires !SlugTakenByOther(docs, row.slug, row.id)
    ensures SlugsDistinct(Upsert(docs, row))
  {
    var r := Upsert(docs, row);
    forall i, j | 0 <= i < j < |r|
      ensures r[i].slug != r[j].slug
    {
      assert r[i] in r && r[j] in r;
      if r[i] != row && r[j] != row {
        var a :| 0 <= a < |docs| && docs[a] == r[i];
        var b :| 0 <= b < |docs| && docs[b] == r[j];
        assert a != b;
      } else if r[i] == row && r[j] != row {
        var b :| 0 <= b < |docs| && docs[b] == r[j];
      } else if r[i] != row && r[j] == row {
        var a :| 0 <= a < |docs| && docs[a] == r[i];
      }
    }
  }

  /**
   * The slug `DocumentSerializer.update` assigns: unchanged unless a title is
   * supplied and differs from the current one; then the least free candidate
   * derived from the new title, where only the other rows' slugs count as
   * taken, so a document may win back its own slug.
   */
  function RetitledSlug(docs: seq<Document>, doc: Document, title: Option<string>, slugify: string -> string): (slug: string)
    ensures title.None? || title.value == doc.title ==> slug == doc.slug
    ensures title.Some? && title.value != doc.title ==>
      && slug !in SlugsOfOthers(docs, doc.id)
      && slugify(title.value) <= slug
      && Slugs.IsLeastFree(slugify(title.value), SlugsOfOthers(docs, doc.id), slug)
    // The same slug as the allocation loop computes: the link `Save` and the
    // view-level lemmas rely on.
    ensures title.Some? && title.value != doc.title ==>
      slug == Slugs.Allocate(slugify(title.value), SlugsOfOthers(docs, doc.id))
  {
    if title.Some? && title.value != doc.title then
      Slugs.AllocateIsLeastFree(slugify(title.value), SlugsOfOthers(docs, doc.id),
                                Slugs.Allocate(slugify(title.value), SlugsOfOthers(docs, doc.id)));
      Slugs.Allocate(slugify(title.value), SlugsOfOthers(docs, doc.id))
    else doc.slug
  }

  /** Deletes row i; every other row stays, in order. */
  function RemoveAt<T>(rows: seq<T>, i: nat): (r: seq<T>)
    requires i < |rows|
    ensures |r| == |rows| - 1
    ensures forall k :: 0 <= k < i ==> r[k] == rows[k]
    ensures forall k :: i <= k < |r| ==> r[k] == rows[k + 1]
  {
    rows[..i] + rows[i + 1..]
  }

  /** Removing a row keeps exactly the other rows. */
  lemma RemoveAtMembers<T>(rows: seq<T>, i: nat)
    requires i < |rows|
    ensures forall x :: x in RemoveAt(rows, i) ==> x in rows
    ensures forall k :: 0 <= k < |rows| && k != i ==> rows[k] in RemoveAt(rows, i)
  {
    var r := RemoveAt(rows, i);
    forall k | 0 <= k < |rows| && k != i
      ensures rows[k] in r
    {
      assert r[if k < i then k else k - 1] == rows[k];
    }
  }

  /** Removing a document keeps keys and slugs distinct. */
  lemma RemoveAtKeepsDocsDistinct(docs: seq<Document>, i: nat)
    requires IdsDistinct(docs) && SlugsDistinct(docs) && i < |docs|
    ensures IdsDistinct(RemoveAt(docs, i)) && SlugsDistinct(RemoveAt(docs, i))
  {
    var r := RemoveAt(docs, i);
    forall a, b | 0 <= a < b < |r|
      ensures r[a].id != r[b].id && r[a].slug != r[b].slug
    {
      assert r[a] == docs[if a < i then a else a + 1];
      assert r[b] == docs[if b < i then b else b + 1];
    }
  }

  /** Removing a file keeps file keys distinct. */
  lemma RemoveAtKeepsFilesDistinct(files: seq<DocumentFile>, i: nat)
    requires i < |files|
    requires forall a, b :: 0 <= a < b < |files| ==> files[a].id != files[b].id
    ensures var r := RemoveAt(files, i); forall a, b :: 0 <= a < b < |r| ==> r[a].id != r[b].id
  {
    var r := RemoveAt(files, i);
    forall a, b | 0 <= a < b < |r|
      ensures r[a].id != r[b].id
    {
      assert r[a] == files[if a < i then a else a + 1];
      assert r[b] == files[if b < i then b else b + 1];
    }
  }

  /** The `on_delete=CASCADE` of `DocumentFile.document`: the files of every other document survive. */
  function FilesNotOf(files: seq<DocumentFile>, docId: string): (r: seq<DocumentFile>)
    ensures forall f :: f in r <==> f in files && f.document != docId
    ensures (forall i, j :: 0 <= i < j < |files| ==> files[i].id != files[j].id) ==>
      forall i, j :: 0 <= i < j < |r| ==> r[i].id != r[j].id
  {
    if |files| == 0 then []
    else
      var rest := FilesNotOf(files[1..], docId);
      if files[0].document == docId then
        assert forall f :: f in files[1..] ==> f in files;
        rest
      else
        assert forall f :: f in rest ==> f in files[1..];
        [files[0]] + rest
  }
}
