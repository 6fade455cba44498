/**
 * `uploadWardrobeItem` from firestore/wardrobe.ts: the strictly sequential
 * write of one wardrobe item into two stores.
 *
 *   1. add the item to the user's wardrobe collection (a new document id);
 *   2. derive the file extension and the blob name from that id;
 *   3. stop here when there is no image;
 *   4. put the image blob under `bucket/userId/`;
 *   5. fetch the blob's download URL;
 *   6. patch the wardrobe document with `imageUrl`;
 *   7. add the item's detail record, whose `id` field is `userId-docId`, to the global collection.
 *
 * A failure at any step is caught and logged; nothing written before it is
 * undone. The remote stores are maps held by the class `Stores`; which remote
 * calls fail, and the URL the server hands out, are the `Network` parameter.
 */
module Wardrobe {

  import opened Wrappers

  // ---------------------------------------------------------------------------
  // Documents
  // ---------------------------------------------------------------------------

  /** A field value of a schema-less document. */
  datatype Value =
    | Text(text: string)
    | Number(number: real)
    | TextList(texts: seq<string>)
    | ServerTimestamp  // the `serverTimestamp()` sentinel, resolved by the server

  type Doc = map<string, Value>

  const Name := "name"
  const ClothingType := "clothingType"
  const ClothingCategory := "clothingCategory"
  const SustainabilityScore := "sustainabilityScore"
  const CreatedAt := "createdAt"
  const ImageUrl := "imageUrl"
  const Id := "id"

  /** The fields of `itemData` that the per-user wardrobe document copies. */
  const ItemFields: set<string> := {Name, ClothingType, ClothingCategory, SustainabilityScore}

  /** The per-user wardrobe document as first written: no `imageUrl` yet. */
  function WardrobeEntry(itemData: Doc): (d: Doc)
    requires ItemFields <= itemData.Keys
    ensures d.Keys == ItemFields + {CreatedAt}
    ensures ImageUrl !in d
    ensures forall f :: f in ItemFields ==> d[f] == itemData[f]
    ensures d[CreatedAt] == ServerTimestamp
  {
    map[Name := itemData[Name],
        ClothingType := itemData[ClothingType],
        ClothingCategory := itemData[ClothingCategory],
        SustainabilityScore := itemData[SustainabilityScore],
        CreatedAt := ServerTimestamp]
  }

  /**
   * The global detail record: `id`, `imageUrl` and `createdAt` first, then
   * every field of `itemData` spread over them, so `itemData` wins a clash.
   */
  function DetailEntry(userId: string, docId: string, url: string, itemData: Doc): (d: Doc)
    ensures d.Keys == itemData.Keys + {Id, ImageUrl, CreatedAt}
    ensures forall f :: f in itemData ==> d[f] == itemData[f]
    ensures Id !in itemData ==> d[Id] == Text(DetailId(userId, docId))
    ensures ImageUrl !in itemData ==> d[ImageUrl] == Text(url)
    ensures CreatedAt !in itemData ==> d[CreatedAt] == ServerTimestamp
  {
    map[Id := Text(DetailId(userId, docId)), ImageUrl := Text(url), CreatedAt := ServerTimestamp] + itemData
  }

  /** `update({ imageUrl: url })`: sets that one field and keeps the others. */
  function WithImageUrl(d: Doc, url: string): (r: Doc)
    ensures r.Keys == d.Keys + {ImageUrl} && r[ImageUrl] == Text(url)
    ensures forall f :: f in d && f != ImageUrl ==> r[f] == d[f]
  {
    d[ImageUrl := Text(url)]
  }

  // ---------------------------------------------------------------------------
  // Names derived from the new document id
  // ---------------------------------------------------------------------------

  /** `s.split(sep)` for a one-character separator. */
  function Split(s: string, sep: char): (parts: seq<string>)
    ensures |parts| >= 1
    ensures forall k :: 0 <= k < |parts| ==> sep !in parts[k]
    ensures sep !in s ==> parts == [s]
    ensures sep in s ==> |parts| > 1
  {
    if s == "" then [""]
    else
      var rest := Split(s[1..], sep);
      if s[0] == sep then [""] + rest
      else
        assert sep !in s ==> rest[0] == s[1..] && [s[0]] + s[1..] == s;
        [[s[0]] + rest[0]] + rest[1..]
  }

  /** `parts.join(sep)`, the inverse of `Split`. */
  function Join(parts: seq<string>, sep: char): string
    requires |parts| >= 1
  {
    if |parts| == 1 then parts[0] else parts[0] + [sep] + Join(parts[1..], sep)
  }

  lemma {:induction false} JoinSplit(s: string, sep: char)
    ensures Join(Split(s, sep), sep) == s
  {
    if s != "" {
      var rest := Split(s[1..], sep);
      JoinSplit(s[1..], sep);
      if s[0] == sep {
        assert Split(s, sep)[1..] == rest;
      } else {
        var parts := Split(s, sep);
        if |rest| > 1 {
          assert parts[1..] == rest[1..];
        }
      }
    }
  }

  /** `s.lastIndexOf(c)`: the index of the last `c` in `s`, or -1 when there is none. */
  function LastIndexOf(s: string, c: char): (i: int)
    ensures -1 <= i < |s|
    ensures i >= 0 ==> s[i] == c
    ensures forall k :: i < k < |s| ==> s[k] != c
  {
    if s == "" then -1
    else if s[|s| - 1] == c then |s| - 1
    else LastIndexOf(s[..|s| - 1], c)
  }

  lemma LastIndexOfIs(s: string, c: char, j: int)
    requires -1 <= j < |s|
    requires j >= 0 ==> s[j] == c
    requires forall k :: j < k < |s| ==> s[k] != c
    ensures LastIndexOf(s, c) == j
  {
  }

  /** Prepending a character moves the last `c` one place right, or makes it the first. */
  lemma LastIndexOfCons(d: char, r: string, c: char)
    ensures LastIndexOf([d] + r, c) ==
      if LastIndexOf(r, c) >= 0 then LastIndexOf(r, c) + 1 else if d == c then 0 else -1
  {
    var s := [d] + r;
    var i := LastIndexOf(r, c);
    var j := if i >= 0 then i + 1 else if d == c then 0 else -1;
    forall k | j < k < |s| ensures s[k] != c {
      if k > 0 {
        assert s[k] == r[k - 1];
      }
    }
    LastIndexOfIs(s, c, j);
  }

  function LastPiece(s: string): (last: string)
    ensures '.' !in last
  {
    var parts := Split(s, '.');
    parts[|parts| - 1]
  }

  /** The last piece of `s.split(".")` is the text after the last '.'. */
  lemma {:induction false} LastPieceAfterLastDot(s: string)
    ensures LastPiece(s) == s[LastIndexOf(s, '.') + 1..]
  {
    if s != "" {
      var r := s[1..];
      assert s == [s[0]] + r;
      LastPieceAfterLastDot(r);
      LastIndexOfCons(s[0], r, '.');
      var d := LastIndexOf(r, '.');
      var rest := Split(r, '.');
      if d >= 0 {
        assert '.' in r by {
          assert r[d] == '.';
        }
        assert LastPiece(s) == rest[|rest| - 1];
        assert s[d + 2..] == r[d + 1..];
      } else {
        assert '.' !in r by {
          LastIndexOfIs(r, '.', -1);
        }
        assert rest == [r];
      }
    }
  }

  /** `imageUri?.split(".").pop() || "jpg"`. */
  function FileExtension(imageUri: Option<string>): (ext: string)
    ensures ext != "" && '.' !in ext
    ensures imageUri.None? ==> ext == "jpg"
  {
    match imageUri
    case None => "jpg"
    case Some(uri) =>
      var last := LastPiece(uri);
      if last == "" then "jpg" else last
  }

  /**
   * The extension is the text after the last '.' of the URI, and "jpg" when
   * that text is empty.
   */
  lemma ExtensionAfterLastDot(uri: string)
    ensures var tail := uri[LastIndexOf(uri, '.') + 1..];
      FileExtension(Some(uri)) == if tail == "" then "jpg" else tail
  {
    LastPieceAfterLastDot(uri);
  }

  /** A URI with no '.' is its own extension. */
  lemma ExtensionWithoutDot(uri: string)
    requires '.' !in uri && uri != ""
    ensures FileExtension(Some(uri)) == uri
  {
    LastIndexOfIs(uri, '.', -1);
    ExtensionAfterLastDot(uri);
  }

  /** The blob name: `${docId}.${ext}`. */
  function FileName(docId: string, ext: string): string {
    docId + "." + ext
  }

  /** Reading the extension back off a blob name gives the extension it was built with. */
  lemma FileNameKeepsExtension(docId: string, ext: string)
    requires ext != "" && '.' !in ext
    ensures FileExtension(Some(FileName(docId, ext))) == ext
  {
    var name := FileName(docId, ext);
    forall k | |docId| < k < |name| ensures name[k] != '.' {
      assert name[k] == ext[k - |docId| - 1];
    }
    LastIndexOfIs(name, '.', |docId|);
    ExtensionAfterLastDot(name);
    assert name[|docId| + 1..] == ext;
  }

  /** The id of the global detail record: `${userId}-${docId}`. */
  function DetailId(userId: string, docId: string): string {
    userId + "-" + docId
  }

  /** Where the image blob goes: `${bucket}/${userId}/` then the blob name. */
  function BlobPath(bucket: string, userId: string, fileName: string): string {
    bucket + "/" + userId + "/" + fileName
  }

  /** The document a blob path belongs to: the text between the last '/' and the last '.'. */
  function BlobDocId(path: string): string {
    var dot := LastIndexOf(path, '.');
    var stem := if dot >= 0 then path[..dot] else path;
    stem[LastIndexOf(stem, '/') + 1..]
  }

  /** A blob path names the document it was built from. */
  lemma BlobPathNamesDoc(bucket: string, userId: string, docId: string, ext: string)
    requires '/' !in docId && '.' !in ext
    ensures BlobDocId(BlobPath(bucket, userId, FileName(docId, ext))) == docId
  {
    var p := BlobPath(bucket, userId, FileName(docId, ext));
    var stem := bucket + "/" + userId + "/" + docId;
    assert p == stem + "." + ext;
    forall k | |stem| < k < |p| ensures p[k] != '.' {
      assert p[k] == ext[k - |stem| - 1];
    }
    LastIndexOfIs(p, '.', |stem|);
    assert p[..|stem|] == stem;
    var slash := |stem| - |docId| - 1;
    forall k | slash < k < |stem| ensures stem[k] != '/' {
      assert stem[k] == docId[k - slash - 1];
    }
    LastIndexOfIs(stem, '/', slash);
    assert stem[slash + 1..] == docId;
  }

  lemma SeparatorAt(a: string, b: string, sep: char)
    ensures (a + [sep] + b)[|a|] == sep
    ensures forall i :: 0 <= i < |a| ==> (a + [sep] + b)[i] == a[i]
  {
  }

  /** Joining with a separator that the left part does not contain can be undone. */
  lemma SeparatedInjective(a1: string, b1: string, a2: string, b2: string, sep: char)
    requires sep !in a1 && sep !in a2
    requires a1 + [sep] + b1 == a2 + [sep] + b2
    ensures a1 == a2 && b1 == b2
  {
    var t := a1 + [sep] + b1;
    SeparatorAt(a1, b1, sep);
    SeparatorAt(a2, b2, sep);
    if |a1| < |a2| {
      assert false;
    } else if |a2| < |a1| {
      assert false;
    }
    assert a1 == t[..|a1|] == a2;
    assert b1 == t[|a1| + 1..] == b2;
  }

  /**
   * Detail ids link back to exactly one wardrobe document, provided user ids
   * contain no '-'.
   */
  lemma DetailIdInjective(u1: string, d1: string, u2: string, d2: string)
    requires '-' !in u1 && '-' !in u2
    requires DetailId(u1, d1) == DetailId(u2, d2)
    ensures u1 == u2 && d1 == d2
  {
    SeparatedInjective(u1, d1, u2, d2, '-');
  }

  /** Joining with a separator that the right part does not contain can be undone. */
  lemma SeparatedInjectiveRight(a1: string, b1: string, a2: string, b2: string, sep: char)
    requires sep !in b1 && sep !in b2
    requires a1 + [sep] + b1 == a2 + [sep] + b2
    ensures a1 == a2 && b1 == b2
  {
    var t := a1 + [sep] + b1;
    forall k | |a1| < k < |t| ensures t[k] != sep {
      assert t[k] == b1[k - |a1| - 1];
    }
    LastIndexOfIs(t, sep, |a1|);
    forall k | |a2| < k < |t| ensures t[k] != sep {
      assert t[k] == b2[k - |a2| - 1];
    }
    LastIndexOfIs(t, sep, |a2|);
    assert a1 == t[..|a1|] == a2;
    assert b1 == t[|a1| + 1..] == b2;
  }

  /**
   * Detail ids link back to exactly one wardrobe document whatever the user
   * ids are, because generated document ids contain no '-' (see `AutoId`):
   * the composite id splits at its last '-'.
   */
  lemma DetailIdInjectiveByDocId(u1: string, d1: string, u2: string, d2: string)
    requires '-' !in d1 && '-' !in d2
    requires DetailId(u1, d1) == DetailId(u2, d2)
    ensures u1 == u2 && d1 == d2
  {
    SeparatedInjectiveRight(u1, d1, u2, d2, '-');
  }

  /** Two users' blobs never share a path, provided user ids contain no '/'. */
  lemma BlobPathInjective(bucket: string, u1: string, f1: string, u2: string, f2: string)
    requires '/' !in u1 && '/' !in u2
    requires BlobPath(bucket, u1, f1) == BlobPath(bucket, u2, f2)
    ensures u1 == u2 && f1 == f2
  {
    var n := |bucket| + 1;
    var p1, p2 := BlobPath(bucket, u1, f1), BlobPath(bucket, u2, f2);
    assert p1[n..] == u1 + "/" + f1;
    assert p2[n..] == u2 + "/" + f2;
    SeparatedInjective(u1, f1, u2, f2, '/');
  }

  // ---------------------------------------------------------------------------
  // The stores and the remote calls
  // ---------------------------------------------------------------------------

  /** A document in a user's wardrobe sub-collection. */
  datatype DocRef = DocRef(userId: string, docId: string)

  /** An uploaded object: the local file it came from and its content type. */
  datatype Blob = Blob(localUri: string, contentType: Option<string>)

  /** The remote calls of the workflow, in the order it makes them. */
  datatype Step = AddItem | PutImage | FetchUrl | PatchItem | AddDetails

  function Order(step: Step): nat {
    match step
    case AddItem => 0
    case PutImage => 1
    case FetchUrl => 2
    case PatchItem => 3
    case AddDetails => 4
  }

  /** What the network does to this call: the remote calls that fail, and the URL handed out. */
  datatype Network = Network(failing: set<Step>, downloadUrl: string)

  /** The arguments of `uploadWardrobeItem`. */
  datatype Request = Request(userId: string, itemData: Doc, imageUri: Option<string>, imageMimeType: Option<string>)

  /** `!imageUri` is false: the URI is given and is not the empty string. */
  predicate HasImage(imageUri: Option<string>) {
    imageUri.Some? && imageUri.value != ""
  }

  /** Everything the remote stores hold, plus the id counter and the error log. */
  datatype Store = Store(
    wardrobe: map<DocRef, Doc>,
    blobs: map<string, Blob>,
    details: map<string, Doc>,
    issued: nat,
    errors: seq<Step>)

  /**
   * The `n`-th generated document id. Ids only have to be new; this one is
   * longer than every id handed out before it.
   */
  function AutoId(n: nat): (id: string)
    ensures |id| == n + 1 && '-' !in id && '/' !in id && '.' !in id
  {
    seq(n + 1, _ => 'a')
  }

  /** Every document id in use was generated before: new ids are fresh. */
  predicate IdsFresh(st: Store) {
    (forall r :: r in st.wardrobe ==> |r.docId| <= st.issued) &&
    (forall k :: k in st.details ==> |k| <= st.issued)
  }

  /** Every document a blob belongs to was generated before: new blob paths are fresh. */
  predicate BlobPathsFresh(st: Store) {
    forall p :: p in st.blobs ==> |BlobDocId(p)| <= st.issued
  }

  predicate ValidStore(st: Store) {
    IdsFresh(st) && BlobPathsFresh(st)
  }

  // ---------------------------------------------------------------------------
  // What one run leaves behind
  // ---------------------------------------------------------------------------

  /**
   * `step` is made and succeeds: it and every call before it succeed, and
   * from the upload on there is an image (otherwise the run returns early).
   */
  predicate Completes(step: Step, req: Request, net: Network) {
    AddItem !in net.failing &&
    (Order(step) >= 1 ==> HasImage(req.imageUri) && PutImage !in net.failing) &&
    (Order(step) >= 2 ==> FetchUrl !in net.failing) &&
    (Order(step) >= 3 ==> PatchItem !in net.failing) &&
    (Order(step) >= 4 ==> AddDetails !in net.failing)
  }

  /** The call that throws, if any: the first call made that fails. */
  function CaughtStep(req: Request, net: Network): Option<Step> {
    if AddItem in net.failing then Some(AddItem)
    else if !HasImage(req.imageUri) then None
    else if PutImage in net.failing then Some(PutImage)
    else if FetchUrl in net.failing then Some(FetchUrl)
    else if PatchItem in net.failing then Some(PatchItem)
    else if AddDetails in net.failing then Some(AddDetails)
    else None
  }

  /**
   * The call that throws fails, every call made before it succeeds, and
   * nothing throws exactly when the last call made succeeds.
   */
  lemma CaughtIsFirstFailure(req: Request, net: Network)
    ensures var c := CaughtStep(req, net);
      (c.Some? ==> c.value in net.failing && !Completes(c.value, req, net)) &&
      (c.Some? ==> forall t :: Order(t) < Order(c.value) ==> Completes(t, req, net)) &&
      (c.None? <==> if HasImage(req.imageUri) then Completes(AddDetails, req, net) else Completes(AddItem, req, net))
  {
  }

  /** The id the wardrobe document gets. */
  function NewRef(st: Store, req: Request): DocRef {
    DocRef(req.userId, AutoId(st.issued))
  }

  /** Where the image goes: the bucket, the user, the new id and the URI's extension. */
  function NewPath(st: Store, bucket: string, req: Request): string {
    BlobPath(bucket, req.userId, FileName(AutoId(st.issued), FileExtension(req.imageUri)))
  }

  /** The image's path is not taken: it belongs to the document id generated now. */
  lemma NewPathIsFresh(st: Store, bucket: string, req: Request)
    requires BlobPathsFresh(st)
    ensures BlobDocId(NewPath(st, bucket, req)) == AutoId(st.issued)
    ensures NewPath(st, bucket, req) !in st.blobs
  {
    BlobPathNamesDoc(bucket, req.userId, AutoId(st.issued), FileExtension(req.imageUri));
  }

  /** The key the detail record gets: the id generated after the wardrobe document's. */
  function NewDetailKey(st: Store): string {
    AutoId(st.issued + 1)
  }

  /** The wardrobe document at the end of the run: patched with the URL once the patch succeeded. */
  function ItemAfter(req: Request, net: Network): Doc
    requires ItemFields <= req.itemData.Keys
  {
    if Completes(PatchItem, req, net)
    then WithImageUrl(WardrobeEntry(req.itemData), net.downloadUrl)
    else WardrobeEntry(req.itemData)
  }

  /**
   * The stores after one run of `uploadWardrobeItem`, store by store: each
   * write is present exactly when its call completed, the error log gains the
   * call that threw, and nothing else changes.
   */
  function Upload(st: Store, bucket: string, req: Request, net: Network): Store
    requires ItemFields <= req.itemData.Keys
  {
    Store(
      wardrobe := if Completes(AddItem, req, net)
                  then st.wardrobe[NewRef(st, req) := ItemAfter(req, net)] else st.wardrobe,
      blobs := if Completes(PutImage, req, net)
               then st.blobs[NewPath(st, bucket, req) := Blob(req.imageUri.value, req.imageMimeType)] else st.blobs,
      details := if Completes(AddDetails, req, net)
                 then st.details[NewDetailKey(st) := DetailEntry(req.userId, NewRef(st, req).docId, net.downloadUrl, req.itemData)]
                 else st.details,
      issued := st.issued + (if Completes(AddItem, req, net) then 1 else 0)
                          + (if Completes(AddDetails, req, net) then 1 else 0),
      errors := st.errors + match CaughtStep(req, net) case Some(step) => [step] case None => [])
  }

  /** Ids stay fresh: the run keeps the store invariant. */
  lemma UploadKeepsValid(st: Store, bucket: string, req: Request, net: Network)
    requires ValidStore(st) && ItemFields <= req.itemData.Keys
    ensures ValidStore(Upload(st, bucket, req, net))
  {
    NewPathIsFresh(st, bucket, req);
  }

  /**
   * No rollback and no overwrite: every document and every blob written before
   * the run is still there unchanged, and the error log only grows, by at most
   * one entry.
   */
  lemma UploadKeepsEarlierWrites(st: Store, bucket: string, req: Request, net: Network)
    requires ValidStore(st) && ItemFields <= req.itemData.Keys
    ensures var st' := Upload(st, bucket, req, net);
      (forall r :: r in st.wardrobe ==> r in st'.wardrobe && st'.wardrobe[r] == st.wardrobe[r]) &&
      (forall k :: k in st.details ==> k in st'.details && st'.details[k] == st.details[k]) &&
      (forall p :: p in st.blobs ==> p in st'.blobs && st'.blobs[p] == st.blobs[p]) &&
      st.errors <= st'.errors && |st'.errors| <= |st.errors| + 1
  {
    NewPathIsFresh(st, bucket, req);
    FreshWritesKeepEarlierOnes(st, bucket, req, net);
  }

  /** The run writes only at the new id, the new path and the new key; where those are unused, nothing is overwritten. */
  lemma FreshWritesKeepEarlierOnes(st: Store, bucket: string, req: Request, net: Network)
    requires ItemFields <= req.itemData.Keys
    requires NewRef(st, req) !in st.wardrobe && NewDetailKey(st) !in st.details
    requires NewPath(st, bucket, req) !in st.blobs
    ensures var st' := Upload(st, bucket, req, net);
      (forall r :: r in st.wardrobe ==> r in st'.wardrobe && st'.wardrobe[r] == st.wardrobe[r]) &&
      (forall k :: k in st.details ==> k in st'.details && st'.details[k] == st.details[k]) &&
      (forall p :: p in st.blobs ==> p in st'.blobs && st'.blobs[p] == st.blobs[p]) &&
      st.errors <= st'.errors && |st'.errors| <= |st.errors| + 1
  {
  }

  /**
   * Without an image no blob, patch or detail record is written: the wardrobe
   * document is written and nothing is logged, unless `addDoc` itself fails,
   * which writes nothing and is logged.
   */
  lemma UploadWithoutImage(st: Store, bucket: string, req: Request, net: Network)
    requires ItemFields <= req.itemData.Keys
    requires !HasImage(req.imageUri)
    ensures var st' := Upload(st, bucket, req, net);
      st'.blobs == st.blobs && st'.details == st.details &&
      st'.wardrobe == (if AddItem in net.failing then st.wardrobe
                       else st.wardrobe[NewRef(st, req) := WardrobeEntry(req.itemData)]) &&
      st'.errors == (if AddItem in net.failing then st.errors + [AddItem] else st.errors)
  {
  }

  /**
   * A detail record appears only after the upload, the URL fetch and the patch
   * all succeeded; it is stored under a fresh key, its `id` field is
   * `userId-docId` and it carries the URL the wardrobe document was patched
   * with, unless `itemData` brings its own `id` or `imageUrl`.
   */
  lemma DetailFollowsPatchedItem(st: Store, bucket: string, req: Request, net: Network)
    requires IdsFresh(st) && ItemFields <= req.itemData.Keys
    requires Upload(st, bucket, req, net).details != st.details
    ensures var st' := Upload(st, bucket, req, net);
      var ref := NewRef(st, req);
      var key := NewDetailKey(st);
      Completes(PutImage, req, net) && Completes(FetchUrl, req, net) && Completes(PatchItem, req, net) &&
      NewPath(st, bucket, req) in st'.blobs &&
      ref in st'.wardrobe && st'.wardrobe[ref][ImageUrl] == Text(net.downloadUrl) &&
      key !in st.details && st'.details.Keys == st.details.Keys + {key} &&
      (Id !in req.itemData ==> st'.details[key][Id] == Text(DetailId(req.userId, ref.docId))) &&
      (ImageUrl !in req.itemData ==> st'.details[key][ImageUrl] == st'.wardrobe[ref][ImageUrl])
  {
    assert Completes(AddDetails, req, net);
    CaughtIsFirstFailure(req, net);
    UploadCompletes(st, bucket, req, net);
    assert NewDetailKey(st) !in st.details;
  }

  /**
   * A failed upload leaves the wardrobe document in place without an image,
   * writes no detail record and logs the failure.
   */
  lemma FailedUploadLeavesBareItem(st: Store, bucket: string, req: Request, net: Network)
    requires ItemFields <= req.itemData.Keys
    requires AddItem !in net.failing && HasImage(req.imageUri) && PutImage in net.failing
    ensures var st' := Upload(st, bucket, req, net);
      var ref := NewRef(st, req);
      ref in st'.wardrobe && ImageUrl !in st'.wardrobe[ref] &&
      st'.blobs == st.blobs && st'.details == st.details && st'.errors == st.errors + [PutImage]
  {
  }

  /**
   * A run that throws at `step`: the wardrobe document exists unless `addDoc`
   * itself threw, patched only when the patch succeeded, the image exists once the upload succeeded,
   * no detail record is written and the error log gains `step`.
   */
  lemma UploadThrowsAt(st: Store, bucket: string, req: Request, net: Network, step: Step)
    requires ItemFields <= req.itemData.Keys
    requires CaughtStep(req, net) == Some(step)
    ensures Upload(st, bucket, req, net) == Store(
      if step == AddItem then st.wardrobe
      else if step == AddDetails then st.wardrobe[NewRef(st, req) := WithImageUrl(WardrobeEntry(req.itemData), net.downloadUrl)]
      else st.wardrobe[NewRef(st, req) := WardrobeEntry(req.itemData)],
      if Order(step) >= 2 then st.blobs[NewPath(st, bucket, req) := Blob(req.imageUri.value, req.imageMimeType)] else st.blobs,
      st.details,
      if step == AddItem then st.issued else st.issued + 1,
      st.errors + [step])
  {
  }

  /**
   * A run that throws nothing: the document is written (patched when there is
   * an image), and, when there is an image, the blob and the detail record are
   * written too; nothing is logged.
   */
  lemma UploadCompletes(st: Store, bucket: string, req: Request, net: Network)
    requires ItemFields <= req.itemData.Keys
    requires CaughtStep(req, net) == None
    ensures Upload(st, bucket, req, net) == if HasImage(req.imageUri) then Store(
        st.wardrobe[NewRef(st, req) := WithImageUrl(WardrobeEntry(req.itemData), net.downloadUrl)],
        st.blobs[NewPath(st, bucket, req) := Blob(req.imageUri.value, req.imageMimeType)],
        st.details[NewDetailKey(st) := DetailEntry(req.userId, NewRef(st, req).docId, net.downloadUrl, req.itemData)],
        st.issued + 2,
        st.errors)
      else Store(st.wardrobe[NewRef(st, req) := WardrobeEntry(req.itemData)], st.blobs, st.details, st.issued + 1, st.errors)
  {
  }

  // ---------------------------------------------------------------------------
  // The stores as an object
  // ---------------------------------------------------------------------------

  /** The document store and the blob store the workflow writes to. */
  class Stores {
    const bucket: string
    var wardrobe: map<DocRef, Doc>
    var blobs: map<string, Blob>
    var details: map<string, Doc>
    var issued: nat
    var errors: seq<Step>

    function State(): Store
      reads this
    {
      Store(wardrobe, blobs, details, issued, errors)
    }

    predicate Valid()
      reads this
    {
      ValidStore(State())
    }

    constructor (bucket: string)
      ensures this.bucket == bucket
      ensures State() == Store(map[], map[], map[], 0, [])
      ensures Valid()
    {
      this.bucket := bucket;
      wardrobe, blobs, details, issued, errors := map[], map[], map[], 0, [];
    }

    /** `addDoc` on a user's wardrobe collection: a new document under a fresh id. */
    method AddWardrobeDoc(userId: string, doc: Doc, net: Network) returns (ref: Option<DocRef>)
      requires IdsFresh(State())
      modifies this
      ensures ref.Some? <==> AddItem !in net.failing
      ensures ref.Some? ==> ref.value == DocRef(userId, AutoId(old(issued))) && ref.value !in old(wardrobe)
      ensures wardrobe == if ref.Some? then old(wardrobe)[ref.value := doc] else old(wardrobe)
      ensures issued == if ref.Some? then old(issued) + 1 else old(issued)
      ensures blobs == old(blobs) && details == old(details) && errors == old(errors)
    {
      if AddItem in net.failing {
        return None;
      }
      ref := Some(DocRef(userId, AutoId(issued)));
      wardrobe := wardrobe[ref.value := doc];
      issued := issued + 1;
    }

    /** `putFile`: the local file becomes the object at `path`. */
    method PutFile(path: string, localUri: string, contentType: Option<string>, net: Network) returns (ok: bool)
      modifies this
      ensures ok <==> PutImage !in net.failing
      ensures blobs == if ok then old(blobs)[path := Blob(localUri, contentType)] else old(blobs)
      ensures wardrobe == old(wardrobe) && details == old(details)
      ensures issued == old(issued) && errors == old(errors)
    {
      ok := PutImage !in net.failing;
      if ok {
        blobs := blobs[path := Blob(localUri, contentType)];
      }
    }

    /** `getDownloadURL`: fails for a missing object. */
    method GetDownloadUrl(path: string, net: Network) returns (url: Option<string>)
      ensures url.Some? <==> FetchUrl !in net.failing && path in blobs
      ensures url.Some? ==> url.value == net.downloadUrl
    {
      if FetchUrl in net.failing || path !in blobs {
        return None;
      }
      url := Some(net.downloadUrl);
    }

    /** `update({ imageUrl })`: fails for a missing document; sets that one field only. */
    method PatchImageUrl(ref: DocRef, url: string, net: Network) returns (ok: bool)
      modifies this
      ensures ok <==> PatchItem !in net.failing && ref in old(wardrobe)
      ensures wardrobe == if ok then old(wardrobe)[ref := WithImageUrl(old(wardrobe)[ref], url)] else old(wardrobe)
      ensures blobs == old(blobs) && details == old(details)
      ensures issued == old(issued) && errors == old(errors)
    {
      ok := PatchItem !in net.failing && ref in wardrobe;
      if ok {
        wardrobe := wardrobe[ref := WithImageUrl(wardrobe[ref], url)];
      }
    }

    /** `addDoc` on the global detail collection: a new record under a fresh id. */
    method AddDetailDoc(doc: Doc, net: Network) returns (ok: bool)
      modifies this
      ensures ok <==> AddDetails !in net.failing
      ensures details == if ok then old(details)[AutoId(old(issued)) := doc] else old(details)
      ensures issued == if ok then old(issued) + 1 else old(issued)
      ensures wardrobe == old(wardrobe) && blobs == old(blobs) && errors == old(errors)
    {
      ok := AddDetails !in net.failing;
      if ok {
        details := details[AutoId(issued) := doc];
        issued := issued + 1;
      }
    }

    /** The `catch` block: `console.error` with what was thrown. */
    method LogError(step: Step)
      modifies this
      ensures errors == old(errors) + [step]
      ensures wardrobe == old(wardrobe) && blobs == old(blobs) && details == old(details) && issued == old(issued)
    {
      errors := errors + [step];
    }

    /** `uploadWardrobeItem(userId, itemData, imageUri, imageMimeType)`. */
    method UploadWardrobeItem(userId: string, itemData: Doc, imageUri: Option<string>, imageMimeType: Option<string>, net: Network)
      requires Valid() && ItemFields <= itemData.Keys
      modifies this
      ensures Valid()
      ensures State() == Upload(old(State()), bucket, Request(userId, itemData, imageUri, imageMimeType), net)
    {
      ghost var st := State();
      UploadKeepsValid(st, bucket, Request(userId, itemData, imageUri, imageMimeType), net);
      UploadSteps(st, userId, itemData, imageUri, imageMimeType, net);
    }

    /**
     * The `try` block of `uploadWardrobeItem`, from the stores `st`: add the
     * wardrobe document, derive the blob name, return early without an image,
     * and otherwise attach the image; a failure is logged and ends the run.
     */
    method UploadSteps(ghost st: Store, userId: string, itemData: Doc, imageUri: Option<string>, imageMimeType: Option<string>, net: Network)
      requires ItemFields <= itemData.Keys
      requires State() == st && IdsFresh(st)
      modifies this
      ensures State() == Upload(st, bucket, Request(userId, itemData, imageUri, imageMimeType), net)
    {
      ghost var req := Request(userId, itemData, imageUri, imageMimeType);
      var added := AddWardrobeDoc(userId, WardrobeEntry(itemData), net);
      if added.None? {
        LogError(AddItem);
        UploadThrowsAt(st, bucket, req, net, AddItem);
        return;
      }
      var ref := added.value;
      var fileType := FileExtension(imageUri);
      var fileName := FileName(ref.docId, fileType);
      if !HasImage(imageUri) {
        UploadCompletes(st, bucket, req, net);
        return;
      }
      AttachImage(st, ref, fileName, userId, itemData, imageUri, imageMimeType, net);
    }

    /**
     * Steps 4 to 7 of `uploadWardrobeItem`, once the wardrobe document `ref`
     * has been added to `st` and there is an image: upload, fetch the URL,
     * patch, add the detail record; a failure is logged and ends the run.
     */
    method AttachImage(ghost st: Store, ref: DocRef, fileName: string, userId: string, itemData: Doc,
                       imageUri: Option<string>, imageMimeType: Option<string>, net: Network)
      requires ItemFields <= itemData.Keys
      requires AddItem !in net.failing && HasImage(imageUri)
      requires ref == NewRef(st, Request(userId, itemData, imageUri, imageMimeType))
      requires fileName == FileName(ref.docId, FileExtension(imageUri))
      requires State() == Store(st.wardrobe[ref := WardrobeEntry(itemData)], st.blobs, st.details, st.issued + 1, st.errors)
      modifies this
      ensures State() == Upload(st, bucket, Request(userId, itemData, imageUri, imageMimeType), net)
    {
      ghost var req := Request(userId, itemData, imageUri, imageMimeType);
      var path := BlobPath(bucket, userId, fileName);
      var ok := PutFile(path, imageUri.value, imageMimeType, net);
      if !ok {
        LogError(PutImage);
        UploadThrowsAt(st, bucket, req, net, PutImage);
        return;
      }
      var url := GetDownloadUrl(path, net);
      if url.None? {
        LogError(FetchUrl);
        UploadThrowsAt(st, bucket, req, net, FetchUrl);
        return;
      }
      RecordImageUrl(st, ref, url.value, userId, itemData, imageUri, imageMimeType, net);
    }

    /**
     * Steps 6 and 7 of `uploadWardrobeItem`, once the image is stored and its
     * URL fetched: patch the wardrobe document, then add the detail record.
     */
    method RecordImageUrl(ghost st: Store, ref: DocRef, url: string, userId: string, itemData: Doc,
                          imageUri: Option<string>, imageMimeType: Option<string>, net: Network)
      requires ItemFields <= itemData.Keys
      requires AddItem !in net.failing && HasImage(imageUri) && PutImage !in net.failing && FetchUrl !in net.failing
      requires ref == NewRef(st, Request(userId, itemData, imageUri, imageMimeType))
      requires url == net.downloadUrl
      requires State() == Store(st.wardrobe[ref := WardrobeEntry(itemData)],
                                st.blobs[NewPath(st, bucket, Request(userId, itemData, imageUri, imageMimeType)) := Blob(imageUri.value, imageMimeType)],
                                st.details, st.issued + 1, st.errors)
      modifies this
      ensures State() == Upload(st, bucket, Request(userId, itemData, imageUri, imageMimeType), net)
    {
      ghost var req := Request(userId, itemData, imageUri, imageMimeType);
      var ok := PatchImageUrl(ref, url, net);
      if !ok {
        LogError(PatchItem);
        UploadThrowsAt(st, bucket, req, net, PatchItem);
        return;
      }
      assert wardrobe == st.wardrobe[ref := WithImageUrl(WardrobeEntry(itemData), url)];
      AddDetailRecord(st, ref, url, userId, itemData, imageUri, imageMimeType, net);
    }

    /** Step 7 of `uploadWardrobeItem`, once the wardrobe document carries the image URL. */
    method AddDetailRecord(ghost st: Store, ref: DocRef, url: string, userId: string, itemData: Doc,
                           imageUri: Option<string>, imageMimeType: Option<string>, net: Network)
      requires ItemFields <= itemData.Keys
      requires HasImage(imageUri) && AddItem !in net.failing && PutImage !in net.failing
      requires FetchUrl !in net.failing && PatchItem !in net.failing
      requires ref == NewRef(st, Request(userId, itemData, imageUri, imageMimeType))
      requires url == net.downloadUrl
      requires State() == Store(st.wardrobe[ref := WithImageUrl(WardrobeEntry(itemData), url)],
                                st.blobs[NewPath(st, bucket, Request(userId, itemData, imageUri, imageMimeType)) := Blob(imageUri.value, imageMimeType)],
                                st.details, st.issued + 1, st.errors)
      modifies this
      ensures State() == Upload(st, bucket, Request(userId, itemData, imageUri, imageMimeType), net)
    {
      ghost var req := Request(userId, itemData, imageUri, imageMimeType);
      var ok := AddDetailDoc(DetailEntry(userId, ref.docId, url, itemData), net);
      if !ok {
        LogError(AddDetails);
        UploadThrowsAt(st, bucket, req, net, AddDetails);
        return;
      }
      UploadCompletes(st, bucket, req, net);
    }
  }
}
