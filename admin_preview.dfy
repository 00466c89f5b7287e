/** The CMS admin's preview link: which front-end page previews a document. */
module AdminPreview {
  import opened Text

  const BlogPostUid := "api::blog-post.blog-post"
  const BlogPath := "/blog"
  const PreviewPrefix := "/blog/preview?slug="

  /** The fields of a fetched document that the rule reads. A missing `id`,
      or an `id` of 0, is falsy. */
  datatype Document = Document(id: Option<int>, documentId: Option<string>)

  predicate HasId(document: Option<Document>) {
    document.Some? && document.value.id.Some? && document.value.id.value != 0
  }

  /** An unset value renders as `undefined` in a template. */
  function Render(v: Option<string>): string {
    if v.Some? then v.value else "undefined"
  }

  /** `getPreviewPathname`: blog posts preview by document id, or the blog
      index when the document has no id; other content types have none. */
  function PreviewPathname(uid: string, document: Option<Document>): (p: Option<string>)
    ensures p.Some? <==> uid == BlogPostUid
    ensures p.Some? && !HasId(document) ==> p.value == BlogPath
    ensures p.Some? && HasId(document) ==> p.value == PreviewPrefix + Render(document.value.documentId)
  {
    if uid != BlogPostUid then None
    else if !HasId(document) then Some(BlogPath)
    else Some(PreviewPrefix + Render(document.value.documentId))
  }

  /** The preview `handler`: fetches the document, then prefixes the client
      URL to its pathname; no pathname disables the preview. */
  function PreviewUrl(clientUrl: Option<string>, uid: string, documentId: string,
                      findOne: (string, string) -> Option<Document>): Option<string>
  {
    var pathname := PreviewPathname(uid, findOne(uid, documentId));
    if pathname.None? then None else Some(Render(clientUrl) + pathname.value)
  }

  /** Only blog posts have a preview; it is the client URL followed by the
      pathname, and the document id can be read back after the query prefix. */
  lemma PreviewUrlShape(clientUrl: Option<string>, uid: string, documentId: string,
                        findOne: (string, string) -> Option<Document>)
    ensures var u := PreviewUrl(clientUrl, uid, documentId, findOne);
      var doc := findOne(uid, documentId);
      (u.Some? <==> uid == BlogPostUid)
      && (u.Some? ==> StartsWith(u.value, Render(clientUrl)))
      && (u.Some? && !HasId(doc) ==> u.value[|Render(clientUrl)|..] == BlogPath)
      && (u.Some? && HasId(doc) ==>
            u.value[|Render(clientUrl)|..] == PreviewPrefix + Render(doc.value.documentId)
            && u.value[|Render(clientUrl)| + |PreviewPrefix|..] == Render(doc.value.documentId))
  {
    var u := PreviewUrl(clientUrl, uid, documentId, findOne);
    if u.Some? {
      var c := Render(clientUrl);
      assert u.value[..|c|] == c;
      var p := PreviewPathname(uid, findOne(uid, documentId)).value;
      assert u.value[|c|..] == p;
      if HasId(findOne(uid, documentId)) {
        assert p[|PreviewPrefix|..] == Render(findOne(uid, documentId).value.documentId);
      }
    }
  }
}
