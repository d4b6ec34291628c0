/**
 * The preview pane: what it shows for the selected node. Nothing selected, a node that
 * cannot be read, and an unsupported content type each get a dimmed message; "text/..."
 * shows the node's text, "image/..." decodes the node's content as an image.
 */
module Previews {
  import opened Options
  import opened Nodes
  import opened ContentTypes

  const SelectFileMessage: string := "Select a file to see a preview"
  const NoPreviewMessage: string := "No preview available for this file type"

  /** How an image preview decodes the content stream. */
  datatype ImageDecoding = SvgDecoding | BitmapDecoding

  /**
   * What the pane shows: a dimmed message, the text read from the content stream, or the
   * content stream decoded as an image.
   */
  datatype PreviewContent =
    | DimmedMessage(message: string)
    | TextPreview(text: string)
    | ImagePreview(decoding: ImageDecoding)

  /** Exactly "image/svg+xml" is decoded as SVG; every other image type as a bitmap. */
  function ImageDecodingFor(contentType: string): (d: ImageDecoding)
    ensures d == SvgDecoding <==> contentType == "image/svg+xml"
  {
    if contentType == "image/svg+xml" then SvgDecoding else BitmapDecoding
  }

  /**
   * The pane's content for `node`; `contents` stands for everything the node's content
   * stream yields, which the text preview reads to the end.
   */
  function Preview(node: Option<Node>, contents: string): (p: PreviewContent)
    ensures p == DimmedMessage(SelectFileMessage) <==> node.None?
    ensures p.TextPreview? <==>
      node.Some? && node.value.contentType.Some? && TopLevelType(node.value.contentType.value) == "text"
    ensures p.TextPreview? ==> p.text == contents
    ensures p.ImagePreview? <==>
      node.Some? && node.value.contentType.Some? && TopLevelType(node.value.contentType.value) == "image"
    ensures p.ImagePreview? ==> p.decoding == ImageDecodingFor(node.value.contentType.value)
    ensures p == DimmedMessage(NoPreviewMessage) <==>
      node.Some?
      && (node.value.contentType.None?
          || (TopLevelType(node.value.contentType.value) != "text"
              && TopLevelType(node.value.contentType.value) != "image"))
  {
    match node
    case None => DimmedMessage(SelectFileMessage)
    case Some(n) =>
      match n.contentType
      case None => DimmedMessage(NoPreviewMessage)
      case Some(contentType) =>
        match TopLevelType(contentType)
        case "text" => TextPreview(contents)
        case "image" => ImagePreview(ImageDecodingFor(contentType))
        case _ => DimmedMessage(NoPreviewMessage)
  }

  /** Only the text and image previews open the node's content stream. */
  predicate OpensContentStream(p: PreviewContent)
  {
    p.TextPreview? || p.ImagePreview?
  }

  /**
   * Which kind of preview a readable node gets depends on nothing but the part of its
   * content type before the first '/'.
   */
  lemma PreviewKindByTopLevelType(n: Node, m: Node, contents: string)
    requires n.contentType.Some? && m.contentType.Some?
    requires TopLevelType(n.contentType.value) == TopLevelType(m.contentType.value)
    ensures var p, q := Preview(Some(n), contents), Preview(Some(m), contents);
      && (p.TextPreview? <==> q.TextPreview?)
      && (p.ImagePreview? <==> q.ImagePreview?)
      && (p.DimmedMessage? <==> q.DimmedMessage?)
      && (p.DimmedMessage? ==> p == q)
  {
  }

  /** Nothing selected: the pane asks for a selection and reads nothing. */
  lemma NothingSelected(contents: string)
    ensures Preview(None, contents) == DimmedMessage(SelectFileMessage)
    ensures !OpensContentStream(Preview(None, contents))
  {
  }

  /** A node that is not `ContentReadable` gets the "no preview" message, never its content. */
  lemma NotReadableNoPreview(n: Node, contents: string)
    requires n.contentType.None?
    ensures Preview(Some(n), contents) == DimmedMessage(NoPreviewMessage)
    ensures !OpensContentStream(Preview(Some(n), contents))
  {
  }

  /** A "text/..." node shows its whole content. */
  lemma TextShowsContent(n: Node, subtype: string, contents: string)
    requires n.contentType == Some("text/" + subtype)
    ensures Preview(Some(n), contents) == TextPreview(contents)
  {
    assert "text/" + subtype == "text" + "/" + subtype;
    TopLevelTypeOfSubtype("text", subtype);
  }

  /** An "image/svg+xml" node is decoded as SVG. */
  lemma SvgImagePreview(n: Node, contents: string)
    requires n.contentType == Some("image/svg+xml")
    ensures Preview(Some(n), contents) == ImagePreview(SvgDecoding)
  {
    assert "image/svg+xml" == "image" + "/" + "svg+xml";
    TopLevelTypeOfSubtype("image", "svg+xml");
  }

  /** Any other "image/..." node is decoded as a bitmap. */
  lemma BitmapImagePreview(n: Node, subtype: string, contents: string)
    requires n.contentType == Some("image/" + subtype) && subtype != "svg+xml"
    ensures Preview(Some(n), contents) == ImagePreview(BitmapDecoding)
  {
    assert "image/" + subtype == "image" + "/" + subtype;
    TopLevelTypeOfSubtype("image", subtype);
    assert ("image/" + subtype)[6..] == subtype;
  }

  /** A "video/..." node gets the "no preview" message and its content stream stays closed. */
  lemma VideoNoPreview(n: Node, subtype: string, contents: string)
    requires n.contentType == Some("video/" + subtype)
    ensures Preview(Some(n), contents) == DimmedMessage(NoPreviewMessage)
    ensures !OpensContentStream(Preview(Some(n), contents))
  {
    assert "video/" + subtype == "video" + "/" + subtype;
    TopLevelTypeOfSubtype("video", subtype);
  }
}
