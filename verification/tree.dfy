/**
  The part of the page's content tree the rewrite looks at, without the DOM.
 */
module Tree {
  import opened Wrappers

  datatype Node =
      /** A text node and its `nodeValue`. */
    | Text(value: string)
      /** An element from the page, with its upper-case `tagName`. */
    | Element(tag: string, children: seq<Node>)
      /** An `<a>` the rewrite creates for a wikilink: its `href`, class list, `title` and `textContent`. */
    | Anchor(href: string, classes: seq<string>, title: Option<string>, text: string)
      /**
        An `<img>` the rewrite creates for an embed: `src`, `alt`, the `max-width`
        style when one is set, and the path the `onerror` handler falls back to.
       */
    | Img(src: string, alt: string, maxWidth: Option<string>, fallback: Option<string>)
      /** Any other node type (comments, processing instructions), which the walk ignores. */
    | Comment(data: string)
}
