/**
 * The body of a release as XHTML: one traversal of the parsed HTML collects the ids links may name,
 * a second one renders. What is written is a sequence of tags and text.
 */
module Xhtml {
  import opened Common
  import opened Paths

  /** A parsed reference; an empty path is `[]`, a path "a/b" is `["a", "b"]`. */
  datatype Url = Malformed | Url(scheme: string, host: string, opaquePart: string, fragment: string, path: seq<string>)

  /** An attribute with its key in lower case; `url` is its value, trimmed and parsed as a reference. */
  datatype Attribute = Attribute(key: string, namespace: string, value: string, url: Url)

  /** A parsed node, its tag trimmed and in lower case; `Other` is a document, comment or doctype. */
  datatype Node =
    | Text(data: string)
    | Element(tag: string, attrs: seq<Attribute>, children: seq<Node>)
    | Other(children: seq<Node>)

  datatype Emitted = Emitted(name: string, value: string, url: Url)

  datatype Token =
    | Start(tag: string, attrs: seq<Emitted>)
    | Void(tag: string, attrs: seq<Emitted>)
    | End(tag: string)
    | Chars(text: string)

  /** The book being written: EPUB 2 or later, the document's own path, and which characters are letters and digits. */
  datatype Target = Target(epub2: bool, file: seq<string>, letter: char -> bool, digit: char -> bool)
  {
    /* ---- Names ---- */

    predicate Starts(c: char) {
      c == '_' || c == ':' || letter(c)
    }

    predicate ValidName(s: string) {
      && s != "" && Starts(s[0])
      && forall i :: 0 < i < |s| ==> Starts(s[i]) || s[i] == '-' || s[i] == '.' || digit(s[i])
    }

    predicate SafeId(value: string) {
      ValidName(Trim(value))
    }

    function AttributeName(attr: Attribute): Option<string> {
      if attr.key == "" || attr.key == "xmlns" || "xmlns:" <= attr.key then None
      else
        var key := if attr.namespace == "xml" then "xml:" + attr.key else attr.key;
        if (':' in key && !("xml:" <= key)) || !ValidName(key) then None else Some(key)
    }

    /* ---- References ---- */

    predicate SafeUrl(attr: Attribute, targets: set<string>) {
      && Trim(attr.value) != "" && attr.url.Url?
      && (if attr.url.scheme == "" then SafeRelative(attr.url, targets)
          else attr.url.scheme in {"http", "https", "mailto", "tel"})
    }

    predicate SafeRelative(url: Url, targets: set<string>)
      requires url.Url?
    {
      && url.host == "" && url.opaquePart == ""
      && (url.fragment != "" ==> url.fragment in targets)
      && (if url.path == [] then url.fragment != "" else !Escapes(url.path) && file != [] && Own(url.path))
    }

    predicate Own(path: seq<string>) {
      Clean(path, false) == Clean(file, false)
    }

    /* ---- Tags and attributes ---- */

    function EpubTag(tag: string): string {
      if !epub2 then tag
      else if NewBlock(tag) then "div"
      else if NewInline(tag) then "span"
      else if tag == "wbr" then "br"
      else tag
    }

    predicate AllowedAttribute(tag: string, name: string, attr: Attribute, targets: set<string>) {
      && !("on" <= name)
      && (if epub2 then AllowedInEpub2(tag, name) else AllowedInEpub3(tag, name))
      && (name == "href" ==> tag == "a" && SafeUrl(attr, targets))
      && (name == "src" ==> Embedded(tag) && Remote(attr.url))
      && name != "srcset"
    }
  }

  /** Absolute, or steps out of its directory. */
  predicate Escapes(path: seq<string>) {
    || (|path| > 1 && (path[0] == "" || path[0] == ".."))
    || exists i :: 0 < i < |path| - 1 && path[i] == ".."
  }

  predicate Remote(url: Url) {
    url.Url? && (url.scheme == "https" || url.scheme == "http")
  }

  predicate NewBlock(tag: string) {
    tag in {"article", "aside", "details", "figcaption", "figure", "footer", "header", "hgroup", "main", "nav", "section", "summary"}
  }

  predicate NewInline(tag: string) {
    tag in {"bdi", "data", "mark", "time"}
  }

  predicate Dropped(tag: string) {
    tag in {"script", "style", "iframe", "object", "embed", "picture", "source", "canvas", "form", "input", "button",
            "textarea", "select", "option", "link", "meta"}
  }

  predicate Allowed(tag: string) {
    tag in {"a", "abbr", "address", "article", "aside", "b", "bdi", "bdo", "blockquote", "br", "caption", "cite", "code",
            "col", "colgroup", "data", "dd", "del", "details", "dfn", "div", "dl", "dt", "em", "figcaption", "figure",
            "footer", "h1", "h2", "h3", "h4", "h5", "h6", "header", "hr", "i", "ins", "kbd", "li", "main", "mark", "ol", "p",
            "pre", "q", "rp", "rt", "ruby", "s", "samp", "section", "small", "span", "strong", "sub", "summary", "sup",
            "table", "tbody", "td", "tfoot", "th", "thead", "time", "tr", "u", "ul", "var", "wbr"}
  }

  predicate CanBeVoid(tag: string) {
    tag in {"base", "br", "col", "hr", "img", "param", "source", "track", "wbr"}
  }

  predicate Embedded(tag: string) {
    tag in {"audio", "img", "video"}
  }

  predicate Transparent(tag: string) {
    tag in {"html", "head", "body"}
  }

  predicate AllowedInEpub3(tag: string, name: string) {
    || name in {"id", "class", "title", "lang", "xml:lang", "dir", "role", "hidden"}
    || (name == "href" && tag == "a")
    || ((name == "colspan" || name == "rowspan") && (tag == "td" || tag == "th"))
    || (name == "scope" && tag == "th")
    || (name == "datetime" && (tag == "del" || tag == "ins" || tag == "time"))
    || "aria-" <= name
  }

  predicate AllowedInEpub2(tag: string, name: string) {
    || name in {"id", "class", "title", "xml:lang"}
    || (name == "href" && tag == "a")
    || ((name == "colspan" || name == "rowspan") && (tag == "td" || tag == "th"))
    || (name == "scope" && tag == "th")
    || (name == "datetime" && (tag == "del" || tag == "ins"))
  }

  predicate List(tag: string) {
    tag == "ol" || tag == "ul"
  }

  /** The element a child needs around it in this parent, or "". */
  function Wrapper(parent: string, child: string): string {
    if List(parent) && child != "li" then "li"
    else if parent == "dl" && child != "dd" && child != "dt" then "dd"
    else ""
  }

  /** List items outside their list become plain blocks. */
  function ContentTag(tag: string, parent: string): string {
    if tag == "li" then (if List(parent) then tag else "div")
    else if tag == "dd" || tag == "dt" then (if parent == "dl" then tag else "div")
    else tag
  }

  /* ---- Collecting link targets ---- */

  function Size(node: Node): (n: nat)
    ensures n > 0
  {
    match node
    case Text(_) => 1
    case Element(_, _, children) => 1 + Sizes(children)
    case Other(children) => 1 + Sizes(children)
  }

  function Sizes(nodes: seq<Node>): nat {
    if nodes == [] then 0 else Size(nodes[|nodes| - 1]) + Sizes(nodes[..|nodes| - 1])
  }

  function AttributeTargets(attrs: seq<Attribute>, target: Target): set<string> {
    set attr | attr in attrs && target.AttributeName(attr) == Some("id") && target.SafeId(attr.value) :: Trim(attr.value)
  }

  function Targets(node: Node, target: Target): set<string>
    decreases Size(node), 0
  {
    match node
    case Text(_) => {}
    case Other(children) => AllTargets(children, target)
    case Element(tag, attrs, children) =>
      if tag == "" || Dropped(tag) then {}
      else if Transparent(tag) || !target.ValidName(tag) then AllTargets(children, target)
      else if Embedded(tag) then {}
      else if !Allowed(target.EpubTag(tag)) then AllTargets(children, target)
      else AttributeTargets(attrs, target) + AllTargets(children, target)
  }

  function AllTargets(nodes: seq<Node>, target: Target): set<string>
    decreases Sizes(nodes), 1
  {
    if nodes == [] then {}
    else AllTargets(nodes[..|nodes| - 1], target) + Targets(nodes[|nodes| - 1], target)
  }

  /* ---- Rendering ---- */

  /** Written attributes, and the ids used so far. */
  datatype Attributes = Attributes(written: seq<Emitted>, used: set<string>)

  /** Written tokens, and the ids used so far. */
  datatype Output = Output(tokens: seq<Token>, used: set<string>)

  function AddAttribute(tag: string, attr: Attribute, target: Target, targets: set<string>,
          done: Attributes): Attributes {
    var name := target.AttributeName(attr);
    if name.None? || !target.AllowedAttribute(tag, name.value, attr, targets) then done
    else
      var written := done.written + [Emitted(name.value, attr.value, attr.url)];
      if name.value != "id" then Attributes(written, done.used)
      else
        var id := Trim(attr.value);
        if !target.SafeId(id) || id in done.used then done else Attributes(written, done.used + {id})
  }

  function AddAttributes(tag: string, attrs: seq<Attribute>, target: Target, targets: set<string>,
          used: set<string>): Attributes {
    if attrs == [] then Attributes([], used)
    else AddAttribute(tag, attrs[|attrs| - 1], target, targets, AddAttributes(tag, attrs[..|attrs| - 1], target, targets, used))
  }

  /** The first attribute with a key, trimmed, or "". */
  function ValueOf(attrs: seq<Attribute>, key: string): string {
    if attrs == [] then "" else if attrs[0].key == key then Trim(attrs[0].value) else ValueOf(attrs[1..], key)
  }

  function RemoteSource(attrs: seq<Attribute>): Option<Emitted> {
    if attrs == [] then None
    else if attrs[0].key == "src" && Remote(attrs[0].url) then Some(Emitted("href", Trim(attrs[0].value), attrs[0].url))
    else RemoteSource(attrs[1..])
  }

  /** What stands for a remote resource: a link to it, or only its name inside another link. */
  function RemoteLink(attrs: seq<Attribute>, inAnchor: bool): seq<Token> {
    var src := RemoteSource(attrs);
    if src.None? then []
    else
      var text := if ValueOf(attrs, "alt") != "" then ValueOf(attrs, "alt")
                  else if ValueOf(attrs, "title") != "" then ValueOf(attrs, "title")
                  else if ValueOf(attrs, "aria-label") != "" then ValueOf(attrs, "aria-label")
                  else src.value.value;
      if inAnchor then [Chars(text)] else [Start("a", [src.value]), Chars(text), End("a")]
  }

  function RenderNode(node: Node, parent: string, inAnchor: bool, target: Target, targets: set<string>,
          used: set<string>): Output
    decreases Size(node), 3
  {
    match node
    case Text(data) =>
      var wrapper := Wrapper(parent, "");
      Output(if wrapper != "" && Trim(data) != "" then [Start(wrapper, []), Chars(data), End(wrapper)] else [Chars(data)], used)
    case Element(_, _, _) => RenderElement(node, parent, inAnchor, target, targets, used)
    case Other(children) => RenderAll(children, parent, inAnchor, target, targets, used)
  }

  /** A parent that wraps its children. */
  predicate Wraps(parent: string) {
    List(parent) || parent == "dl"
  }

  function RenderElement(node: Node, parent: string, inAnchor: bool, target: Target, targets: set<string>,
          used: set<string>): Output
    requires node.Element?
    decreases Size(node), if Wraps(parent) then 2 else 1
  {
    if node.tag == "" || Dropped(node.tag) then Output([], used)
    else if Transparent(node.tag) || !target.ValidName(node.tag) then
      RenderAll(node.children, parent, inAnchor, target, targets, used)
    else
      var tag := ContentTag(target.EpubTag(node.tag), parent);
      var wrapper := Wrapper(parent, tag);
      if wrapper != "" then
        var inner := RenderElement(node, wrapper, inAnchor, target, targets, used);
        Output([Start(wrapper, [])] + inner.tokens + [End(wrapper)], inner.used)
      else if Embedded(tag) then Output(RemoteLink(node.attrs, inAnchor), used)
      else if !Allowed(tag) then RenderAll(node.children, parent, inAnchor, target, targets, used)
      else RenderAllowed(tag, node, inAnchor, target, targets, used)
  }

  function RenderAllowed(tag: string, node: Node, inAnchor: bool, target: Target, targets: set<string>,
          used: set<string>): Output
    requires node.Element?
    decreases Size(node), 0
  {
    var attrs := AddAttributes(tag, node.attrs, target, targets, used);
    if CanBeVoid(tag) && node.children == [] then Output([Void(tag, attrs.written)], attrs.used)
    else
      var inner := RenderAll(node.children, tag, inAnchor || tag == "a", target, targets, attrs.used);
      Output([Start(tag, attrs.written)] + inner.tokens + [End(tag)], inner.used)
  }

  function RenderAll(nodes: seq<Node>, parent: string, inAnchor: bool, target: Target, targets: set<string>,
          used: set<string>): Output
    decreases Sizes(nodes), 4
  {
    if nodes == [] then Output([], used)
    else
      var front := RenderAll(nodes[..|nodes| - 1], parent, inAnchor, target, targets, used);
      var last := RenderNode(nodes[|nodes| - 1], parent, inAnchor, target, targets, front.used);
      Output(front.tokens + last.tokens, last.used)
  }

  /* ---- The body ---- */

  /** Without the white space before the first tag. */
  function TrimFront(tokens: seq<Token>): seq<Token> {
    if tokens == [] || !tokens[0].Chars? then tokens
    else
      var text := TrimLeft(tokens[0].text);
      if text == "" then TrimFront(tokens[1..]) else [Chars(text)] + tokens[1..]
  }

  /** Without the white space after the last tag. */
  function TrimBack(tokens: seq<Token>): seq<Token> {
    if tokens == [] || !tokens[|tokens| - 1].Chars? then tokens
    else
      var text := TrimRight(tokens[|tokens| - 1].text);
      if text == "" then TrimBack(tokens[..|tokens| - 1]) else tokens[..|tokens| - 1] + [Chars(text)]
  }

  /** strings.TrimSpace of what the tokens are written as. */
  function Trimmed(tokens: seq<Token>): seq<Token> {
    TrimBack(TrimFront(tokens))
  }

  /** What rendering the nodes writes. */
  function Rendered(nodes: seq<Node>, target: Target): seq<Token> {
    RenderAll(nodes, "", false, target, AllTargets(nodes, target), {}).tokens
  }

  /** The body of the document. */
  function Body(nodes: seq<Node>, target: Target): seq<Token> {
    var tokens := Trimmed(Rendered(nodes, target));
    if tokens == [] then [Start("p", []), End("p")] else tokens
  }

  /* ---- The renderer ---- */

  lemma {:induction false} PrefixSize(nodes: seq<Node>, i: nat)
    requires i < |nodes|
    ensures Size(nodes[i]) <= Sizes(nodes)
  {
    if i == |nodes| - 1 {
    } else {
      PrefixSize(nodes[..|nodes| - 1], i);
    }
  }

  class Renderer {
    const target: Target
    var targets: set<string>
    var usedIds: set<string>
    var body: seq<Token>

    constructor (target: Target)
      ensures this.target == target && targets == {} && usedIds == {} && body == []
    {
      this.target := target;
      targets, usedIds, body := {}, {}, [];
    }

    /** Adds the ids of the elements that rendering will write. */
    method CollectLinkTargetIds(node: Node)
      modifies this`targets
      ensures targets == old(targets) + Targets(node, target)
      decreases Size(node), 0
    {
      hide Dropped, Allowed, Embedded, Transparent, Target.EpubTag, Target.ValidName, Target.AttributeName, Target.SafeId;
      match node {
        case Text(_) =>
        case Other(children) => CollectAll(children);
        case Element(tag, attrs, children) =>
          if tag == "" || Dropped(tag) {
            return;
          }
          if Transparent(tag) || !target.ValidName(tag) {
            CollectAll(children);
            return;
          }
          if Embedded(tag) {
            return;
          }
          if !Allowed(target.EpubTag(tag)) {
            CollectAll(children);
            return;
          }
          for i := 0 to |attrs|
            invariant targets == old(targets) + AttributeTargets(attrs[..i], target)
          {
            assert attrs[..i + 1] == attrs[..i] + [attrs[i]];
            var name := target.AttributeName(attrs[i]);
            if name.Some? && name.value == "id" && target.SafeId(attrs[i].value) {
              targets := targets + {Trim(attrs[i].value)};
            }
          }
          assert attrs[..|attrs|] == attrs;
          CollectAll(children);
      }
    }

    method CollectAll(nodes: seq<Node>)
      modifies this`targets
      ensures targets == old(targets) + AllTargets(nodes, target)
      decreases Sizes(nodes), 1
    {
      hide Targets;
      for i := 0 to |nodes|
        invariant targets == old(targets) + AllTargets(nodes[..i], target)
      {
        assert nodes[..i + 1][..i] == nodes[..i];
        PrefixSize(nodes, i);
        CollectLinkTargetIds(nodes[i]);
      }
      assert nodes[..|nodes|] == nodes;
    }

    method WriteAttributes(tag: string, attrs: seq<Attribute>) returns (written: seq<Emitted>)
      modifies this`usedIds
      ensures Attributes(written, usedIds) == AddAttributes(tag, attrs, target, targets, old(usedIds))
    {
      hide Target.AttributeName, Target.AllowedAttribute, Target.SafeId;
      written := [];
      for i := 0 to |attrs|
        invariant Attributes(written, usedIds) == AddAttributes(tag, attrs[..i], target, targets, old(usedIds))
      {
        assert attrs[..i + 1][..i] == attrs[..i];
        var attr := attrs[i];
        var name := target.AttributeName(attr);
        if name.None? || !target.AllowedAttribute(tag, name.value, attr, targets) {
          continue;
        }
        if name.value == "id" {
          var id := Trim(attr.value);
          if !target.SafeId(id) {
            continue;
          }
          if id in usedIds {
            continue;
          }
          usedIds := usedIds + {id};
        }
        written := written + [Emitted(name.value, attr.value, attr.url)];
      }
      assert attrs[..|attrs|] == attrs;
    }

    method WriteRemoteLink(attrs: seq<Attribute>, inAnchor: bool)
      modifies this`body
      ensures body == old(body) + RemoteLink(attrs, inAnchor)
    {
      hide Remote;
      var src := FindRemoteSource(attrs);
      if src.None? {
        return;
      }
      var text := FindValue(attrs, "alt");
      if text == "" {
        text := FindValue(attrs, "title");
      }
      if text == "" {
        text := FindValue(attrs, "aria-label");
      }
      if text == "" {
        text := src.value.value;
      }
      if inAnchor {
        body := body + [Chars(text)];
        return;
      }
      body := body + [Start("a", [src.value]), Chars(text), End("a")];
    }

    method FindRemoteSource(attrs: seq<Attribute>) returns (r: Option<Emitted>)
      ensures r == RemoteSource(attrs)
    {
      hide Remote;
      for i := 0 to |attrs|
        invariant RemoteSource(attrs) == RemoteSource(attrs[i..])
      {
        if attrs[i].key == "src" && Remote(attrs[i].url) {
          return Some(Emitted("href", Trim(attrs[i].value), attrs[i].url));
        }
      }
      r := None;
    }

    method FindValue(attrs: seq<Attribute>, key: string) returns (r: string)
      ensures r == ValueOf(attrs, key)
    {
      for i := 0 to |attrs|
        invariant ValueOf(attrs, key) == ValueOf(attrs[i..], key)
      {
        if attrs[i].key == key {
          return Trim(attrs[i].value);
        }
      }
      r := "";
    }

    /** Appends what a node renders to; the targets stay. */
    method WriteNode(node: Node, parent: string, inAnchor: bool)
      modifies this`body, this`usedIds
      ensures var o := RenderNode(node, parent, inAnchor, target, targets, old(usedIds));
              body == old(body) + o.tokens && usedIds == o.used
      decreases Size(node), 3
    {
      hide RenderElement, RenderAll, Wrapper, Trim;
      match node {
        case Text(data) =>
          var wrapper := Wrapper(parent, "");
          if wrapper != "" && Trim(data) != "" {
            body := body + [Start(wrapper, []), Chars(data), End(wrapper)];
            return;
          }
          body := body + [Chars(data)];
        case Element(_, _, _) => WriteElement(node, parent, inAnchor);
        case Other(children) => WriteAll(children, parent, inAnchor);
      }
    }

    method WriteElement(node: Node, parent: string, inAnchor: bool)
      requires node.Element?
      modifies this`body, this`usedIds
      ensures var o := RenderElement(node, parent, inAnchor, target, targets, old(usedIds));
              body == old(body) + o.tokens && usedIds == o.used
      decreases Size(node), if Wraps(parent) then 2 else 1
    {
      hide RenderAll, RenderAllowed, Dropped, Transparent, Allowed, Embedded, Target.ValidName, Target.EpubTag, RemoteLink;
      if node.tag == "" || Dropped(node.tag) {
        return;
      }
      if Transparent(node.tag) || !target.ValidName(node.tag) {
        WriteAll(node.children, parent, inAnchor);
        return;
      }
      var tag := ContentTag(target.EpubTag(node.tag), parent);
      var wrapper := Wrapper(parent, tag);
      hide ContentTag;
      if wrapper != "" {
        body := body + [Start(wrapper, [])];
        ghost var before := usedIds;
        WriteElement(node, wrapper, inAnchor);
        body := body + [End(wrapper)];
        Enclosed(old(body), Start(wrapper, []), RenderElement(node, wrapper, inAnchor, target, targets, before).tokens, End(wrapper));
        return;
      }
      if Embedded(tag) {
        WriteRemoteLink(node.attrs, inAnchor);
        return;
      }
      if !Allowed(tag) {
        WriteAll(node.children, parent, inAnchor);
        return;
      }
      WriteAllowed(tag, node, inAnchor);
    }

    method WriteAllowed(tag: string, node: Node, inAnchor: bool)
      requires node.Element?
      modifies this`body, this`usedIds
      ensures var o := RenderAllowed(tag, node, inAnchor, target, targets, old(usedIds));
              body == old(body) + o.tokens && usedIds == o.used
      decreases Size(node), 0
    {
      hide RenderAll, AddAttributes, CanBeVoid;
      var written := WriteAttributes(tag, node.attrs);
      if CanBeVoid(tag) && node.children == [] {
        body := body + [Void(tag, written)];
        return;
      }
      body := body + [Start(tag, written)];
      ghost var before := usedIds;
      WriteAll(node.children, tag, inAnchor || tag == "a");
      body := body + [End(tag)];
      Enclosed(old(body), Start(tag, written), RenderAll(node.children, tag, inAnchor || tag == "a", target, targets, before).tokens, End(tag));
    }

    method WriteAll(nodes: seq<Node>, parent: string, inAnchor: bool)
      modifies this`body, this`usedIds
      ensures var o := RenderAll(nodes, parent, inAnchor, target, targets, old(usedIds));
              body == old(body) + o.tokens && usedIds == o.used
      decreases Sizes(nodes), 4
    {
      hide RenderNode;
      for i := 0 to |nodes|
        invariant var o := RenderAll(nodes[..i], parent, inAnchor, target, targets, old(usedIds));
                  body == old(body) + o.tokens && usedIds == o.used
      {
        assert nodes[..i + 1][..i] == nodes[..i];
        PrefixSize(nodes, i);
        ghost var front := RenderAll(nodes[..i], parent, inAnchor, target, targets, old(usedIds));
        WriteNode(nodes[i], parent, inAnchor);
        Concatenates(old(body), front.tokens, RenderNode(nodes[i], parent, inAnchor, target, targets, front.used).tokens);
      }
      assert nodes[..|nodes|] == nodes;
    }
  }

  lemma Enclosed(front: seq<Token>, start: Token, inner: seq<Token>, end: Token)
    ensures ((front + [start]) + inner) + [end] == front + ([start] + inner + [end])
  {
  }

  method BuildBody(nodes: seq<Node>, target: Target) returns (tokens: seq<Token>)
    ensures tokens == Body(nodes, target)
  {
    hide RenderAll, AllTargets, Trimmed;
    var renderer := new Renderer(target);
    renderer.CollectAll(nodes);
    assert renderer.targets == AllTargets(nodes, target);
    renderer.WriteAll(nodes, "", false);
    assert renderer.body == Rendered(nodes, target);
    tokens := Trimmed(renderer.body);
    if tokens == [] {
      tokens := [Start("p", []), End("p")];
    }
  }
}
