/** What a rendered body may hold, what makes no difference to it, and what it always holds, for every tree. */
module XhtmlAnswers {
  import opened Common
  import opened Paths
  import opened Xhtml
  import opened XhtmlSafety

  /* ---- Nothing active is written ---- */

  /** Elements that run, embed or send something, that style the page, or that are the page's own. */
  predicate Active(tag: string) {
    || tag in {"script", "style", "link", "meta", "iframe", "object", "embed", "canvas"}
    || tag in {"form", "input", "button", "textarea", "select", "option"}
    || tag in {"picture", "source", "audio", "img", "video", "html", "head", "body"}
  }

  /** An attribute any page may carry: no event handler, no style, and a link only on an anchor, to the web or without a scheme. */
  predicate Harmless(tag: string, e: Emitted, epub2: bool) {
    && (e.name in {"id", "class", "title", "xml:lang", "href", "colspan", "rowspan", "scope", "datetime"}
        || (!epub2 && (e.name in {"lang", "dir", "role", "hidden"} || "aria-" <= e.name)))
    && (e.name == "href" ==> tag == "a" && e.url.Url? && e.url.scheme in {"", "http", "https", "mailto", "tel"})
  }

  predicate HarmlessTag(tag: string, epub2: bool) {
    && !Active(tag) && Content(tag)
    && (epub2 ==> tag !in {"article", "aside", "details", "figcaption", "figure", "footer", "header", "hgroup", "main", "nav", "section",
                           "summary", "bdi", "data", "mark", "time", "wbr"})
  }

  predicate HarmlessAttributes(tag: string, attrs: seq<Emitted>, epub2: bool) {
    forall e :: e in attrs ==> Harmless(tag, e, epub2)
  }

  predicate HarmlessToken(t: Token, epub2: bool) {
    t.Start? || t.Void? ==> HarmlessTag(t.tag, epub2) && HarmlessAttributes(t.tag, t.attrs, epub2)
  }

  predicate HarmlessTokens(tokens: seq<Token>, epub2: bool) {
    forall t :: t in tokens ==> HarmlessToken(t, epub2)
  }

  lemma AllowedIsNotActive(tag: string)
    requires Allowed(tag)
    ensures !(tag in {"script", "style", "link", "meta", "iframe", "object", "embed", "canvas"})
    ensures tag != ""
  {
  }

  lemma AllowedIsNoForm(tag: string)
    requires Allowed(tag)
    ensures !(tag in {"form", "input", "button", "textarea", "select", "option"})
  {
  }

  lemma AllowedIsNoMedia(tag: string)
    requires Allowed(tag)
    ensures !(tag in {"picture", "source", "audio", "img", "video", "html", "head", "body"})
  {
  }

  /** Renaming leaves no element that the edition does not have. */
  lemma RenamedIsPlain(tag: string, parent: string, target: Target)
    requires target.epub2
    ensures ContentTag(target.EpubTag(tag), parent) !in {"article", "aside", "details", "figcaption", "figure", "footer", "header",
                                                         "hgroup", "main", "nav", "section", "summary"}
    ensures ContentTag(target.EpubTag(tag), parent) !in {"bdi", "data", "mark", "time", "wbr"}
  {
    PlainIsNotNew();
    hide NewBlock, NewInline;
  }

  lemma PlainIsNotNew()
    ensures forall tag :: tag in {"div", "span", "br", "li", "dd", "dt"} ==> !NewBlock(tag) && !NewInline(tag) && tag != "wbr"
    ensures forall tag :: NewBlock(tag) <==> tag in {"article", "aside", "details", "figcaption", "figure", "footer", "header",
                                                     "hgroup", "main", "nav", "section", "summary"}
    ensures forall tag :: NewInline(tag) <==> tag in {"bdi", "data", "mark", "time"}
  {
  }

  lemma WrappersHarmless(epub2: bool)
    ensures HarmlessTag("li", epub2) && HarmlessTag("dd", epub2) && HarmlessTag("a", epub2)
  {
  }

  lemma AttributeHarmless(tag: string, name: string, attr: Attribute, target: Target, targets: set<string>)
    requires target.AllowedAttribute(tag, name, attr, targets)
    ensures Harmless(tag, Emitted(name, attr.value, attr.url), target.epub2)
  {
    NotSource();
    hide Target.SafeRelative, Trim, Remote;
    assert name == "src" ==> !AllowedInEpub2(tag, name) && !AllowedInEpub3(tag, name);
  }

  lemma NotSource()
    ensures forall tag :: !AllowedInEpub2(tag, "src") && !AllowedInEpub3(tag, "src")
  {
  }

  lemma {:induction false} WrittenHarmless(tag: string, attrs: seq<Attribute>, target: Target, targets: set<string>, used: set<string>)
    ensures HarmlessAttributes(tag, AddAttributes(tag, attrs, target, targets, used).written, target.epub2)
  {
    if attrs == [] {
    } else {
      WrittenHarmless(tag, attrs[..|attrs| - 1], target, targets, used);
      var last := attrs[|attrs| - 1];
      var name := target.AttributeName(last);
      if name.Some? && target.AllowedAttribute(tag, name.value, last, targets) {
        AttributeHarmless(tag, name.value, last, target, targets);
      }
      hide Target.AttributeName, Target.SafeId, Target.AllowedAttribute, Trim, Harmless;
    }
  }

  lemma TagHarmless(tag: string, parent: string, target: Target)
    requires Allowed(ContentTag(target.EpubTag(tag), parent))
    ensures HarmlessTag(ContentTag(target.EpubTag(tag), parent), target.epub2)
  {
    var renamed := ContentTag(target.EpubTag(tag), parent);
    AllowedIsNotActive(renamed);
    AllowedIsNoForm(renamed);
    AllowedIsNoMedia(renamed);
    AllowedIsContent(renamed);
    if target.epub2 {
      RenamedIsPlain(tag, parent, target);
    }
    hide Allowed, ContentTag, Target.EpubTag, Active, Content;
  }

  lemma HarmlessEnclosed(start: Token, inner: seq<Token>, end: string, epub2: bool)
    requires HarmlessTokens(inner, epub2) && HarmlessToken(start, epub2)
    ensures HarmlessTokens([start] + inner + [End(end)], epub2)
  {
    hide HarmlessTag, HarmlessAttributes;
  }

  lemma RemoteLinkHarmless(attrs: seq<Attribute>, inAnchor: bool, epub2: bool)
    ensures HarmlessTokens(RemoteLink(attrs, inAnchor), epub2)
  {
    RemoteSourceIsHref(attrs);
    WrappersHarmless(epub2);
    hide RemoteSource, ValueOf, HarmlessTag;
  }

  lemma TextHarmless(node: Node, parent: string, inAnchor: bool, target: Target, targets: set<string>, used: set<string>)
    requires node.Text?
    ensures HarmlessTokens(RenderNode(node, parent, inAnchor, target, targets, used).tokens, target.epub2)
  {
    WrappersHarmless(target.epub2);
    hide Trim, HarmlessTag;
  }

  lemma {:induction false} NodeHarmless(node: Node, parent: string, inAnchor: bool, target: Target, targets: set<string>, used: set<string>)
    ensures HarmlessTokens(RenderNode(node, parent, inAnchor, target, targets, used).tokens, target.epub2)
    decreases Size(node), 3
  {
    hide RenderElement, RenderAll, Wrapper, Trim, HarmlessTokens;
    match node {
      case Text(_) => TextHarmless(node, parent, inAnchor, target, targets, used);
      case Element(_, _, _) => ElementHarmless(node, parent, inAnchor, target, targets, used);
      case Other(children) => AllHarmless(children, parent, inAnchor, target, targets, used);
    }
  }

  lemma {:induction false} ElementHarmless(node: Node, parent: string, inAnchor: bool, target: Target, targets: set<string>,
          used: set<string>)
    requires node.Element?
    ensures HarmlessTokens(RenderElement(node, parent, inAnchor, target, targets, used).tokens, target.epub2)
    decreases Size(node), if Wraps(parent) then 2 else 1
  {
    var tag := ContentTag(target.EpubTag(node.tag), parent);
    var wrapper := Wrapper(parent, tag);
    WrapperInList(parent, tag);
    WrapperHarmless(parent, tag, target.epub2);
    hide RenderAll, RenderAllowed, RemoteLink, Wrapper, ContentTag, Target.EpubTag, Target.ValidName, Dropped, Transparent,
         Allowed, Embedded, Wraps, HarmlessTokens, HarmlessTag;
    if node.tag == "" || Dropped(node.tag) {
      NothingHarmless(target.epub2);
    } else if Transparent(node.tag) || !target.ValidName(node.tag) {
      AllHarmless(node.children, parent, inAnchor, target, targets, used);
    } else if wrapper != "" {
      ElementHarmless(node, wrapper, inAnchor, target, targets, used);
      HarmlessEnclosed(Start(wrapper, []), RenderElement(node, wrapper, inAnchor, target, targets, used).tokens, wrapper, target.epub2);
    } else if Embedded(tag) {
      RemoteLinkHarmless(node.attrs, inAnchor, target.epub2);
    } else if !Allowed(tag) {
      AllHarmless(node.children, parent, inAnchor, target, targets, used);
    } else {
      TagHarmless(node.tag, parent, target);
      AllowedHarmless(tag, node, inAnchor, target, targets, used);
    }
  }

  lemma WrapperHarmless(parent: string, tag: string, epub2: bool)
    ensures Wrapper(parent, tag) != "" ==> HarmlessToken(Start(Wrapper(parent, tag), []), epub2)
  {
    WrappersHarmless(epub2);
    hide HarmlessTag;
  }

  lemma NothingHarmless(epub2: bool)
    ensures HarmlessTokens([], epub2)
  {
  }

  lemma {:induction false} AllowedHarmless(tag: string, node: Node, inAnchor: bool, target: Target, targets: set<string>,
          used: set<string>)
    requires node.Element? && HarmlessTag(tag, target.epub2)
    ensures HarmlessTokens(RenderAllowed(tag, node, inAnchor, target, targets, used).tokens, target.epub2)
    decreases Size(node), 0
  {
    var attrs := AddAttributes(tag, node.attrs, target, targets, used);
    WrittenHarmless(tag, node.attrs, target, targets, used);
    hide RenderAll, AddAttributes, CanBeVoid, HarmlessTag, HarmlessAttributes;
    if CanBeVoid(tag) && node.children == [] {
    } else {
      var inside := inAnchor || tag == "a";
      AllHarmless(node.children, tag, inside, target, targets, attrs.used);
      HarmlessEnclosed(Start(tag, attrs.written), RenderAll(node.children, tag, inside, target, targets, attrs.used).tokens, tag, target.epub2);
    }
  }

  lemma {:induction false} AllHarmless(nodes: seq<Node>, parent: string, inAnchor: bool, target: Target, targets: set<string>,
          used: set<string>)
    ensures HarmlessTokens(RenderAll(nodes, parent, inAnchor, target, targets, used).tokens, target.epub2)
    decreases Sizes(nodes), 4
  {
    hide RenderNode, HarmlessToken;
    if nodes == [] {
    } else {
      var front := RenderAll(nodes[..|nodes| - 1], parent, inAnchor, target, targets, used);
      AllHarmless(nodes[..|nodes| - 1], parent, inAnchor, target, targets, used);
      NodeHarmless(nodes[|nodes| - 1], parent, inAnchor, target, targets, front.used);
    }
  }

  /** Trimming takes and keeps only text, but an empty body becomes an empty paragraph. */
  lemma BodyTags(nodes: seq<Node>, target: Target)
    ensures forall t :: t in Body(nodes, target) && !t.Chars? ==> t in Rendered(nodes, target) || t in [Start("p", []), End("p")]
    ensures forall t :: t in Rendered(nodes, target) && !t.Chars? ==> t in Body(nodes, target)
  {
    hide Rendered;
    FrontTags(Rendered(nodes, target));
    BackTags(TrimFront(Rendered(nodes, target)));
    hide TrimFront, TrimBack;
  }

  lemma {:induction false} FrontTags(tokens: seq<Token>)
    ensures forall t: Token :: !t.Chars? ==> (t in TrimFront(tokens) <==> t in tokens)
  {
    hide TrimLeft;
    if tokens == [] || !tokens[0].Chars? {
    } else {
      FrontTags(tokens[1..]);
      assert tokens == [tokens[0]] + tokens[1..];
    }
  }

  lemma {:induction false} BackTags(tokens: seq<Token>)
    ensures forall t: Token :: !t.Chars? ==> (t in TrimBack(tokens) <==> t in tokens)
  {
    hide TrimRight;
    if tokens == [] || !tokens[|tokens| - 1].Chars? {
    } else {
      BackTags(tokens[..|tokens| - 1]);
      assert tokens == tokens[..|tokens| - 1] + [tokens[|tokens| - 1]];
    }
  }

  lemma ParagraphHarmless(epub2: bool)
    ensures HarmlessTag("p", epub2)
  {
  }

  /** No page carries a script, a style, a form, an embedded resource or an event handler, and links only to the web or to itself. */
  lemma BodyIsHarmless(nodes: seq<Node>, target: Target, t: Token)
    requires t in Body(nodes, target) && (t.Start? || t.Void?)
    ensures !Active(t.tag) && Content(t.tag)
    ensures HarmlessTag(t.tag, target.epub2)
    ensures forall e :: e in t.attrs ==>
              && Harmless(t.tag, e, target.epub2)
              && !("on" <= e.name) && e.name !in {"style", "src", "srcset"}
  {
    AllHarmless(nodes, "", false, target, AllTargets(nodes, target), {});
    BodyTags(nodes, target);
    ParagraphHarmless(target.epub2);
    hide Body, RenderAll, AllTargets, Active, Content;
    assert t in Rendered(nodes, target) || t == Start("p", []);
    forall e | e in t.attrs
      ensures Harmless(t.tag, e, target.epub2) && !("on" <= e.name) && e.name !in {"style", "src", "srcset"}
    {
      NoHandler(t.tag, e, target.epub2);
    }
  }

  lemma NoHandler(tag: string, e: Emitted, epub2: bool)
    requires Harmless(tag, e, epub2)
    ensures !("on" <= e.name) && e.name !in {"style", "src", "srcset"}
  {
    assert e.name[0] in {'i', 'c', 't', 'x', 'h', 'r', 's', 'd', 'l', 'a'};
    assert e.name[0] == 's' ==> e.name == "scope";
    assert "on"[0] == 'o' && "style"[1] != "scope"[1] && |"src"| != |"scope"| && |"srcset"| != |"scope"|;
  }

  /* ---- What makes no difference ---- */

  /** Elements that are left out with all they hold. */
  predicate Silent(tag: string) {
    || tag == "" || tag in {"script", "style", "iframe", "object", "embed", "picture", "source", "canvas"}
    || tag in {"form", "input", "button", "textarea", "select", "option", "link", "meta"}
  }

  /** The same tree with nothing in those elements. */
  function Emptied(node: Node): Node
    decreases Size(node), 0
  {
    match node
    case Text(_) => node
    case Other(children) => Other(AllEmptied(children))
    case Element(tag, attrs, children) => if Silent(tag) then Element(tag, [], []) else Element(tag, attrs, AllEmptied(children))
  }

  function AllEmptied(nodes: seq<Node>): (r: seq<Node>)
    ensures |r| == |nodes|
    decreases Sizes(nodes), 1
  {
    if nodes == [] then [] else AllEmptied(nodes[..|nodes| - 1]) + [Emptied(nodes[|nodes| - 1])]
  }

  lemma SilentIs(tag: string)
    ensures Silent(tag) <==> tag == "" || Dropped(tag)
  {
  }

  lemma AllEmptiedNext(nodes: seq<Node>)
    requires nodes != []
    ensures var r := AllEmptied(nodes);
            r[..|r| - 1] == AllEmptied(nodes[..|nodes| - 1]) && r[|r| - 1] == Emptied(nodes[|nodes| - 1])
  {
    hide Emptied;
  }

  lemma {:induction false} EmptiedTargets(node: Node, target: Target)
    ensures Targets(Emptied(node), target) == Targets(node, target)
    decreases Size(node), 0
  {
    hide AllTargets, AllEmptied, Dropped, Silent, Allowed, Target.EpubTag, Target.ValidName, Embedded, Transparent, AttributeTargets;
    match node {
      case Text(_) =>
      case Other(children) => AllEmptiedTargets(children, target);
      case Element(tag, _, children) =>
        SilentIs(tag);
        if !Silent(tag) {
          AllEmptiedTargets(children, target);
        }
    }
  }

  lemma {:induction false} AllEmptiedTargets(nodes: seq<Node>, target: Target)
    ensures AllTargets(AllEmptied(nodes), target) == AllTargets(nodes, target)
    decreases Sizes(nodes), 1
  {
    hide Targets, Emptied;
    if nodes == [] {
    } else {
      AllEmptiedNext(nodes);
      AllEmptiedTargets(nodes[..|nodes| - 1], target);
      EmptiedTargets(nodes[|nodes| - 1], target);
    }
  }

  lemma {:induction false} EmptiedNode(node: Node, parent: string, inAnchor: bool, target: Target, targets: set<string>, used: set<string>)
    ensures RenderNode(Emptied(node), parent, inAnchor, target, targets, used) == RenderNode(node, parent, inAnchor, target, targets, used)
    decreases Size(node), 3
  {
    hide RenderElement, RenderAll, Wrapper, Trim, AllEmptied, Silent;
    match node {
      case Text(_) =>
      case Element(_, _, _) => EmptiedElement(node, parent, inAnchor, target, targets, used);
      case Other(children) => AllEmptiedNodes(children, parent, inAnchor, target, targets, used);
    }
  }

  lemma {:induction false} EmptiedElement(node: Node, parent: string, inAnchor: bool, target: Target, targets: set<string>,
          used: set<string>)
    requires node.Element?
    ensures RenderElement(Emptied(node), parent, inAnchor, target, targets, used) == RenderElement(node, parent, inAnchor, target, targets, used)
    decreases Size(node), if Wraps(parent) then 2 else 1
  {
    var tag := ContentTag(target.EpubTag(node.tag), parent);
    var wrapper := Wrapper(parent, tag);
    WrapperInList(parent, tag);
    SilentIs(node.tag);
    hide RenderAll, RenderAllowed, RemoteLink, Wrapper, ContentTag, Target.EpubTag, Target.ValidName, Dropped, Silent, Transparent,
         Allowed, Embedded, Wraps, AllEmptied;
    if !Silent(node.tag) {
      if Transparent(node.tag) || !target.ValidName(node.tag) {
        AllEmptiedNodes(node.children, parent, inAnchor, target, targets, used);
      } else if wrapper != "" {
        EmptiedElement(node, wrapper, inAnchor, target, targets, used);
      } else if !Embedded(tag) {
        if Allowed(tag) {
          EmptiedAllowed(tag, node, inAnchor, target, targets, used);
        } else {
          AllEmptiedNodes(node.children, parent, inAnchor, target, targets, used);
        }
      }
    }
  }

  lemma {:induction false} EmptiedAllowed(tag: string, node: Node, inAnchor: bool, target: Target, targets: set<string>,
          used: set<string>)
    requires node.Element? && !Silent(node.tag)
    ensures RenderAllowed(tag, Emptied(node), inAnchor, target, targets, used) == RenderAllowed(tag, node, inAnchor, target, targets, used)
    decreases Size(node), 0
  {
    hide RenderAll, AddAttributes, CanBeVoid, AllEmptied, Silent;
    var attrs := AddAttributes(tag, node.attrs, target, targets, used);
    AllEmptiedNodes(node.children, tag, inAnchor || tag == "a", target, targets, attrs.used);
  }

  lemma {:induction false} AllEmptiedNodes(nodes: seq<Node>, parent: string, inAnchor: bool, target: Target, targets: set<string>,
          used: set<string>)
    ensures RenderAll(AllEmptied(nodes), parent, inAnchor, target, targets, used) == RenderAll(nodes, parent, inAnchor, target, targets, used)
    decreases Sizes(nodes), 4
  {
    hide RenderNode, Emptied;
    if nodes == [] {
    } else {
      AllEmptiedNext(nodes);
      var front := RenderAll(nodes[..|nodes| - 1], parent, inAnchor, target, targets, used);
      AllEmptiedNodes(nodes[..|nodes| - 1], parent, inAnchor, target, targets, used);
      EmptiedNode(nodes[|nodes| - 1], parent, inAnchor, target, targets, front.used);
    }
  }

  /** Nothing in a script, a style, a form or another silent element leaves a trace in the body. */
  lemma SilentLeavesNoTrace(nodes: seq<Node>, target: Target)
    ensures Body(AllEmptied(nodes), target) == Body(nodes, target)
  {
    AllEmptiedTargets(nodes, target);
    AllEmptiedNodes(nodes, "", false, target, AllTargets(nodes, target), {});
    hide RenderAll, AllTargets, AllEmptied, Trimmed;
  }

  /* ---- What is always written ---- */

  /** The Latin letters are letters and the ten digits are digits. */
  ghost predicate Latin(target: Target) {
    && (forall c: char :: 'a' <= c <= 'z' ==> target.letter(c))
    && (forall c: char :: '0' <= c <= '9' ==> target.digit(c))
  }

  predicate Lower(c: char) {
    'a' <= c <= 'z'
  }

  /** A letter and then letters, digits and hyphens. */
  predicate PlainName(name: string) {
    name != "" && Lower(name[0]) && forall i :: 0 < i < |name| ==> Lower(name[i]) || '0' <= name[i] <= '9' || name[i] == '-'
  }

  lemma PlainIsValid(name: string, target: Target)
    requires Latin(target) && PlainName(name)
    ensures target.ValidName(name) && ':' !in name
  {
  }

  /** What is in such an element is rendered. */
  predicate Open(tag: string) {
    !Silent(tag) && tag !in {"audio", "img", "video"}
  }

  /** `e` stands among the nodes or in open elements among them; `inner` says whether it is in an anchor when they are in one if `outer`. */
  predicate Reaches(nodes: seq<Node>, e: Node, outer: bool, inner: bool)
    decreases Sizes(nodes), 1
  {
    nodes != [] && (Reaches(nodes[..|nodes| - 1], e, outer, inner) || ReachesFrom(nodes[|nodes| - 1], e, outer, inner))
  }

  predicate ReachesFrom(node: Node, e: Node, outer: bool, inner: bool)
    decreases Size(node), 0
  {
    || (node == e && outer == inner)
    || match node
       case Text(_) => false
       case Other(children) => Reaches(children, e, outer, inner)
       case Element(tag, _, children) => Open(tag) && Reaches(children, e, outer || tag == "a", inner)
  }

  predicate Includes(all: seq<Token>, part: seq<Token>) {
    forall t :: t in part ==> t in all
  }

  lemma OpenIs(tag: string, target: Target)
    requires Latin(target) && Open(tag)
    ensures tag != "" && !Dropped(tag) && !Embedded(tag)
    ensures tag == "a" ==> target.ValidName(tag) && !Transparent(tag)
  {
    SilentIs(tag);
    PlainIsValid("a", target);
    assert |"html"| != 1 && |"head"| != 1 && |"body"| != 1;
    hide Silent, Dropped;
  }

  lemma AnchorStays(tag: string, parent: string, target: Target)
    ensures ContentTag(target.EpubTag(tag), parent) == "a" <==> tag == "a"
    ensures tag == "a" ==> Allowed(ContentTag(target.EpubTag(tag), parent))
  {
    assert |"div"| != |"a"| && |"span"| != |"a"| && |"br"| != |"a"| && |"wbr"| != |"a"|;
    assert !NewBlock("a") && !NewInline("a");
    AnchorAllowed();
    hide Allowed, NewBlock, NewInline;
  }

  lemma AnchorAllowed()
    ensures Allowed("a")
  {
  }

  /** A reachable element is rendered somewhere in the page, with the ids used before it. */
  lemma {:induction false} RenderedInNode(node: Node, e: Node, parent: string, inAnchor: bool, inner: bool, target: Target,
          targets: set<string>, used: set<string>) returns (p: string, u: set<string>)
    requires e.Element? && Latin(target) && ReachesFrom(node, e, inAnchor, inner)
    ensures Includes(RenderNode(node, parent, inAnchor, target, targets, used).tokens, RenderElement(e, p, inner, target, targets, u).tokens)
    decreases Size(node), 3
  {
    hide RenderElement, RenderAll, Wrapper, Trim, Open, Reaches, Latin;
    p, u := parent, used;
    if node != e || inAnchor != inner {
      match node {
        case Text(_) =>
        case Other(children) => p, u := RenderedInAll(children, e, parent, inAnchor, inner, target, targets, used);
        case Element(_, _, _) => p, u := RenderedInElement(node, e, parent, inAnchor, inner, target, targets, used);
      }
    }
  }

  lemma {:induction false} RenderedInElement(node: Node, e: Node, parent: string, inAnchor: bool, inner: bool, target: Target,
          targets: set<string>, used: set<string>) returns (p: string, u: set<string>)
    requires e.Element? && Latin(target) && node.Element? && Open(node.tag)
    requires Reaches(node.children, e, inAnchor || node.tag == "a", inner)
    ensures Includes(RenderElement(node, parent, inAnchor, target, targets, used).tokens, RenderElement(e, p, inner, target, targets, u).tokens)
    decreases Size(node), if Wraps(parent) then 2 else 1
  {
    var tag := ContentTag(target.EpubTag(node.tag), parent);
    var wrapper := Wrapper(parent, tag);
    WrapperInList(parent, tag);
    OpenIs(node.tag, target);
    RenamingKeeps(node.tag, parent, target);
    AnchorStays(node.tag, parent, target);
    hide RenderAll, RenderAllowed, RemoteLink, Wrapper, ContentTag, Target.EpubTag, Target.ValidName, Dropped, Transparent,
         Allowed, Embedded, Wraps, Open, Reaches, Latin;
    if Transparent(node.tag) || !target.ValidName(node.tag) {
      p, u := RenderedInAll(node.children, e, parent, inAnchor, inner, target, targets, used);
    } else if wrapper != "" {
      p, u := RenderedInElement(node, e, wrapper, inAnchor, inner, target, targets, used);
    } else if !Allowed(tag) {
      p, u := RenderedInAll(node.children, e, parent, inAnchor, inner, target, targets, used);
    } else {
      p, u := RenderedInAllowed(tag, node, e, inAnchor, inner, target, targets, used);
    }
  }

  lemma {:induction false} RenderedInAllowed(tag: string, node: Node, e: Node, inAnchor: bool, inner: bool, target: Target,
          targets: set<string>, used: set<string>) returns (p: string, u: set<string>)
    requires e.Element? && Latin(target) && node.Element? && (tag == "a" <==> node.tag == "a")
    requires Reaches(node.children, e, inAnchor || node.tag == "a", inner)
    ensures Includes(RenderAllowed(tag, node, inAnchor, target, targets, used).tokens, RenderElement(e, p, inner, target, targets, u).tokens)
    decreases Size(node), 0
  {
    hide RenderAll, RenderElement, AddAttributes, CanBeVoid, Latin, ReachesFrom;
    var attrs := AddAttributes(tag, node.attrs, target, targets, used);
    p, u := RenderedInAll(node.children, e, tag, inAnchor || tag == "a", inner, target, targets, attrs.used);
  }

  lemma {:induction false} RenderedInAll(nodes: seq<Node>, e: Node, parent: string, inAnchor: bool, inner: bool, target: Target,
          targets: set<string>, used: set<string>) returns (p: string, u: set<string>)
    requires e.Element? && Latin(target) && Reaches(nodes, e, inAnchor, inner)
    ensures Includes(RenderAll(nodes, parent, inAnchor, target, targets, used).tokens, RenderElement(e, p, inner, target, targets, u).tokens)
    decreases Sizes(nodes), 4
  {
    hide RenderNode, RenderElement, ReachesFrom, Latin;
    var front, last := nodes[..|nodes| - 1], nodes[|nodes| - 1];
    if Reaches(front, e, inAnchor, inner) {
      p, u := RenderedInAll(front, e, parent, inAnchor, inner, target, targets, used);
    } else {
      var before := RenderAll(front, parent, inAnchor, target, targets, used);
      p, u := RenderedInNode(last, e, parent, inAnchor, inner, target, targets, before.used);
    }
  }

  /* What an element is written as. */

  predicate Plain(tag: string) {
    || tag in {"a", "abbr", "address", "b", "bdo", "blockquote", "br", "caption", "cite", "code", "col", "colgroup", "del", "dfn", "div"}
    || tag in {"dl", "em", "h1", "h2", "h3", "h4", "h5", "h6", "hr", "i", "ins", "kbd", "ol", "p", "pre", "q", "rp", "rt", "ruby", "s"}
    || tag in {"samp", "small", "span", "strong", "sub", "sup", "table", "tbody", "td", "tfoot", "th", "thead", "tr", "u", "ul", "var"}
  }

  predicate Item(tag: string) {
    tag in {"li", "dd", "dt"}
  }

  predicate Block5(tag: string) {
    tag in {"article", "aside", "details", "figcaption", "figure", "footer", "header", "main", "section", "summary"}
  }

  predicate Inline5(tag: string) {
    tag in {"bdi", "data", "mark", "time"}
  }

  /** The tag is kept, an item outside its list is a plain block, and EPUB 2 has stand-ins for the newer elements. */
  predicate WrittenAs(tag: string, written: string, epub2: bool) {
    || (Plain(tag) && written == tag)
    || (Item(tag) && (written == tag || written == "div"))
    || (Block5(tag) && written == if epub2 then "div" else tag)
    || (Inline5(tag) && written == if epub2 then "span" else tag)
    || (tag == "wbr" && written == if epub2 then "br" else tag)
  }

  predicate Content(tag: string) {
    Plain(tag) || Item(tag) || Block5(tag) || Inline5(tag) || tag == "wbr"
  }

  lemma ContentIsAllowed(tag: string)
    requires Content(tag)
    ensures Allowed(tag)
  {
  }

  lemma AllowedIsContent(tag: string)
    requires Allowed(tag)
    ensures Content(tag)
  {
  }

  lemma ContentIsOpen(tag: string)
    requires Allowed(tag)
    ensures tag != "" && !Dropped(tag) && !Transparent(tag)
    ensures !Embedded(tag)
  {
    AllowedIsNotActive(tag);
    AllowedIsNoForm(tag);
    AllowedIsNoMedia(tag);
    hide Allowed;
  }

  lemma NewAre(tag: string)
    requires Content(tag)
    ensures NewBlock(tag) <==> Block5(tag)
    ensures NewInline(tag) <==> Inline5(tag)
    ensures Item(tag) ==> !Block5(tag) && !Inline5(tag) && tag != "wbr"
  {
  }

  lemma ContentTagIs(tag: string, parent: string, target: Target)
    requires Content(tag)
    ensures WrittenAs(tag, ContentTag(target.EpubTag(tag), parent), target.epub2)
    ensures Allowed(ContentTag(target.EpubTag(tag), parent))
  {
    NewAre(tag);
    ContentIsAllowed(tag);
    StandInsAllowed();
    PlainIsNotNew();
    hide Allowed, Plain, Block5, Inline5, NewBlock, NewInline;
  }

  lemma VoidAre(tag: string)
    requires Allowed(tag)
    ensures CanBeVoid(tag) <==> tag in {"br", "col", "hr", "wbr"}
  {
  }

  lemma StandInsAllowed()
    ensures Allowed("div") && Allowed("span") && Allowed("br")
  {
  }

  /** The tag of an element that is written, with its attributes. */
  lemma {:induction false} WritesElement(e: Node, parent: string, inAnchor: bool, target: Target, targets: set<string>, used: set<string>)
    returns (t: Token)
    requires e.Element? && Content(e.tag) && target.ValidName(e.tag)
    ensures t in RenderElement(e, parent, inAnchor, target, targets, used).tokens && (t.Start? || t.Void?)
    ensures t.Void? <==> e.children == [] && t.tag in {"br", "col", "hr", "wbr"}
    ensures WrittenAs(e.tag, t.tag, target.epub2) && t.attrs == AddAttributes(t.tag, e.attrs, target, targets, used).written
    decreases if Wraps(parent) then 1 else 0
  {
    var tag := ContentTag(target.EpubTag(e.tag), parent);
    var wrapper := Wrapper(parent, tag);
    WrapperInList(parent, tag);
    ContentIsAllowed(e.tag);
    ContentIsOpen(e.tag);
    ContentTagIs(e.tag, parent, target);
    ContentIsOpen(tag);
    VoidAre(tag);
    hide RenderAll, RemoteLink, Wrapper, ContentTag, Target.EpubTag, Target.ValidName, Dropped, Transparent, AddAttributes, CanBeVoid,
         Allowed, Embedded, Wraps, Content, WrittenAs;
    if wrapper != "" {
      t := WritesElement(e, wrapper, inAnchor, target, targets, used);
      assert t in RenderElement(e, parent, inAnchor, target, targets, used).tokens;
    } else {
      var attrs := AddAttributes(tag, e.attrs, target, targets, used).written;
      t := if CanBeVoid(tag) && e.children == [] then Void(tag, attrs) else Start(tag, attrs);
      assert RenderElement(e, parent, inAnchor, target, targets, used) == RenderAllowed(tag, e, inAnchor, target, targets, used);
      assert t == RenderAllowed(tag, e, inAnchor, target, targets, used).tokens[0];
    }
  }

  /* Attributes. */

  /** A link to the web, to an id of this page, or to this very page by its path. */
  predicate SafeHref(attr: Attribute, target: Target, ids: set<string>) {
    && Trim(attr.value) != "" && attr.url.Url?
    && var url := attr.url;
       || url.scheme in {"http", "https", "mailto", "tel"}
       || (&& url.scheme == "" && url.host == "" && url.opaquePart == "" && (url.fragment != "" ==> url.fragment in ids)
           && if url.path == [] then url.fragment != ""
              else && target.file != [] && Clean(url.path, false) == Clean(target.file, false)
                   && (|url.path| > 1 ==> url.path[0] != "" && url.path[0] != "..")
                   && forall i :: 0 < i < |url.path| - 1 ==> url.path[i] != "..")
  }

  /** The attribute is kept on this tag under this name. */
  predicate KeptAs(tag: string, attr: Attribute, name: string, target: Target, ids: set<string>) {
    if attr.namespace == "xml" then attr.key == "lang" && name == "xml:lang"
    else
      && name == attr.key && PlainName(name)
      && (|| name == "class" || name == "title"
          || (!target.epub2 && (name in {"lang", "dir", "role", "hidden"} || "aria-" <= name))
          || ((name == "colspan" || name == "rowspan") && (tag == "td" || tag == "th"))
          || (name == "scope" && tag == "th")
          || (name == "datetime" && (tag == "del" || tag == "ins" || (tag == "time" && !target.epub2)))
          || (name == "href" && tag == "a" && SafeHref(attr, target, ids)))
  }

  lemma KeptIsNamed(tag: string, attr: Attribute, name: string, target: Target, ids: set<string>)
    requires Latin(target) && KeptAs(tag, attr, name, target, ids)
    ensures target.AttributeName(attr) == Some(name)
    ensures name != "id"
  {
    if attr.namespace == "xml" {
      PlainIsValid("lang", target);
      assert |"lang"| == 4 && |"xmlns"| == 5;
      XmlLangIsValid(target);
    } else {
      PlainIsValid(name, target);
      assert name[0] in {'c', 't', 'l', 'd', 'r', 'h', 'a', 's'};
      assert "xmlns"[0] == 'x' && "id"[0] == 'i';
    }
    hide Target.ValidName, Latin, SafeHref;
  }

  lemma XmlLangIsValid(target: Target)
    requires Latin(target)
    ensures target.ValidName("xml:lang") && "xml:" + "lang" == "xml:lang"
  {
  }

  lemma SafeHrefIs(attr: Attribute, target: Target, ids: set<string>)
    requires SafeHref(attr, target, ids)
    ensures target.SafeUrl(attr, ids)
  {
    hide Clean, Trim;
    assert |""| == 0 && |"http"| == 4 && |"https"| == 5 && |"mailto"| == 6 && |"tel"| == 3;
  }

  lemma KeptIsAllowed(tag: string, attr: Attribute, name: string, target: Target, ids: set<string>)
    requires KeptAs(tag, attr, name, target, ids)
    ensures target.AllowedAttribute(tag, name, attr, ids)
  {
    if name == "href" && attr.namespace != "xml" {
      SafeHrefIs(attr, target, ids);
    }
    hide Target.SafeUrl, SafeHref, PlainName, Remote;
    assert name[0] in {'c', 't', 'l', 'd', 'r', 'h', 'a', 's', 'x'};
    assert "on"[0] == 'o' && (name[0] == 's' ==> |name| == 5) && |"src"| == 3 && |"srcset"| == 6;
  }

  lemma {:induction false} KeptIsWritten(tag: string, attrs: seq<Attribute>, attr: Attribute, name: string, target: Target,
          ids: set<string>, used: set<string>)
    requires Latin(target) && attr in attrs && KeptAs(tag, attr, name, target, ids)
    ensures Emitted(name, attr.value, attr.url) in AddAttributes(tag, attrs, target, ids, used).written
  {
    var front, last := attrs[..|attrs| - 1], attrs[|attrs| - 1];
    assert attrs == front + [last];
    KeptIsNamed(tag, attr, name, target, ids);
    KeptIsAllowed(tag, attr, name, target, ids);
    hide Target.AttributeName, Target.AllowedAttribute, Target.SafeId, Trim, KeptAs, Latin;
    if attr in front {
      KeptIsWritten(tag, front, attr, name, target, ids, used);
    }
  }

  /** The tag writes the element, empty only if it has no content and needs none, with every attribute that is kept. */
  ghost predicate Shows(t: Token, e: Node, target: Target, ids: set<string>)
    requires e.Element?
  {
    && (t.Start? || t.Void?) && WrittenAs(e.tag, t.tag, target.epub2)
    && (t.Void? <==> e.children == [] && t.tag in {"br", "col", "hr", "wbr"})
    && forall attr, name :: attr in e.attrs && KeptAs(t.tag, attr, name, target, ids) ==> Emitted(name, attr.value, attr.url) in t.attrs
  }

  /** A reachable element of the page's content is written with its links, titles and other kept attributes. */
  lemma ContentIsWritten(nodes: seq<Node>, e: Node, inner: bool, target: Target)
    requires Latin(target) && Reaches(nodes, e, false, inner) && e.Element? && Content(e.tag) && PlainName(e.tag)
    ensures exists t :: t in Body(nodes, target) && Shows(t, e, target, Elems(IdsOf(Body(nodes, target))))
  {
    var ids := AllTargets(nodes, target);
    IdsAreTargets(nodes, target);
    PlainIsValid(e.tag, target);
    var p, u := RenderedInAll(nodes, e, "", false, inner, target, ids, {});
    var t := WritesElement(e, p, inner, target, ids, u);
    BodyTags(nodes, target);
    hide Body, RenderAll, RenderElement, AllTargets, IdsOf, Reaches, Content, PlainName, WrittenAs, AddAttributes, KeptAs, Target.ValidName;
    assert t in Rendered(nodes, target);
    forall attr, name | attr in e.attrs && KeptAs(t.tag, attr, name, target, ids)
      ensures Emitted(name, attr.value, attr.url) in t.attrs
    {
      KeptIsWritten(t.tag, e.attrs, attr, name, target, ids, u);
    }
  }

  /** Every reachable anchor with a safe link is written as an anchor with that link. */
  lemma SafeLinksAreWritten(nodes: seq<Node>, e: Node, inner: bool, target: Target, attr: Attribute)
    requires Latin(target) && Reaches(nodes, e, false, inner) && e.Element? && e.tag == "a"
    requires attr in e.attrs && attr.key == "href" && attr.namespace != "xml" && SafeHref(attr, target, Elems(IdsOf(Body(nodes, target))))
    ensures exists t :: t in Body(nodes, target) && t.Start? && t.tag == "a" && Emitted("href", attr.value, attr.url) in t.attrs
  {
    AnchorIsPlain();
    ContentIsWritten(nodes, e, inner, target);
    hide Body, IdsOf, Reaches, SafeHref, Latin, Content, PlainName, Shows;
    var t :| t in Body(nodes, target) && Shows(t, e, target, Elems(IdsOf(Body(nodes, target))));
    AnchorShown(t, e, target, Elems(IdsOf(Body(nodes, target))), attr);
  }

  /** Every id of reachable content is written, once for each name. */
  lemma IdsAreWritten(nodes: seq<Node>, e: Node, inner: bool, target: Target, attr: Attribute)
    requires Latin(target) && Reaches(nodes, e, false, inner) && e.Element? && Content(e.tag) && PlainName(e.tag)
    requires attr in e.attrs && attr.key == "id" && attr.namespace != "xml" && PlainName(Trim(attr.value))
    ensures Trim(attr.value) in IdsOf(Body(nodes, target))
    ensures Distinct(IdsOf(Body(nodes, target)))
  {
    IdsAreTargets(nodes, target);
    CollectedInAll(nodes, e, false, inner, target, attr);
    hide Body, IdsOf, Reaches, AllTargets, Latin, Content, PlainName, Trim;
    assert Trim(attr.value) in Elems(IdsOf(Body(nodes, target)));
  }

  lemma IdIsCollected(e: Node, target: Target, attr: Attribute)
    requires Latin(target) && e.Element? && Content(e.tag) && PlainName(e.tag)
    requires attr in e.attrs && attr.key == "id" && attr.namespace != "xml" && PlainName(Trim(attr.value))
    ensures Trim(attr.value) in Targets(e, target)
  {
    PlainIsValid(Trim(attr.value), target);
    PlainIsValid(e.tag, target);
    PlainIsValid("id", target);
    ContentIsAllowed(e.tag);
    ContentIsOpen(e.tag);
    ContentTagIs(e.tag, "", target);
    RenamingKeeps(e.tag, "", target);
    NameIsId(attr, target);
    hide ContentTag, Target.EpubTag, Target.ValidName, Target.AttributeName, Allowed, Dropped, Transparent, Embedded, Content, PlainName, Latin,
         AllTargets, Trim, WrittenAs;
    assert Trim(attr.value) in AttributeTargets(e.attrs, target);
  }

  lemma NameIsId(attr: Attribute, target: Target)
    requires attr.key == "id" && attr.namespace != "xml" && target.ValidName("id")
    ensures target.AttributeName(attr) == Some("id")
  {
    assert |"id"| == 2 && |"xmlns"| == 5 && "id"[0] == 'i' && "id"[1] == 'd';
  }

  /** What is reachable is collected from. */
  lemma {:induction false} CollectedInNode(node: Node, e: Node, outer: bool, inner: bool, target: Target, attr: Attribute)
    requires Latin(target) && ReachesFrom(node, e, outer, inner) && e.Element? && Content(e.tag) && PlainName(e.tag)
    requires attr in e.attrs && attr.key == "id" && attr.namespace != "xml" && PlainName(Trim(attr.value))
    ensures Trim(attr.value) in Targets(node, target)
    decreases Size(node), 0
  {
    hide Latin, Content, PlainName, Open, Trim, Dropped, Transparent, Allowed, Embedded, Target.EpubTag, Target.ValidName, AttributeTargets;
    if node == e {
      IdIsCollected(e, target, attr);
    } else {
      match node {
        case Text(_) =>
        case Other(children) => CollectedInAll(children, e, outer, inner, target, attr);
        case Element(tag, _, children) =>
          OpenIs(tag, target);
          CollectedInAll(children, e, outer || tag == "a", inner, target, attr);
      }
    }
  }

  lemma {:induction false} CollectedInAll(nodes: seq<Node>, e: Node, outer: bool, inner: bool, target: Target, attr: Attribute)
    requires Latin(target) && Reaches(nodes, e, outer, inner) && e.Element? && Content(e.tag) && PlainName(e.tag)
    requires attr in e.attrs && attr.key == "id" && attr.namespace != "xml" && PlainName(Trim(attr.value))
    ensures Trim(attr.value) in AllTargets(nodes, target)
    decreases Sizes(nodes), 1
  {
    hide Latin, Content, PlainName, ReachesFrom, Targets, Trim;
    if Reaches(nodes[..|nodes| - 1], e, outer, inner) {
      CollectedInAll(nodes[..|nodes| - 1], e, outer, inner, target, attr);
    } else {
      CollectedInNode(nodes[|nodes| - 1], e, outer, inner, target, attr);
    }
  }

  lemma AnchorShown(t: Token, e: Node, target: Target, ids: set<string>, attr: Attribute)
    requires e.Element? && e.tag == "a" && Shows(t, e, target, ids)
    requires attr in e.attrs && attr.key == "href" && attr.namespace != "xml" && SafeHref(attr, target, ids)
    ensures t.Start? && t.tag == "a" && Emitted("href", attr.value, attr.url) in t.attrs
  {
    AnchorIsPlain();
    hide SafeHref, Plain, Item, Block5, Inline5, PlainName;
    assert t.tag == "a";
    assert KeptAs(t.tag, attr, "href", target, ids);
  }

  lemma AnchorIsPlain()
    ensures Plain("a") && !Item("a") && !Block5("a") && !Inline5("a") && "a" != "wbr"
    ensures Content("a") && PlainName("a") && PlainName("href") && "a" !in {"br", "col", "hr", "wbr"}
  {
  }

  /* Items. */

  /** A list of some kind and an item of it. */
  predicate ItemOf(list: string, item: string) {
    ((list == "ol" || list == "ul") && item == "li") || (list == "dl" && (item == "dd" || item == "dt"))
  }

  lemma {:induction false} ListChild(nodes: seq<Node>, e: Node, parent: string, inAnchor: bool, target: Target, targets: set<string>,
          used: set<string>) returns (u: set<string>)
    requires e in nodes && e.Element?
    ensures Includes(RenderAll(nodes, parent, inAnchor, target, targets, used).tokens, RenderElement(e, parent, inAnchor, target, targets, u).tokens)
  {
    hide RenderElement;
    var front, last := nodes[..|nodes| - 1], nodes[|nodes| - 1];
    var before := RenderAll(front, parent, inAnchor, target, targets, used);
    assert nodes == front + [last];
    if last == e {
      u := before.used;
    } else {
      u := ListChild(front, e, parent, inAnchor, target, targets, used);
    }
  }

  lemma ListAndItem(list: string, item: string, target: Target)
    requires ItemOf(list, item)
    ensures Content(list) && Content(item) && !CanBeVoid(list) && PlainName(list) && PlainName(item)
    ensures forall parent :: ContentTag(target.EpubTag(list), parent) == list
    ensures ContentTag(target.EpubTag(item), list) == item && Wrapper(list, item) == ""
  {
    assert |list| == 2 && |item| == 2 && |"div"| == 3 && |"span"| == 4;
    assert !NewBlock(list) && !NewInline(list) && !NewBlock(item) && !NewInline(item);
  }

  /** A reachable list is written around what its children are rendered to. */
  lemma {:induction false} WritesList(list: Node, e: Node, parent: string, inAnchor: bool, target: Target, targets: set<string>, used: set<string>)
    returns (u: set<string>)
    requires Latin(target) && list.Element? && e in list.children && e.Element? && ItemOf(list.tag, e.tag)
    ensures Includes(RenderElement(list, parent, inAnchor, target, targets, used).tokens,
                     RenderElement(e, list.tag, inAnchor, target, targets, u).tokens)
    decreases if Wraps(parent) then 1 else 0
  {
    var tag := ContentTag(target.EpubTag(list.tag), parent);
    var wrapper := Wrapper(parent, tag);
    WrapperInList(parent, tag);
    ListAndItem(list.tag, e.tag, target);
    PlainIsValid(list.tag, target);
    ContentIsAllowed(list.tag);
    ContentIsOpen(list.tag);
    NotAnAnchor(list.tag, e.tag);
    hide RenderAll, RemoteLink, Wrapper, ContentTag, Target.EpubTag, Target.ValidName, Dropped, Transparent, AddAttributes, CanBeVoid,
         Allowed, Embedded, Wraps, Content, PlainName, ItemOf, Latin, NewBlock, NewInline;
    if wrapper != "" {
      u := WritesList(list, e, wrapper, inAnchor, target, targets, used);
    } else {
      var attrs := AddAttributes(tag, list.attrs, target, targets, used);
      u := ListChild(list.children, e, tag, inAnchor, target, targets, attrs.used);
      assert RenderElement(list, parent, inAnchor, target, targets, used) == RenderAllowed(tag, list, inAnchor, target, targets, used);
    }
  }

  lemma NotAnAnchor(list: string, item: string)
    requires ItemOf(list, item)
    ensures list != "a"
  {
    assert |list| == 2;
  }

  /** An item of a reachable list is written as what it is, with its kept attributes. */
  lemma ItemsStayItems(nodes: seq<Node>, list: Node, e: Node, inner: bool, target: Target)
    requires Latin(target) && Reaches(nodes, list, false, inner) && list.Element? && e in list.children && e.Element?
    requires ItemOf(list.tag, e.tag)
    ensures exists t :: t in Body(nodes, target) && t.Start? && t.tag == e.tag
                        && forall attr, name :: attr in e.attrs && KeptAs(t.tag, attr, name, target, Elems(IdsOf(Body(nodes, target)))) ==>
                             Emitted(name, attr.value, attr.url) in t.attrs
  {
    var ids := AllTargets(nodes, target);
    IdsAreTargets(nodes, target);
    BodyTags(nodes, target);
    var p, u := RenderedInAll(nodes, list, "", false, inner, target, ids, {});
    var v := WritesList(list, e, p, inner, target, ids, u);
    hide Body, RenderAll, AllTargets, IdsOf, Reaches, KeptAs, RenderElement;
    var t := WritesItem(e, list.tag, inner, target, ids, v);
    assert t in Rendered(nodes, target);
    forall attr, name | attr in e.attrs && KeptAs(t.tag, attr, name, target, ids)
      ensures Emitted(name, attr.value, attr.url) in t.attrs
    {
      KeptIsWritten(t.tag, e.attrs, attr, name, target, ids, v);
    }
  }

  lemma WritesItem(e: Node, list: string, inAnchor: bool, target: Target, targets: set<string>, used: set<string>) returns (t: Token)
    requires Latin(target) && e.Element? && ItemOf(list, e.tag)
    ensures t in RenderElement(e, list, inAnchor, target, targets, used).tokens && t.Start? && t.tag == e.tag
    ensures t.attrs == AddAttributes(t.tag, e.attrs, target, targets, used).written
  {
    ListAndItem(list, e.tag, target);
    PlainIsValid(e.tag, target);
    ContentIsAllowed(e.tag);
    ContentIsOpen(e.tag);
    VoidAre(e.tag);
    ItemsAreNotVoid(list, e.tag);
    hide RenderAll, RemoteLink, Wrapper, ContentTag, Target.EpubTag, Target.ValidName, Dropped, Transparent, AddAttributes, CanBeVoid,
         Allowed, Embedded, Wraps, Content, PlainName, ItemOf, Latin, NewBlock, NewInline;
    t := Start(e.tag, AddAttributes(e.tag, e.attrs, target, targets, used).written);
    assert RenderElement(e, list, inAnchor, target, targets, used) == RenderAllowed(e.tag, e, inAnchor, target, targets, used);
    assert t == RenderAllowed(e.tag, e, inAnchor, target, targets, used).tokens[0];
  }

  lemma ItemsAreNotVoid(list: string, item: string)
    requires ItemOf(list, item)
    ensures item !in {"br", "col", "hr", "wbr"}
  {
    assert item[0] in {'l', 'd'};
  }

  /* Remote resources. */

  /** The first attribute with the key has this value, or none has the key. */
  ghost predicate HasValue(attrs: seq<Attribute>, key: string, value: string) {
    || (exists i :: 0 <= i < |attrs| && attrs[i].key == key && value == Trim(attrs[i].value) && forall j :: 0 <= j < i ==> attrs[j].key != key)
    || (value == "" && forall i :: 0 <= i < |attrs| ==> attrs[i].key != key)
  }

  /** The first source on the web. */
  predicate IsSource(attr: Attribute) {
    attr.key == "src" && attr.url.Url? && (attr.url.scheme == "http" || attr.url.scheme == "https")
  }

  ghost predicate HasSource(attrs: seq<Attribute>, attr: Attribute) {
    exists i :: 0 <= i < |attrs| && attrs[i] == attr && IsSource(attr) && forall j :: 0 <= j < i ==> !IsSource(attrs[j])
  }

  lemma {:induction false} ValueIs(attrs: seq<Attribute>, key: string, value: string)
    requires HasValue(attrs, key, value)
    ensures ValueOf(attrs, key) == value
  {
    hide Trim;
    if attrs == [] || attrs[0].key == key {
    } else {
      if i :| 0 <= i < |attrs| && attrs[i].key == key && value == Trim(attrs[i].value) && forall j :: 0 <= j < i ==> attrs[j].key != key {
        assert attrs[1..][i - 1] == attrs[i];
      }
      assert HasValue(attrs[1..], key, value);
      ValueIs(attrs[1..], key, value);
    }
  }

  lemma {:induction false} SourceIs(attrs: seq<Attribute>, attr: Attribute)
    requires HasSource(attrs, attr)
    ensures RemoteSource(attrs) == Some(Emitted("href", Trim(attr.value), attr.url))
  {
    hide Trim;
    var i :| 0 <= i < |attrs| && attrs[i] == attr && IsSource(attr) && forall j :: 0 <= j < i ==> !IsSource(attrs[j]);
    if i > 0 {
      assert attrs[1..][i - 1] == attr;
      assert !IsSource(attrs[0]);
      SourceIs(attrs[1..], attr);
    }
  }

  /** What names a remote resource: its text, its title, its label or its address. */
  function Label(alt: string, title: string, aria: string, address: string): string {
    if alt != "" then alt else if title != "" then title else if aria != "" then aria else address
  }

  lemma RemoteLinkIs(attrs: seq<Attribute>, src: Attribute, alt: string, title: string, aria: string, inAnchor: bool)
    requires HasSource(attrs, src) && HasValue(attrs, "alt", alt) && HasValue(attrs, "title", title) && HasValue(attrs, "aria-label", aria)
    ensures Chars(Label(alt, title, aria, Trim(src.value))) in RemoteLink(attrs, inAnchor)
    ensures !inAnchor ==> Start("a", [Emitted("href", Trim(src.value), src.url)]) in RemoteLink(attrs, inAnchor)
  {
    SourceIs(attrs, src);
    ValueIs(attrs, "alt", alt);
    ValueIs(attrs, "title", title);
    ValueIs(attrs, "aria-label", aria);
    hide HasValue, HasSource, ValueOf, RemoteSource, Trim;
  }

  /** A reachable picture, sound or film from the web leaves its name, and a link to it unless it is inside one. */
  lemma RemoteIsLinked(nodes: seq<Node>, e: Node, inner: bool, target: Target, src: Attribute, alt: string, title: string, aria: string)
    requires Latin(target) && Reaches(nodes, e, false, inner) && e.Element? && e.tag in {"audio", "img", "video"} && HasSource(e.attrs, src)
    requires HasValue(e.attrs, "alt", alt) && HasValue(e.attrs, "title", title) && HasValue(e.attrs, "aria-label", aria)
    ensures Chars(Label(alt, title, aria, Trim(src.value))) in Rendered(nodes, target)
    ensures !inner ==> Start("a", [Emitted("href", Trim(src.value), src.url)]) in Body(nodes, target)
  {
    var ids := AllTargets(nodes, target);
    var p, u := RenderedInAll(nodes, e, "", false, inner, target, ids, {});
    WritesRemote(e, p, inner, target, ids, u);
    RemoteLinkIs(e.attrs, src, alt, title, aria, inner);
    BodyTags(nodes, target);
    hide Body, RenderAll, AllTargets, Reaches, HasValue, HasSource, RemoteLink, Trim, RenderElement, Label, Latin;
  }

  lemma {:induction false} WritesRemote(e: Node, parent: string, inAnchor: bool, target: Target, targets: set<string>, used: set<string>)
    requires Latin(target) && e.Element? && e.tag in {"audio", "img", "video"}
    ensures Includes(RenderElement(e, parent, inAnchor, target, targets, used).tokens, RemoteLink(e.attrs, inAnchor))
    decreases if Wraps(parent) then 1 else 0
  {
    var tag := ContentTag(target.EpubTag(e.tag), parent);
    var wrapper := Wrapper(parent, tag);
    WrapperInList(parent, tag);
    RenamingKeeps(e.tag, parent, target);
    MediaIsOpen(e.tag, target);
    hide RenderAll, RenderAllowed, RemoteLink, Wrapper, ContentTag, Target.EpubTag, Target.ValidName, Dropped, Transparent, Allowed,
         Embedded, Wraps, Latin;
    if wrapper != "" {
      WritesRemote(e, wrapper, inAnchor, target, targets, used);
    }
  }

  lemma MediaIsOpen(tag: string, target: Target)
    requires Latin(target) && tag in {"audio", "img", "video"}
    ensures tag != "" && !Dropped(tag) && !Transparent(tag) && target.ValidName(tag) && Embedded(tag)
  {
    PlainIsValid(tag, target);
  }
}
