/**
 * What the rendered body guarantees for every tree: ids are unique, links into the document name an
 * id it has, tags are balanced and lists hold only their items.
 */
module XhtmlSafety {
  import opened Common
  import opened Xhtml

  /* ---- Ids ---- */

  /** The ids written in a list of attributes, in order. */
  function IdsIn(attrs: seq<Emitted>): seq<string> {
    if attrs == [] then []
    else IdsIn(attrs[..|attrs| - 1]) + (if attrs[|attrs| - 1].name == "id" then [Trim(attrs[|attrs| - 1].value)] else [])
  }

  function TokenIds(t: Token): seq<string> {
    match t
    case Start(_, attrs) => IdsIn(attrs)
    case Void(_, attrs) => IdsIn(attrs)
    case End(_) => []
    case Chars(_) => []
  }

  function AttributesOf(t: Token): seq<Emitted> {
    if t.Start? || t.Void? then t.attrs else []
  }

  function IdsOf(tokens: seq<Token>): seq<string> {
    if tokens == [] then [] else IdsOf(tokens[..|tokens| - 1]) + TokenIds(tokens[|tokens| - 1])
  }

  /** Starting with `used`, exactly `ids` were added: each once, and none of them used before. */
  ghost predicate Adds(ids: seq<string>, used: set<string>, after: set<string>) {
    Distinct(ids) && Elems(ids) !! used && after == used + Elems(ids)
  }

  lemma AddsTwice(a: seq<string>, b: seq<string>, used: set<string>, middle: set<string>, after: set<string>)
    requires Adds(a, used, middle) && Adds(b, middle, after)
    ensures Adds(a + b, used, after)
  {
    assert Elems(a + b) == Elems(a) + Elems(b);
    assert forall i :: 0 <= i < |a| ==> a[i] in Elems(a);
    assert forall i :: 0 <= i < |b| ==> b[i] in Elems(b);
  }

  lemma AddsNothing(used: set<string>)
    ensures Adds([], used, used)
  {
  }

  lemma {:induction false} IdsJoin(a: seq<Token>, b: seq<Token>)
    ensures IdsOf(a + b) == IdsOf(a) + IdsOf(b)
  {
    hide TokenIds;
    if b == [] {
      assert a + b == a;
    } else {
      var front := b[..|b| - 1];
      IdsJoin(a, front);
      assert (a + b)[..|a + b| - 1] == a + front && (a + b)[|a + b| - 1] == b[|b| - 1];
      Concatenates(IdsOf(a), IdsOf(front), TokenIds(b[|b| - 1]));
    }
  }

  lemma IdsEnclosed(start: Token, inner: seq<Token>, end: Token)
    requires end.End?
    ensures IdsOf([start] + inner + [end]) == TokenIds(start) + IdsOf(inner)
  {
    IdsJoin([start] + inner, [end]);
    IdsJoin([start], inner);
    IdsOne(start);
    IdsOne(end);
  }

  lemma IdsOne(t: Token)
    ensures IdsOf([t]) == TokenIds(t)
  {
    assert [t][..0] == [];
  }

  lemma {:induction false} TrimTwice(s: string)
    ensures Trim(Trim(s)) == Trim(s)
  {
    if s == "" {
    } else {
      if Space(s[0]) {
        TrimTwice(s[1..]);
      } else if Space(s[|s| - 1]) {
        TrimTwice(s[..|s| - 1]);
      }
    }
  }

  /** Written ids are new, and nothing else is used up. */
  lemma {:induction false} AttributesAdd(tag: string, attrs: seq<Attribute>, target: Target, targets: set<string>,
          used: set<string>)
    ensures var r := AddAttributes(tag, attrs, target, targets, used);
            Adds(IdsIn(r.written), used, r.used)
  {
    if attrs == [] {
      AddsNothing(used);
    } else {
      var front := AddAttributes(tag, attrs[..|attrs| - 1], target, targets, used);
      AttributesAdd(tag, attrs[..|attrs| - 1], target, targets, used);
      AttributeAdds(tag, attrs[|attrs| - 1], target, targets, front);
      hide AddAttribute, Adds;
      var ids :| Adds(ids, front.used, AddAttribute(tag, attrs[|attrs| - 1], target, targets, front).used)
                 && IdsIn(AddAttribute(tag, attrs[|attrs| - 1], target, targets, front).written) == IdsIn(front.written) + ids;
      AddsTwice(IdsIn(front.written), ids, used, front.used, AddAttribute(tag, attrs[|attrs| - 1], target, targets, front).used);
    }
  }

  lemma AttributeAdds(tag: string, attr: Attribute, target: Target, targets: set<string>, done: Attributes)
    ensures var r := AddAttribute(tag, attr, target, targets, done);
            exists ids :: Adds(ids, done.used, r.used) && IdsIn(r.written) == IdsIn(done.written) + ids
  {
    hide Target.AttributeName, Target.AllowedAttribute, Target.SafeId;
    var r := AddAttribute(tag, attr, target, targets, done);
    if r.written == done.written {
      assert Adds([], done.used, r.used);
    } else {
      var written := r.written[|done.written|];
      assert r.written == done.written + [written] && r.written[..|done.written|] == done.written;
      var ids := if written.name == "id" then [Trim(written.value)] else [];
      assert Adds(ids, done.used, r.used);
    }
  }

  /** The id an attribute defines, if it is a safe one. */
  function Defined(attr: Attribute, target: Target): set<string> {
    if target.AttributeName(attr) == Some("id") && target.SafeId(attr.value) then {Trim(attr.value)} else {}
  }

  lemma AttributeUses(tag: string, attr: Attribute, target: Target, targets: set<string>, done: Attributes)
    ensures AddAttribute(tag, attr, target, targets, done).used == done.used + Defined(attr, target)
  {
    IdAllowed(tag, attr, target, targets);
    TrimTwice(attr.value);
    hide Target.AttributeName, Target.AllowedAttribute, Target.ValidName, Trim;
  }

  lemma TargetsNext(attrs: seq<Attribute>, attr: Attribute, target: Target)
    ensures AttributeTargets(attrs + [attr], target) == AttributeTargets(attrs, target) + Defined(attr, target)
  {
    hide Target.AttributeName, Target.SafeId, Trim;
  }

  /** The ids used after a list of attributes: those before, and every safe id among them. */
  lemma {:induction false} AttributesUse(tag: string, attrs: seq<Attribute>, target: Target, targets: set<string>,
          used: set<string>)
    ensures AddAttributes(tag, attrs, target, targets, used).used == used + AttributeTargets(attrs, target)
  {
    if attrs == [] {
    } else {
      var front, last := attrs[..|attrs| - 1], attrs[|attrs| - 1];
      AttributesUse(tag, front, target, targets, used);
      AttributeUses(tag, last, target, targets, AddAttributes(tag, front, target, targets, used));
      TargetsNext(front, last, target);
      assert attrs == front + [last];
      hide AddAttribute, AttributeTargets, Defined;
    }
  }

  /** An id is never refused. */
  lemma IdAllowed(tag: string, attr: Attribute, target: Target, targets: set<string>)
    ensures target.AllowedAttribute(tag, "id", attr, targets)
  {
    assert "on"[0] != "id"[0];
    assert |"id"| != |"href"| && |"id"| != |"src"| && |"id"| != |"srcset"|;
  }

  /* ---- Tags ---- */

  /** Renaming a tag for its edition or its parent makes no difference to what is written of it. */
  lemma RenamingKeeps(tag: string, parent: string, target: Target)
    ensures Embedded(ContentTag(target.EpubTag(tag), parent)) <==> Embedded(tag)
    ensures Allowed(ContentTag(target.EpubTag(tag), parent)) <==> Allowed(target.EpubTag(tag))
  {
    EmbeddedIsNotRenamed(tag);
    ItemsAllowed();
    hide Allowed, NewBlock, NewInline;
    PlainNotEmbedded();
    hide Embedded;
  }

  lemma EmbeddedIsNotRenamed(tag: string)
    ensures Embedded(tag) ==> !NewBlock(tag) && !NewInline(tag) && tag != "wbr"
    ensures Embedded(tag) ==> tag != "li" && tag != "dd" && tag != "dt"
  {
    if Embedded(tag) {
      assert |tag| == 5 || |tag| == 3;
      assert tag[0] in {'a', 'i', 'v'};
      assert |tag| == 5 ==> tag[1] in {'u', 'i'};
    }
  }

  lemma ItemsAllowed()
    ensures Allowed("li") && Allowed("dd") && Allowed("dt") && Allowed("div")
  {
  }

  lemma PlainNotEmbedded()
    ensures !Embedded("div") && !Embedded("span") && !Embedded("br") && !Embedded("li") && !Embedded("dd") && !Embedded("dt")
  {
    assert "div"[0] == 'd' && "span"[0] == 's' && "br"[0] == 'b' && "li"[0] == 'l' && "dd"[0] == 'd' && "dt"[0] == 'd';
  }

  /** An element needs a wrapper only in a list, and never inside one. */
  lemma WrapperInList(parent: string, tag: string)
    ensures Wrapper(parent, tag) != "" ==> Wraps(parent) && !Wraps(Wrapper(parent, tag))
  {
  }

  /* ---- Both traversals agree ---- */

  /** Rendering wrote each id it used up once, and these are the collected ones. */
  ghost predicate WritesTargets(o: Output, used: set<string>, collected: set<string>) {
    Adds(IdsOf(o.tokens), used, o.used) && o.used == used + collected
  }

  lemma WritesNothing(o: Output, used: set<string>)
    requires IdsOf(o.tokens) == [] && o.used == used
    ensures WritesTargets(o, used, {})
  {
    AddsNothing(used);
  }

  lemma WritesEnclosed(o: Output, used: set<string>, collected: set<string>, wrapper: string)
    requires WritesTargets(o, used, collected)
    ensures WritesTargets(Output([Start(wrapper, [])] + o.tokens + [End(wrapper)], o.used), used, collected)
  {
    IdsEnclosed(Start(wrapper, []), o.tokens, End(wrapper));
    hide IdsOf, Adds;
    assert [] + IdsOf(o.tokens) == IdsOf(o.tokens);
  }

  lemma TextIds(node: Node, parent: string, inAnchor: bool, target: Target, targets: set<string>, used: set<string>)
    requires node.Text?
    ensures WritesTargets(RenderNode(node, parent, inAnchor, target, targets, used), used, Targets(node, target))
  {
    var o := RenderNode(node, parent, inAnchor, target, targets, used);
    var wrapper := Wrapper(parent, "");
    hide Wrapper, Trim;
    IdsOne(Chars(node.data));
    IdsEnclosed(Start(wrapper, []), [Chars(node.data)], End(wrapper));
    assert [Start(wrapper, [])] + [Chars(node.data)] + [End(wrapper)] == [Start(wrapper, []), Chars(node.data), End(wrapper)];
    WritesNothing(o, used);
  }

  lemma RemoteLinkIds(attrs: seq<Attribute>, inAnchor: bool)
    ensures IdsOf(RemoteLink(attrs, inAnchor)) == []
  {
    var link := RemoteLink(attrs, inAnchor);
    RemoteSourceIsHref(attrs);
    hide RemoteSource, ValueOf;
    if link != [] {
      var text := link[if inAnchor then 0 else 1];
      IdsOne(text);
      if !inAnchor {
        IdsEnclosed(link[0], [text], End("a"));
        assert link == [link[0]] + [text] + [End("a")];
        HrefIsNoId(RemoteSource(attrs).value);
      }
    }
  }

  lemma HrefIsNoId(e: Emitted)
    requires e.name == "href"
    ensures IdsIn([e]) == []
  {
    assert [e][..0] == [];
    assert |"href"| != |"id"|;
  }

  lemma {:induction false} RemoteSourceIsHref(attrs: seq<Attribute>)
    ensures var src := RemoteSource(attrs);
            src.Some? ==> src.value.name == "href" && Remote(src.value.url)
  {
    if attrs == [] {
    } else {
      RemoteSourceIsHref(attrs[1..]);
    }
  }

  lemma {:induction false} NodeIds(node: Node, parent: string, inAnchor: bool, target: Target, targets: set<string>,
          used: set<string>)
    ensures WritesTargets(RenderNode(node, parent, inAnchor, target, targets, used), used, Targets(node, target))
    decreases Size(node), 3
  {
    hide RenderElement, RenderAll, WritesTargets, Wrapper, Trim, Dropped, Transparent, Allowed, Embedded;
    match node {
      case Text(_) => TextIds(node, parent, inAnchor, target, targets, used);
      case Element(_, _, _) => ElementIds(node, parent, inAnchor, target, targets, used);
      case Other(children) => AllIds(children, parent, inAnchor, target, targets, used);
    }
  }

  lemma {:induction false} ElementIds(node: Node, parent: string, inAnchor: bool, target: Target,
          targets: set<string>, used: set<string>)
    requires node.Element?
    ensures WritesTargets(RenderElement(node, parent, inAnchor, target, targets, used), used, Targets(node, target))
    decreases Size(node), if Wraps(parent) then 2 else 1
  {
    var tag := ContentTag(target.EpubTag(node.tag), parent);
    var wrapper := Wrapper(parent, tag);
    WrapperInList(parent, tag);
    RenamingKeeps(node.tag, parent, target);
    hide RenderAll, RenderAllowed, RemoteLink, WritesTargets, Wrapper, ContentTag, Target.EpubTag, Target.ValidName,
         Dropped, Transparent, Allowed, Embedded, Wraps, AttributeTargets, AllTargets;
    if node.tag == "" || Dropped(node.tag) {
      WritesNothing(Output([], used), used);
    } else if Transparent(node.tag) || !target.ValidName(node.tag) {
      AllIds(node.children, parent, inAnchor, target, targets, used);
    } else if wrapper != "" {
      ElementIds(node, wrapper, inAnchor, target, targets, used);
      WritesEnclosed(RenderElement(node, wrapper, inAnchor, target, targets, used), used, Targets(node, target), wrapper);
    } else if Embedded(tag) {
      RemoteLinkIds(node.attrs, inAnchor);
      WritesNothing(Output(RemoteLink(node.attrs, inAnchor), used), used);
    } else if !Allowed(tag) {
      AllIds(node.children, parent, inAnchor, target, targets, used);
    } else {
      AllowedIds(tag, node, inAnchor, target, targets, used);
    }
  }

  lemma {:induction false} AllowedIds(tag: string, node: Node, inAnchor: bool, target: Target, targets: set<string>,
          used: set<string>)
    requires node.Element?
    ensures WritesTargets(RenderAllowed(tag, node, inAnchor, target, targets, used), used,
                          AttributeTargets(node.attrs, target) + AllTargets(node.children, target))
    decreases Size(node), 0
  {
    var attrs := AddAttributes(tag, node.attrs, target, targets, used);
    AttributesAdd(tag, node.attrs, target, targets, used);
    AttributesUse(tag, node.attrs, target, targets, used);
    if CanBeVoid(tag) && node.children == [] {
      IdsOne(Void(tag, attrs.written));
    } else {
      var inside := inAnchor || tag == "a";
      var inner := RenderAll(node.children, tag, inside, target, targets, attrs.used);
      AllIds(node.children, tag, inside, target, targets, attrs.used);
      IdsEnclosed(Start(tag, attrs.written), inner.tokens, End(tag));
      hide RenderAll, AllTargets, AttributeTargets, AddAttributes, CanBeVoid, IdsOf, IdsIn, Adds;
      AddsTwice(IdsIn(attrs.written), IdsOf(inner.tokens), used, attrs.used, inner.used);
    }
  }

  lemma {:induction false} AllIds(nodes: seq<Node>, parent: string, inAnchor: bool, target: Target,
          targets: set<string>, used: set<string>)
    ensures WritesTargets(RenderAll(nodes, parent, inAnchor, target, targets, used), used, AllTargets(nodes, target))
    decreases Sizes(nodes), 4
  {
    if nodes == [] {
      AddsNothing(used);
    } else {
      var front := RenderAll(nodes[..|nodes| - 1], parent, inAnchor, target, targets, used);
      AllIds(nodes[..|nodes| - 1], parent, inAnchor, target, targets, used);
      NodeIds(nodes[|nodes| - 1], parent, inAnchor, target, targets, front.used);
      var last := RenderNode(nodes[|nodes| - 1], parent, inAnchor, target, targets, front.used);
      IdsJoin(front.tokens, last.tokens);
      hide RenderNode, Targets, IdsOf, Adds;
      AddsTwice(IdsOf(front.tokens), IdsOf(last.tokens), used, front.used, last.used);
    }
  }

  /* ---- Trimming the body ---- */

  /** Trimming drops and shortens text; every tag stays where it is. */
  lemma {:induction false} TrimFrontKeeps(tokens: seq<Token>)
    ensures IdsOf(TrimFront(tokens)) == IdsOf(tokens)
    ensures forall t :: t in TrimFront(tokens) ==> t in tokens || t.Chars?
  {
    hide IdsOf, TrimLeft;
    if tokens == [] || !tokens[0].Chars? {
    } else {
      var first, rest := tokens[0], tokens[1..];
      var text := Chars(TrimLeft(first.text));
      TrimFrontKeeps(rest);
      assert tokens == [first] + rest;
      IdsJoin([first], rest);
      IdsJoin([text], rest);
      IdsOne(first);
      IdsOne(text);
    }
  }

  lemma {:induction false} TrimBackKeeps(tokens: seq<Token>)
    ensures IdsOf(TrimBack(tokens)) == IdsOf(tokens)
    ensures forall t :: t in TrimBack(tokens) ==> t in tokens || t.Chars?
  {
    hide IdsOf, TrimRight;
    if tokens == [] || !tokens[|tokens| - 1].Chars? {
    } else {
      var front, last := tokens[..|tokens| - 1], tokens[|tokens| - 1];
      var text := Chars(TrimRight(last.text));
      TrimBackKeeps(front);
      assert tokens == front + [last];
      IdsJoin(front, [last]);
      IdsJoin(front, [text]);
      IdsOne(last);
      IdsOne(text);
    }
  }

  lemma BodyKeeps(nodes: seq<Node>, target: Target)
    ensures IdsOf(Body(nodes, target)) == IdsOf(Rendered(nodes, target))
    ensures forall t :: t in Body(nodes, target) ==> t in Rendered(nodes, target) || AttributesOf(t) == []
  {
    hide Rendered, IdsOf, TrimFront, TrimBack;
    TrimFrontKeeps(Rendered(nodes, target));
    TrimBackKeeps(TrimFront(Rendered(nodes, target)));
    EmptyParagraph();
    NoIds();
  }

  lemma NoIds()
    ensures IdsOf([]) == []
  {
  }

  /** The ids written in the body are the collected link targets, each written once. */
  lemma IdsAreTargets(nodes: seq<Node>, target: Target)
    ensures Distinct(IdsOf(Body(nodes, target)))
    ensures Elems(IdsOf(Body(nodes, target))) == AllTargets(nodes, target)
  {
    BodyKeeps(nodes, target);
    AllIds(nodes, "", false, target, AllTargets(nodes, target), {});
    hide RenderAll, AllTargets, IdsOf, Body;
  }

  lemma EmptyParagraph()
    ensures IdsOf([Start("p", []), End("p")]) == []
  {
    IdsEnclosed(Start("p", []), [], End("p"));
    assert [Start("p", [])] + [] + [End("p")] == [Start("p", []), End("p")];
  }

  /* ---- Links ---- */

  /** The id attributes in a node are written without blanks around them. */
  predicate PlainIds(node: Node, target: Target)
    decreases Size(node), 0
  {
    match node
    case Text(_) => true
    case Other(children) => AllPlainIds(children, target)
    case Element(_, attrs, children) => PlainIdAttributes(attrs, target) && AllPlainIds(children, target)
  }

  predicate AllPlainIds(nodes: seq<Node>, target: Target)
    decreases Sizes(nodes), 1
  {
    nodes == [] || (AllPlainIds(nodes[..|nodes| - 1], target) && PlainIds(nodes[|nodes| - 1], target))
  }

  predicate PlainIdAttributes(attrs: seq<Attribute>, target: Target) {
    forall attr :: attr in attrs && target.AttributeName(attr) == Some("id") ==> Trim(attr.value) == attr.value
  }

  /**
   * A link is to a known scheme, or stays in the document and names a collected id if it names one.
   * With plain ids, an id is written as it is collected.
   */
  predicate SafeLink(e: Emitted, target: Target, targets: set<string>, plain: bool) {
    && (e.name == "href" ==>
          && e.url.Url?
          && (e.url.scheme == "" ==>
                && e.url.host == "" && (e.url.path == [] || target.Own(e.url.path))
                && (if e.url.fragment == "" then e.url.path != [] else e.url.fragment in targets)))
    && (e.name == "id" && plain ==> Trim(e.value) == e.value)
  }

  predicate SafeAttributes(attrs: seq<Emitted>, target: Target, targets: set<string>, plain: bool) {
    forall e :: e in attrs ==> SafeLink(e, target, targets, plain)
  }

  predicate SafeTokens(tokens: seq<Token>, target: Target, targets: set<string>, plain: bool) {
    forall t :: t in tokens ==> SafeAttributes(AttributesOf(t), target, targets, plain)
  }

  lemma {:induction false} WrittenAreSafe(tag: string, attrs: seq<Attribute>, target: Target, targets: set<string>,
          used: set<string>, plain: bool)
    requires plain ==> PlainIdAttributes(attrs, target)
    ensures SafeAttributes(AddAttributes(tag, attrs, target, targets, used).written, target, targets, plain)
  {
    if attrs == [] {
    } else {
      WrittenAreSafe(tag, attrs[..|attrs| - 1], target, targets, used, plain);
      var last := attrs[|attrs| - 1];
      var name := target.AttributeName(last);
      hide Target.AttributeName, Target.SafeId, Target.Own, AllowedInEpub2, AllowedInEpub3, Trim, Escapes, Embedded, Remote;
      assert name.Some? && target.AllowedAttribute(tag, name.value, last, targets) ==>
          SafeLink(Emitted(name.value, last.value, last.url), target, targets, plain);
    }
  }

  lemma SafeEnclosed(start: Token, inner: seq<Token>, end: string, target: Target, targets: set<string>, plain: bool)
    requires SafeTokens(inner, target, targets, plain) && SafeAttributes(AttributesOf(start), target, targets, plain)
    ensures SafeTokens([start] + inner + [End(end)], target, targets, plain)
  {
    hide SafeLink;
  }

  lemma RemoteLinkSafe(attrs: seq<Attribute>, inAnchor: bool, target: Target, targets: set<string>, plain: bool)
    ensures SafeTokens(RemoteLink(attrs, inAnchor), target, targets, plain)
  {
    RemoteSourceIsHref(attrs);
    hide RemoteSource, ValueOf, Target.Own;
    assert |"https"| != 0 && |"http"| != 0 && |"href"| != |"id"|;
  }

  lemma {:induction false} NodeLinks(node: Node, parent: string, inAnchor: bool, target: Target, targets: set<string>,
          used: set<string>, plain: bool)
    requires plain ==> PlainIds(node, target)
    ensures SafeTokens(RenderNode(node, parent, inAnchor, target, targets, used).tokens, target, targets, plain)
    decreases Size(node), 3
  {
    hide RenderElement, RenderAll, Wrapper, Trim, SafeLink;
    match node {
      case Text(_) =>
      case Element(_, _, _) => ElementLinks(node, parent, inAnchor, target, targets, used, plain);
      case Other(children) => AllLinks(children, parent, inAnchor, target, targets, used, plain);
    }
  }

  lemma {:induction false} ElementLinks(node: Node, parent: string, inAnchor: bool, target: Target,
          targets: set<string>, used: set<string>, plain: bool)
    requires node.Element? && (plain ==> PlainIds(node, target))
    ensures SafeTokens(RenderElement(node, parent, inAnchor, target, targets, used).tokens, target, targets, plain)
    decreases Size(node), if Wraps(parent) then 2 else 1
  {
    var tag := ContentTag(target.EpubTag(node.tag), parent);
    var wrapper := Wrapper(parent, tag);
    WrapperInList(parent, tag);
    hide RenderAll, RenderAllowed, RemoteLink, Wrapper, ContentTag, Target.EpubTag, Target.ValidName, Dropped, Transparent,
         Allowed, Embedded, Wraps, SafeTokens, AllPlainIds, PlainIdAttributes;
    if node.tag == "" || Dropped(node.tag) {
      NothingSafe(target, targets, plain);
    } else if Transparent(node.tag) || !target.ValidName(node.tag) {
      AllLinks(node.children, parent, inAnchor, target, targets, used, plain);
    } else if wrapper != "" {
      ElementLinks(node, wrapper, inAnchor, target, targets, used, plain);
      SafeEnclosed(Start(wrapper, []), RenderElement(node, wrapper, inAnchor, target, targets, used).tokens, wrapper, target, targets, plain);
    } else if Embedded(tag) {
      RemoteLinkSafe(node.attrs, inAnchor, target, targets, plain);
    } else if !Allowed(tag) {
      AllLinks(node.children, parent, inAnchor, target, targets, used, plain);
    } else {
      AllowedLinks(tag, node, inAnchor, target, targets, used, plain);
    }
  }

  lemma NothingSafe(target: Target, targets: set<string>, plain: bool)
    ensures SafeTokens([], target, targets, plain)
  {
  }

  lemma {:induction false} AllowedLinks(tag: string, node: Node, inAnchor: bool, target: Target, targets: set<string>,
          used: set<string>, plain: bool)
    requires node.Element? && (plain ==> PlainIds(node, target))
    ensures SafeTokens(RenderAllowed(tag, node, inAnchor, target, targets, used).tokens, target, targets, plain)
    decreases Size(node), 0
  {
    var attrs := AddAttributes(tag, node.attrs, target, targets, used);
    WrittenAreSafe(tag, node.attrs, target, targets, used, plain);
    hide RenderAll, AddAttributes, CanBeVoid, SafeLink;
    if CanBeVoid(tag) && node.children == [] {
    } else {
      var inside := inAnchor || tag == "a";
      AllLinks(node.children, tag, inside, target, targets, attrs.used, plain);
      SafeEnclosed(Start(tag, attrs.written), RenderAll(node.children, tag, inside, target, targets, attrs.used).tokens, tag, target, targets, plain);
    }
  }

  lemma {:induction false} AllLinks(nodes: seq<Node>, parent: string, inAnchor: bool, target: Target,
          targets: set<string>, used: set<string>, plain: bool)
    requires plain ==> AllPlainIds(nodes, target)
    ensures SafeTokens(RenderAll(nodes, parent, inAnchor, target, targets, used).tokens, target, targets, plain)
    decreases Sizes(nodes), 4
  {
    hide RenderNode, SafeAttributes;
    if nodes == [] {
    } else {
      var front := RenderAll(nodes[..|nodes| - 1], parent, inAnchor, target, targets, used);
      AllLinks(nodes[..|nodes| - 1], parent, inAnchor, target, targets, used, plain);
      NodeLinks(nodes[|nodes| - 1], parent, inAnchor, target, targets, front.used, plain);
    }
  }

  /** Some element in the tokens has this id, just as it is written. */
  ghost predicate WritesId(tokens: seq<Token>, id: string) {
    exists t, e :: t in tokens && e in AttributesOf(t) && e.name == "id" && e.value == id
  }

  lemma {:induction false} IdAmongAttributes(attrs: seq<Emitted>, id: string) returns (e: Emitted)
    requires id in IdsIn(attrs)
    ensures e in attrs && e.name == "id" && Trim(e.value) == id
  {
    hide Trim;
    if attrs[|attrs| - 1].name == "id" && Trim(attrs[|attrs| - 1].value) == id {
      e := attrs[|attrs| - 1];
    } else {
      e := IdAmongAttributes(attrs[..|attrs| - 1], id);
    }
  }

  lemma {:induction false} IdAmongTokens(tokens: seq<Token>, id: string) returns (t: Token, e: Emitted)
    requires id in IdsOf(tokens)
    ensures t in tokens && e in AttributesOf(t) && e.name == "id" && Trim(e.value) == id
  {
    hide Trim, IdsIn;
    if id in TokenIds(tokens[|tokens| - 1]) {
      t := tokens[|tokens| - 1];
      e := IdAmongAttributes(t.attrs, id);
    } else {
      t, e := IdAmongTokens(tokens[..|tokens| - 1], id);
    }
  }

  /**
   * Every relative link written leads to this document, and any id it names is written in it too: as
   * it stands when the ids of the tree are plain, else with blanks around it that the link leaves out.
   */
  lemma NoDanglingLinks(nodes: seq<Node>, target: Target, t: Token, e: Emitted)
    requires t in Body(nodes, target) && e in AttributesOf(t) && e.name == "href"
    ensures e.url.Url?
    ensures e.url.scheme == "" ==>
              && e.url.host == "" && (e.url.path == [] || target.Own(e.url.path))
              && (if e.url.fragment == "" then e.url.path != [] else e.url.fragment in IdsOf(Body(nodes, target)))
    ensures e.url.scheme == "" && e.url.fragment != "" && AllPlainIds(nodes, target) ==> WritesId(Body(nodes, target), e.url.fragment)
  {
    var plain := AllPlainIds(nodes, target);
    AllLinks(nodes, "", false, target, AllTargets(nodes, target), {}, plain);
    IdsAreTargets(nodes, target);
    BodyKeeps(nodes, target);
    hide RenderAll, AllTargets, IdsOf, Target.Own, Body, Trim, AllPlainIds;
    assert SafeLink(e, target, AllTargets(nodes, target), plain);
    assert e.url.fragment in AllTargets(nodes, target) ==> e.url.fragment in Elems(IdsOf(Body(nodes, target)));
    if e.url.scheme == "" && e.url.fragment != "" && plain {
      var holder, id := IdAmongTokens(Body(nodes, target), e.url.fragment);
      assert SafeLink(id, target, AllTargets(nodes, target), plain);
    }
  }

  /* ---- Structure ---- */

  /** Lists hold only items and definition lists only terms and definitions, and these stand nowhere else. */
  predicate Permits(parent: string, child: string) {
    (List(parent) <==> child == "li") && (parent == "dl" <==> child == "dd" || child == "dt")
  }

  function Top(stack: seq<string>): string {
    if stack == [] then "" else stack[|stack| - 1]
  }

  /** One token with these elements open: what is open afterwards, or None if it may not stand there. */
  function Step(stack: seq<string>, t: Token): Option<seq<string>> {
    match t
    case Start(tag, _) => if Permits(Top(stack), tag) then Some(stack + [tag]) else None
    case Void(tag, _) => if Permits(Top(stack), tag) then Some(stack) else None
    case End(tag) => if stack != [] && Top(stack) == tag then Some(stack[..|stack| - 1]) else None
    case Chars(text) => if Wraps(Top(stack)) && Trim(text) != "" then None else Some(stack)
  }

  /** Reads tokens from left to right. */
  function Scan(tokens: seq<Token>, stack: seq<string>): Option<seq<string>> {
    if tokens == [] then Some(stack)
    else
      var front := Scan(tokens[..|tokens| - 1], stack);
      if front.None? then None else Step(front.value, tokens[|tokens| - 1])
  }

  lemma {:induction false} ScanJoin(a: seq<Token>, b: seq<Token>, stack: seq<string>, middle: seq<string>)
    requires Scan(a, stack) == Some(middle)
    ensures Scan(a + b, stack) == Scan(b, middle)
  {
    hide Step;
    if b == [] {
      assert a + b == a;
    } else {
      var front := b[..|b| - 1];
      ScanJoin(a, front, stack, middle);
      assert (a + b)[..|a + b| - 1] == a + front;
    }
  }

  lemma ScanOne(t: Token, stack: seq<string>)
    ensures Scan([t], stack) == Step(stack, t)
  {
    assert [t][..0] == [];
  }

  lemma ScanEnclosed(tag: string, attrs: seq<Emitted>, inner: seq<Token>, stack: seq<string>)
    requires Permits(Top(stack), tag) && Scan(inner, stack + [tag]) == Some(stack + [tag])
    ensures Scan([Start(tag, attrs)] + inner + [End(tag)], stack) == Some(stack)
  {
    ScanOne(Start(tag, attrs), stack);
    ScanOne(End(tag), stack + [tag]);
    assert (stack + [tag])[..|stack|] == stack;
    hide Scan, Permits;
    ScanJoin([Start(tag, attrs)], inner, stack, stack + [tag]);
    ScanJoin([Start(tag, attrs)] + inner, [End(tag)], stack, stack + [tag]);
  }

  /** A wrapper is permitted, and where none is needed the child itself is. */
  lemma WrapperPermits(parent: string, child: string)
    ensures Wrapper(parent, child) != "" ==> Permits(parent, Wrapper(parent, child))
    ensures Wrapper(parent, ContentTag(child, parent)) == "" ==> Permits(parent, ContentTag(child, parent))
  {
    assert |"li"| == 2 && |"dd"| == 2 && |"dt"| == 2 && |"div"| == 3;
    assert "li"[0] == 'l' && "dd"[0] == 'd' && "dt"[0] == 'd' && "dl"[0] == 'd' && "ol"[0] == 'o' && "ul"[0] == 'u';
  }

  lemma TextNeedsWrapper(parent: string)
    ensures Wraps(parent) ==> Wrapper(parent, "") != ""
    ensures !Wraps("li") && !Wraps("dd")
  {
    assert |"li"| == 2 && |"dd"| == 2 && |""| == 0;
  }

  lemma TextScan(node: Node, parent: string, inAnchor: bool, target: Target, targets: set<string>, used: set<string>,
          stack: seq<string>)
    requires node.Text? && Top(stack) == parent
    ensures Scan(RenderNode(node, parent, inAnchor, target, targets, used).tokens, stack) == Some(stack)
  {
    var wrapper := Wrapper(parent, "");
    TextNeedsWrapper(parent);
    WrapperPermits(parent, "");
    WrapperInList(parent, "");
    hide Trim, Permits, Wraps, Scan, Wrapper;
    ScanOne(Chars(node.data), stack);
    ScanOne(Chars(node.data), stack + [wrapper]);
    if wrapper != "" && Trim(node.data) != "" {
      ScanEnclosed(wrapper, [], [Chars(node.data)], stack);
      assert [Start(wrapper, [])] + [Chars(node.data)] + [End(wrapper)] == [Start(wrapper, []), Chars(node.data), End(wrapper)];
    }
  }

  lemma RemoteLinkScan(attrs: seq<Attribute>, inAnchor: bool, stack: seq<string>)
    requires !Wraps(Top(stack))
    ensures Scan(RemoteLink(attrs, inAnchor), stack) == Some(stack)
  {
    var link := RemoteLink(attrs, inAnchor);
    hide RemoteSource, ValueOf;
    if link != [] {
      var text := link[if inAnchor then 0 else 1];
      ScanOne(text, stack);
      if !inAnchor {
        AnchorHoldsText();
        ScanOne(text, stack + ["a"]);
        ScanEnclosed("a", link[0].attrs, [text], stack);
        assert link == [link[0]] + [text] + [End("a")];
      }
    }
  }

  lemma AnchorHoldsText()
    ensures !Wraps("a")
  {
    assert |"a"| == 1 && |"ol"| == 2 && |"ul"| == 2 && |"dl"| == 2;
  }

  lemma EmbeddedOutsideLists(parent: string, tag: string)
    requires Wrapper(parent, tag) == "" && Embedded(tag)
    ensures !Wraps(parent)
  {
    PlainNotEmbedded();
    hide Embedded;
  }

  lemma {:induction false} NodeScan(node: Node, parent: string, inAnchor: bool, target: Target, targets: set<string>,
          used: set<string>, stack: seq<string>)
    requires Top(stack) == parent
    ensures Scan(RenderNode(node, parent, inAnchor, target, targets, used).tokens, stack) == Some(stack)
    decreases Size(node), 3
  {
    hide RenderElement, RenderAll, Wrapper, Trim, Scan;
    match node {
      case Text(_) => TextScan(node, parent, inAnchor, target, targets, used, stack);
      case Element(_, _, _) => ElementScan(node, parent, inAnchor, target, targets, used, stack);
      case Other(children) => AllScan(children, parent, inAnchor, target, targets, used, stack);
    }
  }

  lemma {:induction false} ElementScan(node: Node, parent: string, inAnchor: bool, target: Target,
          targets: set<string>, used: set<string>, stack: seq<string>)
    requires node.Element? && Top(stack) == parent
    ensures Scan(RenderElement(node, parent, inAnchor, target, targets, used).tokens, stack) == Some(stack)
    decreases Size(node), if Wraps(parent) then 2 else 1
  {
    var tag := ContentTag(target.EpubTag(node.tag), parent);
    var wrapper := Wrapper(parent, tag);
    WrapperInList(parent, tag);
    WrapperPermits(parent, target.EpubTag(node.tag));
    WrapperPermits(parent, tag);
    hide RenderAll, RenderAllowed, RemoteLink, Wrapper, ContentTag, Target.EpubTag, Target.ValidName, Dropped, Transparent,
         Allowed, Embedded, Wraps, Permits;
    assert Scan([], stack) == Some(stack);
    hide Scan;
    if node.tag == "" || Dropped(node.tag) {
    } else if Transparent(node.tag) || !target.ValidName(node.tag) {
      AllScan(node.children, parent, inAnchor, target, targets, used, stack);
    } else if wrapper != "" {
      ElementScan(node, wrapper, inAnchor, target, targets, used, stack + [wrapper]);
      ScanEnclosed(wrapper, [], RenderElement(node, wrapper, inAnchor, target, targets, used).tokens, stack);
    } else if Embedded(tag) {
      EmbeddedOutsideLists(parent, tag);
      RemoteLinkScan(node.attrs, inAnchor, stack);
    } else if !Allowed(tag) {
      AllScan(node.children, parent, inAnchor, target, targets, used, stack);
    } else {
      AllowedScan(tag, node, inAnchor, target, targets, used, stack);
    }
  }

  lemma {:induction false} AllowedScan(tag: string, node: Node, inAnchor: bool, target: Target, targets: set<string>,
          used: set<string>, stack: seq<string>)
    requires node.Element? && Permits(Top(stack), tag)
    ensures Scan(RenderAllowed(tag, node, inAnchor, target, targets, used).tokens, stack) == Some(stack)
    decreases Size(node), 0
  {
    var attrs := AddAttributes(tag, node.attrs, target, targets, used);
    hide RenderAll, AddAttributes, CanBeVoid, Permits, Scan;
    if CanBeVoid(tag) && node.children == [] {
      ScanOne(Void(tag, attrs.written), stack);
    } else {
      var inside := inAnchor || tag == "a";
      AllScan(node.children, tag, inside, target, targets, attrs.used, stack + [tag]);
      ScanEnclosed(tag, attrs.written, RenderAll(node.children, tag, inside, target, targets, attrs.used).tokens, stack);
    }
  }

  lemma {:induction false} AllScan(nodes: seq<Node>, parent: string, inAnchor: bool, target: Target,
          targets: set<string>, used: set<string>, stack: seq<string>)
    requires Top(stack) == parent
    ensures Scan(RenderAll(nodes, parent, inAnchor, target, targets, used).tokens, stack) == Some(stack)
    decreases Sizes(nodes), 4
  {
    hide RenderNode, Step;
    if nodes == [] {
    } else {
      var front := RenderAll(nodes[..|nodes| - 1], parent, inAnchor, target, targets, used);
      AllScan(nodes[..|nodes| - 1], parent, inAnchor, target, targets, used, stack);
      NodeScan(nodes[|nodes| - 1], parent, inAnchor, target, targets, front.used, stack);
      hide Scan;
      ScanJoin(front.tokens, RenderNode(nodes[|nodes| - 1], parent, inAnchor, target, targets, front.used).tokens, stack, stack);
    }
  }

  /** At the outermost level, text may come and go. */
  lemma {:induction false} TrimFrontScan(tokens: seq<Token>)
    ensures Scan(TrimFront(tokens), []) == Scan(tokens, [])
  {
    hide Scan, TrimLeft;
    if tokens == [] || !tokens[0].Chars? {
    } else {
      var first, rest := tokens[0], tokens[1..];
      var text := Chars(TrimLeft(first.text));
      OutsideLists();
      TrimFrontScan(rest);
      assert tokens == [first] + rest;
      ScanOne(first, []);
      ScanOne(text, []);
      ScanJoin([first], rest, [], []);
      ScanJoin([text], rest, [], []);
    }
  }

  lemma OutsideLists()
    ensures !Wraps(Top([]))
  {
    assert |""| == 0 && |"ol"| == 2 && |"ul"| == 2 && |"dl"| == 2;
  }

  lemma {:induction false} TrimBackScan(tokens: seq<Token>)
    requires Scan(tokens, []) == Some([])
    ensures Scan(TrimBack(tokens), []) == Some([])
  {
    hide TrimRight, Wraps;
    if tokens == [] || !tokens[|tokens| - 1].Chars? {
    } else {
      var front, last := tokens[..|tokens| - 1], tokens[|tokens| - 1];
      var text := Chars(TrimRight(last.text));
      OutsideLists();
      TrimBackScan(front);
      assert (front + [text])[..|front|] == front;
    }
  }

  /** Every tag written in the body is closed in order, ol and ul hold only li, and dl only dd and dt. */
  lemma BodyIsBalanced(nodes: seq<Node>, target: Target)
    ensures Scan(Body(nodes, target), []) == Some([])
  {
    AllScan(nodes, "", false, target, AllTargets(nodes, target), {}, []);
    TrimFrontScan(Rendered(nodes, target));
    TrimBackScan(TrimFront(Rendered(nodes, target)));
    ParagraphHolds();
    assert Scan([], ["p"]) == Some(["p"]);
    assert [] + ["p"] == ["p"];
    ScanEnclosed("p", [], [], []);
    assert [Start("p", [])] + [] + [End("p")] == [Start("p", []), End("p")];
    hide RenderAll, AllTargets, Trimmed, Scan;
  }

  lemma ParagraphHolds()
    ensures Permits("", "p")
  {
    assert |""| == 0 && |"ol"| == 2 && |"ul"| == 2 && |"dl"| == 2;
  }
}
