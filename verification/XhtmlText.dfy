/**
 * The text of the body: what the tokens are written as, which text survives, and how much of the white
 * space around it, in EPUB 2 and in EPUB 3.
 */
module XhtmlText {
  import opened Common
  import opened Xhtml
  import opened XhtmlSafety

  /* ---- Visible text ---- */

  /** The characters written, without tags. */
  function TextOf(tokens: seq<Token>): string {
    if tokens == [] then ""
    else TextOf(tokens[..|tokens| - 1]) + (if tokens[|tokens| - 1].Chars? then tokens[|tokens| - 1].text else "")
  }

  /** The characters a reader should see of a node: all text, and the name of a remote resource in its place. */
  function Visible(node: Node, target: Target): string
    decreases Size(node), 0
  {
    match node
    case Text(data) => data
    case Other(children) => AllVisible(children, target)
    case Element(tag, attrs, children) =>
      if tag == "" || Dropped(tag) then ""
      else if target.ValidName(tag) && Embedded(tag) then TextOf(RemoteLink(attrs, true))
      else AllVisible(children, target)
  }

  function AllVisible(nodes: seq<Node>, target: Target): string
    decreases Sizes(nodes), 1
  {
    if nodes == [] then "" else AllVisible(nodes[..|nodes| - 1], target) + Visible(nodes[|nodes| - 1], target)
  }

  lemma {:induction false} TextJoin(a: seq<Token>, b: seq<Token>)
    ensures TextOf(a + b) == TextOf(a) + TextOf(b)
  {
    if b == [] {
      assert a + b == a;
    } else {
      var front, last := b[..|b| - 1], b[|b| - 1];
      TextJoin(a, front);
      assert (a + b)[..|a + b| - 1] == a + front && (a + b)[|a + b| - 1] == last;
      Concatenates(TextOf(a), TextOf(front), if last.Chars? then last.text else "");
    }
  }

  lemma TextOne(t: Token)
    ensures TextOf([t]) == if t.Chars? then t.text else ""
  {
    assert [t][..0] == [];
  }

  lemma TextEnclosed(start: Token, inner: seq<Token>, end: Token)
    requires !start.Chars? && !end.Chars?
    ensures TextOf([start] + inner + [end]) == TextOf(inner)
  {
    TextJoin([start] + inner, [end]);
    TextJoin([start], inner);
    TextOne(start);
    TextOne(end);
    assert "" + TextOf(inner) == TextOf(inner) && TextOf(inner) + "" == TextOf(inner);
  }

  lemma RemoteText(attrs: seq<Attribute>, inAnchor: bool)
    ensures TextOf(RemoteLink(attrs, inAnchor)) == TextOf(RemoteLink(attrs, true))
  {
    var link := RemoteLink(attrs, inAnchor);
    hide RemoteSource, ValueOf;
    if link != [] && !inAnchor {
      TextEnclosed(link[0], [link[1]], End("a"));
      assert link == [link[0]] + [link[1]] + [End("a")];
      assert RemoteLink(attrs, true) == [link[1]];
    }
  }

  lemma {:induction false} NodeText(node: Node, parent: string, inAnchor: bool, target: Target, targets: set<string>,
          used: set<string>)
    ensures TextOf(RenderNode(node, parent, inAnchor, target, targets, used).tokens) == Visible(node, target)
    decreases Size(node), 3
  {
    hide RenderElement, RenderAll, Wrapper, Trim, TextOf, Dropped, Embedded, Target.ValidName, AllVisible;
    match node {
      case Text(data) =>
        var wrapper := Wrapper(parent, "");
        TextOne(Chars(data));
        TextEnclosed(Start(wrapper, []), [Chars(data)], End(wrapper));
        assert [Start(wrapper, [])] + [Chars(data)] + [End(wrapper)] == [Start(wrapper, []), Chars(data), End(wrapper)];
      case Element(_, _, _) => ElementText(node, parent, inAnchor, target, targets, used);
      case Other(children) => AllText(children, parent, inAnchor, target, targets, used);
    }
  }

  /** No transparent element is a resource. */
  lemma TransparentNotEmbedded(tag: string)
    ensures Transparent(tag) ==> !Embedded(tag)
  {
    if Transparent(tag) {
      assert tag[0] in {'h', 'b'};
    }
  }

  lemma {:induction false} ElementText(node: Node, parent: string, inAnchor: bool, target: Target,
          targets: set<string>, used: set<string>)
    requires node.Element?
    ensures TextOf(RenderElement(node, parent, inAnchor, target, targets, used).tokens) == Visible(node, target)
    decreases Size(node), if Wraps(parent) then 2 else 1
  {
    var tag := ContentTag(target.EpubTag(node.tag), parent);
    var wrapper := Wrapper(parent, tag);
    WrapperInList(parent, tag);
    RenamingKeeps(node.tag, parent, target);
    TransparentNotEmbedded(node.tag);
    assert TextOf([]) == "";
    hide RenderAll, RenderAllowed, RemoteLink, Wrapper, ContentTag, Target.EpubTag, Target.ValidName, Dropped, Transparent,
         Allowed, Embedded, Wraps, TextOf, AllVisible;
    if node.tag == "" || Dropped(node.tag) {
    } else if Transparent(node.tag) || !target.ValidName(node.tag) {
      AllText(node.children, parent, inAnchor, target, targets, used);
    } else if wrapper != "" {
      ElementText(node, wrapper, inAnchor, target, targets, used);
      TextEnclosed(Start(wrapper, []), RenderElement(node, wrapper, inAnchor, target, targets, used).tokens, End(wrapper));
    } else if Embedded(tag) {
      RemoteText(node.attrs, inAnchor);
    } else if !Allowed(tag) {
      AllText(node.children, parent, inAnchor, target, targets, used);
    } else {
      AllowedText(tag, node, inAnchor, target, targets, used);
    }
  }

  lemma {:induction false} AllowedText(tag: string, node: Node, inAnchor: bool, target: Target, targets: set<string>,
          used: set<string>)
    requires node.Element?
    ensures TextOf(RenderAllowed(tag, node, inAnchor, target, targets, used).tokens) == AllVisible(node.children, target)
    decreases Size(node), 0
  {
    var attrs := AddAttributes(tag, node.attrs, target, targets, used);
    hide RenderAll, AddAttributes, CanBeVoid, TextOf, Visible;
    if CanBeVoid(tag) && node.children == [] {
      TextOne(Void(tag, attrs.written));
    } else {
      var inside := inAnchor || tag == "a";
      AllText(node.children, tag, inside, target, targets, attrs.used);
      TextEnclosed(Start(tag, attrs.written), RenderAll(node.children, tag, inside, target, targets, attrs.used).tokens, End(tag));
    }
  }

  lemma {:induction false} AllText(nodes: seq<Node>, parent: string, inAnchor: bool, target: Target,
          targets: set<string>, used: set<string>)
    ensures TextOf(RenderAll(nodes, parent, inAnchor, target, targets, used).tokens) == AllVisible(nodes, target)
    decreases Sizes(nodes), 4
  {
    hide RenderNode, Visible;
    if nodes == [] {
    } else {
      var front := RenderAll(nodes[..|nodes| - 1], parent, inAnchor, target, targets, used);
      AllText(nodes[..|nodes| - 1], parent, inAnchor, target, targets, used);
      NodeText(nodes[|nodes| - 1], parent, inAnchor, target, targets, front.used);
      hide TextOf;
      TextJoin(front.tokens, RenderNode(nodes[|nodes| - 1], parent, inAnchor, target, targets, front.used).tokens);
    }
  }

  lemma {:induction false} VisibleInAnyEdition(nodes: seq<Node>, target: Target, epub2: bool, file: seq<string>)
    ensures AllVisible(nodes, target) == AllVisible(nodes, target.(epub2 := epub2, file := file))
    decreases Sizes(nodes), 1
  {
    if nodes == [] {
    } else {
      VisibleInAnyEdition(nodes[..|nodes| - 1], target, epub2, file);
      NodeInAnyEdition(nodes[|nodes| - 1], target, epub2, file);
    }
  }

  /** The text is the same in EPUB 2 and EPUB 3. */
  lemma {:induction false} NodeInAnyEdition(node: Node, target: Target, epub2: bool, file: seq<string>)
    ensures Visible(node, target) == Visible(node, target.(epub2 := epub2, file := file))
    decreases Size(node), 0
  {
    hide Dropped, Embedded, RemoteLink, TextOf, AllVisible;
    if node.Text? {
    } else {
      VisibleInAnyEdition(node.children, target, epub2, file);
    }
    if node.Element? {
      assert target.ValidName(node.tag) <==> target.(epub2 := epub2, file := file).ValidName(node.tag);
    }
  }

  /* ---- White space at the ends of a text ---- */

  lemma {:induction false} LeadingOf(s: string)
    ensures s == Leading(s) + TrimLeft(s) && Blank(Leading(s))
    ensures TrimLeft(s) != "" ==> !Space(TrimLeft(s)[0])
  {
    hide Space;
    if s == "" || !Space(s[0]) {
    } else {
      LeadingOf(s[1..]);
    }
  }

  lemma {:induction false} TrailingOf(s: string)
    ensures s == TrimRight(s) + Trailing(s) && Blank(Trailing(s))
    ensures TrimRight(s) != "" ==> !Space(TrimRight(s)[|TrimRight(s)| - 1])
  {
    hide Space;
    if s == "" || !Space(s[|s| - 1]) {
    } else {
      TrailingOf(s[..|s| - 1]);
    }
  }

  lemma {:induction false} BlankIsLeading(s: string)
    ensures TrimLeft(s) == "" <==> Blank(s)
    ensures Blank(s) ==> Leading(s) == s
  {
    LeadingOf(s);
    hide Space;
    if s == "" || !Space(s[0]) {
    } else {
      BlankIsLeading(s[1..]);
    }
  }

  lemma {:induction false} BlankIsTrailing(s: string)
    ensures TrimRight(s) == "" <==> Blank(s)
    ensures Blank(s) ==> Trailing(s) == s
  {
    TrailingOf(s);
    hide Space;
    if s == "" || !Space(s[|s| - 1]) {
    } else {
      BlankIsTrailing(s[..|s| - 1]);
    }
  }

  /** A text that neither starts nor ends with white space. */
  predicate Tight(s: string) {
    s == "" || (!Space(s[0]) && !Space(s[|s| - 1]))
  }

  /** strings.TrimSpace takes off all white space at both ends, and only that. */
  lemma {:induction false} TrimStrips(a: string, s: string, b: string)
    requires Blank(a) && Tight(s) && Blank(b)
    ensures Trim(a + s + b) == s
    decreases |a| + |b|
  {
    hide Space;
    var whole := a + s + b;
    if a != "" {
      assert whole[1..] == a[1..] + s + b;
      TrimStrips(a[1..], s, b);
    } else if b != "" {
      assert whole == s + b;
      if s == "" {
        assert whole[1..] == "" + s + b[1..];
        TrimStrips("", s, b[1..]);
      } else {
        assert whole[..|whole| - 1] == a + s + b[..|b| - 1];
        TrimStrips(a, s, b[..|b| - 1]);
      }
    } else {
      assert whole == s;
    }
  }

  /* ---- White space outside all tags ---- */

  /** White space up to the first, or from the last, visible thing; `open` when there is none. */
  datatype Edge = Edge(blanks: string, open: bool)

  function After(a: Edge, b: Edge): Edge {
    if a.open then Edge(a.blanks + b.blanks, b.open) else a
  }

  function Before(a: Edge, b: Edge): Edge {
    if b.open then Edge(a.blanks + b.blanks, a.open) else b
  }

  function LeadToken(t: Token): Edge {
    if t.Chars? then Edge(Leading(t.text), Blank(t.text)) else Edge("", false)
  }

  function TrailToken(t: Token): Edge {
    if t.Chars? then Edge(Trailing(t.text), Blank(t.text)) else Edge("", false)
  }

  function Lead(tokens: seq<Token>): Edge {
    if tokens == [] then Edge("", true) else After(LeadToken(tokens[0]), Lead(tokens[1..]))
  }

  function Trail(tokens: seq<Token>): Edge {
    if tokens == [] then Edge("", true) else Before(Trail(tokens[..|tokens| - 1]), TrailToken(tokens[|tokens| - 1]))
  }

  lemma {:induction false} LeadJoin(a: seq<Token>, b: seq<Token>)
    ensures Lead(a + b) == After(Lead(a), Lead(b))
  {
    hide LeadToken;
    if a == [] {
      assert a + b == b;
    } else {
      LeadJoin(a[1..], b);
      assert (a + b)[1..] == a[1..] + b;
      assert LeadToken(a[0]).blanks + (Lead(a[1..]).blanks + Lead(b).blanks) == LeadToken(a[0]).blanks + Lead(a[1..]).blanks + Lead(b).blanks;
    }
  }

  lemma {:induction false} TrailJoin(a: seq<Token>, b: seq<Token>)
    ensures Trail(a + b) == Before(Trail(a), Trail(b))
  {
    hide TrailToken;
    if b == [] {
      assert a + b == a;
    } else {
      var front, last := b[..|b| - 1], b[|b| - 1];
      TrailJoin(a, front);
      assert (a + b)[..|a + b| - 1] == a + front;
      assert Trail(a).blanks + Trail(front).blanks + TrailToken(last).blanks == Trail(a).blanks + (Trail(front).blanks + TrailToken(last).blanks);
    }
  }

  lemma EdgeOne(t: Token)
    ensures Lead([t]) == LeadToken(t) && Trail([t]) == TrailToken(t)
  {
    assert [t][1..] == [] && [t][..0] == [];
  }

  /** Between tags everything is inside. */
  lemma EdgeEnclosed(start: Token, inner: seq<Token>, end: Token)
    requires !start.Chars? && !end.Chars?
    ensures Lead([start] + inner + [end]) == Edge("", false) == Trail([start] + inner + [end])
  {
    LeadJoin([start] + inner, [end]);
    LeadJoin([start], inner);
    TrailJoin([start] + inner, [end]);
    EdgeOne(start);
    EdgeOne(end);
  }

  /** Trimming the front takes off exactly the white space before the first visible thing. */
  ghost predicate FrontTrims(tokens: seq<Token>) {
    && TextOf(tokens) == Lead(tokens).blanks + TextOf(TrimFront(tokens)) && Blank(Lead(tokens).blanks)
    && (Lead(tokens).open <==> TrimFront(tokens) == []) && (Lead(tokens).open <==> Trail(tokens).open)
    && (!Lead(tokens).open ==> Trail(TrimFront(tokens)) == Trail(tokens))
  }

  lemma {:induction false} TrimFrontText(tokens: seq<Token>)
    ensures FrontTrims(tokens)
  {
    if tokens == [] {
      NoText();
    } else {
      var first, rest := tokens[0], tokens[1..];
      assert tokens == [first] + rest;
      TrimFrontText(rest);
      hide FrontTrims;
      if !first.Chars? {
        TagFirst(first, rest);
      } else if Blank(first.text) {
        BlankFirst(first.text, rest);
      } else {
        TextFirst(first.text, rest);
      }
    }
  }

  lemma TagFirst(first: Token, rest: seq<Token>)
    requires !first.Chars?
    ensures FrontTrims([first] + rest)
  {
    var tokens := [first] + rest;
    assert tokens[1..] == rest;
    TrailJoin([first], rest);
    EdgeOne(first);
    hide Trail, TextOf, Space;
    assert "" + TextOf(tokens) == TextOf(tokens);
  }

  lemma BlankFirst(s: string, rest: seq<Token>)
    requires Blank(s) && FrontTrims(rest)
    ensures FrontTrims([Chars(s)] + rest)
  {
    var tokens := [Chars(s)] + rest;
    assert tokens[1..] == rest;
    BlankIsLeading(s);
    BlankIsTrailing(s);
    TextJoin([Chars(s)], rest);
    TextOne(Chars(s));
    TrailJoin([Chars(s)], rest);
    EdgeOne(Chars(s));
    assert TrimFront(tokens) == TrimFront(rest);
    assert Lead(tokens) == Edge(s + Lead(rest).blanks, Lead(rest).open);
    hide Trail, TextOf, Lead, TrimFront, Space, Leading, Trailing;
    Concatenates(s, Lead(rest).blanks, TextOf(TrimFront(rest)));
    BlankJoin(s, Lead(rest).blanks);
  }

  lemma BlankJoin(a: string, b: string)
    requires Blank(a) && Blank(b)
    ensures Blank(a + b)
  {
    hide Space;
  }

  lemma TextFirst(s: string, rest: seq<Token>)
    requires !Blank(s)
    ensures FrontTrims([Chars(s)] + rest)
  {
    var tokens, text := [Chars(s)] + rest, Chars(TrimLeft(s));
    assert tokens[1..] == rest;
    LeadingOf(s);
    BlankIsLeading(s);
    TrailingKept(s);
    TextJoin([Chars(s)], rest);
    TextJoin([text], rest);
    TextOne(Chars(s));
    TextOne(text);
    TrailJoin([Chars(s)], rest);
    TrailJoin([text], rest);
    EdgeOne(Chars(s));
    EdgeOne(text);
    hide Trail, TextOf, Space, Leading, Trailing, TrimLeft, Blank;
    Concatenates(Leading(s), TrimLeft(s), TextOf(rest));
  }

  lemma NoText()
    ensures TextOf([]) == "" && Trail([]) == Edge("", true)
  {
  }

  lemma {:induction false} TrailingKept(s: string)
    ensures !Blank(s) ==> !Blank(TrimLeft(s)) && Trailing(TrimLeft(s)) == Trailing(s)
  {
    LeadingOf(s);
    hide Space, Leading;
    if s == "" || !Space(s[0]) {
    } else if !Blank(s) {
      TrailingKept(s[1..]);
      TrailingOfTail(s);
    }
  }

  lemma {:induction false} TrailingOfTail(s: string)
    requires s != "" && !Blank(s[1..])
    ensures Trailing(s[1..]) == Trailing(s)
  {
    hide Space;
    if !Space(s[|s| - 1]) {
    } else {
      assert s[1..][..|s| - 2] == s[..|s| - 1][1..];
      TrailingOfTail(s[..|s| - 1]);
    }
  }

  /** Trimming the back takes off exactly the white space after the last visible thing. */
  ghost predicate BackTrims(tokens: seq<Token>) {
    && TextOf(tokens) == TextOf(TrimBack(tokens)) + Trail(tokens).blanks && Blank(Trail(tokens).blanks)
    && (Trail(tokens).open <==> TrimBack(tokens) == [])
  }

  lemma {:induction false} TrimBackText(tokens: seq<Token>)
    ensures BackTrims(tokens)
  {
    if tokens == [] {
    } else {
      var front, last := tokens[..|tokens| - 1], tokens[|tokens| - 1];
      assert tokens == front + [last];
      TrimBackText(front);
      hide BackTrims;
      if !last.Chars? {
        TagLast(front, last);
      } else if Blank(last.text) {
        BlankLast(front, last.text);
      } else {
        TextLast(front, last.text);
      }
    }
  }

  lemma TagLast(front: seq<Token>, last: Token)
    requires !last.Chars?
    ensures BackTrims(front + [last])
  {
    var tokens := front + [last];
    assert tokens[..|front|] == front;
    hide TextOf, Space;
    assert TextOf(tokens) + "" == TextOf(tokens);
  }

  lemma BlankLast(front: seq<Token>, s: string)
    requires Blank(s) && BackTrims(front)
    ensures BackTrims(front + [Chars(s)])
  {
    var tokens := front + [Chars(s)];
    assert tokens[..|front|] == front;
    BlankIsTrailing(s);
    assert TextOf(tokens) == TextOf(front) + s;
    assert TrimBack(tokens) == TrimBack(front);
    assert Trail(tokens) == Edge(Trail(front).blanks + s, Trail(front).open);
    hide Trail, TextOf, TrimBack, Space, Trailing;
    Concatenates(TextOf(TrimBack(front)), Trail(front).blanks, s);
    BlankJoin(Trail(front).blanks, s);
  }

  lemma TextLast(front: seq<Token>, s: string)
    requires !Blank(s)
    ensures BackTrims(front + [Chars(s)])
  {
    var tokens, text := front + [Chars(s)], Chars(TrimRight(s));
    assert tokens[..|front|] == front;
    TrailingOf(s);
    BlankIsTrailing(s);
    TextJoin(front, [Chars(s)]);
    TextJoin(front, [text]);
    TextOne(Chars(s));
    TextOne(text);
    hide TextOf, Space, Trailing, TrimRight, Blank;
    Concatenates(TextOf(front), TrimRight(s), Trailing(s));
  }

  /* ---- What trimming takes off the body ---- */

  lemma TrimmedText(tokens: seq<Token>)
    ensures Trimmed(tokens) == [] <==> Lead(tokens).open
    ensures if Lead(tokens).open then TextOf(tokens) == Lead(tokens).blanks
            else TextOf(tokens) == Lead(tokens).blanks + TextOf(Trimmed(tokens)) + Trail(tokens).blanks
    ensures Blank(Lead(tokens).blanks) && Blank(Trail(tokens).blanks)
  {
    TrimFrontText(tokens);
    TrimBackText(TrimFront(tokens));
    TrimBackText(tokens);
    NoText();
    hide TextOf, Lead, Trail, TrimFront, Space;
    Concatenates(Lead(tokens).blanks, TextOf(Trimmed(tokens)), Trail(tokens).blanks);
  }

  /* The same read off the tree: the first thing to be written as a tag ends the white space. */

  function LeadNode(node: Node, target: Target): Edge
    decreases Size(node), 0
  {
    match node
    case Text(data) => Edge(Leading(data), Blank(data))
    case Other(children) => LeadAll(children, target)
    case Element(tag, attrs, children) =>
      if tag == "" || Dropped(tag) then Edge("", true)
      else if Unwrapped(tag, target) then LeadAll(children, target)
      else Edge("", Embedded(tag) && RemoteSource(attrs).None?)
  }

  function LeadAll(nodes: seq<Node>, target: Target): Edge
    decreases Sizes(nodes), 1
  {
    if nodes == [] then Edge("", true)
    else After(LeadAll(nodes[..|nodes| - 1], target), LeadNode(nodes[|nodes| - 1], target))
  }

  function TrailNode(node: Node, target: Target): Edge
    decreases Size(node), 0
  {
    match node
    case Text(data) => Edge(Trailing(data), Blank(data))
    case Other(children) => TrailAll(children, target)
    case Element(tag, attrs, children) =>
      if tag == "" || Dropped(tag) then Edge("", true)
      else if Unwrapped(tag, target) then TrailAll(children, target)
      else Edge("", Embedded(tag) && RemoteSource(attrs).None?)
  }

  function TrailAll(nodes: seq<Node>, target: Target): Edge
    decreases Sizes(nodes), 1
  {
    if nodes == [] then Edge("", true)
    else Before(TrailAll(nodes[..|nodes| - 1], target), TrailNode(nodes[|nodes| - 1], target))
  }

  /** Of this element only the children are written. */
  predicate Unwrapped(tag: string, target: Target) {
    Transparent(tag) || !target.ValidName(tag) || (!Embedded(tag) && !Allowed(target.EpubTag(tag)))
  }

  /** Rendered outside all lists and links, tokens have the edges of their tree. */
  ghost predicate SameEdges(tokens: seq<Token>, lead: Edge, trail: Edge) {
    Lead(tokens) == lead && Trail(tokens) == trail
  }

  lemma {:induction false} NodeEdges(node: Node, target: Target, targets: set<string>, used: set<string>)
    ensures SameEdges(RenderNode(node, "", false, target, targets, used).tokens, LeadNode(node, target), TrailNode(node, target))
    decreases Size(node), 3
  {
    hide RenderElement, RenderAll, Wrapper, Trim, Leading, Trailing, Space, LeadAll, TrailAll, Lead, Trail;
    match node {
      case Text(data) =>
        NoWrapper("");
        EdgeOne(Chars(data));
      case Element(_, _, _) => ElementEdges(node, target, targets, used);
      case Other(children) => AllEdges(children, target, targets, used);
    }
  }

  lemma NoWrapper(child: string)
    ensures Wrapper("", child) == ""
  {
    assert |""| == 0 && |"ol"| == 2 && |"ul"| == 2 && |"dl"| == 2;
  }

  lemma {:induction false} ElementEdges(node: Node, target: Target, targets: set<string>, used: set<string>)
    requires node.Element?
    ensures SameEdges(RenderElement(node, "", false, target, targets, used).tokens, LeadNode(node, target), TrailNode(node, target))
    decreases Size(node), if Wraps("") then 2 else 1
  {
    var tag := ContentTag(target.EpubTag(node.tag), "");
    NoWrapper(tag);
    RenamingKeeps(node.tag, "", target);
    TransparentNotEmbedded(node.tag);
    NoText();
    assert Lead([]) == Edge("", true);
    hide RenderAll, RenderAllowed, RemoteLink, Wrapper, ContentTag, Target.EpubTag, Target.ValidName, Dropped, Transparent,
         Allowed, Embedded, Wraps, Lead, Trail, LeadAll, TrailAll, RemoteSource;
    if node.tag == "" || Dropped(node.tag) {
    } else if Transparent(node.tag) || !target.ValidName(node.tag) {
      AllEdges(node.children, target, targets, used);
    } else if Embedded(tag) {
      RemoteEdges(node.attrs);
    } else if !Allowed(tag) {
      AllEdges(node.children, target, targets, used);
    } else {
      AllowedEdges(tag, node, target, targets, used);
    }
  }

  lemma RemoteEdges(attrs: seq<Attribute>)
    ensures SameEdges(RemoteLink(attrs, false), Edge("", RemoteSource(attrs).None?), Edge("", RemoteSource(attrs).None?))
  {
    var link := RemoteLink(attrs, false);
    NoText();
    hide RemoteSource, ValueOf;
    if link != [] {
      EdgeEnclosed(link[0], [link[1]], link[2]);
      assert link == [link[0]] + [link[1]] + [link[2]];
    }
  }

  lemma AllowedEdges(tag: string, node: Node, target: Target, targets: set<string>, used: set<string>)
    requires node.Element?
    ensures SameEdges(RenderAllowed(tag, node, false, target, targets, used).tokens, Edge("", false), Edge("", false))
  {
    var attrs := AddAttributes(tag, node.attrs, target, targets, used);
    hide RenderAll, AddAttributes, CanBeVoid, Lead, Trail;
    EdgeOne(Void(tag, attrs.written));
    EdgeEnclosed(Start(tag, attrs.written), RenderAll(node.children, tag, tag == "a", target, targets, attrs.used).tokens, End(tag));
  }

  lemma {:induction false} AllEdges(nodes: seq<Node>, target: Target, targets: set<string>, used: set<string>)
    ensures SameEdges(RenderAll(nodes, "", false, target, targets, used).tokens, LeadAll(nodes, target), TrailAll(nodes, target))
    decreases Sizes(nodes), 4
  {
    hide RenderNode, LeadNode, TrailNode;
    if nodes == [] {
    } else {
      var front := RenderAll(nodes[..|nodes| - 1], "", false, target, targets, used);
      var last := RenderNode(nodes[|nodes| - 1], "", false, target, targets, front.used);
      AllEdges(nodes[..|nodes| - 1], target, targets, used);
      NodeEdges(nodes[|nodes| - 1], target, targets, front.used);
      LeadJoin(front.tokens, last.tokens);
      TrailJoin(front.tokens, last.tokens);
      hide Lead, Trail;
    }
  }

  /** How much white space of the tree lies outside all that is written as a tag or is visible. */
  function Outside(nodes: seq<Node>, target: Target): nat {
    |LeadAll(nodes, target).blanks| + if LeadAll(nodes, target).open then 0 else |TrailAll(nodes, target).blanks|
  }

  /**
   * No text is lost, added or moved, whatever is wrapped, renamed or linked; only the white space
   * outside all tags is taken off.
   */
  lemma TextSurvives(nodes: seq<Node>, target: Target)
    ensures if LeadAll(nodes, target).open then TextOf(Body(nodes, target)) == "" && AllVisible(nodes, target) == LeadAll(nodes, target).blanks
            else AllVisible(nodes, target) == LeadAll(nodes, target).blanks + TextOf(Body(nodes, target)) + TrailAll(nodes, target).blanks
    ensures Blank(LeadAll(nodes, target).blanks) && Blank(TrailAll(nodes, target).blanks)
  {
    AllText(nodes, "", false, target, AllTargets(nodes, target), {});
    AllEdges(nodes, target, AllTargets(nodes, target), {});
    TrimmedText(Rendered(nodes, target));
    NoText();
    TextEnclosed(Start("p", []), [], End("p"));
    assert [Start("p", [])] + [] + [End("p")] == [Start("p", []), End("p")];
    hide RenderAll, AllTargets, Trimmed, TextOf, AllVisible, Lead, Trail, LeadAll, TrailAll;
  }

  /* ---- Editions ---- */

  /** EPUB 2 writes every element that EPUB 3 writes, so less white space is outside. */
  lemma {:induction false} NodeMoreTags(node: Node, target: Target, other: Target)
    requires other == target.(epub2 := other.epub2, file := other.file) && (target.epub2 || !other.epub2)
    ensures Within(LeadNode(node, target), LeadNode(node, other)) && Within(TrailNode(node, target), TrailNode(node, other))
    decreases Size(node), 0
  {
    hide LeadAll, TrailAll, Dropped, Embedded, Transparent, Leading, Trailing, Space;
    match node {
      case Text(_) =>
      case Other(children) => MoreTags(children, target, other);
      case Element(tag, _, children) =>
        UnwrapsLess(tag, target, other);
        hide Unwrapped;
        MoreTags(children, target, other);
    }
  }

  /** Less white space, and nothing open that is not open there. */
  predicate Within(a: Edge, b: Edge) {
    |a.blanks| <= |b.blanks| && (a.open ==> b == a)
  }

  lemma UnwrapsLess(tag: string, target: Target, other: Target)
    requires other == target.(epub2 := other.epub2, file := other.file) && (target.epub2 || !other.epub2)
    ensures Unwrapped(tag, target) ==> Unwrapped(tag, other)
  {
    assert target.ValidName(tag) <==> other.ValidName(tag);
    PlainTagsAllowed();
    hide Allowed, Target.ValidName, NewBlock, NewInline, Transparent, Embedded;
  }

  lemma PlainTagsAllowed()
    ensures Allowed("div") && Allowed("span") && Allowed("br")
  {
  }

  lemma {:induction false} MoreTags(nodes: seq<Node>, target: Target, other: Target)
    requires other == target.(epub2 := other.epub2, file := other.file) && (target.epub2 || !other.epub2)
    ensures Within(LeadAll(nodes, target), LeadAll(nodes, other)) && Within(TrailAll(nodes, target), TrailAll(nodes, other))
    decreases Sizes(nodes), 1
  {
    hide LeadNode, TrailNode;
    if nodes == [] {
    } else {
      MoreTags(nodes[..|nodes| - 1], target, other);
      NodeMoreTags(nodes[|nodes| - 1], target, other);
    }
  }

  lemma TrimAround(a: string, s: string, b: string)
    requires Blank(a) && Blank(b)
    ensures Trim(a + s + b) == Trim(s)
  {
    var left := TrimLeft(s);
    var core := TrimRight(left);
    LeadingOf(s);
    TrailingOf(left);
    CoreIsTight(left);
    hide Space, Blank, Trim, Leading, Trailing, TrimLeft, TrimRight, Tight;
    Concatenates(Leading(s), core, Trailing(left));
    Regroups(a, Leading(s), core, Trailing(left), b);
    BlankJoin(a, Leading(s));
    BlankJoin(Trailing(left), b);
    TrimStrips(Leading(s), core, Trailing(left));
    TrimStrips(a + Leading(s), core, Trailing(left) + b);
  }

  lemma Regroups(a: string, b: string, c: string, d: string, e: string)
    ensures a + (b + c + d) + e == (a + b) + c + (d + e)
  {
  }

  lemma NothingIsBlank()
    ensures Blank("")
  {
  }

  lemma CoreIsTight(s: string)
    requires s != "" ==> !Space(s[0])
    ensures Tight(TrimRight(s))
  {
    TrailingOf(s);
    hide Space, TrimRight, Trailing;
    assert TrimRight(s) != "" ==> TrimRight(s)[0] == s[0];
  }

  /**
   * The text of a body is that of its tree, and the same in EPUB 2 and EPUB 3 and under any name of the
   * document, up to white space at its ends. It is the same with it if and only if equally much white
   * space lies outside in both.
   */
  lemma SameTextExactly(nodes: seq<Node>, target: Target, epub2: bool, file: seq<string>)
    ensures var other := target.(epub2 := epub2, file := file);
            && Trim(TextOf(Body(nodes, target))) == Trim(AllVisible(nodes, target)) == Trim(TextOf(Body(nodes, other)))
            && (TextOf(Body(nodes, target)) == TextOf(Body(nodes, other)) <==> Outside(nodes, target) == Outside(nodes, other))
  {
    var other := target.(epub2 := epub2, file := file);
    VisibleInAnyEdition(nodes, target, epub2, file);
    TrimmedVisible(nodes, target);
    TrimmedVisible(nodes, other);
    hide Body, TextOf, AllVisible, Trim, Outside;
    if target.epub2 || !epub2 {
      AgreeExactly(nodes, target, other);
    } else {
      AgreeExactly(nodes, other, target);
    }
  }

  lemma TrimmedVisible(nodes: seq<Node>, target: Target)
    ensures Trim(TextOf(Body(nodes, target))) == Trim(AllVisible(nodes, target))
  {
    TextSurvives(nodes, target);
    hide Body, TextOf, AllVisible, LeadAll, TrailAll, Space, Blank;
    var lead, trail := LeadAll(nodes, target), TrailAll(nodes, target);
    if lead.open {
      assert lead.blanks + "" + "" == lead.blanks;
      NothingIsBlank();
      TrimAround(lead.blanks, "", "");
    } else {
      TrimAround(lead.blanks, TextOf(Body(nodes, target)), trail.blanks);
    }
  }

  lemma AgreeExactly(nodes: seq<Node>, target: Target, other: Target)
    requires other == target.(epub2 := other.epub2, file := other.file) && (target.epub2 || !other.epub2)
    requires AllVisible(nodes, target) == AllVisible(nodes, other)
    ensures TextOf(Body(nodes, target)) == TextOf(Body(nodes, other)) <==> Outside(nodes, target) == Outside(nodes, other)
  {
    TextSurvives(nodes, target);
    TextSurvives(nodes, other);
    MoreTags(nodes, target, other);
    hide Body, TextOf, AllVisible, LeadAll, TrailAll, Blank;
    var lead, trail := LeadAll(nodes, target), TrailAll(nodes, target);
    if !lead.open && !LeadAll(nodes, other).open && Outside(nodes, target) == Outside(nodes, other) {
      SameMiddle(lead.blanks, TextOf(Body(nodes, target)), trail.blanks,
                 LeadAll(nodes, other).blanks, TextOf(Body(nodes, other)), TrailAll(nodes, other).blanks);
    }
  }

  lemma SameMiddle(a: string, s: string, b: string, c: string, t: string, d: string)
    requires a + s + b == c + t + d && |a| == |c| && |b| == |d|
    ensures s == t
  {
    assert (a + s + b)[|a|..|a| + |s|] == s;
    assert (c + t + d)[|c|..|c| + |t|] == t;
  }

  /** A navigation element that holds nothing but a blank, and a paragraph. */
  const BLANK_NAV := Element("nav", [], [Text(" ")])
  const LETTER := Element("p", [], [Text("x")])

  lemma NavIsNeither()
    ensures !Embedded("nav") && !Transparent("nav") && !Dropped("nav")
  {
    assert "nav"[0] == 'n';
  }

  /** EPUB 3 does not know the element, EPUB 2 gets a div. */
  lemma NavIsAllowed(target: Target)
    ensures Allowed(target.EpubTag("nav")) <==> target.epub2
  {
  }

  lemma NavEdges(target: Target)
    requires target.ValidName("nav")
    ensures if target.epub2 then LeadNode(BLANK_NAV, target) == Edge("", false) == TrailNode(BLANK_NAV, target)
            else LeadNode(BLANK_NAV, target) == Edge(" ", true) == TrailNode(BLANK_NAV, target)
    ensures Visible(BLANK_NAV, target) == " "
  {
    NavIsNeither();
    NavIsAllowed(target);
    OneBlank(target);
    hide Allowed, Dropped, Embedded, Transparent, Target.EpubTag, Target.ValidName, LeadAll, TrailAll, AllVisible, RemoteSource;
  }

  lemma OneBlank(target: Target)
    ensures LeadAll([Text(" ")], target) == Edge(" ", true) == TrailAll([Text(" ")], target)
    ensures AllVisible([Text(" ")], target) == " "
  {
    assert [Text(" ")][..0] == [];
    assert Leading(" ") == " " && Trailing(" ") == " ";
  }

  lemma LetterEdges(target: Target)
    requires target.ValidName("p")
    ensures LeadNode(LETTER, target) == Edge("", false) == TrailNode(LETTER, target)
    ensures Visible(LETTER, target) == "x"
  {
    assert [Text("x")][..0] == [];
    hide Target.ValidName;
    assert !Embedded("p") && !Transparent("p") && !Dropped("p") by {
      assert "p"[0] == 'p';
    }
    assert Allowed(target.EpubTag("p"));
    hide Allowed, Dropped, Embedded, Transparent, Target.EpubTag;
    assert AllVisible([Text("x")], target) == "x";
  }

  lemma BlankNavText(target: Target)
    requires target.ValidName("nav")
    ensures TextOf(Body([BLANK_NAV], target)) == if target.epub2 then " " else ""
  {
    NavEdges(target);
    TextSurvives([BLANK_NAV], target);
    hide Body, TextOf, Target.ValidName, LeadNode, TrailNode, Visible, Blank;
    assert [BLANK_NAV][..0] == [];
    assert AllVisible([BLANK_NAV], target) == " ";
    assert LeadAll([BLANK_NAV], target) == LeadNode(BLANK_NAV, target);
    assert TrailAll([BLANK_NAV], target) == TrailNode(BLANK_NAV, target);
  }

  lemma TwoEdges(target: Target)
    requires target.ValidName("nav") && target.ValidName("p")
    ensures LeadAll([BLANK_NAV, LETTER], target) == Edge(if target.epub2 then "" else " ", false)
    ensures TrailAll([BLANK_NAV, LETTER], target) == Edge("", false)
    ensures AllVisible([BLANK_NAV, LETTER], target) == " " + "x"
  {
    NavEdges(target);
    LetterEdges(target);
    hide Target.ValidName, LeadNode, TrailNode, Visible;
    assert [BLANK_NAV][..0] == [] && [BLANK_NAV, LETTER][..1] == [BLANK_NAV];
    assert AllVisible([BLANK_NAV], target) == " ";
    assert LeadAll([BLANK_NAV], target) == LeadNode(BLANK_NAV, target);
    assert TrailAll([BLANK_NAV], target) == TrailNode(BLANK_NAV, target);
  }

  lemma NavAndLetterText(target: Target)
    requires target.ValidName("nav") && target.ValidName("p")
    ensures TextOf(Body([BLANK_NAV, LETTER], target)) == if target.epub2 then " x" else "x"
  {
    TwoEdges(target);
    TextSurvives([BLANK_NAV, LETTER], target);
    hide Body, TextOf, Target.ValidName, LeadAll, TrailAll, AllVisible, Blank;
    var text := TextOf(Body([BLANK_NAV, LETTER], target));
    assert text + "" == text && "" + text == text && " " + "x" == " x";
    assert !target.epub2 ==> (" " + text)[1..] == text && " x"[1..] == "x";
  }

  /** White space does differ: EPUB 2 writes a div around the blank, EPUB 3 unwraps it to the end of the body. */
  lemma BlanksDiffer(target: Target, file: seq<string>)
    requires target.epub2 && target.ValidName("nav") && target.ValidName("p")
    ensures var other := target.(epub2 := false, file := file);
            && TextOf(Body([BLANK_NAV], target)) == " " && TextOf(Body([BLANK_NAV], other)) == ""
            && TextOf(Body([BLANK_NAV, LETTER], target)) == " x" && TextOf(Body([BLANK_NAV, LETTER], other)) == "x"
  {
    var other := target.(epub2 := false, file := file);
    assert other.ValidName("nav") && other.ValidName("p");
    hide Body, TextOf, Target.ValidName;
    BlankNavText(target);
    BlankNavText(other);
    NavAndLetterText(target);
    NavAndLetterText(other);
  }

  /* ---- What is written ---- */

  function EscapeChar(c: char): string {
    if c == '&' then "&amp;"
    else if c == '<' then "&lt;"
    else if c == '>' then "&gt;"
    else if c == '\"' then "&quot;"
    else if c == '\'' then "&#39;"
    else [c]
  }

  /** escapeHTML. */
  function Escape(s: string): string {
    if s == "" then "" else EscapeChar(s[0]) + Escape(s[1..])
  }

  function WrittenAttributes(attrs: seq<Emitted>): string {
    if attrs == [] then "" else " " + attrs[0].name + "=\"" + Escape(attrs[0].value) + "\"" + WrittenAttributes(attrs[1..])
  }

  function Written(t: Token): string {
    match t
    case Start(tag, attrs) => "<" + tag + WrittenAttributes(attrs) + ">"
    case Void(tag, attrs) => "<" + tag + WrittenAttributes(attrs) + " />"
    case End(tag) => "</" + tag + ">"
    case Chars(text) => Escape(text)
  }

  /** The characters of the document. */
  function Markup(tokens: seq<Token>): string {
    if tokens == [] then "" else Written(tokens[0]) + Markup(tokens[1..])
  }

  /** What a reader makes of escaped text. */
  function Unescape(s: string): string {
    if s == "" then ""
    else if "&amp;" <= s then "&" + Unescape(s[5..])
    else if "&lt;" <= s then "<" + Unescape(s[4..])
    else if "&gt;" <= s then ">" + Unescape(s[4..])
    else if "&quot;" <= s then "\"" + Unescape(s[6..])
    else if "&#39;" <= s then "'" + Unescape(s[5..])
    else [s[0]] + Unescape(s[1..])
  }

  lemma ReadsBack(c: char, rest: string)
    ensures Unescape(EscapeChar(c) + rest) == [c] + Unescape(rest)
  {
    var s := EscapeChar(c) + rest;
    assert s[|EscapeChar(c)|..] == rest;
    assert "&amp;"[0] == '&' && "&lt;"[0] == '&' && "&gt;"[0] == '&' && "&quot;"[0] == '&' && "&#39;"[0] == '&';
    assert "&amp;"[1] == 'a' && "&lt;"[1] == 'l' && "&gt;"[1] == 'g' && "&quot;"[1] == 'q' && "&#39;"[1] == '#';
  }

  /** Escaped text has no markup in it and reads back as the text it was. */
  lemma {:induction false} EscapeRoundTrip(s: string)
    ensures Unescape(Escape(s)) == s
    ensures forall i :: 0 <= i < |Escape(s)| ==> Escape(s)[i] !in {'<', '>', '"', '\''}
  {
    if s == "" {
    } else {
      EscapeRoundTrip(s[1..]);
      ReadsBack(s[0], Escape(s[1..]));
      NoMarkup(s[0]);
      hide EscapeChar, Unescape;
      assert s == [s[0]] + s[1..];
    }
  }

  lemma NoMarkup(c: char)
    ensures forall i :: 0 <= i < |EscapeChar(c)| ==> EscapeChar(c)[i] !in {'<', '>', '"', '\''}
  {
  }

  lemma {:induction false} EscapeJoin(a: string, b: string)
    ensures Escape(a + b) == Escape(a) + Escape(b)
  {
    hide EscapeChar;
    if a == "" {
      assert a + b == b;
    } else {
      EscapeJoin(a[1..], b);
      assert (a + b)[1..] == a[1..] + b;
      Concatenates(EscapeChar(a[0]), Escape(a[1..]), Escape(b));
    }
  }

  lemma {:induction false} MarkupJoin(a: seq<Token>, b: seq<Token>)
    ensures Markup(a + b) == Markup(a) + Markup(b)
  {
    hide Written;
    if a == [] {
      assert a + b == b;
    } else {
      MarkupJoin(a[1..], b);
      assert (a + b)[1..] == a[1..] + b;
      Concatenates(Written(a[0]), Markup(a[1..]), Markup(b));
    }
  }

  lemma MarkupOne(t: Token)
    ensures Markup([t]) == Written(t)
  {
    assert [t][1..] == [] && Written(t) + "" == Written(t);
    assert Markup([]) == "";
    hide Written, Markup;
    assert [t][0] == t;
  }

  /** White space is written as it is. */
  lemma {:induction false} EscapeBlank(s: string)
    requires Blank(s)
    ensures Escape(s) == s
  {
    if s == "" {
    } else {
      EscapeBlank(s[1..]);
    }
  }

  lemma EscapedChar(c: char)
    ensures EscapeChar(c) != ""
    ensures !Space(c) ==> !Space(EscapeChar(c)[0]) && !Space(EscapeChar(c)[|EscapeChar(c)| - 1])
  {
  }

  /** Anything else starts and ends as something else. */
  lemma {:induction false} EscapeInk(s: string)
    requires s != ""
    ensures Escape(s) != ""
    ensures !Space(s[0]) ==> !Space(Escape(s)[0])
    ensures !Space(s[|s| - 1]) ==> !Space(Escape(s)[|Escape(s)| - 1])
  {
    EscapedChar(s[0]);
    hide EscapeChar, Space;
    if |s| == 1 {
      assert s[1..] == "" && Escape("") == "";
    } else {
      EscapeInk(s[1..]);
    }
  }

  /* Trimming the tokens is trimming the text they are written as. */

  ghost predicate FrontWrites(tokens: seq<Token>) {
    && Markup(tokens) == Lead(tokens).blanks + Markup(TrimFront(tokens))
    && (TrimFront(tokens) != [] ==> InkFirst(TrimFront(tokens)[0]))
  }

  predicate InkFirst(t: Token) {
    t.Chars? ==> t.text != "" && !Space(t.text[0])
  }

  predicate InkLast(t: Token) {
    t.Chars? ==> t.text != "" && !Space(t.text[|t.text| - 1])
  }

  lemma {:induction false} TrimFrontWrites(tokens: seq<Token>)
    ensures FrontWrites(tokens)
  {
    if tokens == [] {
    } else {
      var first, rest := tokens[0], tokens[1..];
      assert tokens == [first] + rest;
      TrimFrontWrites(rest);
      hide FrontWrites;
      if !first.Chars? {
        TagWritten(first, rest);
      } else if Blank(first.text) {
        BlankWritten(first.text, rest);
      } else {
        TextWritten(first.text, rest);
      }
    }
  }

  lemma TagWritten(first: Token, rest: seq<Token>)
    requires !first.Chars?
    ensures FrontWrites([first] + rest)
  {
    var tokens := [first] + rest;
    hide Markup, Space;
    assert "" + Markup(tokens) == Markup(tokens);
  }

  lemma BlankWritten(s: string, rest: seq<Token>)
    requires Blank(s) && FrontWrites(rest)
    ensures FrontWrites([Chars(s)] + rest)
  {
    var tokens := [Chars(s)] + rest;
    assert tokens[1..] == rest;
    BlankIsLeading(s);
    EscapeBlank(s);
    assert Markup(tokens) == s + Markup(rest);
    assert TrimFront(tokens) == TrimFront(rest);
    assert Lead(tokens) == Edge(s + Lead(rest).blanks, Lead(rest).open);
    hide Markup, Lead, TrimFront, Space, Leading;
    Concatenates(s, Lead(rest).blanks, Markup(TrimFront(rest)));
  }

  lemma TextWritten(s: string, rest: seq<Token>)
    requires !Blank(s)
    ensures FrontWrites([Chars(s)] + rest)
  {
    var tokens, text := [Chars(s)] + rest, Chars(TrimLeft(s));
    assert tokens[1..] == rest;
    LeadingOf(s);
    BlankIsLeading(s);
    EscapeJoin(Leading(s), TrimLeft(s));
    EscapeBlank(Leading(s));
    MarkupJoin([Chars(s)], rest);
    MarkupJoin([text], rest);
    MarkupOne(Chars(s));
    MarkupOne(text);
    hide Markup, Space, Leading, TrimLeft, Blank, Escape;
    Concatenates(Leading(s), Escape(TrimLeft(s)), Markup(rest));
  }

  ghost predicate BackWrites(tokens: seq<Token>) {
    && Markup(tokens) == Markup(TrimBack(tokens)) + Trail(tokens).blanks
    && var rest := TrimBack(tokens);
       rest != [] ==> InkLast(rest[|rest| - 1]) && (InkFirst(tokens[0]) ==> InkFirst(rest[0]))
  }

  lemma {:induction false} TrimBackWrites(tokens: seq<Token>)
    ensures BackWrites(tokens)
  {
    if tokens == [] {
    } else {
      var front, last := tokens[..|tokens| - 1], tokens[|tokens| - 1];
      assert tokens == front + [last];
      TrimBackWrites(front);
      hide BackWrites;
      if !last.Chars? {
        TagWrittenLast(front, last);
      } else if Blank(last.text) {
        BlankWrittenLast(front, last.text);
      } else {
        TextWrittenLast(front, last.text);
      }
    }
  }

  lemma TagWrittenLast(front: seq<Token>, last: Token)
    requires !last.Chars?
    ensures BackWrites(front + [last])
  {
    var tokens := front + [last];
    assert TrimBack(tokens) == tokens;
    hide Markup, Space;
    assert Markup(tokens) + "" == Markup(tokens);
  }

  lemma BlankWrittenLast(front: seq<Token>, s: string)
    requires Blank(s) && BackWrites(front)
    ensures BackWrites(front + [Chars(s)])
  {
    var tokens := front + [Chars(s)];
    assert tokens[..|front|] == front;
    BlankIsTrailing(s);
    EscapeBlank(s);
    MarkupJoin(front, [Chars(s)]);
    MarkupOne(Chars(s));
    assert TrimBack(tokens) == TrimBack(front);
    assert Trail(tokens) == Edge(Trail(front).blanks + s, Trail(front).open);
    assert front == [] ==> TrimBack(front) == [];
    hide Markup, Trail, TrimBack, Space, Trailing, Escape;
    Concatenates(Markup(TrimBack(front)), Trail(front).blanks, s);
  }

  lemma TextWrittenLast(front: seq<Token>, s: string)
    requires !Blank(s)
    ensures BackWrites(front + [Chars(s)])
  {
    var tokens, text := front + [Chars(s)], Chars(TrimRight(s));
    assert tokens[..|front|] == front;
    TrailingOf(s);
    BlankIsTrailing(s);
    EscapeJoin(TrimRight(s), Trailing(s));
    EscapeBlank(Trailing(s));
    MarkupJoin(front, [Chars(s)]);
    MarkupJoin(front, [text]);
    MarkupOne(Chars(s));
    MarkupOne(text);
    assert TrimRight(s)[0] == s[0];
    hide Markup, Space, Trailing, TrimRight, Blank, Escape;
    Concatenates(Markup(front), Escape(TrimRight(s)), Trailing(s));
  }

  lemma TagsAreInk()
    ensures !Space('<') && !Space('>')
  {
  }

  lemma WrittenInk(t: Token)
    ensures InkFirst(t) ==> Written(t) != "" && !Space(Written(t)[0])
    ensures InkLast(t) ==> Written(t) != "" && !Space(Written(t)[|Written(t)| - 1])
  {
    TagsAreInk();
    if t.Chars? && t.text != "" {
      EscapeInk(t.text);
    }
    hide Space, Escape, WrittenAttributes;
  }

  lemma StartsWithInk(tokens: seq<Token>)
    requires tokens != [] && InkFirst(tokens[0])
    ensures Markup(tokens) != "" && !Space(Markup(tokens)[0])
  {
    WrittenInk(tokens[0]);
    assert Markup(tokens) == Written(tokens[0]) + Markup(tokens[1..]);
    hide Space, Written, Markup, InkFirst, InkLast;
  }

  lemma EndsWithInk(tokens: seq<Token>)
    requires tokens != [] && InkLast(tokens[|tokens| - 1])
    ensures Markup(tokens) != "" && !Space(Markup(tokens)[|Markup(tokens)| - 1])
  {
    hide Space, Written, Markup, InkFirst, InkLast;
    var front, last := tokens[..|tokens| - 1], tokens[|tokens| - 1];
    assert tokens == front + [last];
    MarkupJoin(front, [last]);
    MarkupOne(last);
    WrittenInk(last);
  }

  lemma InkIsTight(tokens: seq<Token>)
    requires tokens != [] && InkFirst(tokens[0]) && InkLast(tokens[|tokens| - 1])
    ensures Tight(Markup(tokens)) && Markup(tokens) != ""
  {
    StartsWithInk(tokens);
    EndsWithInk(tokens);
    hide Space, Markup, InkFirst, InkLast;
  }

  /** The body is strings.TrimSpace of what rendering writes, or an empty paragraph when nothing is left. */
  lemma BodyIsWritten(nodes: seq<Node>, target: Target)
    ensures var text := Trim(Markup(Rendered(nodes, target)));
            Markup(Body(nodes, target)) == if text == "" then "<p></p>" else text
  {
    var tokens := Rendered(nodes, target);
    hide Rendered;
    TrimIsTrimmed(tokens);
    EmptyParagraphWritten();
    hide Trimmed, Markup, Trim;
  }

  lemma TrimIsTrimmed(tokens: seq<Token>)
    ensures Markup(Trimmed(tokens)) == Trim(Markup(tokens))
    ensures Trimmed(tokens) == [] <==> Markup(Trimmed(tokens)) == ""
  {
    var front := TrimFront(tokens);
    TrimFrontText(tokens);
    TrimBackText(front);
    TrimFrontWrites(tokens);
    TrimBackWrites(front);
    assert Markup([]) == "";
    assert front == [] ==> TrimBack(front) == [];
    hide TrimFront, TrimBack, Markup, Lead, Trail, TextOf, Space, Blank, Trim, InkFirst, InkLast;
    if Trimmed(tokens) != [] {
      InkIsTight(Trimmed(tokens));
    } else {
      NothingIsBlank();
    }
    hide Tight;
    Concatenates(Lead(tokens).blanks, Markup(Trimmed(tokens)), Trail(front).blanks);
    TrimStrips(Lead(tokens).blanks, Markup(Trimmed(tokens)), Trail(front).blanks);
  }

  lemma EmptyParagraphWritten()
    ensures Markup([Start("p", []), End("p")]) == "<p></p>"
  {
    assert [Start("p", []), End("p")][1..] == [End("p")] && [End("p")][1..] == [];
    assert Written(Start("p", [])) == "<p>" && Written(End("p")) == "</p>";
  }
}
