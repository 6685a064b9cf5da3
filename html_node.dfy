/** The HTML node model: leaf nodes (an optional tag around a text value)
    and parent nodes (a tag around an ordered, non-empty list of children),
    each of which serialises itself to an HTML string. */
module HtmlNode {
  import opened Wrappers

  /** One attribute, `name="value"`. An attribute mapping is a sequence of
      them in insertion order; an absent mapping is the empty sequence. */
  type Attr = (string, string)

  /** The four `ValueError`s the node classes raise. */
  datatype NodeError =
    | AddValue       // leaf without a value, at construction or render time
    | NoTag          // parent without a tag, at construction or render time
    | NeedsChild     // parent constructed without children
    | NeedsChildren  // parent rendered without children
  {
    function Message(): string {
      match this
      case AddValue => "add value"
      case NoTag => "no tag received"
      case NeedsChild => "parent needs at least one child"
      case NeedsChildren => "parent node needs children"
    }
  }

  /** A node as it stands when `to_html` is called. The optional fields let
      the model express objects whose fields were changed after
      construction, which is what the render-time checks guard against. */
  datatype Node =
    | Leaf(tag: Option<string>, value: Option<string>, props: seq<Attr>)
    | Parent(tag: Option<string>, children: seq<Node>, props: seq<Attr>)

  /** The invariant that construction establishes, holding all the way down. */
  predicate Valid(n: Node) {
    match n
    case Leaf(_, value, _) => value.Some?
    case Parent(tag, children, _) =>
      tag.Some? && tag.value != "" && children != [] &&
      forall c <- children :: Valid(c)
  }

  // ---------------------------------------------------------------------
  // Attribute serialisation

  /** ` name="value"` for each attribute, in order. */
  function PropsToHtml(props: seq<Attr>): (r: string)
    ensures r == "" <==> props == []
    ensures props != [] ==> r[0] == ' '
  {
    if props == [] then ""
    else " " + props[0].0 + "=\"" + props[0].1 + "\"" + PropsToHtml(props[1..])
  }

  /** Attribute lists serialise piecewise: the output for `a + b` is the
      output for `a` followed by the output for `b`. */
  lemma {:induction false} PropsToHtmlAppend(a: seq<Attr>, b: seq<Attr>)
    ensures PropsToHtml(a + b) == PropsToHtml(a) + PropsToHtml(b)
    decreases |a|
  {
    if a != [] {
      assert (a + b)[1..] == a[1..] + b;
      PropsToHtmlAppend(a[1..], b);
    } else {
      assert a + b == b;
    }
  }

  /** A single attribute is written as one space, its name, `=` and its
      value in double quotes. */
  lemma PropsToHtmlSingle(name: string, value: string)
    ensures PropsToHtml([(name, value)]) == " " + name + "=\"" + value + "\""
  {
    assert [(name, value)][1..] == [];
  }

  function OpenTag(tag: string, props: seq<Attr>): string {
    "<" + tag + PropsToHtml(props) + ">"
  }

  function CloseTag(tag: string): string {
    "</" + tag + ">"
  }

  // ---------------------------------------------------------------------
  // Construction

  /** `LeafNode(tag, value, props)`: fails with "add value" when the value
      is `None`; the empty string is accepted. That a leaf has no children
      needs no clause: the `Leaf` constructor has no child field. */
  function NewLeaf(tag: Option<string>, value: Option<string>, props: seq<Attr>): (r: Result<Node, NodeError>)
    ensures r.Err? <==> value.None?
    ensures r.Err? ==> r.error == AddValue
    ensures r.Ok? ==> r.value.Leaf? && r.value.tag == tag && r.value.value == value && r.value.props == props
    ensures r.Ok? ==> Valid(r.value)
  {
    if value.None? then Err(AddValue) else Ok(Leaf(tag, value, props))
  }

  /** `ParentNode(tag, children, props)`: the tag is checked first (absent or
      empty fails with "no tag received"), then the children (absent or
      empty fails with "parent needs at least one child"). */
  function NewParent(tag: Option<string>, children: Option<seq<Node>>, props: seq<Attr>): (r: Result<Node, NodeError>)
    ensures r.Err? <==> tag.None? || tag.value == "" || children.None? || children.value == []
    ensures (tag.None? || tag.value == "") ==> r == Err(NoTag)
    ensures tag.Some? && tag.value != "" && (children.None? || children.value == []) ==> r == Err(NeedsChild)
    ensures r.Ok? ==> r.value == Parent(tag, children.value, props)
    ensures r.Ok? ==> (Valid(r.value) <==> forall c <- children.value :: Valid(c))
  {
    if tag.None? || tag.value == "" then Err(NoTag)
    else if children.None? || children.value == [] then Err(NeedsChild)
    else Ok(Parent(tag, children.value, props))
  }

  // ---------------------------------------------------------------------
  // Rendering

  /** `to_html`, as a function. A valid node always renders. */
  function ToHtml(n: Node): (r: Result<string, NodeError>)
    ensures Valid(n) ==> r.Ok?
    decreases n, 1
  {
    match n
    case Leaf(tag, value, props) =>
      if value.None? then Err(AddValue)
      else if tag.None? then Ok(value.value)
      else Ok(OpenTag(tag.value, props) + value.value + CloseTag(tag.value))
    case Parent(tag, children, props) =>
      if tag.None? then Err(NoTag)
      else if children == [] then Err(NeedsChildren)
      else
        match ChildrenHtml(children)
        case Err(e) => Err(e)
        case Ok(inner) => Ok(OpenTag(tag.value, props) + inner + CloseTag(tag.value))
  }

  /** The children's HTML concatenated in order; the first child that fails
      decides the error. */
  function ChildrenHtml(cs: seq<Node>): (r: Result<string, NodeError>)
    ensures (forall c <- cs :: Valid(c)) ==> r.Ok?
    decreases cs, 0
  {
    if cs == [] then Ok("")
    else
      match ChildrenHtml(cs[..|cs| - 1])
      case Err(e) => Err(e)
      case Ok(prefix) =>
        match ToHtml(cs[|cs| - 1])
        case Err(e) => Err(e)
        case Ok(last) => Ok(prefix + last)
  }

  /** Concatenation of a list of strings, in order. */
  function Flatten(hs: seq<string>): string {
    if hs == [] then "" else Flatten(hs[..|hs| - 1]) + hs[|hs| - 1]
  }

  /** When every child renders, the parent's inner HTML is the
      concatenation of the children's HTML in list order. */
  lemma {:induction false} ChildrenHtmlConcat(cs: seq<Node>, hs: seq<string>)
    requires |hs| == |cs|
    requires forall i :: 0 <= i < |cs| ==> ToHtml(cs[i]) == Ok(hs[i])
    ensures ChildrenHtml(cs) == Ok(Flatten(hs))
    decreases |cs|
  {
    if cs != [] {
      var n := |cs| - 1;
      ChildrenHtmlConcat(cs[..n], hs[..n]);
    }
  }

  /** The children's HTML fails exactly when some child fails, and then
      with the error of the first child that fails. */
  lemma {:induction false} ChildrenHtmlFirstError(cs: seq<Node>, k: nat)
    requires k < |cs| && ToHtml(cs[k]).Err?
    requires forall j :: 0 <= j < k ==> ToHtml(cs[j]).Ok?
    ensures ChildrenHtml(cs) == Err(ToHtml(cs[k]).error)
    decreases |cs|
  {
    var n := |cs| - 1;
    if k < n {
      ChildrenHtmlFirstError(cs[..n], k);
    } else {
      ChildrenHtmlAllOk(cs[..n]);
    }
  }

  /** The children's HTML succeeds exactly when every child renders. */
  lemma {:induction false} ChildrenHtmlAllOk(cs: seq<Node>)
    ensures ChildrenHtml(cs).Ok? <==> forall i :: 0 <= i < |cs| ==> ToHtml(cs[i]).Ok?
    decreases |cs|
  {
    if cs != [] {
      var n := |cs| - 1;
      ChildrenHtmlAllOk(cs[..n]);
      assert forall i :: 0 <= i < n ==> cs[..n][i] == cs[i];
    }
  }

  /** A prefix whose rendering fails makes the whole child list fail with
      the same error: rendering stops at the first failing child. */
  lemma {:induction false} ChildrenHtmlPrefixErr(cs: seq<Node>, k: nat)
    requires k <= |cs| && ChildrenHtml(cs[..k]).Err?
    ensures ChildrenHtml(cs) == ChildrenHtml(cs[..k])
    decreases |cs| - k
  {
    if k < |cs| {
      assert cs[..k + 1][..k] == cs[..k];
      ChildrenHtmlPrefixErr(cs, k + 1);
    } else {
      assert cs[..k] == cs;
    }
  }

  /** A tagged parent with at least one child renders as its opening tag,
      the children's HTML in order, and its closing tag; it fails only when
      one of its children fails. */
  lemma ParentHtml(tag: string, cs: seq<Node>, props: seq<Attr>, hs: seq<string>)
    requires cs != [] && |hs| == |cs|
    requires forall i :: 0 <= i < |cs| ==> ToHtml(cs[i]) == Ok(hs[i])
    ensures ToHtml(Parent(Some(tag), cs, props)) == Ok(OpenTag(tag, props) + Flatten(hs) + CloseTag(tag))
  {
    ChildrenHtmlConcat(cs, hs);
  }

  /** Given a tag and children, rendering fails exactly when a child fails. */
  lemma ParentFailsOnlyThroughChildren(tag: string, cs: seq<Node>, props: seq<Attr>)
    requires cs != []
    ensures ToHtml(Parent(Some(tag), cs, props)).Err? <==> exists i :: 0 <= i < |cs| && ToHtml(cs[i]).Err?
  {
    ChildrenHtmlAllOk(cs);
  }

  /** A parent nested in a parent renders entirely inside the outer tags. */
  lemma NestedParentHtml(outer: string, inner: string, cs: seq<Node>, p: seq<Attr>, q: seq<Attr>, body: string)
    requires cs != [] && ChildrenHtml(cs) == Ok(body)
    ensures ToHtml(Parent(Some(outer), [Parent(Some(inner), cs, q)], p))
         == Ok(OpenTag(outer, p) + OpenTag(inner, q) + body + CloseTag(inner) + CloseTag(outer))
  {
    var child := Parent(Some(inner), cs, q);
    assert ToHtml(child) == Ok(OpenTag(inner, q) + body + CloseTag(inner));
    var h := OpenTag(inner, q) + body + CloseTag(inner);
    ChildrenHtmlConcat([child], [h]);
    assert [h][..0] == [];
    assert Flatten([h]) == h;
    assert ToHtml(Parent(Some(outer), [child], p)) == Ok(OpenTag(outer, p) + h + CloseTag(outer));
    assert OpenTag(outer, p) + h + CloseTag(outer)
        == OpenTag(outer, p) + OpenTag(inner, q) + body + CloseTag(inner) + CloseTag(outer);
  }

  /** A leaf renders its value verbatim when it has no tag, and wrapped in
      its tag (with attributes) otherwise; it fails only without a value. */
  lemma LeafHtml(tag: Option<string>, value: Option<string>, props: seq<Attr>)
    ensures ToHtml(Leaf(tag, value, props)).Err? <==> value.None?
    ensures value.Some? && tag.None? ==> ToHtml(Leaf(tag, value, props)) == Ok(value.value)
    ensures value.Some? && tag.Some? ==>
      ToHtml(Leaf(tag, value, props)) == Ok("<" + tag.value + PropsToHtml(props) + ">" + value.value + "</" + tag.value + ">")
  {
    if value.Some? && tag.Some? {
      var t, v := tag.value, value.value;
      assert OpenTag(t, props) + v + CloseTag(t) == "<" + t + PropsToHtml(props) + ">" + v + "</" + t + ">";
    }
  }

  /** `to_html` of both node classes: a leaf renders directly, and a parent
      accumulates its children's HTML in a loop, each child rendered by a
      recursive call. */
  method Render(n: Node) returns (r: Result<string, NodeError>)
    ensures r == ToHtml(n)
    decreases n
  {
    match n {
      case Leaf(tag, value, props) =>
        if value.None? { return Err(AddValue); }
        if tag.None? { return Ok(value.value); }
        return Ok(OpenTag(tag.value, props) + value.value + CloseTag(tag.value));
      case Parent(tag, children, props) =>
        if tag.None? { return Err(NoTag); }
        if children == [] { return Err(NeedsChildren); }
        var childrenHtml := "";
        for i := 0 to |children|
          invariant ChildrenHtml(children[..i]) == Ok(childrenHtml)
        {
          var h := Render(children[i]);
          assert children[..i + 1][..i] == children[..i];
          if h.Err? {
            ChildrenHtmlPrefixErr(children, i + 1);
            return Err(h.error);
          }
          childrenHtml := childrenHtml + h.value;
        }
        assert children[..|children|] == children;
        return Ok(OpenTag(tag.value, props) + childrenHtml + CloseTag(tag.value));
    }
  }

  // ---------------------------------------------------------------------
  // The documented renderings of the unit tests, written piece by piece

  /** A tagged leaf without attributes. */
  lemma LeafTaggedExample()
    ensures ToHtml(Leaf(Some("p"), Some("This is a paragraph."), [])) == Ok("<p>" + "This is a paragraph." + "</p>")
  {
    assert OpenTag("p", []) == "<p>" && CloseTag("p") == "</p>";
  }

  /** An untagged leaf is its raw text. */
  lemma LeafRawTextExample()
    ensures ToHtml(Leaf(None, Some("Just raw text"), [])) == Ok("Just raw text")
  {
  }

  /** An empty value inside an attributed tag. */
  lemma LeafEmptyValueExample()
    ensures ToHtml(Leaf(Some("img"), Some(""), [("src", "image.png")])) == Ok("<img src=\"image.png\"></img>")
  {
    PropsToHtmlSingle("src", "image.png");
    LeafHtml(Some("img"), Some(""), [("src", "image.png")]);
    assert " " + "src" + "=\"" + "image.png" + "\"" == " src=\"image.png\"";
    assert "<" + "img" + " src=\"image.png\"" == "<img src=\"image.png\"";
    assert "<img src=\"image.png\"" + ">" + "" + "</" + "img" + ">" == "<img src=\"image.png\"></img>";
  }

  /** A parent whose tag was cleared, or whose children were removed, after
      construction fails at render time with the render-time messages,
      whatever its tag; so does a leaf whose value was cleared, whatever
      its tag. */
  lemma RenderTimeChecks(cs: seq<Node>, props: seq<Attr>, tag: string, ltag: Option<string>)
    ensures ToHtml(Parent(None, cs, props)) == Err(NoTag)
    ensures ToHtml(Parent(Some(tag), [], props)) == Err(NeedsChildren)
    ensures ToHtml(Leaf(ltag, None, props)) == Err(AddValue)
  {
  }
}
