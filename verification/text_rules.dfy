/** The no-text-as-children rule (src/rules/no-text-as-children.js,
    transpiled as lib/rules/no-text-as-children.js): every child of an
    element that is not itself a text component is offered to
    `isDisallowedTextNode`, with the element as the first link of the
    ancestor chain. */
module TextAsChildren {
  import opened Base
  import opened Strings
  import opened Jsx
  import opened TextCheck
  import opened SrcUtils

  function Message(text: string): string {
    "Untranslated text '" + text + "'"
  }

  /** The texts reported for the children, in order, under the ancestor
      chain `chain`. */
  function CheckChildren(children: seq<Node>, chain: seq<Node>, ignore: Option<Regex>, markup: Regex): seq<string>
    decreases |children|
  {
    if |children| == 0 then []
    else
      var head := IsDisallowedTextNode(children[0], chain, ignore, Some(markup));
      (if head.Some? then [head.value] else []) + CheckChildren(children[1..], chain, ignore, markup)
  }

  /** The reference: the texts the children offer, in order, with no
      ancestor looked at. */
  function Texts(children: seq<Node>, ignore: Option<Regex>): seq<string>
    decreases |children|
  {
    if |children| == 0 then []
    else
      var head := CandidateText(children[0], ignore);
      (if head.Some? then [head.value] else []) + Texts(children[1..], ignore)
  }

  /** Under a chain with a markup-text element every child is exempt;
      under any other chain the children's own texts are reported. */
  lemma {:induction false} ChildrenAgainstTexts(children: seq<Node>, chain: seq<Node>, ignore: Option<Regex>, markup: Regex)
    ensures (exists j :: 0 <= j < |chain| && IsMarkupElement(markup, chain[j])) ==>
              CheckChildren(children, chain, ignore, markup) == []
    ensures (forall j :: 0 <= j < |chain| ==> !IsMarkupElement(markup, chain[j])) ==>
              CheckChildren(children, chain, ignore, markup) == Texts(children, ignore)
    decreases |children|
  {
    if |children| > 0 {
      ChildrenAgainstTexts(children[1..], chain, ignore, markup);
    }
  }

  /** Each reported text is a child's non-empty, cleaned, not-ignored text. */
  lemma {:induction false} TextsFromChildren(children: seq<Node>, ignore: Option<Regex>)
    ensures |Texts(children, ignore)| <= |children|
    ensures forall t :: t in Texts(children, ignore) ==>
              exists i :: 0 <= i < |children| && CandidateText(children[i], ignore) == Some(t)
    ensures forall t :: t in Texts(children, ignore) ==> t != [] && !(ignore.Some? && ignore.value(t))
    decreases |children|
  {
    if |children| > 0 {
      TextsFromChildren(children[1..], ignore);
      assert forall i :: 1 <= i < |children| ==> children[i] == children[1..][i - 1];
    }
  }

  lemma AppendAssociative<T>(x: seq<T>, y: seq<T>, z: seq<T>)
    ensures x + (y + z) == (x + y) + z
  {
  }

  /** Children are checked independently: the texts of a concatenation are
      the texts of its parts. */
  lemma {:induction false} TextsAppend(a: seq<Node>, b: seq<Node>, ignore: Option<Regex>)
    ensures Texts(a + b, ignore) == Texts(a, ignore) + Texts(b, ignore)
    decreases |a|
  {
    if |a| == 0 {
      assert a + b == b;
    } else {
      assert (a + b)[1..] == a[1..] + b;
      TextsAppend(a[1..], b, ignore);
      var head := CandidateText(a[0], ignore);
      var h := if head.Some? then [head.value] else [];
      assert Texts(a + b, ignore) == h + Texts(a[1..] + b, ignore);
      assert Texts(a, ignore) == h + Texts(a[1..], ignore);
      AppendAssociative(h, Texts(a[1..], ignore), Texts(b, ignore));
    }
  }

  /** Children that are blank, or not string literals, offer no text. */
  lemma {:induction false} QuietChildren(children: seq<Node>, ignore: Option<Regex>)
    requires forall i :: 0 <= i < |children| ==>
               !(Unwrap(children[i]).Literal? && Unwrap(children[i]).value.LStr?)
               || AllTrimmable(Unwrap(children[i]).value.s)
    ensures Texts(children, ignore) == []
    decreases |children|
  {
    if |children| > 0 {
      QuietChildren(children[1..], ignore);
      var u := Unwrap(children[0]);
      if u.Literal? && u.value.LStr? {
        BlankTextIsNoText(u.value.s, ignore);
        assert CandidateText(children[0], ignore) == CandidateText(Literal(LStr(u.value.s)), ignore);
      }
    }
  }

  /** The chain that starts at an element holds a markup-text element
      exactly when the element is one or one of its ancestors is. */
  lemma ChainHasMarkup(el: Node, ancestors: seq<Node>, markup: Regex)
    ensures (exists k :: 0 <= k < |[el] + ancestors| && IsMarkupElement(markup, ([el] + ancestors)[k]))
            <==> IsMarkupElement(markup, el) || exists j :: 0 <= j < |ancestors| && IsMarkupElement(markup, ancestors[j])
  {
    var chain := [el] + ancestors;
    assert chain[0] == el;
    forall j | 0 <= j < |ancestors| && IsMarkupElement(markup, ancestors[j])
      ensures exists k :: 0 <= k < |chain| && IsMarkupElement(markup, chain[k])
    {
      assert chain[j + 1] == ancestors[j];
    }
    forall k | 0 < k < |chain| && IsMarkupElement(markup, chain[k])
      ensures exists j :: 0 <= j < |ancestors| && IsMarkupElement(markup, ancestors[j])
    {
      assert chain[k] == ancestors[k - 1];
    }
  }

  /** The `JSXElement` handler: an element the text pattern names is left
      alone; otherwise each child is checked under the chain that starts at
      the element itself and goes on with its ancestors. So nothing is
      reported in a markup-text element or anywhere below one, and outside
      text and markup-text elements exactly the children's own texts are
      reported, in order. */
  function CheckElement(el: Node, ancestors: seq<Node>, textRE: Regex, markupRE: Regex, ignore: Option<Regex>)
    : (r: seq<string>)
    requires el.Element?
    ensures textRE(NameText(el.tag)) ==> r == []
    ensures markupRE(NameText(el.tag)) ==> r == []
    ensures forall j :: 0 <= j < |ancestors| && IsMarkupElement(markupRE, ancestors[j]) ==> r == []
    ensures (!textRE(NameText(el.tag)) && !markupRE(NameText(el.tag))
             && forall j :: 0 <= j < |ancestors| ==> !IsMarkupElement(markupRE, ancestors[j]))
            ==> r == Texts(el.children, ignore)
  {
    ChainHasMarkup(el, ancestors, markupRE);
    ChildrenAgainstTexts(el.children, [el] + ancestors, ignore, markupRE);
    if textRE(NameText(el.tag)) then [] else CheckChildren(el.children, [el] + ancestors, ignore, markupRE)
  }

  /** A lone child with text under a top-level element that is neither a
      text nor a markup-text component is reported. */
  lemma LoneChild(tag: string, child: Node, t: string, textRE: Regex, markupRE: Regex, ignore: Option<Regex>)
    requires CandidateText(child, ignore) == Some(t) && !textRE(tag) && !markupRE(tag)
    ensures CheckElement(Element(Some(tag), [], [child]), [], textRE, markupRE, ignore) == [t]
  {
    var el := Element(Some(tag), [], [child]);
    assert NameText(el.tag) == tag;
    assert [child][1..] == [];
    assert Texts(el.children, ignore) == [t];
  }

  /** `<div>  some stuff \n\r  </div>` reports `some stuff` once. */
  lemma DivExample(s: string, textRE: Regex, markupRE: Regex)
    requires s == "  some stuff \n\r  " && !textRE("div") && !markupRE("div")
    ensures CheckElement(Element(Some("div"), [], [Literal(LStr(s))]), [], textRE, markupRE, None) == ["some stuff"]
  {
    CandidateExamples(s);
    LoneChild("div", Literal(LStr(s)), "some stuff", textRE, markupRE, None);
  }
}

/** The no-text-as-attribute rule (src/rules/no-text-as-attribute.js,
    transpiled as lib/rules/no-text-as-attribute.js): the value of an
    attribute whose name is on the checklist is offered to
    `isDisallowedTextNode`, without any markup exemption. */
module TextAsAttribute {
  import opened Base
  import opened Jsx
  import opened TextCheck
  import opened SrcUtils

  /** The checklist used when none is configured. */
  const DefaultAttributes: seq<string> := ["alt", "aria-label", "placeholder", "title"]

  /** The rule options: a checklist that replaces the default, and an
      ignore pattern. */
  datatype Options = Options(attributes: Option<seq<string>>, ignore: Option<Regex>)

  /** A report: the checklist entry and the offending text. */
  datatype Report = Report(attribute: string, text: string)

  function Message(r: Report): string {
    "Untranslated JSX attribute " + r.attribute + " with \"" + r.text + "\""
  }

  function Checklist(opts: Options): (r: seq<string>)
    ensures opts.attributes.None? ==> r == DefaultAttributes
    ensures opts.attributes.Some? ==> r == opts.attributes.value
  {
    if opts.attributes.Some? then opts.attributes.value else DefaultAttributes
  }

  /** The `JSXAttribute` handler for an attribute called `name` with value
      `value` (`None` for a bare attribute): the loop stops at the first
      checklist entry equal to the name, and `isDisallowedTextNode` on a
      bare value throws on `node.type`. */
  method CheckAttribute(name: string, value: Option<Node>, opts: Options) returns (r: Js<Option<Report>>)
    ensures name !in Checklist(opts) ==> r == Ok(None)
    ensures name in Checklist(opts) && value.None? ==> r == Thrown
    ensures name in Checklist(opts) && value.Some? ==>
              r == Ok(match CandidateText(value.value, opts.ignore)
                      case None => None
                      case Some(t) => Some(Report(name, t)))
  {
    var attributes := Checklist(opts);
    var i := 0;
    while i < |attributes|
      invariant 0 <= i <= |attributes|
      invariant forall j :: 0 <= j < i ==> attributes[j] != name
    {
      var attribute := attributes[i];
      if attribute == name {
        if value.None? {
          return Thrown;
        }
        var text := IsDisallowedTextNode(value.value, [], opts.ignore, None);
        if text.Some? {
          return Ok(Some(Report(attribute, text.value)));
        }
        return Ok(None);
      }
      i := i + 1;
    }
    return Ok(None);
  }

  /** With the default options, `title="foo"` is reported and an
      expression value is not. */
  method DefaultChecklistExample(foo: string) returns (a: Js<Option<Report>>, b: Js<Option<Report>>)
    requires foo == "foo"
    ensures a == Ok(Some(Report("title", "foo")))
    ensures b == Ok(None)
  {
    var opts := Options(None, None);
    assert "title" == DefaultAttributes[3];
    assert foo[0] == 'f' && foo[|foo| - 1] == 'o';
    WordIsText(foo);
    a := CheckAttribute("title", Some(Literal(LStr(foo))), opts);
    b := CheckAttribute("title", Some(ExpressionContainer(OtherNode("MemberExpression"))), opts);
  }
}
