/** The regular-expression generation of the utilities (src/utils.js):
    attributes under the fixed names `id`, `plural` and `fields`, and a
    markup-text exemption decided by one name pattern. */
module SrcUtils {
  import opened Base
  import opened Jsx
  import opened AttributeNodes
  import opened TextCheck

  /** The attribute names this generation reads. */
  const FixedNames := AttributeNames("id", "plural", "fields")

  /** `getI18nAttributeNodes(node)` on a JSX element. */
  function GetI18nAttributeNodes(el: Node): (r: Js<Captured>)
    requires el.Element?
    ensures r.Thrown? <==> BareNamed(el.attributes, "id")
    ensures r.Ok? ==> (r.value.idNode.IdUndefined? <==> NoneNamed(el.attributes, "id"))
    ensures forall i :: r.Ok? && LastNamed(el.attributes, i, "id") && el.attributes[i].value.Some? ==>
              r.value.idNode == IdOf(el.attributes[i].value.value)
    ensures forall i :: r.Ok? && LastNamed(el.attributes, i, "plural") ==>
              r.value.pluralNode == Given(el.attributes[i].value)
    ensures forall i :: r.Ok? && LastNamed(el.attributes, i, "fields") ==>
              r.value.fieldsNode == Given(el.attributes[i].value)
    ensures r.Ok? ==> (r.value.pluralNode.Unset? <==> NoneNamed(el.attributes, "plural"))
    ensures r.Ok? ==> (r.value.fieldsNode.Unset? <==> NoneNamed(el.attributes, "fields"))
    ensures r.Ok? ==> r.value.pluralNode == LastSlot(el.attributes, "plural")
    ensures r.Ok? ==> r.value.fieldsNode == LastSlot(el.attributes, "fields")
  {
    ScanThrows(el.attributes, FixedNames);
    ScanId(el.attributes, FixedNames);
    ScanPlural(el.attributes, FixedNames);
    ScanFields(el.attributes, FixedNames);
    Scan(el.attributes, FixedNames)
  }

  /** The gate of the rules of this generation: the element's name passes
      the text or the markup-text pattern. */
  predicate Gated(el: Node, textRE: Regex, markupRE: Regex)
    requires el.Element?
  {
    textRE(NameText(el.tag)) || markupRE(NameText(el.tag))
  }

  /** A JSX element whose name the markup pattern matches. */
  predicate IsMarkupElement(markup: Regex, n: Node) {
    n.Element? && markup(NameText(n.tag))
  }

  /** `isDisallowedTextNode({ node, parent, ignoreTextRE, markupNodeNameRE })`,
      with `parents` the chain `parent`, `parent.parent`, ... */
  function IsDisallowedTextNode(node: Node, parents: seq<Node>, ignore: Option<Regex>,
                                markup: Option<Regex>): (r: Option<string>)
    ensures r.Some? ==> r == CandidateText(node, ignore)
    ensures r.Some? <==> CandidateText(node, ignore).Some?
                         && (markup.None? || forall j :: 0 <= j < |parents| ==> !IsMarkupElement(markup.value, parents[j]))
  {
    Disallowed(node, parents, ignore,
               if markup.None? then None else Some((n: Node) => IsMarkupElement(markup.value, n)))
  }

  /** Text inside an element whose name is in the markup pattern is exempt,
      however deep the element sits in the chain. */
  lemma MarkupAncestorExempts(node: Node, parents: seq<Node>, ignore: Option<Regex>, markup: Regex, j: nat)
    requires j < |parents| && IsMarkupElement(markup, parents[j])
    ensures IsDisallowedTextNode(node, parents, ignore, Some(markup)).None?
  {
  }

  /** The attributes of `<Text id="greeting" plural={n} fields={f}/>`. */
  lemma AttributeExample(n: Node, f: Node)
    ensures GetI18nAttributeNodes(Element(Some("Text"),
              [JsxAttribute("id", Some(Literal(LStr("greeting")))),
               JsxAttribute("plural", Some(ExpressionContainer(n))),
               JsxAttribute("fields", Some(ExpressionContainer(f)))], []))
            == Ok(Captured(IdLiteral(LStr("greeting")), Given(Some(ExpressionContainer(n))),
                           Given(Some(ExpressionContainer(f)))))
  {
    var attrs := [JsxAttribute("id", Some(Literal(LStr("greeting")))),
                  JsxAttribute("plural", Some(ExpressionContainer(n))),
                  JsxAttribute("fields", Some(ExpressionContainer(f)))];
    var c1 := Captured(IdLiteral(LStr("greeting")), Unset, Unset);
    var c2 := c1.(pluralNode := Given(Some(ExpressionContainer(n))));
    assert attrs[..1][..0] == [];
    assert Scan(attrs[..1], FixedNames) == Ok(c1);
    assert attrs[..2][..1] == attrs[..1];
    assert Scan(attrs[..2], FixedNames) == Ok(c2);
    assert attrs[..2] == attrs[..|attrs| - 1];
  }

  /** An id given by an expression that is not a literal makes `idNode`
      false, so the element has no key to check. */
  lemma NonLiteralIdIsFalse(el: Node, i: nat)
    requires el.Element? && LastNamed(el.attributes, i, "id")
    requires el.attributes[i].value.Some? && !Unwrap(el.attributes[i].value.value).Literal?
    ensures GetI18nAttributeNodes(el).Ok? ==> GetI18nAttributeNodes(el).value.idNode == IdFalse
  {
  }
}
