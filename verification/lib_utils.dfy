/** The component-list generation of the utilities (lib/utils.js): an
    element is classified by the first pattern of an ordered list whose
    name pattern matches, and the pattern says under which attribute names
    its id, plural count and fields are found. */
module LibUtils {
  import opened Base
  import opened Jsx
  import opened AttributeNodes
  import opened TextCheck

  /** One configured component: a name pattern and optional attribute
      names, the empty string standing for a name not given. */
  datatype Pattern = Pattern(nameRegex: Regex, id: string, plural: string, fields: string)

  /** What `getI18NComponent` returns for a classified element. */
  datatype Component = Component(name: string, id: string, plural: string, fields: string)

  /** The default attribute names (lib/constants.js is not part of this
      model; the names are the ones the utility tests rely on). */
  const DefaultIdAttr := "id"
  const DefaultPluralAttr := "plural"
  const DefaultFieldsAttr := "fields"

  /** `given || fallback` on a configured attribute name. */
  function OrDefault(given: string, fallback: string): (r: string)
    ensures given == "" ==> r == fallback
    ensures given != "" ==> r == given
    ensures r != ""  <== fallback != ""
  {
    if given == "" then fallback else given
  }

  /** Whether the pattern matches the element name (`nodeName.match`). */
  predicate Matches(p: Pattern, name: string) {
    p.nameRegex(name)
  }

  /** `components.find(...)` from index i on: the first matching index. */
  function FindFrom(comps: seq<Pattern>, name: string, i: nat): (r: Option<nat>)
    requires i <= |comps|
    ensures r.Some? ==> i <= r.value < |comps| && Matches(comps[r.value], name)
                        && forall j :: i <= j < r.value ==> !Matches(comps[j], name)
    ensures r.None? ==> forall j :: i <= j < |comps| ==> !Matches(comps[j], name)
    decreases |comps| - i
  {
    if i == |comps| then None
    else if Matches(comps[i], name) then Some(i)
    else FindFrom(comps, name, i + 1)
  }

  /** `getI18NComponent({ node, components })` on an element named `name`
      (`None` when the name is not a plain identifier). */
  function GetI18NComponent(name: Option<string>, comps: seq<Pattern>): (r: Option<Component>)
    ensures (name.None? || name == Some("")) ==> r.None?
    ensures name.Some? && name.value != "" ==>
              (r.Some? <==> exists i :: 0 <= i < |comps| && Matches(comps[i], name.value))
    ensures r.Some? ==> r.value.name == name.value
    ensures r.Some? ==> r.value.id != "" && r.value.plural != "" && r.value.fields != ""
    ensures r.Some? ==>
              exists i :: 0 <= i < |comps| && Matches(comps[i], name.value)
                          && (forall j :: 0 <= j < i ==> !Matches(comps[j], name.value))
                          && r.value.id == OrDefault(comps[i].id, DefaultIdAttr)
                          && r.value.plural == OrDefault(comps[i].plural, DefaultPluralAttr)
                          && r.value.fields == OrDefault(comps[i].fields, DefaultFieldsAttr)
  {
    if name.None? || name.value == "" then None
    else
      match FindFrom(comps, name.value, 0)
      case None => None
      case Some(i) =>
        Some(Component(name.value, OrDefault(comps[i].id, DefaultIdAttr),
                       OrDefault(comps[i].plural, DefaultPluralAttr),
                       OrDefault(comps[i].fields, DefaultFieldsAttr)))
  }

  /** Some pattern of the list matches `name`. */
  predicate AnyMatch(comps: seq<Pattern>, name: string) {
    exists i :: 0 <= i < |comps| && Matches(comps[i], name)
  }

  /** `i` is the first index of the list whose pattern matches `name`. */
  predicate FirstMatch(comps: seq<Pattern>, name: string, i: int) {
    0 <= i < |comps| && Matches(comps[i], name) && forall j :: 0 <= j < i ==> !Matches(comps[j], name)
  }

  /** The component pattern `p` describes for an element named `name`. */
  function ComponentOf(name: string, p: Pattern): Component {
    Component(name, OrDefault(p.id, DefaultIdAttr), OrDefault(p.plural, DefaultPluralAttr),
              OrDefault(p.fields, DefaultFieldsAttr))
  }

  /** The component an element is validated as: a text component if one
      matches, else a markup-text component. */
  function Classify(name: Option<string>, textComps: seq<Pattern>, markupComps: seq<Pattern>): (r: Option<Component>)
    ensures r.Some? <==> name.Some? && name.value != ""
                         && (AnyMatch(textComps, name.value) || AnyMatch(markupComps, name.value))
    ensures r.Some? && AnyMatch(textComps, name.value) ==>
              exists i :: FirstMatch(textComps, name.value, i) && r.value == ComponentOf(name.value, textComps[i])
    ensures r.Some? && !AnyMatch(textComps, name.value) ==>
              exists i :: FirstMatch(markupComps, name.value, i) && r.value == ComponentOf(name.value, markupComps[i])
  {
    match GetI18NComponent(name, textComps)
    case Some(c) => Some(c)
    case None => GetI18NComponent(name, markupComps)
  }

  /** `getI18nAttributeNodes({ node, textComponents, markupTextComponents })`:
      `{}` for an element that is no component, else the attribute scan
      under the component's attribute names: it throws on a bare id
      attribute, and each node comes from the last attribute of its name
      unless an earlier-tested name claims that name. */
  function GetI18nAttributeNodes(el: Node, textComps: seq<Pattern>, markupComps: seq<Pattern>): (r: Js<Captured>)
    requires el.Element?
    ensures Classify(el.tag, textComps, markupComps).None? ==> r == Ok(NothingCaptured)
    ensures Classify(el.tag, textComps, markupComps).Some? ==>
              var c := Classify(el.tag, textComps, markupComps).value;
              (r.Thrown? <==> BareNamed(el.attributes, c.id))
    ensures Classify(el.tag, textComps, markupComps).Some? ==>
              var c := Classify(el.tag, textComps, markupComps).value;
              (r.Ok? ==> (r.value.idNode.IdUndefined? <==> NoneNamed(el.attributes, c.id)))
    ensures Classify(el.tag, textComps, markupComps).Some? ==>
              var c := Classify(el.tag, textComps, markupComps).value;
              (forall i :: r.Ok? && LastNamed(el.attributes, i, c.id) && el.attributes[i].value.Some? ==>
                          r.value.idNode == IdOf(el.attributes[i].value.value))
    ensures Classify(el.tag, textComps, markupComps).Some? ==>
              var c := Classify(el.tag, textComps, markupComps).value;
              (r.Ok? && c.plural == c.id ==> r.value.pluralNode.Unset?)
    ensures Classify(el.tag, textComps, markupComps).Some? ==>
              var c := Classify(el.tag, textComps, markupComps).value;
              (r.Ok? && c.plural != c.id ==> r.value.pluralNode == LastSlot(el.attributes, c.plural))
    ensures Classify(el.tag, textComps, markupComps).Some? ==>
              var c := Classify(el.tag, textComps, markupComps).value;
              (r.Ok? && (c.fields == c.id || c.fields == c.plural) ==> r.value.fieldsNode.Unset?)
    ensures Classify(el.tag, textComps, markupComps).Some? ==>
              var c := Classify(el.tag, textComps, markupComps).value;
              (r.Ok? && c.fields != c.id && c.fields != c.plural ==> r.value.fieldsNode == LastSlot(el.attributes, c.fields))
  {
    match Classify(el.tag, textComps, markupComps)
    case None => Ok(NothingCaptured)
    case Some(c) =>
      var names := AttributeNames(c.id, c.plural, c.fields);
      ScanThrows(el.attributes, names);
      ScanId(el.attributes, names);
      ScanPlural(el.attributes, names);
      ScanFields(el.attributes, names);
      Scan(el.attributes, names)
  }

  /** A JSX element that classifies as one of the given components. */
  predicate IsComponentElement(comps: seq<Pattern>, n: Node) {
    n.Element? && GetI18NComponent(n.tag, comps).Some?
  }

  /** `isDisallowedTextNode({ node, parent, ignoreTextRE, markupTextComponents })`,
      with `parents` the chain `parent`, `parent.parent`, ... and `None` for
      an absent component list. */
  function IsDisallowedTextNode(node: Node, parents: seq<Node>, ignore: Option<Regex>,
                                markupComps: Option<seq<Pattern>>): (r: Option<string>)
    ensures r.Some? ==> r == CandidateText(node, ignore)
    ensures r.Some? <==> CandidateText(node, ignore).Some?
                         && (markupComps.None?
                             || forall j :: 0 <= j < |parents| ==> !IsComponentElement(markupComps.value, parents[j]))
  {
    Disallowed(node, parents, ignore,
               if markupComps.None? then None else Some((n: Node) => IsComponentElement(markupComps.value, n)))
  }

  /** Patterns are tried in list order: an earlier match wins even when a
      later pattern also matches. */
  lemma FirstPatternWins(name: string, comps: seq<Pattern>, i: nat)
    requires name != "" && i < |comps| && Matches(comps[i], name)
    requires forall j :: 0 <= j < i ==> !Matches(comps[j], name)
    ensures GetI18NComponent(Some(name), comps)
            == Some(Component(name, OrDefault(comps[i].id, DefaultIdAttr),
                              OrDefault(comps[i].plural, DefaultPluralAttr),
                              OrDefault(comps[i].fields, DefaultFieldsAttr)))
  {
  }

  /** The markup list is consulted only when no text pattern matches, and an
      element neither list recognises captures nothing. */
  lemma MarkupOnlyAsFallback(el: Node, textComps: seq<Pattern>, markupComps: seq<Pattern>)
    requires el.Element?
    ensures GetI18NComponent(el.tag, textComps).Some? ==>
              GetI18nAttributeNodes(el, textComps, markupComps)
              == GetI18nAttributeNodes(el, textComps, [])
    ensures GetI18NComponent(el.tag, textComps).None? && GetI18NComponent(el.tag, markupComps).None? ==>
              GetI18nAttributeNodes(el, textComps, markupComps) == Ok(NothingCaptured)
  {
  }

  /** The component lists of the utility tests. */
  function TextComponents(): seq<Pattern> {
    [Pattern((n: string) => n == "Text", "", "", ""),
     Pattern((n: string) => n == "Dialog", "title", "count", "data")]
  }

  /** `<Dialog title="foo" count="foo" data="foo"/>` is read through the
      Dialog pattern's own attribute names. */
  lemma AliasedAttributesExample(markupComps: seq<Pattern>)
    ensures GetI18nAttributeNodes(Element(Some("Dialog"),
              [JsxAttribute("title", Some(Literal(LStr("foo")))),
               JsxAttribute("count", Some(Literal(LStr("foo")))),
               JsxAttribute("data", Some(Literal(LStr("foo"))))], []), TextComponents(), markupComps)
            == Ok(Captured(IdLiteral(LStr("foo")), Given(Some(Literal(LStr("foo")))),
                           Given(Some(Literal(LStr("foo"))))))
  {
    var foo := Some(Literal(LStr("foo")));
    var attrs := [JsxAttribute("title", foo), JsxAttribute("count", foo), JsxAttribute("data", foo)];
    var names := AttributeNames("title", "count", "data");
    assert FindFrom(TextComponents(), "Dialog", 0) == Some(1);
    var c1 := Captured(IdLiteral(LStr("foo")), Unset, Unset);
    var c2 := c1.(pluralNode := Given(foo));
    assert attrs[..1][..0] == [];
    assert Scan(attrs[..1], names) == Ok(c1);
    assert attrs[..2][..1] == attrs[..1];
    assert Scan(attrs[..2], names) == Ok(c2);
    assert attrs[..2] == attrs[..|attrs| - 1];
  }

  /** An element no list recognises yields `{}`. */
  lemma UnknownElementExample(attrs: seq<Attribute>)
    ensures GetI18nAttributeNodes(Element(Some("span"), attrs, []), TextComponents(), []) == Ok(NothingCaptured)
  {
    assert FindFrom(TextComponents(), "span", 0) == None;
  }

  /** Text directly under a `<MarkupText>` element is exempt when the markup
      list recognises that name. */
  lemma MarkupParentExample(node: Node, ignore: Option<Regex>, markupComps: seq<Pattern>, attrs: seq<Attribute>,
                            children: seq<Node>, i: nat)
    requires i < |markupComps| && Matches(markupComps[i], "MarkupText")
    ensures IsDisallowedTextNode(node, [Element(Some("MarkupText"), attrs, children)], ignore, Some(markupComps)).None?
  {
    var parent := Element(Some("MarkupText"), attrs, children);
    assert IsComponentElement(markupComps, parent);
  }
}
