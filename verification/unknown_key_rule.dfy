/** The `JSXElement` handler of the no-unknown-key rule, in the
    regular-expression generation (src/rules/no-unknown-key.js): only
    elements whose name the text or the markup-text pattern matches are
    looked at, and their id literal is checked with their plural slot. */
module SrcUnknownKeyRule {
  import opened Base
  import opened Jsx
  import opened AttributeNodes
  import opened JsonValues
  import opened LangCache
  import opened UnknownKey
  import opened SrcUtils

  function CheckElement(el: Node, textRE: Regex, markupRE: Regex, langs: seq<LanguageEntry>): (r: Run<Finding>)
    requires el.Element?
    ensures !Gated(el, textRE, markupRE) ==> r == NoFindings()
    ensures Gated(el, textRE, markupRE) && BareNamed(el.attributes, "id") ==> r == Run([], true)
    ensures Gated(el, textRE, markupRE) && NoneNamed(el.attributes, "id") ==> r == NoFindings()
    ensures forall i :: Gated(el, textRE, markupRE) && !BareNamed(el.attributes, "id")
                        && LastNamed(el.attributes, i, "id") && !Unwrap(el.attributes[i].value.value).Literal?
                        ==> r == NoFindings()
    ensures forall i, j :: Gated(el, textRE, markupRE) && !BareNamed(el.attributes, "id")
                           && LastNamed(el.attributes, i, "id") && Unwrap(el.attributes[i].value.value).Literal?
                           && LastNamed(el.attributes, j, "plural")
                           ==> r == CheckForMissingKey(langs, Unwrap(el.attributes[i].value.value).value,
                                                       Given(el.attributes[j].value))
    ensures forall i :: Gated(el, textRE, markupRE) && !BareNamed(el.attributes, "id")
                        && LastNamed(el.attributes, i, "id") && Unwrap(el.attributes[i].value.value).Literal?
                        && NoneNamed(el.attributes, "plural")
                        ==> r == CheckForMissingKey(langs, Unwrap(el.attributes[i].value.value).value, Unset)
  {
    if !Gated(el, textRE, markupRE) then NoFindings()
    else
      match GetI18nAttributeNodes(el)
      case Thrown => Run([], true)
      case Ok(c) =>
        if !IdTruthy(c.idNode) then NoFindings()
        else CheckForMissingKey(langs, c.idNode.value, c.pluralNode)
  }

  /** `<Text id="key"/>` with a key the only dictionary lacks reports it. */
  lemma TextElementExample(en: LanguageEntry, m: map<string, Json>, key: string, textRE: Regex, markupRE: Regex)
    requires textRE("Text") && en.translation == JObj(m) && '.' !in key && key !in m
    ensures CheckElement(Element(Some("Text"), [JsxAttribute("id", Some(Literal(LStr(key))))], []), textRE, markupRE, [en])
            == Run([KeyMissing(key, en.name)], false)
  {
    var attrs := [JsxAttribute("id", Some(Literal(LStr(key))))];
    assert LastNamed(attrs, 0, "id") && NoneNamed(attrs, "plural") && !BareNamed(attrs, "id");
    OneLanguageFlatKey(en, m, key);
  }
}

/** The `JSXElement` handler of the no-unknown-key rule, in the
    component-list generation (lib/rules/no-unknown-key.js): the
    classification inside `getI18nAttributeNodes` is the only gate, and the
    id and plural attributes are read under the component's own names. */
module LibUnknownKeyRule {
  import opened Base
  import opened Jsx
  import opened AttributeNodes
  import opened JsonValues
  import opened LangCache
  import opened UnknownKey
  import opened LibUtils

  function CheckElement(el: Node, textComps: seq<Pattern>, markupComps: seq<Pattern>,
                        langs: seq<LanguageEntry>): (r: Run<Finding>)
    requires el.Element?
    ensures Classify(el.tag, textComps, markupComps).None? ==> r == NoFindings()
    ensures Classify(el.tag, textComps, markupComps).Some? ==>
              var c := Classify(el.tag, textComps, markupComps).value;
              && (BareNamed(el.attributes, c.id) ==> r == Run([], true))
              && (NoneNamed(el.attributes, c.id) ==> r == NoFindings())
              && (forall i :: (!BareNamed(el.attributes, c.id) && LastNamed(el.attributes, i, c.id)
                               && !Unwrap(el.attributes[i].value.value).Literal?) ==> r == NoFindings())
              && (forall i, j :: (!BareNamed(el.attributes, c.id) && LastNamed(el.attributes, i, c.id)
                                  && Unwrap(el.attributes[i].value.value).Literal?
                                  && c.plural != c.id && LastNamed(el.attributes, j, c.plural))
                                 ==> r == CheckForMissingKey(langs, Unwrap(el.attributes[i].value.value).value,
                                                             Given(el.attributes[j].value)))
              && (forall i :: (!BareNamed(el.attributes, c.id) && LastNamed(el.attributes, i, c.id)
                               && Unwrap(el.attributes[i].value.value).Literal?
                               && (c.plural == c.id || NoneNamed(el.attributes, c.plural)))
                              ==> r == CheckForMissingKey(langs, Unwrap(el.attributes[i].value.value).value, Unset))
  {
    match Classify(el.tag, textComps, markupComps)
    case None => NoFindings()
    case Some(c) =>
      var names := AttributeNames(c.id, c.plural, c.fields);
      ScanThrows(el.attributes, names);
      ScanId(el.attributes, names);
      ScanPlural(el.attributes, names);
      match GetI18nAttributeNodes(el, textComps, markupComps)
      case Thrown => Run([], true)
      case Ok(captured) =>
        if !IdTruthy(captured.idNode) then NoFindings()
        else CheckForMissingKey(langs, captured.idNode.value, captured.pluralNode)
  }

  /** `<Dialog title="key"/>` is checked through the Dialog pattern's id
      name `title`. */
  lemma DialogTitleExample(en: LanguageEntry, m: map<string, Json>, key: string, markupComps: seq<Pattern>)
    requires en.translation == JObj(m) && '.' !in key && key !in m
    ensures CheckElement(Element(Some("Dialog"), [JsxAttribute("title", Some(Literal(LStr(key))))], []),
                         TextComponents(), markupComps, [en])
            == Run([KeyMissing(key, en.name)], false)
  {
    var attrs := [JsxAttribute("title", Some(Literal(LStr(key))))];
    assert FindFrom(TextComponents(), "Dialog", 0) == Some(1);
    assert Classify(Some("Dialog"), TextComponents(), markupComps) == Some(Component("Dialog", "title", "count", "data"));
    assert LastNamed(attrs, 0, "title") && NoneNamed(attrs, "count") && !BareNamed(attrs, "title");
    OneLanguageFlatKey(en, m, key);
  }
}
