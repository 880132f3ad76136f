/** The no-missing-template-field rule (src/rules/no-missing-template-field.js,
    transpiled as lib/rules/no-missing-template-field.js): a dictionary
    value with a `{{...}}` placeholder needs a `fields` attribute, and a
    `fields` attribute needs such a value. */
module TemplateField {
  import opened Base
  import opened JsonValues
  import opened KeyPath
  import opened Jsx
  import opened AttributeNodes
  import opened LangCache
  import opened TemplatePattern
  import opened SrcUtils

  datatype Finding =
    | FieldsMissing(key: string)        // has template fields but no fields attribute
    | FieldsNotRequired(key: string)    // doesn't require any template field data

  function Message(f: Finding): string {
    match f
    case FieldsMissing(k) => "'" + k + "' has template fields but no fields attribute."
    case FieldsNotRequired(k) => "'" + k + "' doesn't require any template field data."
  }

  /** `Object.values(v)` as a set (`some` does not depend on the order):
      `undefined` and `null` throw, an object gives its member values, a
      string its one-character strings, numbers and booleans nothing. */
  function ObjectValues(v: Option<Json>): (r: Js<set<Option<Json>>>)
    ensures r.Thrown? <==> v.None? || v.value.JNull?
    ensures v.Some? && v.value.JObj? ==> r == Ok(set k | k in v.value.members :: Some(v.value.members[k]))
    ensures v.Some? && v.value.JStr? ==> r == Ok(set i | 0 <= i < |v.value.s| :: Some(JStr([v.value.s[i]])))
    ensures v.Some? && (v.value.JNum? || v.value.JBool?) ==> r == Ok({})
  {
    match v
    case None => Thrown
    case Some(JNull) => Thrown
    case Some(JObj(m)) => Ok(set k | k in m :: Some(m[k]))
    case Some(JStr(s)) => Ok(set i | 0 <= i < |s| :: Some(JStr([s[i]])))
    case Some(JArr(items)) => Ok(set i | 0 <= i < |items| :: Some(items[i]))
    case Some(_) => Ok({})
  }

  /** The values tested for a placeholder: with a truthy plural attribute
      the array's items or else the value's `Object.values`, without one
      just the looked-up value. */
  function Candidates(v: Option<Json>, pluralized: bool): Js<set<Option<Json>>> {
    if !pluralized then Ok({v})
    else if v.Some? && v.value.JArr? then Ok(set i | 0 <= i < |v.value.items| :: Some(v.value.items[i]))
    else ObjectValues(v)
  }

  /** Some candidate, written out as `String(value)`, matches the pattern. */
  predicate HasTemplate(cands: set<Option<Json>>) {
    exists c :: c in cands && MatchesTemplate(ToJsString(c))
  }

  /** `values.some(value => TEMPLATE_RE.test(value))`. */
  function AnyTemplate(cands: set<Option<Json>>): (r: bool)
    ensures r <==> HasTemplate(cands)
  {
    exists c :: c in cands && TemplateTest(ToJsString(c))
  }

  /** The missing-fields test as written: no fields node, or a fields node
      whose own `name` is `undefined`. No attribute value (a literal, an
      expression container or an element) is a node with a name. */
  predicate NoFieldsAsWritten(fields: Slot) {
    !SlotTruthy(fields) || (fields.value.value.Identifier? && fields.value.value.name == "undefined")
  }

  /** The missing-fields test as intended: no fields node, or `fields={undefined}`. */
  predicate NoFields(fields: Slot) {
    !SlotTruthy(fields) || Unwrap(fields.value.value) == Identifier("undefined")
  }

  /** The two checks of one language, given whether the fields count as missing. */
  function Decide(key: string, cands: set<Option<Json>>, noFields: bool, fields: Slot): Option<Finding> {
    if noFields && AnyTemplate(cands) then Some(FieldsMissing(key))
    else if SlotTruthy(fields) && !AnyTemplate(cands) then Some(FieldsNotRequired(key))
    else None
  }

  /** One language of the `forEach`: a falsy dictionary is skipped, a key
      that is not a string throws in `get`, and so does `Object.values` of
      a missing or `null` plural value. */
  function CheckLanguageWith(lang: LanguageEntry, key: LitValue, plural: Slot, fields: Slot, noFields: bool)
    : (r: Js<Option<Finding>>)
  {
    if !Truthy(lang.translation) then Ok(None)
    else if !key.LStr? then Thrown
    else
      var v :- Get(lang.translation, key.s);
      var cands :- Candidates(v, SlotTruthy(plural));
      Ok(Decide(key.s, cands, noFields, fields))
  }

  /** The check of one language as the source writes it. */
  function CheckLanguageAsWritten(lang: LanguageEntry, key: LitValue, plural: Slot, fields: Slot): (r: Js<Option<Finding>>)
    ensures !Truthy(lang.translation) ==> r == Ok(None)
    ensures Truthy(lang.translation) && !key.LStr? ==> r.Thrown?
    ensures Truthy(lang.translation) && key.LStr? && Get(lang.translation, key.s).Thrown? ==> r.Thrown?
    ensures (Truthy(lang.translation) && key.LStr? && Get(lang.translation, key.s).Ok?
             && Candidates(Get(lang.translation, key.s).value, SlotTruthy(plural)).Thrown?) ==> r.Thrown?
    ensures (Truthy(lang.translation) && key.LStr? && Get(lang.translation, key.s).Ok?
             && Candidates(Get(lang.translation, key.s).value, SlotTruthy(plural)).Ok?) ==>
              var cands := Candidates(Get(lang.translation, key.s).value, SlotTruthy(plural)).value;
              && (r == Ok(Some(FieldsMissing(key.s))) <==> NoFieldsAsWritten(fields) && HasTemplate(cands))
              && (r == Ok(Some(FieldsNotRequired(key.s))) <==>
                    SlotTruthy(fields) && !HasTemplate(cands))
              && (r == Ok(None) <==> !(NoFieldsAsWritten(fields) && HasTemplate(cands))
                                     && !(SlotTruthy(fields) && !HasTemplate(cands)))
  {
    CheckLanguageWith(lang, key, plural, fields, NoFieldsAsWritten(fields))
  }

  /** The check of one language with `fields={undefined}` treated as a
      missing fields attribute. */
  function CheckLanguage(lang: LanguageEntry, key: LitValue, plural: Slot, fields: Slot): (r: Js<Option<Finding>>)
    ensures !Truthy(lang.translation) ==> r == Ok(None)
    ensures Truthy(lang.translation) && !key.LStr? ==> r.Thrown?
    ensures Truthy(lang.translation) && key.LStr? && Get(lang.translation, key.s).Thrown? ==> r.Thrown?
    ensures (Truthy(lang.translation) && key.LStr? && Get(lang.translation, key.s).Ok?
             && Candidates(Get(lang.translation, key.s).value, SlotTruthy(plural)).Thrown?) ==> r.Thrown?
    ensures (Truthy(lang.translation) && key.LStr? && Get(lang.translation, key.s).Ok?
             && Candidates(Get(lang.translation, key.s).value, SlotTruthy(plural)).Ok?) ==>
              var cands := Candidates(Get(lang.translation, key.s).value, SlotTruthy(plural)).value;
              && (r == Ok(Some(FieldsMissing(key.s))) <==> NoFields(fields) && HasTemplate(cands))
              && (r == Ok(Some(FieldsNotRequired(key.s))) <==>
                    SlotTruthy(fields) && !HasTemplate(cands))
              && (r == Ok(None) <==> !(NoFields(fields) && HasTemplate(cands)) && !(SlotTruthy(fields) && !HasTemplate(cands)))
  {
    CheckLanguageWith(lang, key, plural, fields, NoFields(fields))
  }

  /** Outside `fields={undefined}`, a language passes exactly when it has a
      placeholder if and only if a fields attribute is given. */
  lemma TemplateExactlyWithFields(lang: LanguageEntry, key: string, plural: Slot, fields: Slot)
    requires Truthy(lang.translation) && Get(lang.translation, key).Ok?
    requires Candidates(Get(lang.translation, key).value, SlotTruthy(plural)).Ok?
    requires !SlotTruthy(fields) || Unwrap(fields.value.value) != Identifier("undefined")
    ensures var cands := Candidates(Get(lang.translation, key).value, SlotTruthy(plural)).value;
            CheckLanguage(lang, LStr(key), plural, fields) == Ok(None) <==> (HasTemplate(cands) <==> SlotTruthy(fields))
  {
  }

  /** The as-written check and the corrected one differ only on
      `fields={undefined}`. */
  lemma AsWrittenAgrees(lang: LanguageEntry, key: LitValue, plural: Slot, fields: Slot)
    requires fields != Given(Some(ExpressionContainer(Identifier("undefined"))))
    ensures CheckLanguageAsWritten(lang, key, plural, fields) == CheckLanguage(lang, key, plural, fields)
  {
    assert NoFieldsAsWritten(fields) == NoFields(fields);
  }

  /** Without a plural attribute the only candidate is the looked-up value,
      so a missing key (`String(undefined)`) has no placeholder. */
  lemma SingleCandidate(v: Option<Json>)
    ensures Candidates(v, false) == Ok({v})
    ensures HasTemplate({v}) <==> MatchesTemplate(ToJsString(v))
    ensures v.None? ==> !HasTemplate({v})
  {
    if v.None? {
      assert !OpensAt("undefined", 0);
      assert forall k :: 0 <= k < |"undefined"| ==> "undefined"[k] != '{';
    }
  }

  /** With a plural attribute, a missing or `null` value makes `Object.values` throw. */
  lemma PluralMissingThrows(lang: LanguageEntry, key: string, plural: Slot, fields: Slot)
    requires Truthy(lang.translation) && SlotTruthy(plural)
    requires Get(lang.translation, key) == Ok(None) || Get(lang.translation, key) == Ok(Some(JNull))
    ensures CheckLanguage(lang, LStr(key), plural, fields).Thrown?
  {
  }

  /** A pluralized array is searched item by item. */
  lemma ArrayCandidates(items: seq<Json>)
    ensures Candidates(Some(JArr(items)), true).Ok?
    ensures HasTemplate(Candidates(Some(JArr(items)), true).value) <==>
              exists i :: 0 <= i < |items| && MatchesTemplate(ToJsString(Some(items[i])))
  {
    var cands := Candidates(Some(JArr(items)), true).value;
    if HasTemplate(cands) {
      var c :| c in cands && MatchesTemplate(ToJsString(c));
      var i :| 0 <= i < |items| && c == Some(items[i]);
    }
    if exists i :: 0 <= i < |items| && MatchesTemplate(ToJsString(Some(items[i]))) {
      var i :| 0 <= i < |items| && MatchesTemplate(ToJsString(Some(items[i])));
      assert Some(items[i]) in cands;
    }
  }

  /** A pluralized string value is searched character by character, and a
      single character never holds a placeholder. */
  lemma PluralStringHasNoTemplate(s: string)
    ensures Candidates(Some(JStr(s)), true).Ok?
    ensures !HasTemplate(Candidates(Some(JStr(s)), true).value)
  {
    forall c | c in Candidates(Some(JStr(s)), true).value
      ensures !MatchesTemplate(ToJsString(c))
    {
      var i :| 0 <= i < |s| && c == Some(JStr([s[i]]));
      assert ToJsString(c) == [s[i]];
    }
  }

  /** So with a plural attribute a string value, templated or not, asks for
      no fields: a fields attribute is reported as not required, and its
      absence is not reported. */
  lemma PluralStringVerdict(lang: LanguageEntry, key: string, s: string, plural: Slot, fields: Slot)
    requires lang.translation == JObj(map[key := JStr(s)]) && '.' !in key && SlotTruthy(plural)
    ensures CheckLanguage(lang, LStr(key), plural, fields)
            == if SlotTruthy(fields) then Ok(Some(FieldsNotRequired(key))) else Ok(None)
    ensures CheckLanguageAsWritten(lang, LStr(key), plural, fields)
            == if SlotTruthy(fields) then Ok(Some(FieldsNotRequired(key))) else Ok(None)
  {
    GetSegment(lang.translation, key);
    PluralStringHasNoTemplate(s);
  }

  /** A string without `{` has no placeholder. */
  lemma NoBraceNoTemplate(s: string)
    requires '{' !in s
    ensures !MatchesTemplate(s)
  {
    forall k | 0 <= k < |s| ensures !OpensAt(s, k) {
      assert s[k] in s;
    }
  }

  /** The rule's checks on the languages in order, at most one finding each,
      stopping at the first language that throws, with `noFields` the
      verdict of the missing-fields test. */
  function CheckLanguagesWith(langs: seq<LanguageEntry>, key: LitValue, plural: Slot, fields: Slot, noFields: bool)
    : (r: Run<Finding>)
    ensures |r.findings| <= |langs|
  {
    Each(langs, (lang: LanguageEntry) => CheckLanguageWith(lang, key, plural, fields, noFields))
  }

  /** The languages checked as the source writes it. */
  function CheckLanguagesAsWritten(langs: seq<LanguageEntry>, key: LitValue, plural: Slot, fields: Slot)
    : (r: Run<Finding>)
    ensures |r.findings| <= |langs|
  {
    CheckLanguagesWith(langs, key, plural, fields, NoFieldsAsWritten(fields))
  }

  /** The languages checked with `fields={undefined}` counted as missing fields. */
  function CheckLanguages(langs: seq<LanguageEntry>, key: LitValue, plural: Slot, fields: Slot): (r: Run<Finding>)
    ensures |r.findings| <= |langs|
  {
    CheckLanguagesWith(langs, key, plural, fields, NoFields(fields))
  }

  /** The as-written run stops exactly when some language throws, and every
      finding is one language's own as-written verdict. */
  lemma LanguageFindingsAsWritten(langs: seq<LanguageEntry>, key: LitValue, plural: Slot, fields: Slot)
    ensures CheckLanguagesAsWritten(langs, key, plural, fields).threw <==>
              exists i :: 0 <= i < |langs| && CheckLanguageAsWritten(langs[i], key, plural, fields).Thrown?
    ensures forall f :: f in CheckLanguagesAsWritten(langs, key, plural, fields).findings ==>
              exists i :: 0 <= i < |langs| && CheckLanguageAsWritten(langs[i], key, plural, fields) == Ok(Some(f))
  {
    EachFindings(langs, (lang: LanguageEntry) => CheckLanguageWith(lang, key, plural, fields, NoFieldsAsWritten(fields)));
  }

  /** The corrected run stops exactly when some language throws, and every
      finding is one language's own corrected verdict. */
  lemma LanguageFindings(langs: seq<LanguageEntry>, key: LitValue, plural: Slot, fields: Slot)
    ensures CheckLanguages(langs, key, plural, fields).threw <==>
              exists i :: 0 <= i < |langs| && CheckLanguage(langs[i], key, plural, fields).Thrown?
    ensures forall f :: f in CheckLanguages(langs, key, plural, fields).findings ==>
              exists i :: 0 <= i < |langs| && CheckLanguage(langs[i], key, plural, fields) == Ok(Some(f))
  {
    EachFindings(langs, (lang: LanguageEntry) => CheckLanguageWith(lang, key, plural, fields, NoFields(fields)));
  }

  /** Outside `fields={undefined}` both runs are the same. */
  lemma LanguagesAgree(langs: seq<LanguageEntry>, key: LitValue, plural: Slot, fields: Slot)
    requires fields != Given(Some(ExpressionContainer(Identifier("undefined"))))
    ensures CheckLanguagesAsWritten(langs, key, plural, fields) == CheckLanguages(langs, key, plural, fields)
  {
    assert NoFieldsAsWritten(fields) == NoFields(fields);
  }

  /** The `JSXElement` handler as the source writes it: elements outside
      both patterns are ignored, a bare id attribute throws, elements
      without an id literal are ignored, and otherwise the languages are
      checked under the last id literal with the raw values of the last
      plural and fields attributes. */
  function CheckElement(el: Node, textRE: Regex, markupRE: Regex, langs: seq<LanguageEntry>): (r: Run<Finding>)
    requires el.Element?
    ensures !Gated(el, textRE, markupRE) ==> r == NoFindings()
    ensures Gated(el, textRE, markupRE) && BareNamed(el.attributes, "id") ==> r == Run([], true)
    ensures Gated(el, textRE, markupRE) && NoneNamed(el.attributes, "id") ==> r == NoFindings()
    ensures forall i :: Gated(el, textRE, markupRE) && !BareNamed(el.attributes, "id")
                        && LastNamed(el.attributes, i, "id") && !Unwrap(el.attributes[i].value.value).Literal?
                        ==> r == NoFindings()
    ensures forall i :: Gated(el, textRE, markupRE) && !BareNamed(el.attributes, "id")
                        && LastNamed(el.attributes, i, "id") && Unwrap(el.attributes[i].value.value).Literal?
                        ==> r == CheckLanguagesAsWritten(langs, Unwrap(el.attributes[i].value.value).value,
                                                         LastSlot(el.attributes, "plural"),
                                                         LastSlot(el.attributes, "fields"))
  {
    if !Gated(el, textRE, markupRE) then NoFindings()
    else
      match GetI18nAttributeNodes(el)
      case Thrown => Run([], true)
      case Ok(c) =>
        if !IdTruthy(c.idNode) then NoFindings()
        else CheckLanguagesAsWritten(langs, c.idNode.value, c.pluralNode, c.fieldsNode)
  }

  /** The handler with `fields={undefined}` counted as missing fields. */
  function CheckElementCorrected(el: Node, textRE: Regex, markupRE: Regex, langs: seq<LanguageEntry>): (r: Run<Finding>)
    requires el.Element?
    ensures !Gated(el, textRE, markupRE) ==> r == NoFindings()
    ensures Gated(el, textRE, markupRE) && BareNamed(el.attributes, "id") ==> r == Run([], true)
    ensures Gated(el, textRE, markupRE) && NoneNamed(el.attributes, "id") ==> r == NoFindings()
    ensures forall i :: Gated(el, textRE, markupRE) && !BareNamed(el.attributes, "id")
                        && LastNamed(el.attributes, i, "id") && !Unwrap(el.attributes[i].value.value).Literal?
                        ==> r == NoFindings()
    ensures forall i :: Gated(el, textRE, markupRE) && !BareNamed(el.attributes, "id")
                        && LastNamed(el.attributes, i, "id") && Unwrap(el.attributes[i].value.value).Literal?
                        ==> r == CheckLanguages(langs, Unwrap(el.attributes[i].value.value).value,
                                                LastSlot(el.attributes, "plural"),
                                                LastSlot(el.attributes, "fields"))
  {
    if !Gated(el, textRE, markupRE) then NoFindings()
    else
      match GetI18nAttributeNodes(el)
      case Thrown => Run([], true)
      case Ok(c) =>
        if !IdTruthy(c.idNode) then NoFindings()
        else CheckLanguages(langs, c.idNode.value, c.pluralNode, c.fieldsNode)
  }

  /** The two handlers differ only on an element whose last fields
      attribute is `fields={undefined}`. */
  lemma HandlersAgree(el: Node, textRE: Regex, markupRE: Regex, langs: seq<LanguageEntry>)
    requires el.Element?
    requires forall k :: LastNamed(el.attributes, k, "fields") ==>
               el.attributes[k].value != Some(ExpressionContainer(Identifier("undefined")))
    ensures CheckElement(el, textRE, markupRE, langs) == CheckElementCorrected(el, textRE, markupRE, langs)
  {
    LastSlotAvoids(el.attributes, "fields", Some(ExpressionContainer(Identifier("undefined"))));
    if Gated(el, textRE, markupRE) && GetI18nAttributeNodes(el).Ok? {
      var c := GetI18nAttributeNodes(el).value;
      if IdTruthy(c.idNode) {
        LanguagesAgree(langs, c.idNode.value, c.pluralNode, c.fieldsNode);
      }
    }
  }

  /** The name test of the as-written check never holds for an attribute
      value: only an identifier has a name, and JSX never makes one an
      attribute value on its own. */
  lemma NameTestIsDead(fields: Slot)
    requires SlotTruthy(fields) && !fields.value.value.Identifier?
    ensures NoFieldsAsWritten(fields) == false
  {
  }

  /** `<Text id="k" fields={undefined}/>` on a templated value: the source
      reports nothing, where the missing fields should be reported. */
  lemma FieldsUndefinedSlipsThrough(lang: LanguageEntry, key: string, s: string)
    requires lang.translation == JObj(map[key := JStr(s)]) && '.' !in key && MatchesTemplate(s)
    ensures CheckLanguageAsWritten(lang, LStr(key), Unset, Given(Some(ExpressionContainer(Identifier("undefined")))))
            == Ok(None)
    ensures CheckLanguage(lang, LStr(key), Unset, Given(Some(ExpressionContainer(Identifier("undefined")))))
            == Ok(Some(FieldsMissing(key)))
  {
    GetSegment(lang.translation, key);
    assert Some(JStr(s)) in {Some(JStr(s))};
  }

  lemma FieldsUndefinedExample(lang: LanguageEntry, key: string)
    requires lang.translation == JObj(map[key := JStr("Hello {{name}}")]) && '.' !in key
    ensures CheckLanguageAsWritten(lang, LStr(key), Unset, Given(Some(ExpressionContainer(Identifier("undefined")))))
            == Ok(None)
    ensures CheckLanguage(lang, LStr(key), Unset, Given(Some(ExpressionContainer(Identifier("undefined")))))
            == Ok(Some(FieldsMissing(key)))
  {
    PlaceholderExample();
    FieldsUndefinedSlipsThrough(lang, key, "Hello {{name}}");
  }

  /** `<Text id="k" fields={undefined}/>` against a templated value: the
      source's handler reports nothing, the corrected one the missing
      fields. */
  lemma FieldsUndefinedElementExample(en: LanguageEntry, key: string, textRE: Regex, markupRE: Regex)
    requires textRE("Text") && en.translation == JObj(map[key := JStr("Hello {{name}}")]) && '.' !in key
    ensures var el := Element(Some("Text"), [JsxAttribute("id", Some(Literal(LStr(key)))),
                                             JsxAttribute("fields", Some(ExpressionContainer(Identifier("undefined"))))], []);
            && CheckElement(el, textRE, markupRE, [en]) == NoFindings()
            && CheckElementCorrected(el, textRE, markupRE, [en]) == Run([FieldsMissing(key)], false)
  {
    var undef := Given(Some(ExpressionContainer(Identifier("undefined"))));
    var attrs := [JsxAttribute("id", Some(Literal(LStr(key)))),
                  JsxAttribute("fields", Some(ExpressionContainer(Identifier("undefined"))))];
    assert LastNamed(attrs, 0, "id") && !BareNamed(attrs, "id");
    assert LastNamed(attrs, 1, "fields") && NoneNamed(attrs, "plural");
    FieldsUndefinedExample(en, key);
    EachOne(en, (lang: LanguageEntry) => CheckLanguageWith(lang, LStr(key), Unset, undef, NoFieldsAsWritten(undef)));
    EachOne(en, (lang: LanguageEntry) => CheckLanguageWith(lang, LStr(key), Unset, undef, NoFields(undef)));
  }
}
