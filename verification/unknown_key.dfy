/** `checkForMissingKey` and the `withText` call check, shared word for
    word by both generations of the no-unknown-key rule. A language's
    dictionary is looked up under the key, and the first failing test of a
    fixed chain reports one finding for that language. */
module UnknownKey {
  import opened Base
  import opened Strings
  import opened JsonValues
  import opened KeyPath
  import opened Jsx
  import opened AttributeNodes
  import opened LangCache

  /** The plural shapes a dictionary entry may take, tried in order. */
  const PluralKeyForms: seq<seq<string>> := [["singular", "plural"], ["none", "one", "many"]]

  /** What the rule reports for one language. */
  datatype Finding =
    | LanguageMissing(name: string)
    | KeyMissing(key: string, name: string)
    | NotAString(key: string, name: string)
    | PluralOnFlatKey(key: string)
    | ArrayNotTwo(key: string)
    | PluralKeysMissing(missing: seq<string>, key: string, name: string)
    | UnrecognizedPlural(key: string, name: string)

  /** The message text of a finding; an array of missing forms is written
      the way `String(array)` writes it, comma-joined. */
  function Message(f: Finding): string {
    match f
    case LanguageMissing(n) => "'" + n + "' language is missing"
    case KeyMissing(k, n) => "'" + k + "' is missing from '" + n + "' language"
    case NotAString(k, n) =>
      "'" + k + "' is not a string in '" + n + "' language.  Possibly missing plural attribute for pluralizable field."
    case PluralOnFlatKey(k) =>
      "plural attribute supplied for unpluralized key '" + k + "'.  Either pluralize key or remove plural attribute."
    case ArrayNotTwo(k) => "array pluralized key '" + k + "' does not have exactly two values for [plural, singular]"
    case PluralKeysMissing(ms, k, n) =>
      "[" + (if |ms| == 0 then "" else Join(ms, ',')) + "] pluralization keys are missing for key '" + k
      + "' in '" + n + "' language"
    case UnrecognizedPlural(k, n) => "unrecognized pluralization format for key '" + k + "' in '" + n + "' language"
  }

  /** `members.filter(m => has(translation, key + '.' + m) == want)`. */
  function FilterHas(t: Json, key: string, members: seq<string>, want: bool): (r: Js<seq<string>>)
    ensures r.Ok? ==> |r.value| <= |members|
    decreases |members|
  {
    if |members| == 0 then Ok([])
    else
      var h :- Has(t, key + "." + members[0]);
      var rest :- FilterHas(t, key, members[1..], want);
      Ok(if h == want then [members[0]] + rest else rest)
  }

  /** A finding that names the given key and language. */
  predicate About(f: Finding, key: string, name: string) {
    match f
    case LanguageMissing(n) => n == name
    case PluralOnFlatKey(k) => k == key
    case ArrayNotTwo(k) => k == key
    case KeyMissing(k, n) => k == key && n == name
    case NotAString(k, n) => k == key && n == name
    case PluralKeysMissing(_, k, n) => k == key && n == name
    case UnrecognizedPlural(k, n) => k == key && n == name
  }

  /** The `for` loop over the plural forms from form i on. */
  function ScanForms(t: Json, key: string, name: string, i: nat): (r: Js<Option<Finding>>)
    requires i <= |PluralKeyForms|
    ensures r.Ok? && r.value.Some? ==> About(r.value.value, key, name)
    decreases |PluralKeyForms| - i
  {
    if i == |PluralKeyForms| then Ok(Some(UnrecognizedPlural(key, name)))
    else
      var form := PluralKeyForms[i];
      var matching :- FilterHas(t, key, form, true);
      if |matching| == |form| then Ok(None)
      else
        var missing :- FilterHas(t, key, form, false);
        if |missing| != 0 && |missing| != |form| then Ok(Some(PluralKeysMissing(missing, key, name)))
        else ScanForms(t, key, name, i + 1)
  }

  /** The check of one language: `null` (or any falsy) dictionary first,
      then, without a plural attribute, absence and non-string values,
      and with a truthy one, string values, arrays and the plural forms. A
      key that is not a string makes the lookup throw. */
  function CheckLanguage(lang: LanguageEntry, key: LitValue, plural: Slot): (r: Js<Option<Finding>>)
    ensures !Truthy(lang.translation) ==> r == Ok(Some(LanguageMissing(lang.name)))
    ensures Truthy(lang.translation) && !key.LStr? ==> r.Thrown?
    ensures Truthy(lang.translation) && key.LStr? && Get(lang.translation, key.s).Thrown? ==> r.Thrown?
    ensures Truthy(lang.translation) && key.LStr? && plural.Unset? && Get(lang.translation, key.s).Ok? ==>
              r == Ok(match Get(lang.translation, key.s).value
                      case None => Some(KeyMissing(key.s, lang.name))
                      case Some(v) => if v.JStr? then None else Some(NotAString(key.s, lang.name)))
    ensures (Truthy(lang.translation) && key.LStr? && plural.Given? && !SlotTruthy(plural)
             && Get(lang.translation, key.s).Ok?) ==> r == Ok(None)
    ensures Truthy(lang.translation) && key.LStr? && SlotTruthy(plural) ==>
              match Get(lang.translation, key.s)
              case Ok(Some(JStr(_))) => r == Ok(Some(PluralOnFlatKey(key.s)))
              case Ok(Some(JArr(items))) => r == Ok(if |items| != 2 then Some(ArrayNotTwo(key.s)) else None)
              case _ => true
    ensures r.Ok? && r.value.Some? ==> About(r.value.value, if key.LStr? then key.s else "", lang.name)
  {
    if !Truthy(lang.translation) then Ok(Some(LanguageMissing(lang.name)))
    else if !key.LStr? then Thrown
    else
      var t, k := lang.translation, key.s;
      if plural.Unset? then
        var present :- Has(t, k);
        if !present then Ok(Some(KeyMissing(k, lang.name)))
        else
          var v := Get(t, k).value;
          if v.Some? && v.value.JStr? then Ok(None) else Ok(Some(NotAString(k, lang.name)))
      else
        var v :- Get(t, k);
        if !SlotTruthy(plural) then Ok(None)
        else if v.Some? && v.value.JStr? then Ok(Some(PluralOnFlatKey(k)))
        else if v.Some? && v.value.JArr? then
          (if |v.value.items| != 2 then Ok(Some(ArrayNotTwo(k))) else Ok(None))
        else ScanForms(t, k, lang.name, 0)
  }

  /** `checkForMissingKey`: every configured language in order, at most
      one finding each, stopping at the first language whose check throws. */
  function CheckForMissingKey(langs: seq<LanguageEntry>, key: LitValue, plural: Slot): (r: Run<Finding>)
    ensures |r.findings| <= |langs|
  {
    Each(langs, (lang: LanguageEntry) => CheckLanguage(lang, key, plural))
  }

  /** The members of `members` whose presence in `m` is `want`, in order. */
  function Keep(members: seq<string>, m: map<string, Json>, want: bool): seq<string>
    decreases |members|
  {
    if |members| == 0 then []
    else if (members[0] in m) == want then [members[0]] + Keep(members[1..], m, want)
    else Keep(members[1..], m, want)
  }

  /** What Keep keeps: exactly the members of the wanted presence, all of
      them when every member has it and none when no member has it. */
  lemma {:induction false} KeepSpec(members: seq<string>, m: map<string, Json>, want: bool)
    ensures |Keep(members, m, want)| <= |members|
    ensures forall x :: x in Keep(members, m, want) <==> x in members && (x in m) == want
    ensures |Keep(members, m, want)| == |members| <==> forall i :: 0 <= i < |members| ==> (members[i] in m) == want
    ensures |Keep(members, m, want)| == 0 <==> forall i :: 0 <= i < |members| ==> (members[i] in m) != want
    decreases |members|
  {
    if |members| > 0 {
      KeepSpec(members[1..], m, want);
      assert forall i :: 1 <= i < |members| ==> members[i] == members[1..][i - 1];
      assert forall x :: x in members <==> x == members[0] || x in members[1..];
    }
  }

  /** Every member of `form` is in `m`. */
  predicate FullIn(form: seq<string>, m: map<string, Json>) {
    forall i :: 0 <= i < |form| ==> form[i] in m
  }

  /** No member of `form` is in `m`. */
  predicate NoneIn(form: seq<string>, m: map<string, Json>) {
    forall i :: 0 <= i < |form| ==> form[i] !in m
  }

  predicate DotFree(members: seq<string>) {
    forall i :: 0 <= i < |members| ==> '.' !in members[i]
  }

  /** Under a key that resolves to an object, `has(key.p)` asks whether the
      object has member p. */
  lemma {:induction false} FilterHasOnObject(t: Json, key: string, m: map<string, Json>, members: seq<string>, want: bool)
    requires Get(t, key) == Ok(Some(JObj(m))) && DotFree(members)
    ensures FilterHas(t, key, members, want) == Ok(Keep(members, m, want))
    decreases |members|
  {
    if |members| > 0 {
      GetMember(t, key, members[0]);
      FilterHasOnObject(t, key, m, members[1..], want);
    }
  }

  /** Under a key that is absent or resolves to a number or a boolean, no
      member is present. */
  lemma {:induction false} FilterHasOnScalar(t: Json, key: string, members: seq<string>, want: bool)
    requires Get(t, key).Ok? && DotFree(members)
    requires Get(t, key).value.None? || Get(t, key).value.value.JNum? || Get(t, key).value.value.JBool?
    ensures FilterHas(t, key, members, want) == Ok(if want then [] else members)
    decreases |members|
  {
    if |members| > 0 {
      GetMember(t, key, members[0]);
      FilterHasOnScalar(t, key, members[1..], want);
      assert [members[0]] + members[1..] == members;
    }
  }

  /** Under a key that resolves to `null`, the first `has` throws. */
  lemma FilterHasOnNull(t: Json, key: string, members: seq<string>, want: bool)
    requires Get(t, key) == Ok(Some(JNull)) && |members| > 0 && '.' !in members[0]
    ensures FilterHas(t, key, members, want).Thrown?
  {
    GetMember(t, key, members[0]);
  }

  lemma FormsDotFree()
    ensures forall i :: 0 <= i < |PluralKeyForms| ==> DotFree(PluralKeyForms[i]) && |PluralKeyForms[i]| > 0
  {
  }

  /** The plural-form decision on an object's members, from form i on:
      the first form that is not wholly absent decides, a complete one
      silently and a partial one by listing its missing members; if every
      form is absent the format is unrecognised. */
  function FormsVerdict(m: map<string, Json>, key: string, name: string, i: nat): Option<Finding>
    requires i <= |PluralKeyForms|
    decreases |PluralKeyForms| - i
  {
    if i == |PluralKeyForms| then Some(UnrecognizedPlural(key, name))
    else
      var form := PluralKeyForms[i];
      if FullIn(form, m) then None
      else if !NoneIn(form, m) then Some(PluralKeysMissing(Keep(form, m, false), key, name))
      else FormsVerdict(m, key, name, i + 1)
  }

  /** On a key that resolves to an object, the scan of `has` lookups
      computes the verdict on the object's members. */
  lemma {:induction false} FormsOnObjectFrom(t: Json, key: string, name: string, m: map<string, Json>, i: nat)
    requires Get(t, key) == Ok(Some(JObj(m))) && i <= |PluralKeyForms|
    ensures ScanForms(t, key, name, i) == Ok(FormsVerdict(m, key, name, i))
    decreases |PluralKeyForms| - i
  {
    if i < |PluralKeyForms| {
      FormsDotFree();
      FormOnObject(t, key, m, PluralKeyForms[i]);
      FormsOnObjectFrom(t, key, name, m, i + 1);
    }
  }

  /** The two `has` filters of one form, on a key that resolves to an
      object, and what their lengths say about the form. */
  lemma FormOnObject(t: Json, key: string, m: map<string, Json>, form: seq<string>)
    requires Get(t, key) == Ok(Some(JObj(m))) && DotFree(form)
    ensures FilterHas(t, key, form, true) == Ok(Keep(form, m, true))
    ensures FilterHas(t, key, form, false) == Ok(Keep(form, m, false))
    ensures |Keep(form, m, true)| == |form| <==> FullIn(form, m)
    ensures |Keep(form, m, false)| == |form| <==> NoneIn(form, m)
    ensures |Keep(form, m, false)| == 0 <==> FullIn(form, m)
  {
    FilterHasOnObject(t, key, m, form, true);
    FilterHasOnObject(t, key, m, form, false);
    KeepSpec(form, m, true);
    KeepSpec(form, m, false);
  }

  /** The verdict spelled out: silence exactly when some form is complete
      and every earlier one absent; a list of missing members exactly when
      the first form that is not absent is partial; unrecognised exactly
      when every form is absent. */
  lemma {:induction false} FormsVerdictCases(m: map<string, Json>, key: string, name: string, i: nat)
    requires i <= |PluralKeyForms|
    ensures FormsVerdict(m, key, name, i) == None <==>
              exists j :: i <= j < |PluralKeyForms| && FullIn(PluralKeyForms[j], m)
                          && forall l :: i <= l < j ==> NoneIn(PluralKeyForms[l], m)
    ensures forall ms :: FormsVerdict(m, key, name, i) == Some(PluralKeysMissing(ms, key, name)) <==>
              exists j :: i <= j < |PluralKeyForms| && !FullIn(PluralKeyForms[j], m) && !NoneIn(PluralKeyForms[j], m)
                          && (forall l :: i <= l < j ==> NoneIn(PluralKeyForms[l], m))
                          && ms == Keep(PluralKeyForms[j], m, false)
    ensures FormsVerdict(m, key, name, i) == Some(UnrecognizedPlural(key, name)) <==>
              forall j :: i <= j < |PluralKeyForms| ==> NoneIn(PluralKeyForms[j], m)
    decreases |PluralKeyForms| - i
  {
    if i < |PluralKeyForms| {
      FormsDotFree();
      FormsVerdictCases(m, key, name, i + 1);
      var form := PluralKeyForms[i];
      assert FullIn(form, m) ==> !NoneIn(form, m) by {
        assert form[0] in form;
      }
    }
  }

  /** The plural-form decision for a key that resolves to an object, over
      the two forms `[singular, plural]` and `[none, one, many]`. */
  lemma PluralFormsOnObject(t: Json, key: string, name: string, m: map<string, Json>)
    requires Get(t, key) == Ok(Some(JObj(m)))
    ensures ScanForms(t, key, name, 0) == Ok(None) <==>
              exists j :: 0 <= j < |PluralKeyForms| && FullIn(PluralKeyForms[j], m)
                          && forall l :: 0 <= l < j ==> NoneIn(PluralKeyForms[l], m)
    ensures forall ms :: ScanForms(t, key, name, 0) == Ok(Some(PluralKeysMissing(ms, key, name))) <==>
              exists j :: 0 <= j < |PluralKeyForms| && !FullIn(PluralKeyForms[j], m) && !NoneIn(PluralKeyForms[j], m)
                          && (forall l :: 0 <= l < j ==> NoneIn(PluralKeyForms[l], m))
                          && ms == Keep(PluralKeyForms[j], m, false)
    ensures ScanForms(t, key, name, 0) == Ok(Some(UnrecognizedPlural(key, name))) <==>
              forall j :: 0 <= j < |PluralKeyForms| ==> NoneIn(PluralKeyForms[j], m)
  {
    FormsOnObjectFrom(t, key, name, m, 0);
    FormsVerdictCases(m, key, name, 0);
  }

  /** The form scan when the key is absent or resolves to a number or a
      boolean: no form is present, so the format is unrecognised. */
  lemma {:induction false} FormsOnScalarFrom(t: Json, key: string, name: string, i: nat)
    requires Get(t, key).Ok? && i <= |PluralKeyForms|
    requires Get(t, key).value.None? || Get(t, key).value.value.JNum? || Get(t, key).value.value.JBool?
    ensures ScanForms(t, key, name, i) == Ok(Some(UnrecognizedPlural(key, name)))
    decreases |PluralKeyForms| - i
  {
    if i < |PluralKeyForms| {
      FormsDotFree();
      FilterHasOnScalar(t, key, PluralKeyForms[i], true);
      FilterHasOnScalar(t, key, PluralKeyForms[i], false);
      FormsOnScalarFrom(t, key, name, i + 1);
    }
  }

  /** A key missing from a dictionary while a plural attribute is given is
      reported as an unrecognised plural format, not as a missing key. */
  lemma MissingKeyWithPlural(lang: LanguageEntry, key: string, plural: Slot)
    requires Truthy(lang.translation) && SlotTruthy(plural)
    requires Get(lang.translation, key) == Ok(None)
    ensures CheckLanguage(lang, LStr(key), plural) == Ok(Some(UnrecognizedPlural(key, lang.name)))
  {
    FormsOnScalarFrom(lang.translation, key, lang.name, 0);
  }

  /** A plural key that resolves to `null` makes the form scan throw. */
  lemma NullPluralValueThrows(lang: LanguageEntry, key: string, plural: Slot)
    requires Truthy(lang.translation) && SlotTruthy(plural)
    requires Get(lang.translation, key) == Ok(Some(JNull))
    ensures CheckLanguage(lang, LStr(key), plural).Thrown?
  {
    FormsDotFree();
    FilterHasOnNull(lang.translation, key, PluralKeyForms[0], true);
  }

  /** Checking the languages of a concatenation is checking the first part
      and then, unless it threw, the second. */
  lemma CheckConcat(a: seq<LanguageEntry>, b: seq<LanguageEntry>, key: LitValue, plural: Slot)
    ensures CheckForMissingKey(a + b, key, plural) == Then(CheckForMissingKey(a, key, plural), CheckForMissingKey(b, key, plural))
  {
    EachConcat(a, b, (lang: LanguageEntry) => CheckLanguage(lang, key, plural));
  }

  /** The handler stops exactly when some language's check throws, and
      every finding is one language's own verdict on this key. */
  lemma CheckFindingsFromLanguages(langs: seq<LanguageEntry>, key: LitValue, plural: Slot)
    ensures CheckForMissingKey(langs, key, plural).threw <==>
              exists i :: 0 <= i < |langs| && CheckLanguage(langs[i], key, plural).Thrown?
    ensures forall f :: f in CheckForMissingKey(langs, key, plural).findings ==>
              exists i :: 0 <= i < |langs| && CheckLanguage(langs[i], key, plural) == Ok(Some(f))
  {
    EachFindings(langs, (lang: LanguageEntry) => CheckLanguage(lang, key, plural));
  }

  /** The keys a `withText` string names: the pieces between commas, each
      trimmed. */
  function WithTextKeys(s: string): (r: seq<string>)
    ensures |r| == |Split(s, ',')|
  {
    var parts := Split(s, ',');
    seq(|parts|, i requires 0 <= i < |parts| => Trim(parts[i]))
  }

  /** Round trip: keys written comma-separated, with or without padding,
      come back as the trimmed keys in order. */
  lemma WithTextKeysOfJoin(parts: seq<string>)
    requires |parts| >= 1 && forall i :: 0 <= i < |parts| ==> ',' !in parts[i]
    ensures |WithTextKeys(Join(parts, ','))| == |parts|
    ensures forall i :: 0 <= i < |parts| ==> WithTextKeys(Join(parts, ','))[i] == Trim(parts[i])
  {
    SplitJoin(parts, ',');
  }

  /** One `checkForMissingKey` per key, no plural attribute, in order. */
  function CheckKeys(keys: seq<string>, langs: seq<LanguageEntry>): (r: Run<Finding>)
    ensures |r.findings| <= |keys| * |langs|
    decreases |keys|
  {
    if |keys| == 0 then NoFindings()
    else
      assert |keys| * |langs| == |langs| + (|keys| - 1) * |langs|;
      Then(CheckForMissingKey(langs, LStr(keys[0]), Unset), CheckKeys(keys[1..], langs))
  }

  /** Checking the keys of a concatenation is checking the first part and
      then, unless it threw, the second. */
  lemma {:induction false} CheckKeysConcat(a: seq<string>, b: seq<string>, langs: seq<LanguageEntry>)
    ensures CheckKeys(a + b, langs) == Then(CheckKeys(a, langs), CheckKeys(b, langs))
    decreases |a|
  {
    if |a| == 0 {
      assert a + b == b;
    } else {
      assert (a + b)[1..] == a[1..] + b;
      CheckKeysConcat(a[1..], b, langs);
      ThenAssociative(CheckForMissingKey(langs, LStr(a[0]), Unset), CheckKeys(a[1..], langs), CheckKeys(b, langs));
    }
  }

  /** The key check stops exactly when one key's check throws, and every
      finding comes from one key's check. */
  lemma {:induction false} CheckKeysFindings(keys: seq<string>, langs: seq<LanguageEntry>)
    ensures CheckKeys(keys, langs).threw <==>
              exists i :: 0 <= i < |keys| && CheckForMissingKey(langs, LStr(keys[i]), Unset).threw
    ensures forall f :: f in CheckKeys(keys, langs).findings ==>
              exists i :: 0 <= i < |keys| && f in CheckForMissingKey(langs, LStr(keys[i]), Unset).findings
    decreases |keys|
  {
    if |keys| > 0 {
      CheckKeysFindings(keys[1..], langs);
      assert forall i :: 1 <= i < |keys| ==> keys[i] == keys[1..][i - 1];
    }
  }

  /** One property of a `withText({...})` argument: a spread member has no
      `value` and throws, a string literal value is checked trimmed, any
      other literal throws on `trim`, and every other value is skipped. */
  function CheckProp(p: Property, langs: seq<LanguageEntry>): (r: Run<Finding>)
    ensures p.SpreadElement? ==> r == Run([], true)
    ensures p.Property? && !p.value.Literal? ==> r == NoFindings()
    ensures p.Property? && p.value.Literal? && !p.value.value.LStr? ==> r == Run([], true)
  {
    match p
    case SpreadElement(_) => Run([], true)
    case Property(_, v) =>
      if !v.Literal? then NoFindings()
      else if v.value.LStr? then CheckForMissingKey(langs, LStr(Trim(v.value.s)), Unset)
      else Run([], true)
  }

  /** The properties of a `withText({...})` argument, in order. */
  function CheckProps(props: seq<Property>, langs: seq<LanguageEntry>): (r: Run<Finding>)
    decreases |props|
  {
    if |props| == 0 then NoFindings()
    else Then(CheckProp(props[0], langs), CheckProps(props[1..], langs))
  }

  /** The trimmed string values of properties that all hold string
      literals. */
  function PropKeys(props: seq<Property>): (r: seq<string>)
    requires forall i :: 0 <= i < |props| ==> props[i].Property? && props[i].value.Literal? && props[i].value.value.LStr?
    ensures |r| == |props|
    ensures forall i :: 0 <= i < |props| ==> r[i] == Trim(props[i].value.value.s)
    decreases |props|
  {
    if |props| == 0 then []
    else
      var rest := props[1..];
      assert forall i :: 0 <= i < |rest| ==> rest[i] == props[i + 1];
      [Trim(props[0].value.value.s)] + PropKeys(rest)
  }

  /** The object argument's check is the key check of its string values,
      when every property is a plain one with a string literal value. */
  lemma {:induction false} CheckPropsAsKeys(props: seq<Property>, langs: seq<LanguageEntry>)
    requires forall i :: 0 <= i < |props| ==> props[i].Property? && props[i].value.Literal? && props[i].value.value.LStr?
    ensures CheckProps(props, langs) == CheckKeys(PropKeys(props), langs)
    decreases |props|
  {
    if |props| > 0 {
      CheckPropsAsKeys(props[1..], langs);
      assert PropKeys(props)[1..] == PropKeys(props[1..]);
    }
  }

  /** Properties that do not hold literals are skipped. */
  lemma {:induction false} NonLiteralPropsSkipped(props: seq<Property>, langs: seq<LanguageEntry>)
    requires forall i :: 0 <= i < |props| ==> props[i].Property? && !props[i].value.Literal?
    ensures CheckProps(props, langs) == NoFindings()
    decreases |props|
  {
    if |props| > 0 {
      NonLiteralPropsSkipped(props[1..], langs);
    }
  }

  /** The first argument of a `withText` call: a string literal names
      comma-separated keys, any other literal throws on `split`, an object
      literal names keys by its values, and anything else is skipped. */
  function CheckArgument(arg: Node, langs: seq<LanguageEntry>): (r: Run<Finding>)
    ensures arg.Literal? && !arg.value.LStr? ==> r == Run([], true)
    ensures !arg.Literal? && !arg.ObjectExpression? ==> r == NoFindings()
  {
    match arg
    case Literal(LStr(s)) => CheckKeys(WithTextKeys(s), langs)
    case Literal(_) => Run([], true)
    case ObjectExpression(props) => CheckProps(props, langs)
    case _ => NoFindings()
  }

  /** The `CallExpression` handler: only calls whose callee name passes the
      `withText` pattern are looked at, and such a call without arguments
      throws on `arg.type`. */
  function CheckCall(callee: Option<string>, args: seq<Node>, withTextRE: Regex, langs: seq<LanguageEntry>): (r: Run<Finding>)
    ensures !withTextRE(NameText(callee)) ==> r == NoFindings()
    ensures withTextRE(NameText(callee)) && |args| == 0 ==> r == Run([], true)
    ensures withTextRE(NameText(callee)) && |args| > 0 ==> r == CheckArgument(args[0], langs)
  {
    if !withTextRE(NameText(callee)) then NoFindings()
    else if |args| == 0 then Run([], true)
    else CheckArgument(args[0], langs)
  }

  /** A key absent from the only, non-empty dictionary is reported once,
      and a present string key not at all. */
  lemma OneLanguageFlatKey(lang: LanguageEntry, m: map<string, Json>, key: string)
    requires lang.translation == JObj(m) && '.' !in key
    ensures key !in m ==> CheckForMissingKey([lang], LStr(key), Unset) == Run([KeyMissing(key, lang.name)], false)
    ensures key in m && m[key].JStr? ==> CheckForMissingKey([lang], LStr(key), Unset) == NoFindings()
  {
    GetSegment(lang.translation, key);
    EachOne(lang, (l: LanguageEntry) => CheckLanguage(l, LStr(key), Unset));
  }

  /** One missing-key finding per key, in order. */
  function AllMissing(keys: seq<string>, name: string): (r: seq<Finding>)
    ensures |r| == |keys|
    ensures forall i :: 0 <= i < |keys| ==> r[i] == KeyMissing(keys[i], name)
    decreases |keys|
  {
    if |keys| == 0 then [] else [KeyMissing(keys[0], name)] + AllMissing(keys[1..], name)
  }

  /** The key check of a sequence of keys against one dictionary object:
      each absent key once, in order, and nothing for present string keys. */
  lemma {:induction false} OneLanguageKeys(lang: LanguageEntry, m: map<string, Json>, keys: seq<string>)
    requires lang.translation == JObj(m)
    requires forall i :: 0 <= i < |keys| ==> '.' !in keys[i] && (keys[i] in m ==> m[keys[i]].JStr?)
    ensures CheckKeys(keys, [lang]) == Run(AllMissing(Keep(keys, m, false), lang.name), false)
    decreases |keys|
  {
    if |keys| > 0 {
      OneLanguageKeys(lang, m, keys[1..]);
      OneLanguageFlatKey(lang, m, keys[0]);
    }
  }

  /** A key as it is usually written: non-empty, without dots or commas,
      and with nothing for `trim` to remove. */
  predicate PlainKey(k: string) {
    k != [] && '.' !in k && ',' !in k && !IsTrimmable(k[0]) && !IsTrimmable(k[|k| - 1])
  }

  lemma TrimPlainKey(k: string)
    requires PlainKey(k)
    ensures Trim(k) == k
  {
    TrimAround([], k, []);
    assert [] + k + [] == k;
  }

  /** An object argument with a present and an absent key reports the
      absent one once. */
  lemma ObjectArgumentTwoKeys(en: LanguageEntry, m: map<string, Json>, a: string, b: string)
    requires en.translation == JObj(m) && PlainKey(a) && PlainKey(b)
    requires a in m && m[a].JStr? && b !in m
    ensures CheckArgument(ObjectExpression([Property("a", Literal(LStr(a))), Property("b", Literal(LStr(b)))]), [en])
            == Run([KeyMissing(b, en.name)], false)
  {
    TwoPropsAsKeys(a, b, [en]);
    TwoKeysChecked(en, m, a, b);
  }

  /** Two properties holding plain keys are checked as those two keys. */
  lemma TwoPropsAsKeys(a: string, b: string, langs: seq<LanguageEntry>)
    requires PlainKey(a) && PlainKey(b)
    ensures CheckArgument(ObjectExpression([Property("a", Literal(LStr(a))), Property("b", Literal(LStr(b)))]), langs)
            == CheckKeys([a, b], langs)
  {
    var props := [Property("a", Literal(LStr(a))), Property("b", Literal(LStr(b)))];
    TrimPlainKey(a);
    TrimPlainKey(b);
    CheckPropsAsKeys(props, langs);
    assert PropKeys(props) == [a, b];
  }

  lemma TwoKeysChecked(en: LanguageEntry, m: map<string, Json>, a: string, b: string)
    requires en.translation == JObj(m) && PlainKey(a) && PlainKey(b)
    requires a in m && m[a].JStr? && b !in m
    ensures CheckKeys([a, b], [en]) == Run([KeyMissing(b, en.name)], false)
  {
    var keys := [a, b];
    OneLanguageKeys(en, m, keys);
    assert keys[1..] == [b] && keys[1..][1..] == [];
    assert Keep(keys, m, false) == [b];
  }

  /** Three plain keys written comma-separated come back in order. */
  lemma ThreeKeysSplit(a: string, b: string, c: string)
    requires PlainKey(a) && PlainKey(b) && PlainKey(c)
    ensures WithTextKeys(a + [','] + b + [','] + c) == [a, b, c]
  {
    PlainKeysOfJoin([a, b, c]);
    JoinThree(a, b, c);
  }

  /** Plain keys written comma-separated come back exactly. */
  lemma PlainKeysOfJoin(parts: seq<string>)
    requires |parts| >= 1 && forall i :: 0 <= i < |parts| ==> PlainKey(parts[i])
    ensures WithTextKeys(Join(parts, ',')) == parts
  {
    WithTextKeysOfJoin(parts);
    forall i | 0 <= i < |parts| ensures Trim(parts[i]) == parts[i] {
      TrimPlainKey(parts[i]);
    }
  }

  lemma JoinThree(a: string, b: string, c: string)
    ensures Join([a, b, c], ',') == a + [','] + b + [','] + c
  {
    assert [a, b, c][1..] == [b, c];
    assert [b, c][1..] == [c];
    assert Join([c], ',') == c;
    assert Join([b, c], ',') == b + [','] + c;
  }

  /** Checking a present and two absent keys against one dictionary reports
      the absent ones in order. */
  lemma ThreeKeysChecked(en: LanguageEntry, m: map<string, Json>, a: string, b: string, c: string)
    requires en.translation == JObj(m) && PlainKey(a) && PlainKey(b) && PlainKey(c)
    requires a in m && m[a].JStr? && b !in m && c !in m
    ensures CheckKeys([a, b, c], [en]) == Run([KeyMissing(b, en.name), KeyMissing(c, en.name)], false)
  {
    var keys := [a, b, c];
    OneLanguageKeys(en, m, keys);
    var bc, cc := keys[1..], keys[2..];
    assert bc == [b, c] && cc == [c] && bc[1..] == cc && cc[1..] == [];
    assert Keep(cc, m, false) == [c];
    assert Keep(bc, m, false) == [b, c];
    assert Keep(keys, m, false) == [b, c];
  }

  /** A comma-separated string of a present and two absent keys reports the
      absent ones in order. */
  lemma StringArgumentThreeKeys(en: LanguageEntry, m: map<string, Json>, a: string, b: string, c: string)
    requires en.translation == JObj(m) && PlainKey(a) && PlainKey(b) && PlainKey(c)
    requires a in m && m[a].JStr? && b !in m && c !in m
    ensures CheckArgument(Literal(LStr(a + [','] + b + [','] + c)), [en])
            == Run([KeyMissing(b, en.name), KeyMissing(c, en.name)], false)
  {
    ThreeKeysSplit(a, b, c);
    ThreeKeysChecked(en, m, a, b, c);
  }

  lemma PlainKeyExamples(a: string, b: string, c: string)
    requires a == "helloWorld" && b == "foo" && c == "bar"
    ensures PlainKey(a) && PlainKey(b) && PlainKey(c)
  {
  }

  /** `withText({a: "helloWorld", b: "foo"})` and
      `withText("helloWorld,foo,bar")` against a dictionary holding only
      `helloWorld`. */
  lemma WithTextExamples(en: LanguageEntry, m: map<string, Json>, a: string, b: string, c: string)
    requires a == "helloWorld" && b == "foo" && c == "bar"
    requires m == map[a := JStr("Hello World")] && en == LanguageEntry("en", JObj(m))
    ensures CheckArgument(ObjectExpression([Property("a", Literal(LStr(a))), Property("b", Literal(LStr(b)))]), [en])
            == Run([KeyMissing(b, "en")], false)
    ensures CheckArgument(Literal(LStr(a + "," + b + "," + c)), [en])
            == Run([KeyMissing(b, "en"), KeyMissing(c, "en")], false)
  {
    PlainKeyExamples(a, b, c);
    assert b !in m && c !in m;
    ObjectArgumentTwoKeys(en, m, a, b);
    StringArgumentThreeKeys(en, m, a, b, c);
  }

  /** Only `one` of the second set of forms present: the first set is
      absent altogether, so the verdict names `none` and `many`. */
  lemma PartialPluralVerdict(m: map<string, Json>, key: string, name: string)
    requires m == map["one" := JStr("one thing")]
    ensures FormsVerdict(m, key, name, 0) == Some(PluralKeysMissing(["none", "many"], key, name))
  {
    var f0, f1 := PluralKeyForms[0], PluralKeyForms[1];
    assert f0[0] !in m && f0[1] !in m;
    assert NoneIn(f0, m);
    assert f1[1] in m && f1[0] !in m;
    assert !FullIn(f1, m) && !NoneIn(f1, m);
    assert Keep(f1, m, false) == ["none", "many"] by {
      var t1, t2 := f1[1..], f1[2..];
      assert t1 == ["one", "many"] && t2 == ["many"] && t2[1..] == [];
      assert Keep(t2, m, false) == ["many"];
      assert Keep(t1, m, false) == ["many"];
    }
    assert FormsVerdict(m, key, name, 1) == Some(PluralKeysMissing(["none", "many"], key, name));
  }

  /** A plural entry with only the `one` form reports the missing `none`
      and `many` forms. */
  lemma PartialPluralExample(lang: LanguageEntry, key: string, m: map<string, Json>)
    requires m == map["one" := JStr("one thing")]
    requires lang.translation == JObj(map[key := JObj(m)]) && '.' !in key
    ensures CheckForMissingKey([lang], LStr(key), Given(Some(ExpressionContainer(Literal(LNum(1))))))
            == Run([PluralKeysMissing(["none", "many"], key, lang.name)], false)
  {
    GetSegment(lang.translation, key);
    FormsOnObjectFrom(lang.translation, key, lang.name, m, 0);
    PartialPluralVerdict(m, key, lang.name);
    var plural := Given(Some(ExpressionContainer(Literal(LNum(1)))));
    assert CheckLanguage(lang, LStr(key), plural) == ScanForms(lang.translation, key, lang.name, 0);
    EachOne(lang, (l: LanguageEntry) => CheckLanguage(l, LStr(key), plural));
  }
}
