/** The attribute scan shared by both generations of
    `getI18nAttributeNodes`: walk the opening element's attributes in order
    and keep the id literal, the raw plural value and the raw fields value
    under the given attribute names. */
module AttributeNodes {
  import opened Base
  import opened Jsx

  /** `idNode`: `undefined` when no id attribute was seen, `false` when the
      last one does not hold a literal, else that literal. */
  datatype IdNode = IdUndefined | IdFalse | IdLiteral(value: LitValue)

  /** A raw captured attribute value: `undefined` when never captured, else
      the attribute's value, which is `null` (`None`) for a bare attribute. */
  datatype Slot = Unset | Given(value: Option<Node>)

  datatype Captured = Captured(idNode: IdNode, pluralNode: Slot, fieldsNode: Slot)

  /** The attribute names that carry the id, the plural count and the fields. */
  datatype AttributeNames = AttributeNames(id: string, plural: string, fields: string)

  const NothingCaptured := Captured(IdUndefined, Unset, Unset)

  /** JavaScript truthiness of `idNode`: only a literal node is truthy. */
  predicate IdTruthy(n: IdNode) { n.IdLiteral? }

  /** JavaScript truthiness of a captured raw value: a node object. */
  predicate SlotTruthy(s: Slot) { s.Given? && s.value.Some? }

  /** What the id attribute's value makes of `idNode`. */
  function IdOf(value: Node): IdNode {
    var u := Unwrap(value);
    if u.Literal? then IdLiteral(u.value) else IdFalse
  }

  /** A non-spread attribute called `n`. */
  predicate Named(a: Attribute, n: string) {
    a.JsxAttribute? && a.name == n
  }

  /** Attribute i is the last one called n. */
  predicate LastNamed(attrs: seq<Attribute>, i: int, n: string) {
    0 <= i < |attrs| && Named(attrs[i], n) && forall j :: i < j < |attrs| ==> !Named(attrs[j], n)
  }

  predicate NoneNamed(attrs: seq<Attribute>, n: string) {
    forall j :: 0 <= j < |attrs| ==> !Named(attrs[j], n)
  }

  /** The raw value of the last attribute called `n`, unset when there is
      none: what the scan keeps under a name no earlier-tested name claims. */
  function LastSlot(attrs: seq<Attribute>, n: string): (s: Slot)
    ensures s.Unset? <==> NoneNamed(attrs, n)
    ensures forall i :: LastNamed(attrs, i, n) ==> s == Given(attrs[i].value)
    ensures s.Given? ==> exists i :: LastNamed(attrs, i, n) && s == Given(attrs[i].value)
    decreases |attrs|
  {
    if |attrs| == 0 then Unset
    else if Named(attrs[|attrs| - 1], n) then Given(attrs[|attrs| - 1].value)
    else
      var pre := attrs[..|attrs| - 1];
      assert forall j :: 0 <= j < |pre| ==> pre[j] == attrs[j];
      assert forall i :: LastNamed(attrs, i, n) ==> LastNamed(pre, i, n);
      assert forall i :: LastNamed(pre, i, n) ==> LastNamed(attrs, i, n);
      LastSlot(pre, n)
  }

  /** When no last attribute called `n` holds `v`, the captured slot is not `v`. */
  lemma LastSlotAvoids(attrs: seq<Attribute>, n: string, v: Option<Node>)
    requires forall k :: LastNamed(attrs, k, n) ==> attrs[k].value != v
    ensures LastSlot(attrs, n) != Given(v)
  {
  }

  /** Some attribute called n is written without a value. */
  predicate BareNamed(attrs: seq<Attribute>, n: string) {
    exists i :: 0 <= i < |attrs| && Named(attrs[i], n) && attrs[i].value.None?
  }

  /** One step of the `forEach`: the id name is tested first, then the
      plural name, then the fields name. */
  function Step(acc: Captured, a: Attribute, names: AttributeNames): Js<Captured> {
    match a
    case SpreadAttribute(_) => Ok(acc)
    case JsxAttribute(n, v) =>
      if n == names.id then
        (match v
         case None => Thrown        // `value.type` of a bare id attribute
         case Some(node) => Ok(acc.(idNode := IdOf(node))))
      else if n == names.plural then Ok(acc.(pluralNode := Given(v)))
      else if n == names.fields then Ok(acc.(fieldsNode := Given(v)))
      else Ok(acc)
  }

  /** The whole `forEach` over the attributes, later attributes overwriting
      earlier ones. */
  function Scan(attrs: seq<Attribute>, names: AttributeNames): Js<Captured>
    decreases |attrs|
  {
    if |attrs| == 0 then Ok(NothingCaptured)
    else
      match Scan(attrs[..|attrs| - 1], names)
      case Thrown => Thrown
      case Ok(acc) => Step(acc, attrs[|attrs| - 1], names)
  }

  /** The scan throws exactly when some id attribute has no value. */
  lemma {:induction false} ScanThrows(attrs: seq<Attribute>, names: AttributeNames)
    ensures Scan(attrs, names).Thrown? <==> BareNamed(attrs, names.id)
    decreases |attrs|
  {
    if |attrs| > 0 {
      var pre := attrs[..|attrs| - 1];
      ScanThrows(pre, names);
      assert forall j :: 0 <= j < |pre| ==> pre[j] == attrs[j];
    }
  }

  /** `idNode` comes from the last id attribute, and is `undefined` exactly
      when there is none. */
  lemma {:induction false} ScanId(attrs: seq<Attribute>, names: AttributeNames)
    ensures Scan(attrs, names).Ok? ==>
              (Scan(attrs, names).value.idNode.IdUndefined? <==> NoneNamed(attrs, names.id))
    ensures forall i :: Scan(attrs, names).Ok? && LastNamed(attrs, i, names.id) && attrs[i].value.Some? ==>
              Scan(attrs, names).value.idNode == IdOf(attrs[i].value.value)
    decreases |attrs|
  {
    if |attrs| > 0 {
      var pre := attrs[..|attrs| - 1];
      ScanId(pre, names);
      assert forall j :: 0 <= j < |pre| ==> pre[j] == attrs[j];
      if !Named(attrs[|attrs| - 1], names.id) {
        assert forall i :: LastNamed(attrs, i, names.id) ==> LastNamed(pre, i, names.id);
      }
    }
  }

  /** `pluralNode` is the raw value of the last plural attribute, unless the
      plural name is the id name, which the id test claims first. */
  lemma {:induction false} ScanPlural(attrs: seq<Attribute>, names: AttributeNames)
    ensures Scan(attrs, names).Ok? && names.plural == names.id ==> Scan(attrs, names).value.pluralNode.Unset?
    ensures Scan(attrs, names).Ok? && names.plural != names.id ==>
              (Scan(attrs, names).value.pluralNode.Unset? <==> NoneNamed(attrs, names.plural))
    ensures forall i :: Scan(attrs, names).Ok? && names.plural != names.id && LastNamed(attrs, i, names.plural) ==>
              Scan(attrs, names).value.pluralNode == Given(attrs[i].value)
    decreases |attrs|
  {
    if |attrs| > 0 {
      var pre := attrs[..|attrs| - 1];
      ScanPlural(pre, names);
      assert forall j :: 0 <= j < |pre| ==> pre[j] == attrs[j];
      if !Named(attrs[|attrs| - 1], names.plural) {
        assert forall i :: LastNamed(attrs, i, names.plural) ==> LastNamed(pre, i, names.plural);
      }
    }
  }

  /** `fieldsNode` is the raw value of the last fields attribute, unless the
      fields name is the id or the plural name, which are tested first. */
  lemma {:induction false} ScanFields(attrs: seq<Attribute>, names: AttributeNames)
    ensures Scan(attrs, names).Ok? && (names.fields == names.id || names.fields == names.plural) ==>
              Scan(attrs, names).value.fieldsNode.Unset?
    ensures Scan(attrs, names).Ok? && names.fields != names.id && names.fields != names.plural ==>
              (Scan(attrs, names).value.fieldsNode.Unset? <==> NoneNamed(attrs, names.fields))
    ensures forall i :: Scan(attrs, names).Ok? && names.fields != names.id && names.fields != names.plural
                        && LastNamed(attrs, i, names.fields) ==>
              Scan(attrs, names).value.fieldsNode == Given(attrs[i].value)
    decreases |attrs|
  {
    if |attrs| > 0 {
      var pre := attrs[..|attrs| - 1];
      ScanFields(pre, names);
      assert forall j :: 0 <= j < |pre| ==> pre[j] == attrs[j];
      if !Named(attrs[|attrs| - 1], names.fields) {
        assert forall i :: LastNamed(attrs, i, names.fields) ==> LastNamed(pre, i, names.fields);
      }
    }
  }

  /** Spread attributes never change what is captured. */
  lemma SpreadIgnored(attrs: seq<Attribute>, arg: Node, names: AttributeNames)
    ensures Scan(attrs + [SpreadAttribute(arg)], names) == Scan(attrs, names)
  {
    assert (attrs + [SpreadAttribute(arg)])[..|attrs|] == attrs;
  }
}
