/** The template-placeholder pattern `/\{\{.*\}\}/` of the template-field
    rule. `.` matches any character except a line terminator, and the
    pattern is not anchored, so a string matches exactly when some `{{` is
    followed, later on the same line, by `}}`. */
module TemplatePattern {
  import opened Strings

  predicate OpensAt(s: string, k: int) {
    0 <= k && k + 1 < |s| && s[k] == '{' && s[k + 1] == '{'
  }

  predicate ClosesAt(s: string, j: int) {
    0 <= j && j + 1 < |s| && s[j] == '}' && s[j + 1] == '}'
  }

  /** No line terminator in s[a..b]. */
  predicate OnOneLine(s: string, a: int, b: int)
    requires 0 <= a <= b <= |s|
  {
    forall m :: a <= m < b ==> !IsLineTerminator(s[m])
  }

  /** Some `{{` ends at or before position j, with no line terminator
      between its end and j. */
  predicate OpenBefore(s: string, j: int)
    requires 0 <= j <= |s|
  {
    exists k :: 0 <= k <= j - 2 && OpensAt(s, k) && OnOneLine(s, k + 2, j)
  }

  /** The regular-expression semantics: some `}}` closes an open `{{`. */
  predicate MatchesTemplate(s: string) {
    exists j :: 0 <= j <= |s| && ClosesAt(s, j) && OpenBefore(s, j)
  }

  /** How the "open" state changes when the scan passes position i. */
  lemma OpenStep(s: string, i: int)
    requires 0 <= i < |s|
    ensures OpenBefore(s, i + 1) <==> (OpenBefore(s, i) && !IsLineTerminator(s[i])) || OpensAt(s, i - 1)
  {
    if OpenBefore(s, i + 1) {
      var k :| 0 <= k <= i - 1 && OpensAt(s, k) && OnOneLine(s, k + 2, i + 1);
      if k + 2 <= i {
        assert OnOneLine(s, k + 2, i);
      }
    }
    if OpenBefore(s, i) && !IsLineTerminator(s[i]) {
      var k :| 0 <= k <= i - 2 && OpensAt(s, k) && OnOneLine(s, k + 2, i);
      assert OnOneLine(s, k + 2, i + 1);
    }
    if OpensAt(s, i - 1) {
      assert OnOneLine(s, i + 1, i + 1);
    }
  }

  /** One left-to-right pass that remembers whether a `{{` is open on the
      current line. */
  function Scan(s: string, i: nat, open: bool): (r: bool)
    requires i <= |s|
    requires open <==> OpenBefore(s, i)
    requires forall j :: 0 <= j < i ==> !(ClosesAt(s, j) && OpenBefore(s, j))
    ensures r <==> MatchesTemplate(s)
    decreases |s| - i
  {
    if i == |s| then false
    else if open && ClosesAt(s, i) then true
    else
      OpenStep(s, i);
      Scan(s, i + 1, (open && !IsLineTerminator(s[i])) || OpensAt(s, i - 1))
  }

  /** `TEMPLATE_RE.test(s)` on a string. */
  function TemplateTest(s: string): (r: bool)
    ensures r <==> MatchesTemplate(s)
  {
    Scan(s, 0, false)
  }

  /** The example placeholder from the rule's documentation. */
  lemma PlaceholderExample()
    ensures TemplateTest("Hello {{name}}")
    ensures !TemplateTest("Hello")
  {
    var s := "Hello {{name}}";
    assert OpensAt(s, 6) && OnOneLine(s, 8, 12);
    assert OpenBefore(s, 12);
    assert ClosesAt(s, 12);
  }

  /** A line break between `{{` and `}}` defeats the match. */
  lemma LineBreakExample()
    ensures !TemplateTest("{{\n}}")
  {
    var s := "{{\n}}";
    forall j | 0 <= j <= |s| && ClosesAt(s, j)
      ensures !OpenBefore(s, j)
    {
      assert j == 3;
      forall k | OpensAt(s, k) && k + 2 <= j
        ensures !OnOneLine(s, k + 2, j)
      {
        assert k == 0;
        assert IsLineTerminator(s[2]);
      }
    }
  }
}
