/** The part of `isDisallowedTextNode` that both generations share: which
    text a node offers once unwrapped, stripped of line breaks, trimmed and
    compared with the ignore pattern, and the walk up the ancestor chain
    that exempts text under a markup-text element. */
module TextCheck {
  import opened Base
  import opened Strings
  import opened Jsx

  /** What `.replace(lineBreaks, '').trim()` leaves of a string. */
  function Clean(s: string): string {
    Trim(RemoveLineBreaks(s))
  }

  /** The text a node offers for the check, before any ancestor is looked
      at: only a non-empty string literal (possibly inside an expression
      container) has text; text that is empty once cleaned, or that the
      ignore pattern matches, is no text. */
  function CandidateText(node: Node, ignore: Option<Regex>): (r: Option<string>)
    ensures r.Some? ==> Unwrap(node).Literal? && Unwrap(node).value.LStr?
    ensures r.Some? ==> r.value == Clean(Unwrap(node).value.s)
    ensures r.Some? ==> r.value != [] && !(ignore.Some? && ignore.value(r.value))
    ensures (Unwrap(node).Literal? && Unwrap(node).value.LStr? && Clean(Unwrap(node).value.s) != []
             && !(ignore.Some? && ignore.value(Clean(Unwrap(node).value.s)))) ==> r.Some?
  {
    var u := Unwrap(node);
    if !(u.Literal? && u.value.LStr? && u.value.s != "") then None
    else
      var text := Clean(u.value.s);
      if text == "" || (ignore.Some? && ignore.value(text)) then None
      else Some(text)
  }

  /** Cleaning a text that has no line break and no white space at either end
      leaves it as it is. */
  lemma {:induction false} CleanFixed(t: string)
    requires forall k :: 0 <= k < |t| ==> !IsLineTerminator(t[k])
    requires t == [] || (!IsTrimmable(t[0]) && !IsTrimmable(t[|t| - 1]))
    ensures Clean(t) == t
  {
    assert RemoveLineBreaks(t) == t;
    if t != [] {
      assert LeadingTrimmable(t) == 0;
      assert TrailingTrimmable(t) == 0;
      assert t[0..|t| - 0] == t;
    }
  }

  /** The text that is reported is a fixed point: offered again as a literal
      of its own, it is reported unchanged. */
  lemma ReportedTextIsStable(node: Node, ignore: Option<Regex>)
    requires CandidateText(node, ignore).Some?
    ensures CandidateText(Literal(LStr(CandidateText(node, ignore).value)), ignore) == CandidateText(node, ignore)
  {
    CleanIdempotent(Unwrap(node).value.s);
  }

  /** Cleaning twice is cleaning once. */
  lemma CleanIdempotent(s: string)
    ensures Clean(Clean(s)) == Clean(s)
  {
    NoLineBreakInClean(s);
    CleanFixed(Clean(s));
  }

  /** Cleaned text holds no line terminator. */
  lemma NoLineBreakInClean(s: string)
    ensures forall k :: 0 <= k < |Clean(s)| ==> !IsLineTerminator(Clean(s)[k])
  {
    var stripped := RemoveLineBreaks(s);
    var t := Trim(stripped);
    TrimChars(stripped);
    forall k | 0 <= k < |t| ensures !IsLineTerminator(t[k]) {
      assert t[k] in t;
    }
  }

  /** Text made only of white space and line breaks is never offered. */
  lemma BlankTextIsNoText(s: string, ignore: Option<Regex>)
    requires AllTrimmable(s)
    ensures CandidateText(Literal(LStr(s)), ignore).None?
    ensures CandidateText(ExpressionContainer(Literal(LStr(s))), ignore).None?
  {
    var r := RemoveLineBreaks(s);
    assert forall k :: 0 <= k < |r| ==> r[k] in s;
  }

  /** An expression container around a literal is looked through. */
  lemma ContainerTransparent(v: LitValue, ignore: Option<Regex>)
    ensures CandidateText(ExpressionContainer(Literal(v)), ignore) == CandidateText(Literal(v), ignore)
  {
  }

  /** Removing line breaks from a blank string leaves a blank string. */
  lemma BlankStaysBlank(s: string)
    requires AllTrimmable(s)
    ensures AllTrimmable(RemoveLineBreaks(s))
  {
    var r := RemoveLineBreaks(s);
    assert forall k :: 0 <= k < |r| ==> r[k] in s;
  }

  /** Cleaning keeps exactly the middle of a text whose margins are blank and
      whose middle has no line break and no blank at either end. */
  lemma CleanAround(pre: string, mid: string, post: string)
    requires AllTrimmable(pre) && AllTrimmable(post)
    requires mid != [] && !IsTrimmable(mid[0]) && !IsTrimmable(mid[|mid| - 1])
    requires forall k :: 0 <= k < |mid| ==> !IsLineTerminator(mid[k])
    ensures Clean(pre + mid + post) == mid
  {
    RemoveLineBreaksAppend(pre, mid);
    RemoveLineBreaksAppend(pre + mid, post);
    BlankStaysBlank(pre);
    BlankStaysBlank(post);
    TrimAround(RemoveLineBreaks(pre), mid, RemoveLineBreaks(post));
  }

  /** Cleaning the text of the utility tests. */
  lemma CleanExample(s: string)
    requires s == "  some stuff \n\r  "
    ensures Clean(s) == "some stuff"
  {
    var pre, mid, post := "  ", "some stuff", " \n\r  ";
    assert s == pre + mid + post;
    assert AllTrimmable(pre) && AllTrimmable(post);
    assert !IsTrimmable(mid[0]) by {
      assert mid[0] == 's';
    }
    assert !IsTrimmable(mid[|mid| - 1]) by {
      assert mid[|mid| - 1] == 'f';
    }
    assert forall k :: 0 <= k < |mid| ==> !IsLineTerminator(mid[k]);
    CleanAround(pre, mid, post);
  }

  /** The examples of the utility tests: surrounding blanks and line breaks
      are dropped, also inside an expression container. */
  lemma CandidateExamples(s: string)
    requires s == "  some stuff \n\r  "
    ensures CandidateText(Literal(LStr(s)), None) == Some("some stuff")
    ensures CandidateText(ExpressionContainer(Literal(LStr(s))), None) == Some("some stuff")
  {
    CleanExample(s);
    LiteralText(s, "some stuff");
  }

  /** A string literal whose cleaned text t is not empty offers t, bare or
      inside an expression container, when nothing is ignored. */
  lemma LiteralText(s: string, t: string)
    requires Clean(s) == t && t != []
    ensures CandidateText(Literal(LStr(s)), None) == Some(t)
    ensures CandidateText(ExpressionContainer(Literal(LStr(s))), None) == Some(t)
  {
  }

  /** The utility tests' ignored text: once cleaned it matches the ignore
      pattern, so it is no text. */
  lemma IgnoredExample(s: string)
    requires s == "  some stuff \n\r  "
    ensures CandidateText(Literal(LStr(s)), Some((t: string) => t == "some stuff")) == None
  {
    var re := (t: string) => t == "some stuff";
    CleanExample(s);
    assert re(Clean(s));
    IgnoredLiteral(s, re);
  }

  /** A string literal whose cleaned text the ignore pattern matches offers
      nothing. */
  lemma IgnoredLiteral(s: string, re: Regex)
    requires re(Clean(s))
    ensures CandidateText(Literal(LStr(s)), Some(re)) == None
  {
  }

  /** A text without line breaks or blanks at either end is its own
      candidate text when nothing is ignored. */
  lemma WordIsText(t: string)
    requires t != []
    requires forall k :: 0 <= k < |t| ==> !IsLineTerminator(t[k])
    requires !IsTrimmable(t[0]) && !IsTrimmable(t[|t| - 1])
    ensures CandidateText(Literal(LStr(t)), None) == Some(t)
  {
    CleanFixed(t);
  }

  /** A node that is not a literal has no text. */
  lemma NonLiteralHasNoText(kind: string, ignore: Option<Regex>)
    ensures CandidateText(OtherNode(kind), ignore) == None
  {
  }

  /** The `while ((current = current.parent))` walk from position i of the
      ancestor chain on: whether some node there is exempting. */
  function ExemptFrom(chain: seq<Node>, i: nat, exempting: Node -> bool): (r: bool)
    requires i <= |chain|
    ensures r <==> exists j :: i <= j < |chain| && exempting(chain[j])
    decreases |chain| - i
  {
    if i == |chain| then false
    else if exempting(chain[i]) then true
    else ExemptFrom(chain, i + 1, exempting)
  }

  /** Both generations of `isDisallowedTextNode`, given what "exempting"
      means: with no exemption configured the candidate text is reported,
      otherwise only when no node on the ancestor chain is exempting. */
  function Disallowed(node: Node, chain: seq<Node>, ignore: Option<Regex>,
                      exempting: Option<Node -> bool>): (r: Option<string>)
    ensures r.Some? ==> r == CandidateText(node, ignore)
    ensures CandidateText(node, ignore).None? ==> r.None?
    ensures CandidateText(node, ignore).Some? && exempting.None? ==> r.Some?
    ensures CandidateText(node, ignore).Some? && exempting.Some? ==>
              (r.None? <==> exists j :: 0 <= j < |chain| && exempting.value(chain[j]))
  {
    match CandidateText(node, ignore)
    case None => None
    case Some(text) =>
      if exempting.None? then Some(text)
      else if ExemptFrom(chain, 0, exempting.value) then None
      else Some(text)
  }
}
