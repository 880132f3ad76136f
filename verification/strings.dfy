/** JavaScript string operations the rules rely on: `String.prototype.split`
    on a one-character separator, `String.prototype.trim`, and the global
    line-break matcher the text scanner removes before trimming. */
module Strings {

  /** `s.split(sep)` for a one-character separator: the pieces between
      separators, in order. Splitting the empty string gives one empty
      piece, and a trailing separator gives a trailing empty piece. */
  function Split(s: string, sep: char): (r: seq<string>)
    ensures |r| >= 1
    ensures forall i :: 0 <= i < |r| ==> sep !in r[i]
    decreases |s|
  {
    if |s| == 0 then [""]
    else
      var rest := Split(s[1..], sep);
      if s[0] == sep then [""] + rest
      else [[s[0]] + rest[0]] + rest[1..]
  }

  /** `parts.join(sep)`: the inverse of Split. */
  function Join(parts: seq<string>, sep: char): string
    requires |parts| >= 1
  {
    if |parts| == 1 then parts[0] else parts[0] + [sep] + Join(parts[1..], sep)
  }

  /** Joining the pieces of a split gives back the string. */
  lemma {:induction false} JoinSplit(s: string, sep: char)
    ensures Join(Split(s, sep), sep) == s
    decreases |s|
  {
    if |s| > 0 {
      var rest := Split(s[1..], sep);
      JoinSplit(s[1..], sep);
      if s[0] == sep {
        assert Split(s, sep) == [""] + rest;
        assert ([""] + rest)[1..] == rest;
      } else {
        var r := Split(s, sep);
        assert r == [[s[0]] + rest[0]] + rest[1..];
        if |rest| > 1 {
          assert r[1..] == rest[1..];
          assert Join(rest, sep) == rest[0] + [sep] + Join(rest[1..], sep);
        }
      }
    }
  }

  /** A string without the separator splits into itself alone. */
  lemma {:induction false} SplitNoSeparator(s: string, sep: char)
    requires sep !in s
    ensures Split(s, sep) == [s]
    decreases |s|
  {
    if |s| > 0 {
      assert sep !in s[1..];
      SplitNoSeparator(s[1..], sep);
      assert [s[0]] + s[1..] == s;
    }
  }

  /** Splitting `p + sep + t` with no separator in `p` peels `p` off first. */
  lemma {:induction false} SplitPrefix(p: string, sep: char, t: string)
    requires sep !in p
    ensures Split(p + [sep] + t, sep) == [p] + Split(t, sep)
    decreases |p|
  {
    var s := p + [sep] + t;
    if |p| == 0 {
      assert s == [sep] + t;
      assert s[1..] == t;
    } else {
      assert s[1..] == p[1..] + [sep] + t;
      assert sep !in p[1..];
      SplitPrefix(p[1..], sep, t);
      assert [p[0]] + p[1..] == p;
    }
  }

  /** Splitting `s + sep + p` with no separator in `p` appends `p` as a last
      piece: the key of a plural member is the key's path plus one segment. */
  lemma {:induction false} SplitAppend(s: string, sep: char, p: string)
    requires sep !in p
    ensures Split(s + [sep] + p, sep) == Split(s, sep) + [p]
    decreases |s|
  {
    var w := s + [sep] + p;
    if |s| == 0 {
      assert w == [sep] + p;
      assert w[1..] == p;
      SplitNoSeparator(p, sep);
    } else {
      assert w[1..] == s[1..] + [sep] + p;
      SplitAppend(s[1..], sep, p);
      var rest := Split(s[1..], sep);
      if s[0] != sep {
        assert (rest + [p])[0] == rest[0];
        assert (rest + [p])[1..] == rest[1..] + [p];
      }
    }
  }

  /** Split and Join are inverse on non-empty lists of separator-free pieces. */
  lemma {:induction false} SplitJoin(parts: seq<string>, sep: char)
    requires |parts| >= 1
    requires forall i :: 0 <= i < |parts| ==> sep !in parts[i]
    ensures Split(Join(parts, sep), sep) == parts
    decreases |parts|
  {
    if |parts| == 1 {
      SplitNoSeparator(parts[0], sep);
    } else {
      SplitJoin(parts[1..], sep);
      SplitPrefix(parts[0], sep, Join(parts[1..], sep));
      assert [parts[0]] + parts[1..] == parts;
    }
  }

  /** ECMAScript LineTerminator code points: LF, CR, LS and PS. */
  predicate IsLineTerminator(c: char) {
    c == '\n' || c == '\r' || c == '\U{2028}' || c == '\U{2029}'
  }

  /** ECMAScript WhiteSpace code points: TAB, VT, FF, SP, NBSP, ZWNBSP and
      the Unicode space separators. */
  predicate IsWhiteSpace(c: char) {
    || c == '\t' || c == '\U{000B}' || c == '\U{000C}' || c == ' '
    || c == '\U{00A0}' || c == '\U{FEFF}' || c == '\U{1680}'
    || ('\U{2000}' <= c <= '\U{200A}')
    || c == '\U{202F}' || c == '\U{205F}' || c == '\U{3000}'
  }

  /** What `String.prototype.trim` strips from both ends. */
  predicate IsTrimmable(c: char) {
    IsWhiteSpace(c) || IsLineTerminator(c)
  }

  predicate AllTrimmable(s: string) {
    forall k :: 0 <= k < |s| ==> IsTrimmable(s[k])
  }

  /** `s.replace(linebreakMatcher, '')`: every line terminator removed (the
      matcher's `\r\n` alternative removes the same characters as its
      single-character ones). */
  function RemoveLineBreaks(s: string): (r: string)
    ensures |r| <= |s|
    ensures forall k :: 0 <= k < |r| ==> !IsLineTerminator(r[k])
    ensures forall c :: c in r <==> c in s && !IsLineTerminator(c)
    ensures (forall k :: 0 <= k < |s| ==> !IsLineTerminator(s[k])) ==> r == s
  {
    if |s| == 0 then []
    else
      var rest := RemoveLineBreaks(s[1..]);
      assert forall c :: c in s <==> c == s[0] || c in s[1..];
      if IsLineTerminator(s[0]) then rest else [s[0]] + rest
  }

  /** Line-break removal works piece by piece. */
  lemma {:induction false} RemoveLineBreaksAppend(a: string, b: string)
    ensures RemoveLineBreaks(a + b) == RemoveLineBreaks(a) + RemoveLineBreaks(b)
    decreases |a|
  {
    if |a| > 0 {
      assert (a + b)[0] == a[0];
      assert (a + b)[1..] == a[1..] + b;
      RemoveLineBreaksAppend(a[1..], b);
    } else {
      assert a + b == b;
    }
  }

  /** The number of leading characters `trim` removes. */
  function LeadingTrimmable(s: string): (n: nat)
    ensures n <= |s|
    ensures AllTrimmable(s[..n])
    ensures n == |s| || !IsTrimmable(s[n])
    decreases |s|
  {
    if |s| == 0 || !IsTrimmable(s[0]) then 0
    else
      var n := 1 + LeadingTrimmable(s[1..]);
      assert forall k :: 1 <= k < n ==> s[k] == s[1..][k - 1];
      n
  }

  /** The number of trailing characters `trim` removes. */
  function TrailingTrimmable(s: string): (n: nat)
    ensures n <= |s|
    ensures AllTrimmable(s[|s| - n..])
    ensures n == |s| || !IsTrimmable(s[|s| - n - 1])
    decreases |s|
  {
    if |s| == 0 || !IsTrimmable(s[|s| - 1]) then 0
    else
      var n := 1 + TrailingTrimmable(s[..|s| - 1]);
      assert forall k :: |s| - n <= k < |s| - 1 ==> s[k] == s[..|s| - 1][k];
      n
  }

  /** `s.trim()`: the longest middle slice of `s` that neither starts nor
      ends with white space or a line terminator. */
  function Trim(s: string): (r: string)
    ensures |r| <= |s|
    ensures r == [] || (!IsTrimmable(r[0]) && !IsTrimmable(r[|r| - 1]))
    ensures r == [] <==> AllTrimmable(s)
  {
    var a := LeadingTrimmable(s);
    if a == |s| then
      assert s[..a] == s;
      assert s == s[..0] + s[0..];
      []
    else
      var b := TrailingTrimmable(s);
      MiddleSlice(s, a, b);
      s[a..|s| - b]
  }

  /** Between a trimmable prefix ending before a non-trimmable character and
      a trimmable suffix lies a non-empty slice that `Trim` may return. */
  lemma MiddleSlice(s: string, a: nat, b: nat)
    requires a < |s| && b <= |s|
    requires AllTrimmable(s[..a]) && !IsTrimmable(s[a])
    requires AllTrimmable(s[|s| - b..]) && (b == |s| || !IsTrimmable(s[|s| - b - 1]))
    ensures a < |s| - b
    ensures var r := s[a..|s| - b];
            r != [] && !IsTrimmable(r[0]) && !IsTrimmable(r[|r| - 1]) && !AllTrimmable(s)
            && 0 <= a <= |s| - |r| && r == s[a..a + |r|] && AllTrimmable(s[..a]) && AllTrimmable(s[a + |r|..])
  {
  }

  /** What `Trim` returns is a slice of its input with only trimmable
      characters before and after it. */
  lemma TrimIsMiddleSlice(s: string)
    ensures exists i :: 0 <= i <= |s| - |Trim(s)| && Trim(s) == s[i..i + |Trim(s)|]
                        && AllTrimmable(s[..i]) && AllTrimmable(s[i + |Trim(s)|..])
  {
    var a := LeadingTrimmable(s);
    if a == |s| {
      assert Trim(s) == s[a..a + 0] && s[a + 0..] == [];
    } else {
      MiddleSlice(s, a, TrailingTrimmable(s));
    }
  }

  /** Trimming keeps only characters of the input. */
  lemma TrimChars(s: string)
    ensures forall c :: c in Trim(s) ==> c in s
  {
    var t := Trim(s);
    var a := LeadingTrimmable(s);
    if a < |s| {
      var b := TrailingTrimmable(s);
      assert t == s[a..|s| - b];
      forall c | c in t ensures c in s {
        var k :| 0 <= k < |t| && t[k] == c;
        assert s[a + k] == c;
      }
    }
  }

  /** Trimming twice is trimming once. */
  lemma TrimIdempotent(s: string)
    ensures Trim(Trim(s)) == Trim(s)
  {
  }

  /** A blank prefix adds its length to the leading count. */
  lemma {:induction false} LeadingOverBlank(pre: string, rest: string)
    requires AllTrimmable(pre)
    requires rest != [] && !IsTrimmable(rest[0])
    ensures LeadingTrimmable(pre + rest) == |pre|
    decreases |pre|
  {
    var s := pre + rest;
    if |pre| == 0 {
      assert s == rest;
    } else {
      assert s[0] == pre[0];
      assert s[1..] == pre[1..] + rest;
      LeadingOverBlank(pre[1..], rest);
    }
  }

  /** A blank suffix adds its length to the trailing count. */
  lemma {:induction false} TrailingOverBlank(rest: string, post: string)
    requires AllTrimmable(post)
    requires rest != [] && !IsTrimmable(rest[|rest| - 1])
    ensures TrailingTrimmable(rest + post) == |post|
    decreases |post|
  {
    var s := rest + post;
    if |post| == 0 {
      assert s == rest;
    } else {
      assert s[|s| - 1] == post[|post| - 1];
      assert s[..|s| - 1] == rest + post[..|post| - 1];
      TrailingOverBlank(rest, post[..|post| - 1]);
    }
  }

  /** `trim` removes exactly the blank margins around a middle part that
      starts and ends with something else. */
  lemma TrimAround(pre: string, mid: string, post: string)
    requires AllTrimmable(pre) && AllTrimmable(post)
    requires mid != [] && !IsTrimmable(mid[0]) && !IsTrimmable(mid[|mid| - 1])
    ensures Trim(pre + mid + post) == mid
  {
    var s := pre + mid + post;
    assert s == pre + (mid + post);
    assert (mid + post)[0] == mid[0];
    LeadingOverBlank(pre, mid + post);
    TrailingOverBlank(pre + mid, post);
    assert s[|pre|..|s| - |post|] == mid;
  }
}
