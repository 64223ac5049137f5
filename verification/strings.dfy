/**
 Character-level helpers shared by the node accessors and the parser:
 whitespace stripping (the parser's XML-mode text policy) and ASCII case
 folding (the word comparisons of `boolAttr` and `boolValue`).
 */
module Strings {

  /** The characters the XML-mode text policy treats as whitespace. */
  predicate IsWhitespace(c: char) {
    c == ' ' || c == '\t' || c == '\n' || c == '\U{0B}' || c == '\U{0C}' || c == '\r'
  }

  predicate AllWhitespace(s: string) {
    forall i :: 0 <= i < |s| ==> IsWhitespace(s[i])
  }

  /** `s` neither starts nor ends with whitespace. */
  predicate Stripped(s: string) {
    |s| == 0 || (!IsWhitespace(s[0]) && !IsWhitespace(s[|s| - 1]))
  }

  /** Length of the longest all-whitespace prefix of `s`. */
  function LeadingWhitespace(s: string): (k: nat)
    ensures k <= |s|
    ensures AllWhitespace(s[..k])
    ensures k < |s| ==> !IsWhitespace(s[k])
  {
    if |s| > 0 && IsWhitespace(s[0]) then
      var k' := LeadingWhitespace(s[1..]);
      assert s[..k' + 1] == [s[0]] + s[1..][..k'];
      k' + 1
    else
      0
  }

  /** Length of the longest all-whitespace suffix of `s`. */
  function TrailingWhitespace(s: string): (k: nat)
    ensures k <= |s|
    ensures AllWhitespace(s[|s| - k..])
    ensures k < |s| ==> !IsWhitespace(s[|s| - k - 1])
  {
    if |s| > 0 && IsWhitespace(s[|s| - 1]) then
      var init := s[..|s| - 1];
      var k' := TrailingWhitespace(init);
      assert AllWhitespace(s[|s| - (k' + 1)..]) by {
        var tail := s[|s| - (k' + 1)..];
        forall i | 0 <= i < |tail| ensures IsWhitespace(tail[i]) {
          if i < k' {
            assert tail[i] == init[|init| - k'..][i];
          }
        }
      }
      k' + 1
    else
      0
  }

  /**
   Removes leading and trailing whitespace. This is the single place that
   defines what "strip whitespace" means for parsed text.
   */
  function Strip(s: string): (r: string)
    ensures |r| <= |s|
    ensures Stripped(r)
    ensures r == [] <==> AllWhitespace(s)
  {
    var lead := LeadingWhitespace(s);
    var rest := s[lead..];
    var trail := TrailingWhitespace(rest);
    var r := rest[..|rest| - trail];
    assert AllWhitespace(s) ==> lead == |s|;
    r
  }

  /**
   Strip undoes exactly whitespace padding: padding a stripped string with
   whitespace on both sides and stripping gives the string back.
   */
  lemma StripRemovesPadding(pre: string, t: string, post: string)
    requires AllWhitespace(pre) && AllWhitespace(post)
    requires Stripped(t)
    ensures Strip(pre + t + post) == t
  {
    var s := pre + t + post;
    var lead := LeadingWhitespace(s);
    if t == [] {
      assert AllWhitespace(s) by {
        forall i | 0 <= i < |s| ensures IsWhitespace(s[i]) {
          if i < |pre| { assert s[i] == pre[i]; } else { assert s[i] == post[i - |pre|]; }
        }
      }
    } else {
      assert s[|pre|] == t[0];
      assert lead == |pre|;
      var rest := s[lead..];
      assert rest == t + post;
      var trail := TrailingWhitespace(rest);
      assert rest[|t| - 1] == t[|t| - 1];
      assert trail == |post|;
      assert rest[..|rest| - trail] == t;
    }
  }

  /** A string without surrounding whitespace is left unchanged by Strip. */
  lemma StripKeepsStripped(t: string)
    requires Stripped(t)
    ensures Strip(t) == t
  {
    StripRemovesPadding([], t, []);
    assert [] + t + [] == t;
  }

  /** Stripping twice is the same as stripping once. */
  lemma StripIdempotent(s: string)
    ensures Strip(Strip(s)) == Strip(s)
  {
    StripKeepsStripped(Strip(s));
  }

  /** ASCII lower-casing of one character. */
  function Lower(c: char): char {
    if 'A' <= c <= 'Z' then (c as int + 32) as char else c
  }

  /** ASCII case folding, character by character. */
  function FoldCase(s: string): (r: string)
    ensures |r| == |s|
    ensures forall i :: 0 <= i < |s| ==> r[i] == Lower(s[i])
  {
    seq(|s|, i requires 0 <= i < |s| => Lower(s[i]))
  }

  /** ASCII upper-casing of one character. */
  function Upper(c: char): char {
    if 'a' <= c <= 'z' then (c as int - 32) as char else c
  }

  /** `s` spells `w` with any mix of upper- and lower-case letters. */
  predicate CaseFormOf(s: string, w: string) {
    |s| == |w| && forall i :: 0 <= i < |s| ==> s[i] == w[i] || s[i] == Upper(w[i])
  }

  /**
   For a word written in lower case, folding `s` gives the word exactly when
   `s` is some case form of it.
   */
  lemma FoldCaseMatchesAnyForm(s: string, w: string)
    requires FoldCase(w) == w
    ensures FoldCase(s) == w <==> CaseFormOf(s, w)
  {
  }
}
