/**
 * Character classes and trimming used by the page's field validators.
 *
 * JavaScript's `\s` and `String.prototype.trim` share one whitespace set;
 * this model fixes it to the ASCII members of that set.
 */
module Text {

  /** The ASCII whitespace characters: space, tab, line feed, vertical tab, form feed, carriage return. */
  predicate IsSpace(c: char)
  {
    c == ' ' || c == '\t' || c == '\n' || c == '\U{000B}' || c == '\U{000C}' || c == '\r'
  }

  /** The regex class `[a-zA-Z]`. */
  predicate IsLetter(c: char)
  {
    ('a' <= c <= 'z') || ('A' <= c <= 'Z')
  }

  /** The regex class `[A-Z]`. */
  predicate IsUpper(c: char)
  {
    'A' <= c <= 'Z'
  }

  /** The regex class `[0-9]`. */
  predicate IsDigit(c: char)
  {
    '0' <= c <= '9'
  }

  /** Whether every character of `s` satisfies `p`, decided one character at a time. */
  function AllChars(s: string, p: char -> bool): (r: bool)
    ensures r <==> forall k :: 0 <= k < |s| ==> p(s[k])
  {
    if s == [] then true
    else p(s[0]) && AllChars(s[1..], p)
  }

  /** Whether some character of `s` satisfies `p` (an unanchored one-class regex test). */
  function AnyChar(s: string, p: char -> bool): (r: bool)
    ensures r <==> exists k :: 0 <= k < |s| && p(s[k])
  {
    if s == [] then false
    else p(s[0]) || AnyChar(s[1..], p)
  }

  /** Position of the first `c` in `s`, or `|s|` when there is none. */
  function IndexOf(s: string, c: char): (i: nat)
    ensures i <= |s|
    ensures i < |s| ==> s[i] == c
    ensures forall k :: 0 <= k < i ==> s[k] != c
  {
    if s == [] then 0
    else if s[0] == c then 0
    else 1 + IndexOf(s[1..], c)
  }

  /** Number of whitespace characters at the start of `s`. */
  function LeadingSpace(s: string): (n: nat)
    ensures n <= |s|
    ensures forall k :: 0 <= k < n ==> IsSpace(s[k])
    ensures n < |s| ==> !IsSpace(s[n])
  {
    if s == [] || !IsSpace(s[0]) then 0
    else 1 + LeadingSpace(s[1..])
  }

  /** Number of whitespace characters at the end of `s`. */
  function TrailingSpace(s: string): (n: nat)
    ensures n <= |s|
    ensures forall k :: |s| - n <= k < |s| ==> IsSpace(s[k])
    ensures n < |s| ==> !IsSpace(s[|s| - 1 - n])
  {
    if s == [] || !IsSpace(s[|s| - 1]) then 0
    else 1 + TrailingSpace(s[..|s| - 1])
  }

  /**
   * `String.prototype.trim`: `s` without its leading and trailing whitespace.
   * The result is the slice of `s` that starts after its leading whitespace,
   * everything cut away is whitespace,
   * and the result neither starts nor ends with whitespace.
   */
  function Trim(s: string): (t: string)
    ensures LeadingSpace(s) + |t| <= |s| && t == s[LeadingSpace(s)..LeadingSpace(s) + |t|]
    ensures forall k :: LeadingSpace(s) + |t| <= k < |s| ==> IsSpace(s[k])
    ensures t != [] ==> !IsSpace(t[0]) && !IsSpace(t[|t| - 1])
    ensures t == [] <==> forall k :: 0 <= k < |s| ==> IsSpace(s[k])
  {
    var lead := LeadingSpace(s);
    var rest := s[lead..];
    var t := rest[..|rest| - TrailingSpace(rest)];
    assert t == s[lead..lead + |t|];
    assert lead < |s| ==> t != [] by {
      if lead < |s| {
        assert rest[0] == s[lead];
        assert TrailingSpace(rest) < |rest|;
      }
    }
    t
  }

  /** Trimming twice is trimming once. */
  lemma TrimIdempotent(s: string)
    ensures Trim(Trim(s)) == Trim(s)
  {
  }

  /** Trimming removes exactly the whitespace padding around a value that is not itself padded. */
  lemma TrimPadded(pre: string, body: string, post: string)
    requires forall k :: 0 <= k < |pre| ==> IsSpace(pre[k])
    requires forall k :: 0 <= k < |post| ==> IsSpace(post[k])
    requires body != [] && !IsSpace(body[0]) && !IsSpace(body[|body| - 1])
    ensures Trim(pre + body + post) == body
  {
    var s := pre + body + post;
    var lead := LeadingSpace(s);
    var t := Trim(s);
    assert s[|pre|] == body[0];
    assert lead == |pre|;
    assert s[|pre| + |body| - 1] == body[|body| - 1];
    assert t != [] by {
      assert !IsSpace(s[|pre|]);
    }
    assert t[|t| - 1] == s[lead + |t| - 1];
    assert |t| == |body|;
    assert s[|pre|..|pre| + |body|] == body;
  }

  /** A string that neither starts nor ends with whitespace is left as it is by trimming. */
  lemma TrimUnpadded(s: string)
    requires s != [] && !IsSpace(s[0]) && !IsSpace(s[|s| - 1])
    ensures Trim(s) == s
  {
  }
}
