/** The string sanitizers and validators that the controllers' validation
    chains apply to form fields: `trim()`, `escape()` and `isAlphanumeric()`. */
module Text {

  /** Whitespace as the `\s` class of JavaScript regular expressions sees it. */
  const Whitespace: set<char> := {
    ' ', '\t', '\n', '\U{B}', '\U{C}', '\r', '\U{A0}', '\U{1680}',
    '\U{2000}', '\U{2001}', '\U{2002}', '\U{2003}', '\U{2004}', '\U{2005}',
    '\U{2006}', '\U{2007}', '\U{2008}', '\U{2009}', '\U{200A}',
    '\U{2028}', '\U{2029}', '\U{202F}', '\U{205F}', '\U{3000}', '\U{FEFF}'
  }

  predicate IsSpace(c: char) {
    c in Whitespace
  }

  predicate AllSpace(s: string) {
    forall k :: 0 <= k < |s| ==> IsSpace(s[k])
  }

  /** Drops leading whitespace: the result is a suffix of `s` and what was dropped is all whitespace. */
  function TrimStart(s: string): (r: string)
    ensures |r| <= |s| && r == s[|s| - |r|..]
    ensures forall k :: 0 <= k < |s| - |r| ==> IsSpace(s[k])
    ensures r == [] || !IsSpace(r[0])
  {
    if s != [] && IsSpace(s[0]) then TrimStart(s[1..]) else s
  }

  /** Drops trailing whitespace: the result is a prefix of `s` and what was dropped is all whitespace. */
  function TrimEnd(s: string): (r: string)
    ensures |r| <= |s| && r == s[..|r|]
    ensures forall k :: |r| <= k < |s| ==> IsSpace(s[k])
    ensures r == [] || !IsSpace(r[|r| - 1])
  {
    if s != [] && IsSpace(s[|s| - 1]) then TrimEnd(s[..|s| - 1]) else s
  }

  /** The `trim()` sanitizer: no whitespace left at either end, and nothing
      left at all exactly when `s` is blank. */
  function Trim(s: string): (r: string)
    ensures r == [] || (!IsSpace(r[0]) && !IsSpace(r[|r| - 1]))
    ensures r == [] <==> AllSpace(s)
  {
    var t := TrimStart(s);
    assert t == [] ==> s == s[..|s| - |t|];
    TrimEnd(t)
  }

  /** What `TrimStart` drops is whitespace. */
  lemma DroppedLeadIsSpace(s: string)
    ensures AllSpace(s[..|s| - |TrimStart(s)|])
  {
    var before := s[..|s| - |TrimStart(s)|];
    forall k | 0 <= k < |before| ensures IsSpace(before[k]) {
      assert before[k] == s[k];
    }
  }

  /** What `TrimEnd` drops is whitespace. */
  lemma DroppedTailIsSpace(t: string)
    ensures AllSpace(t[|TrimEnd(t)|..])
  {
    var after := t[|TrimEnd(t)|..];
    forall k | 0 <= k < |after| ensures IsSpace(after[k]) {
      assert after[k] == t[|TrimEnd(t)| + k];
    }
  }

  /** `r` is the stretch of `s` starting at `i`, with only whitespace before
      and after it. */
  predicate FramedBySpace(s: string, r: string, i: int) {
    && 0 <= i <= |s| - |r| && r == s[i..i + |r|]
    && AllSpace(s[..i]) && AllSpace(s[i + |r|..])
  }

  /** What `trim()` keeps is a stretch of `s` with only whitespace before and
      after it. */
  lemma TrimKeepsCore(s: string)
    ensures exists i :: FramedBySpace(s, Trim(s), i)
  {
    var t := TrimStart(s);
    var r := TrimEnd(t);
    var i := |s| - |t|;
    DroppedLeadIsSpace(s);
    DroppedTailIsSpace(t);
    assert Trim(s) == r && t == s[i..];
    assert r == t[..|r|] == s[i..i + |r|];
    assert t[|r|..] == s[i + |r|..];
    assert FramedBySpace(s, Trim(s), i);
  }

  /** Trimming twice is trimming once. */
  lemma TrimIdempotent(s: string)
    ensures Trim(Trim(s)) == Trim(s)
  {
    var r := Trim(s);
    if r != [] {
      assert TrimStart(r) == r;
      assert TrimEnd(r) == r;
    }
  }

  /** The characters `escape()` replaces by an HTML entity. */
  predicate NeedsEscape(c: char) {
    c == '&' || c == '"' || c == '\'' || c == '<' || c == '>' || c == '/' || c == '\\' || c == '`'
  }

  /** The characters that can open or close markup or an attribute value in
      HTML; `escape()` leaves none of them in its output. */
  predicate IsMarkup(c: char) {
    c == '"' || c == '\'' || c == '<' || c == '>' || c == '/' || c == '\\' || c == '`'
  }

  function EscapeChar(c: char): (r: string)
    ensures NeedsEscape(c) ==> |r| > 1 && r[0] == '&'
    ensures !NeedsEscape(c) ==> r == [c]
    ensures forall k :: 0 <= k < |r| ==> !IsMarkup(r[k])
  {
    match c
    case '&' => "&amp;"
    case '"' => "&quot;"
    case '\'' => "&#x27;"
    case '<' => "&lt;"
    case '>' => "&gt;"
    case '/' => "&#x2F;"
    case '\\' => "&#x5C;"
    case '`' => "&#96;"
    case _ => [c]
  }

  /** The `escape()` sanitizer: every special character becomes its entity,
      so a string without special characters is left as it is, and no
      markup character survives. */
  function Escape(s: string): (r: string)
    ensures |r| >= |s|
    ensures r == [] <==> s == []
    ensures (forall k :: 0 <= k < |s| ==> !NeedsEscape(s[k])) ==> r == s
    ensures forall k :: 0 <= k < |r| ==> !IsMarkup(r[k])
  {
    if s == [] then [] else EscapeChar(s[0]) + Escape(s[1..])
  }

  /** An ASCII letter or digit: the default (en-US) alphabet of `isAlphanumeric()`. */
  predicate IsAlnumChar(c: char) {
    '0' <= c <= '9' || 'A' <= c <= 'Z' || 'a' <= c <= 'z'
  }

  predicate AllAlnum(s: string) {
    forall k :: 0 <= k < |s| ==> IsAlnumChar(s[k])
  }

  /** The `isAlphanumeric()` validator: one or more ASCII letters or digits. */
  predicate IsAlphanumeric(s: string) {
    |s| > 0 && AllAlnum(s)
  }

  lemma {:induction false} EscapeKeepsAllAlnum(s: string)
    ensures AllAlnum(Escape(s)) <==> AllAlnum(s)
  {
    if s != [] {
      EscapeKeepsAllAlnum(s[1..]);
      var head, tail := EscapeChar(s[0]), Escape(s[1..]);
      assert Escape(s) == head + tail;
      assert AllAlnum(head + tail) <==> AllAlnum(head) && AllAlnum(tail) by {
        assert forall k :: 0 <= k < |head| ==> (head + tail)[k] == head[k];
        assert forall k :: 0 <= k < |tail| ==> (head + tail)[|head| + k] == tail[k];
      }
      assert AllAlnum(s) <==> IsAlnumChar(s[0]) && AllAlnum(s[1..]) by {
        assert forall k :: 0 <= k < |s[1..]| ==> s[1..][k] == s[k + 1];
      }
    }
  }

  /** Escaping happens between the required check and the alphanumeric check
      in the name chains; it cannot change the alphanumeric verdict, because
      every entity starts with the non-alphanumeric `&`. */
  lemma EscapeKeepsAlphanumeric(s: string)
    ensures IsAlphanumeric(Escape(s)) <==> IsAlphanumeric(s)
  {
    EscapeKeepsAllAlnum(s);
  }

  /** An alphanumeric string is left unchanged by escaping. */
  lemma EscapeAlphanumericIsIdentity(s: string)
    ensures IsAlphanumeric(s) ==> Escape(s) == s
  {
    if IsAlphanumeric(s) {
      forall k | 0 <= k < |s| ensures !NeedsEscape(s[k]) {
        assert IsAlnumChar(s[k]);
      }
    }
  }

  /** The variation selectors U+FE0E and U+FE0F, which `isLength()` leaves
      out of its count. (It also counts a surrogate pair once; a Dafny `char`
      is a whole code point, so that needs no rule here.) */
  predicate IsSelector(c: char) {
    c == '\U{FE0E}' || c == '\U{FE0F}'
  }

  /** The length `isLength()` compares with its bounds: the characters of `s`
      other than variation selectors. It is zero exactly when `s` holds
      nothing else. */
  function MeasuredLength(s: string): (n: nat)
    ensures n <= |s|
    ensures n == 0 <==> forall k :: 0 <= k < |s| ==> IsSelector(s[k])
  {
    if s == [] then 0 else (if IsSelector(s[0]) then 0 else 1) + MeasuredLength(s[1..])
  }

  /** The measured length of a concatenation is the sum of the parts'. */
  lemma {:induction false} MeasuredLengthAppend(a: string, b: string)
    ensures MeasuredLength(a + b) == MeasuredLength(a) + MeasuredLength(b)
  {
    if a == [] {
      assert a + b == b;
    } else {
      assert (a + b)[1..] == a[1..] + b;
      MeasuredLengthAppend(a[1..], b);
    }
  }

  /** Escaping cannot make a string pass or fail `isLength({ min: 1 })`:
      every entity starts with the counted `&`, and a selector is kept. */
  lemma {:induction false} EscapeKeepsMeasuredZero(s: string)
    ensures MeasuredLength(Escape(s)) == 0 <==> MeasuredLength(s) == 0
  {
    if s != [] {
      var head, tail := EscapeChar(s[0]), Escape(s[1..]);
      EscapeKeepsMeasuredZero(s[1..]);
      MeasuredLengthAppend(head, tail);
      assert MeasuredLength(head) == 0 <==> IsSelector(s[0]) by {
        if NeedsEscape(s[0]) {
          assert head[0] == '&';
        }
      }
    }
  }

  /** An alphanumeric string passes `isLength({ min: 1 })`. */
  lemma AlphanumericIsMeasured(s: string)
    requires IsAlphanumeric(s)
    ensures MeasuredLength(s) >= 1
  {
    assert IsAlnumChar(s[0]);
  }
}
