/**
 * String tests the plugin relies on: JavaScript's `String.prototype.includes`
 * (used both for the `aria-label` heuristic and for the `[class*="username-"]`
 * selector) and CSS class-token matching (the `.custom-3tb-badge` selector).
 * Strings are sequences of characters; no case folding or normalisation happens.
 */
module Text {

  /** `sub` occurs in `s` starting at index `i`. */
  predicate OccursAt(s: string, sub: string, i: nat)
  {
    i + |sub| <= |s| && s[i..i + |sub|] == sub
  }

  /** `s.includes(sub)`: scan for `sub` at every position of `s`, left to right. */
  function Includes(s: string, sub: string): bool
    decreases |s|
  {
    if |sub| <= |s| && s[..|sub|] == sub then true
    else if |s| <= |sub| then false
    else Includes(s[1..], sub)
  }

  /** The scan finds `sub` exactly when `sub` occurs somewhere in `s`. */
  lemma {:induction false} IncludesIff(s: string, sub: string)
    ensures Includes(s, sub) <==> exists i: nat :: OccursAt(s, sub, i)
    decreases |s|
  {
    if |sub| <= |s| && s[..|sub|] == sub {
      assert OccursAt(s, sub, 0);
    } else if |s| <= |sub| {
    } else {
      IncludesIff(s[1..], sub);
      if i: nat :| OccursAt(s[1..], sub, i) {
        assert s[1..][i..i + |sub|] == s[i + 1..i + 1 + |sub|];
        assert OccursAt(s, sub, i + 1);
      }
      if i: nat :| OccursAt(s, sub, i) {
        assert i != 0 by { assert s[..|sub|] == s[0..0 + |sub|]; }
        assert s[1..][i - 1..i - 1 + |sub|] == s[i..i + |sub|];
        assert OccursAt(s[1..], sub, i - 1);
      }
    }
  }

  /** A character of `sub` that never appears in `s` rules out `s.includes(sub)`. */
  lemma MissingCharExcludes(s: string, sub: string, c: char)
    requires c in sub && c !in s
    ensures !Includes(s, sub)
  {
    IncludesIff(s, sub);
  }

  /** HTML's ASCII whitespace, which separates the tokens of a class attribute. */
  predicate IsWhitespace(c: char)
  {
    c == ' ' || c == '\t' || c == '\n' || c == '\r' || c as int == 12
  }

  /** `token` stands at index `i` of `cls` as a whole whitespace-delimited token. */
  predicate TokenAt(cls: string, token: string, i: nat)
  {
    && OccursAt(cls, token, i)
    && (i == 0 || IsWhitespace(cls[i - 1]))
    && (i + |token| == |cls| || IsWhitespace(cls[i + |token|]))
  }

  /** `element.classList.contains(token)`, the test behind a `.token` selector. */
  predicate HasClass(cls: string, token: string)
  {
    token != "" && exists i: nat :: i <= |cls| && TokenAt(cls, token, i)
  }

  /** A class attribute without whitespace holds exactly one token: itself. */
  lemma SingleTokenClass(cls: string, token: string)
    requires forall k :: 0 <= k < |cls| ==> !IsWhitespace(cls[k])
    ensures HasClass(cls, token) <==> token != "" && cls == token
  {
    if token != "" && cls == token {
      assert cls[0..0 + |token|] == cls;
      assert TokenAt(cls, token, 0);
    }
    if HasClass(cls, token) {
      var i: nat :| i <= |cls| && TokenAt(cls, token, i);
      assert i == 0;
      assert i + |token| == |cls|;
      assert cls[0..|cls|] == cls;
    }
  }
}
