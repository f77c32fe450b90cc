/** The fixed regular expressions that the address heuristics run over Python's hex() text,
    each as a hand-written matcher for its own shape rather than a general regex engine. */
module Patterns {

  predicate StartsWith<T(==)>(s: seq<T>, p: seq<T>)
  {
    |p| <= |s| && s[..|p|] == p
  }

  predicate EndsWith<T(==)>(s: seq<T>, p: seq<T>)
  {
    |p| <= |s| && s[|s| - |p|..] == p
  }

  predicate OccursAt<T(==)>(s: seq<T>, p: seq<T>, j: int)
  {
    0 <= j && j + |p| <= |s| && s[j..j + |p|] == p
  }

  /** A regular expression made of a literal (no metacharacters) and `.*` on one side. */
  datatype Pattern =
    | LiteralThenAny(lit: string)       // '<lit>.*'
    | AnyThenLiteralAtEnd(lit: string)  // '.*<lit>$'

  /** Python's re.search(p, text) is not None, for literals without a newline.
      `.*` may match the empty string, so '<lit>.*' finds lit anywhere; '$' matches at the
      very end of the text and also just before a final newline. */
  predicate Search(p: Pattern, text: string)
  {
    match p
    case LiteralThenAny(lit) => exists j | 0 <= j <= |text| :: OccursAt(text, lit, j)
    case AnyThenLiteralAtEnd(lit) => EndsWith(text, lit) || EndsWith(text, lit + "\n")
  }

  /** In "0x" followed by an x-free body, "0x" + p occurs iff the body starts with p. */
  lemma SearchLeadingAfterMarker(body: string, p: string)
    requires 'x' !in body
    ensures Search(LiteralThenAny("0x" + p), "0x" + body) <==> StartsWith(body, p)
  {
    var text, lit := "0x" + body, "0x" + p;
    if StartsWith(body, p) {
      assert text[0..|lit|] == lit;
      assert 0 <= 0 <= |text| && OccursAt(text, lit, 0);
    }
    if j :| 0 <= j <= |text| && OccursAt(text, lit, j) {
      assert text[j + 1] == lit[1] == 'x';
      if j > 0 {
        assert false;
      }
      assert body[..|p|] == text[2..|lit|] == lit[2..] == p;
    }
  }

  /** A text without newlines never ends in the literal followed by a newline. */
  lemma NoTrailingNewline(text: string, lit: string)
    requires '\n' !in text
    ensures !EndsWith(text, lit + "\n")
  {
    if |lit + "\n"| <= |text| {
      assert text[|text| - 1] in text;
      assert text[|text| - |lit + "\n"|..][|lit|] == text[|text| - 1];
    }
  }

  /** Behind a prefix that ends in 'x', an x-free literal can only match inside the body. */
  lemma SearchTrailingAfterMarker(pre: string, body: string, lit: string)
    requires |pre| > 0 && pre[|pre| - 1] == 'x'
    requires 'x' !in body && '\n' !in body && '\n' !in pre
    requires 'x' !in lit
    ensures Search(AnyThenLiteralAtEnd(lit), pre + body) <==> EndsWith(body, lit)
  {
    var text := pre + body;
    NoTrailingNewline(text, lit);
    if |body| < |lit| <= |text| {
      var k := |text| - |lit|;
      assert text[k..][|pre| - 1 - k] == text[|pre| - 1] == 'x';
      assert 'x' in text[k..];
    }
    if |lit| <= |body| {
      assert text[|text| - |lit|..] == body[|body| - |lit|..];
    }
  }

  /** Behind a prefix that ends in 'x', the literal "x" + l matches iff the body is exactly l. */
  lemma SearchTrailingMarker(pre: string, body: string, l: string)
    requires |pre| > 0 && pre[|pre| - 1] == 'x'
    requires 'x' !in body && '\n' !in body && '\n' !in pre
    requires 'x' !in l
    ensures Search(AnyThenLiteralAtEnd("x" + l), pre + body) <==> body == l
  {
    var text, lit := pre + body, "x" + l;
    NoTrailingNewline(text, lit);
    if |lit| <= |text| {
      var k := |text| - |lit|;
      if k >= |pre| {
        assert text[k..][0] == body[k - |pre|];
        assert text[k..][0] != lit[0];
      } else if k < |pre| - 1 {
        assert text[k..][|pre| - 1 - k] == 'x';
        assert lit[|pre| - 1 - k] == l[|pre| - 2 - k];
        assert text[k..][|pre| - 1 - k] != lit[|pre| - 1 - k];
      } else {
        assert text[k..] == "x" + body;
        if text[k..] == lit {
          assert body == text[k..][1..] == lit[1..] == l;
        }
      }
    }
    if body == l {
      assert text[|text| - |lit|..] == lit;
    }
  }
}
