/** The fragment of `java.util.regex` that the SEPA patterns use, as data,
    with the meaning `Matcher.matches()` gives it: the WHOLE input must match. */
module Regex {

  /** An inclusive character range `lo-hi` inside a character class; a single
      character `c` is the range `c-c`. */
  datatype Range = Range(lo: char, hi: char)

  /** A character class `[...]`: a character belongs when some range holds it. */
  type CharClass = seq<Range>

  predicate InClass(c: char, cls: CharClass) {
    exists i :: 0 <= i < |cls| && cls[i].lo <= c <= cls[i].hi
  }

  predicate AllInClass(s: string, cls: CharClass) {
    forall i :: 0 <= i < |s| ==> InClass(s[i], cls)
  }

  datatype Regex =
    /** `cls{min,max}` (`cls{n}` is `Repeat(cls, n, n)`). */
    | Repeat(cls: CharClass, min: nat, max: nat)
    /** `cls*`; also `(a|b|...)*` when every alternative is one character. */
    | Star(starred: CharClass)
    /** `first second`. */
    | Concat(first: Regex, second: Regex)
    /** `(body)?`. */
    | Optional(body: Regex)

  /** The whole of `s` matches `r`. */
  ghost predicate Matches(r: Regex, s: string) {
    match r
    case Repeat(cls, lo, hi) => lo <= |s| <= hi && AllInClass(s, cls)
    case Star(cls) => AllInClass(s, cls)
    case Concat(a, b) => exists i :: 0 <= i <= |s| && Matches(a, s[..i]) && Matches(b, s[i..])
    case Optional(a) => |s| == 0 || Matches(a, s)
  }

  /** `A-Z`. */
  const Upper: CharClass := [Range('A', 'Z')]
  /** `\d`, which Java reads as ASCII `0-9` unless UNICODE_CHARACTER_CLASS is set. */
  const Digit: CharClass := [Range('0', '9')]

  /** Matching `cls{n}` followed by `rest` means: the first `n` characters are
      in the class and the remaining ones match `rest`. */
  lemma FixedPrefix(cls: CharClass, n: nat, rest: Regex, s: string)
    ensures Matches(Concat(Repeat(cls, n, n), rest), s)
        <==> n <= |s| && AllInClass(s[..n], cls) && Matches(rest, s[n..])
  {
    if n <= |s| && AllInClass(s[..n], cls) && Matches(rest, s[n..]) {
      assert Matches(Repeat(cls, n, n), s[..n]);
    }
  }
}
