/** Python 2's `str.rstrip()` without arguments, as the reader applies it to every line it reads. */
module Text {

  /** The characters `str.rstrip()` removes: space, tab, newline, carriage return, vertical tab, form feed. */
  predicate IsSpace(c: char) {
    c == ' ' || c == '\t' || c == '\n' || c == '\r' || c == '\U{B}' || c == '\U{C}'
  }

  /** `s.rstrip()`: the longest prefix of `s` that does not end in whitespace. */
  function RStrip(s: string): (r: string)
    ensures r <= s
    ensures r == [] || !IsSpace(r[|r| - 1])
    ensures forall i :: |r| <= i < |s| ==> IsSpace(s[i])
    decreases |s|
  {
    if s == [] || !IsSpace(s[|s| - 1]) then s else RStrip(s[..|s| - 1])
  }

  /** Stripping twice is stripping once. */
  lemma RStripIdempotent(s: string)
    ensures RStrip(RStrip(s)) == RStrip(s)
  {
  }

  /** The stripped line is empty exactly when the line is all whitespace (the empty string included). */
  lemma RStripEmptyIff(s: string)
    ensures RStrip(s) == [] <==> forall i :: 0 <= i < |s| ==> IsSpace(s[i])
  {
    var r := RStrip(s);
    if r != [] {
      assert s[|r| - 1] == r[|r| - 1];
    }
  }

  /** The three properties of RStrip's contract pin the result down: any prefix with them is RStrip(s). */
  lemma RStripUnique(s: string, p: string)
    requires p <= s
    requires p == [] || !IsSpace(p[|p| - 1])
    requires forall i :: |p| <= i < |s| ==> IsSpace(s[i])
    ensures p == RStrip(s)
  {
  }
}
