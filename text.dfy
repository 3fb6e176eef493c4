/**
 * String helpers with JavaScript semantics: `String.prototype.trim` and
 * `String.prototype.includes`. Strings are sequences of characters.
 */
module Text {

  /** The characters `trim` removes: ECMAScript WhiteSpace and LineTerminator. */
  predicate IsWhitespace(c: char) {
    c == ' ' || c == '\t' || c == '\n' || c == '\r'
    || c == '\U{000B}' || c == '\U{000C}' || c == '\U{00A0}' || c == '\U{FEFF}'
    || c == '\U{1680}' || ('\U{2000}' <= c <= '\U{200A}')
    || c == '\U{2028}' || c == '\U{2029}' || c == '\U{202F}' || c == '\U{205F}'
    || c == '\U{3000}'
  }

  /** Drops leading whitespace: the result is the suffix of `s` that starts at its first non-blank character. */
  function TrimStart(s: string): (r: string)
    ensures |r| <= |s| && r == s[|s| - |r|..]
    ensures forall i :: 0 <= i < |s| - |r| ==> IsWhitespace(s[i])
    ensures r == [] || !IsWhitespace(r[0])
    decreases |s|
  {
    if s != [] && IsWhitespace(s[0]) then TrimStart(s[1..]) else s
  }

  /** Drops trailing whitespace: the result is the prefix of `s` that ends at its last non-blank character. */
  function TrimEnd(s: string): (r: string)
    ensures |r| <= |s| && r == s[..|r|]
    ensures forall i :: |r| <= i < |s| ==> IsWhitespace(s[i])
    ensures r == [] || !IsWhitespace(r[|r| - 1])
    decreases |s|
  {
    if s != [] && IsWhitespace(s[|s| - 1]) then TrimEnd(s[..|s| - 1]) else s
  }

  /** `s.trim()` */
  function Trim(s: string): string {
    TrimEnd(TrimStart(s))
  }

  /** A string is blank when every character is whitespace (the empty string included). */
  ghost predicate AllWhitespace(s: string) {
    forall i :: 0 <= i < |s| ==> IsWhitespace(s[i])
  }

  /** `r` is `s[i..j]`, and everything outside that slice is whitespace. */
  ghost predicate TrimmedAt(s: string, r: string, i: int, j: int) {
    0 <= i <= j <= |s| && r == s[i..j] && AllWhitespace(s[..i]) && AllWhitespace(s[j..])
  }

  /** What `TrimStart` drops is whitespace. */
  lemma TrimStartDropsBlank(s: string)
    ensures AllWhitespace(s[..|s| - |TrimStart(s)|])
  {
    var i := |s| - |TrimStart(s)|;
    forall k | 0 <= k < i ensures IsWhitespace(s[..i][k]) {
      assert s[..i][k] == s[k];
    }
  }

  /** What `TrimEnd` drops is whitespace. */
  lemma TrimEndDropsBlank(t: string)
    ensures AllWhitespace(t[|TrimEnd(t)|..])
  {
    var e := TrimEnd(t);
    forall k | 0 <= k < |t| - |e| ensures IsWhitespace(t[|e|..][k]) {
      assert t[|e|..][k] == t[|e| + k];
    }
  }

  /** `s.trim()` neither starts nor ends with whitespace. */
  lemma TrimEdges(s: string)
    ensures Trim(s) == [] || (!IsWhitespace(Trim(s)[0]) && !IsWhitespace(Trim(s)[|Trim(s)| - 1]))
  {
    var t := TrimStart(s);
    var e := TrimEnd(t);
    assert Trim(s) == e;
    if e != [] {
      assert e[0] == t[0];
    }
  }

  /**
   * `s.trim()` is the slice of `s` between a whitespace-only prefix and a
   * whitespace-only suffix.
   */
  lemma TrimSpec(s: string)
    ensures exists i, j :: TrimmedAt(s, Trim(s), i, j)
  {
    var t := TrimStart(s);
    var e := TrimEnd(t);
    var i := |s| - |t|;
    var j := i + |e|;
    TrimStartDropsBlank(s);
    TrimEndDropsBlank(t);
    assert Trim(s) == e;
    assert s[i..j] == e by {
      assert s[i..j] == t[..|e|];
    }
    assert s[j..] == t[|e|..];
    assert TrimmedAt(s, e, i, j);
  }

  /** `s.trim()` is empty exactly when `s` consists of whitespace only: the falsy test `!s.trim()`. */
  lemma TrimEmptyIffBlank(s: string)
    ensures Trim(s) == [] <==> AllWhitespace(s)
  {
    var t := TrimStart(s);
    if !AllWhitespace(s) && t != [] {
      assert !IsWhitespace(TrimEnd(t)[0]);
    }
  }

  /** Trimming twice is trimming once. */
  lemma TrimIdempotent(s: string)
    ensures Trim(Trim(s)) == Trim(s)
  {
    TrimEdges(s);
    var r := Trim(s);
    if r != [] {
      assert TrimStart(r) == r;
      assert TrimEnd(r) == r;
    }
  }

  /** `s.includes(q)`: does `q` occur in `s` as a contiguous substring? */
  function Contains(s: string, q: string): bool
    decreases |s|
  {
    if |q| > |s| then false
    else if s[..|q|] == q then true
    else Contains(s[1..], q)
  }

  /** `q` occurs in `s` starting at index `i`. */
  ghost predicate OccursAt(s: string, q: string, i: int) {
    0 <= i <= |s| - |q| && s[i..i + |q|] == q
  }

  /** `Contains` agrees with the positional definition of "substring". */
  lemma {:induction false} ContainsIffOccurs(s: string, q: string)
    ensures Contains(s, q) <==> exists i :: OccursAt(s, q, i)
    decreases |s|
  {
    if |q| > |s| {
    } else if s[..|q|] == q {
      assert OccursAt(s, q, 0);
    } else {
      ContainsIffOccurs(s[1..], q);
      forall i | OccursAt(s, q, i) ensures OccursAt(s[1..], q, i - 1) {
        assert i != 0 by {
          assert s[..|q|] == s[0..|q|];
        }
        assert s[1..][i - 1..i - 1 + |q|] == s[i..i + |q|];
      }
      forall i | OccursAt(s[1..], q, i) ensures OccursAt(s, q, i + 1) {
        assert s[i + 1..i + 1 + |q|] == s[1..][i..i + |q|];
      }
    }
  }

  /** Every string includes the empty string: an empty query matches everything. */
  lemma ContainsEmpty(s: string)
    ensures Contains(s, "")
  {
  }
}
