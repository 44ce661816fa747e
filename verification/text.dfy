/** String primitives of Python's `str` that the tools rely on: `index`, `rstrip`,
    `replace` of a single character, `lower` and the `[a-zA-Z0-9]` class.
    Lower-casing and white space are ASCII only. */
module Text {
  import opened Results

  /** Characters `str.rstrip()` removes (the ASCII ones `str.isspace` accepts). */
  predicate IsSpace(c: char) {
    c == ' ' || c == '\t' || c == '\n' || c == '\r' || c == '\U{000B}' || c == '\U{000C}'
    || c == '\U{001C}' || c == '\U{001D}' || c == '\U{001E}' || c == '\U{001F}'
  }

  predicate IsUpper(c: char) {
    'A' <= c <= 'Z'
  }

  /** The regular-expression class `[a-zA-Z0-9]`. */
  predicate IsAlnum(c: char) {
    'a' <= c <= 'z' || 'A' <= c <= 'Z' || '0' <= c <= '9'
  }

  /** A capital letter moves to its small letter, 32 code points up; nothing else moves. */
  function LowerChar(c: char): (r: char)
    ensures IsUpper(c) ==> 'a' <= r <= 'z' && r as int == c as int + 32
    ensures !IsUpper(c) ==> r == c
    ensures !IsUpper(r)
    ensures IsAlnum(r) <==> IsAlnum(c)
  {
    if IsUpper(c) then (c as int - 'A' as int + 'a' as int) as char else c
  }

  /** `s.lower()` restricted to ASCII letters: each character is lowered in place, so the
      result has no capital letter left. */
  function Lower(s: string): (r: string)
    ensures |r| == |s|
    ensures forall i :: 0 <= i < |s| ==> r[i] == LowerChar(s[i])
    ensures forall i :: 0 <= i < |r| ==> !IsUpper(r[i])
  {
    seq(|s|, i requires 0 <= i < |s| => LowerChar(s[i]))
  }

  /** A string without capital letters is its own lower case; in particular lowering twice
      is lowering once. */
  lemma LowerFixes(s: string)
    ensures Lower(s) == s <==> forall i :: 0 <= i < |s| ==> !IsUpper(s[i])
    ensures Lower(Lower(s)) == Lower(s)
  {
    if forall i :: 0 <= i < |s| ==> !IsUpper(s[i]) {
      assert forall i :: 0 <= i < |s| ==> Lower(s)[i] == s[i];
    }
    var l := Lower(s);
    assert forall i :: 0 <= i < |l| ==> Lower(l)[i] == l[i];
  }

  lemma LowerConcat(a: string, b: string)
    ensures Lower(a + b) == Lower(a) + Lower(b)
  {
  }

  /** `s.index(c, from)`: the first position at or after `from` holding `c`. */
  function Find(s: string, c: char, from: nat): (r: Option<nat>)
    ensures r.Some? ==> from <= r.value < |s| && s[r.value] == c
    ensures r.Some? ==> forall k :: from <= k < r.value ==> s[k] != c
    ensures r.None? <==> forall k :: from <= k < |s| ==> s[k] != c
    decreases |s| - from
  {
    if from >= |s| then None
    else if s[from] == c then Some(from)
    else Find(s, c, from + 1)
  }

  /** `s.rstrip()`: the longest prefix that does not end in white space. */
  function RStrip(s: string): (r: string)
    ensures r <= s
    ensures |r| == 0 || !IsSpace(r[|r| - 1])
    ensures forall i :: |r| <= i < |s| ==> IsSpace(s[i])
  {
    if |s| == 0 || !IsSpace(s[|s| - 1]) then s else RStrip(s[..|s| - 1])
  }

  /** `s.replace(c, with)` for a one-character pattern. */
  function Replace(s: string, c: char, with: string): string
  {
    if |s| == 0 then ""
    else (if s[0] == c then with else [s[0]]) + Replace(s[1..], c, with)
  }

  lemma {:induction false} ReplaceConcat(a: string, b: string, c: char, with: string)
    ensures Replace(a + b, c, with) == Replace(a, c, with) + Replace(b, c, with)
  {
    if |a| > 0 {
      assert (a + b)[1..] == a[1..] + b;
      ReplaceConcat(a[1..], b, c, with);
    } else {
      assert a + b == b;
    }
  }

  /** `s.replace(c, d)` when the replacement is itself one character: a positionwise map. */
  function ReplaceChar(s: string, c: char, d: char): (r: string)
    ensures |r| == |s|
    ensures forall i :: 0 <= i < |s| ==> r[i] == (if s[i] == c then d else s[i])
  {
    seq(|s|, i requires 0 <= i < |s| => if s[i] == c then d else s[i])
  }

  lemma {:induction false} ReplaceCharIsReplace(s: string, c: char, d: char)
    ensures ReplaceChar(s, c, d) == Replace(s, c, [d])
  {
    if |s| > 0 {
      ReplaceCharIsReplace(s[1..], c, d);
      assert ReplaceChar(s, c, d) == [ReplaceChar(s, c, d)[0]] + ReplaceChar(s[1..], c, d);
    }
  }
}
