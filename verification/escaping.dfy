/** `escape_markdown` of the current formatter: three chained `str.replace` calls that put a
    backslash in front of every `_`, `*` and backquote of a name before it goes into a header. */
module Escaping {
  import opened Text

  /** The characters Markdown would read as emphasis or code-span delimiters. */
  predicate IsSpecial(c: char) {
    c == '_' || c == '*' || c == '`'
  }

  predicate NoSpecial(s: string) {
    forall i :: 0 <= i < |s| ==> !IsSpecial(s[i])
  }

  function SpecialCount(s: string): nat
  {
    if |s| == 0 then 0 else (if IsSpecial(s[0]) then 1 else 0) + SpecialCount(s[1..])
  }

  /** `escape_markdown` as written: replace `_`, then `*`, then the backquote. */
  function EscapeMarkdown(s: string): (r: string)
    ensures r == Escaped(s)
    ensures |r| == |s| + SpecialCount(s)
    ensures Unescape(r) == s
    ensures r == s <==> NoSpecial(s)
  {
    ChainedIsSinglePass(s);
    EscapedLength(s);
    UnescapeEscaped(s);
    EscapedIdentity(s);
    Replace(Replace(Replace(s, '_', "\\_"), '*', "\\*"), '`', "\\`")
  }

  /** Reference definition: one left-to-right pass inserting a single backslash before each
      special character. */
  function Escaped(s: string): string
  {
    if |s| == 0 then ""
    else (if IsSpecial(s[0]) then ['\\', s[0]] else [s[0]]) + Escaped(s[1..])
  }

  /** The inverse scan: drop each backslash that is immediately followed by a special
      character and keep that character. */
  function Unescape(s: string): string
  {
    if |s| == 0 then ""
    else if |s| >= 2 && s[0] == '\\' && IsSpecial(s[1]) then [s[1]] + Unescape(s[2..])
    else [s[0]] + Unescape(s[1..])
  }

  lemma ReplaceOne(x: char, c: char, with: string)
    ensures Replace([x], c, with) == (if x == c then with else [x])
  {
    assert [x][1..] == [];
  }

  lemma ReplacePairUntouched(x: char, y: char, c: char, with: string)
    requires x != c && y != c
    ensures Replace([x, y], c, with) == [x, y]
  {
    assert [x, y][1..] == [y];
    ReplaceOne(y, c, with);
  }

  /** On one character the three chained replacements insert at most one backslash. */
  lemma ChainedOnChar(x: char)
    ensures Replace(Replace(Replace([x], '_', "\\_"), '*', "\\*"), '`', "\\`")
            == (if IsSpecial(x) then ['\\', x] else [x])
  {
    ReplaceOne(x, '_', "\\_");
    if x == '_' {
      assert "\\_" == ['\\', x];
      ReplacePairUntouched('\\', x, '*', "\\*");
      ReplacePairUntouched('\\', x, '`', "\\`");
    } else {
      ReplaceOne(x, '*', "\\*");
      if x == '*' {
        assert "\\*" == ['\\', x];
        ReplacePairUntouched('\\', x, '`', "\\`");
      } else {
        ReplaceOne(x, '`', "\\`");
        assert x == '`' ==> "\\`" == ['\\', x];
      }
    }
  }

  /** The three chained replacements never act on each other's output, so together they
      are the single insertion pass. */
  lemma {:induction false} ChainedIsSinglePass(s: string)
    ensures Replace(Replace(Replace(s, '_', "\\_"), '*', "\\*"), '`', "\\`") == Escaped(s)
  {
    if |s| > 0 {
      var head, tail := [s[0]], s[1..];
      assert s == head + tail;
      ReplaceConcat(head, tail, '_', "\\_");
      var a1, a2 := Replace(head, '_', "\\_"), Replace(tail, '_', "\\_");
      ReplaceConcat(a1, a2, '*', "\\*");
      var b1, b2 := Replace(a1, '*', "\\*"), Replace(a2, '*', "\\*");
      ReplaceConcat(b1, b2, '`', "\\`");
      ChainedOnChar(s[0]);
      ChainedIsSinglePass(tail);
    }
  }

  lemma {:induction false} EscapedConcat(a: string, b: string)
    ensures Escaped(a + b) == Escaped(a) + Escaped(b)
  {
    if |a| > 0 {
      assert (a + b)[1..] == a[1..] + b;
      EscapedConcat(a[1..], b);
    } else {
      assert a + b == b;
    }
  }

  lemma {:induction false} EscapedLength(s: string)
    ensures |Escaped(s)| == |s| + SpecialCount(s)
  {
    if |s| > 0 {
      EscapedLength(s[1..]);
    }
  }

  lemma {:induction false} SpecialCountZero(s: string)
    ensures SpecialCount(s) == 0 <==> NoSpecial(s)
  {
    if |s| > 0 {
      SpecialCountZero(s[1..]);
      if NoSpecial(s) {
        assert NoSpecial(s[1..]) by {
          forall i | 0 <= i < |s[1..]| ensures !IsSpecial(s[1..][i]) {
            assert s[1..][i] == s[i + 1];
          }
        }
      }
      if SpecialCount(s) == 0 {
        forall i | 0 <= i < |s| ensures !IsSpecial(s[i]) {
          if i > 0 {
            assert s[i] == s[1..][i - 1];
          }
        }
      }
    }
  }

  lemma EscapedIdentity(s: string)
    ensures Escaped(s) == s <==> NoSpecial(s)
  {
    EscapedLength(s);
    SpecialCountZero(s);
    if NoSpecial(s) {
      NoSpecialEscapedUnchanged(s);
    }
  }

  lemma {:induction false} NoSpecialEscapedUnchanged(s: string)
    requires NoSpecial(s)
    ensures Escaped(s) == s
  {
    if |s| > 0 {
      assert NoSpecial(s[1..]) by {
        forall i | 0 <= i < |s[1..]| ensures !IsSpecial(s[1..][i]) {
          assert s[1..][i] == s[i + 1];
        }
      }
      NoSpecialEscapedUnchanged(s[1..]);
    }
  }

  /** An escaped string never starts with a special character: every special character in
      it is the second half of a backslash pair. */
  lemma EscapedHead(s: string)
    requires |Escaped(s)| > 0
    ensures !IsSpecial(Escaped(s)[0])
  {
  }

  /** Round trip: the inverse scan recovers the name from its escaped form. */
  lemma {:induction false} UnescapeEscaped(s: string)
    ensures Unescape(Escaped(s)) == s
  {
    if |s| > 0 {
      var t := Escaped(s[1..]);
      UnescapeEscaped(s[1..]);
      if IsSpecial(s[0]) {
        var e := ['\\', s[0]] + t;
        assert Escaped(s) == e;
        assert e[2..] == t;
      } else {
        var e := [s[0]] + t;
        assert Escaped(s) == e;
        assert e[1..] == t;
        if s[0] == '\\' && |e| >= 2 {
          EscapedHead(s[1..]);
          assert e[1] == t[0];
        }
      }
    }
  }
}
