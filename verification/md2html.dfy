/** The `anchor` slug of the HTML converter: lower-case the text, then replace every maximal
    run of characters outside `[a-zA-Z0-9]` by a single `-`. */
module Md2Html {
  import opened Text

  predicate IsSlugChar(c: char) {
    'a' <= c <= 'z' || '0' <= c <= '9' || c == '-'
  }

  /** Only slug characters, and never two dashes in a row: what `anchor` produces. */
  predicate IsSlug(s: string) {
    && (forall i :: 0 <= i < |s| ==> IsSlugChar(s[i]))
    && (forall i :: 0 <= i < |s| - 1 ==> !(s[i] == '-' && s[i + 1] == '-'))
  }

  /** The length of the leading run of characters outside `[a-zA-Z0-9]`. */
  function RunLength(s: string): (k: nat)
    ensures k <= |s|
    ensures forall j :: 0 <= j < k ==> !IsAlnum(s[j])
    ensures k < |s| ==> IsAlnum(s[k])
  {
    if |s| == 0 || IsAlnum(s[0]) then 0 else 1 + RunLength(s[1..])
  }

  /** `re.sub(r"[^a-zA-Z0-9]+", "-", s)`: the greedy `+` makes each maximal run one match. */
  function CollapseRuns(s: string): (r: string)
    ensures |s| > 0 ==> |r| > 0 && r[0] == (if IsAlnum(s[0]) then s[0] else '-')
    ensures |r| <= |s|
    decreases |s|
  {
    if |s| == 0 then ""
    else if IsAlnum(s[0]) then [s[0]] + CollapseRuns(s[1..])
    else "-" + CollapseRuns(s[RunLength(s)..])
  }

  /** `anchor(text)`. */
  function Anchor(text: string): string {
    CollapseRuns(Lower(text))
  }

  /** The characters of `[a-zA-Z0-9]` of a string, in order. */
  function AlnumOnly(s: string): string
  {
    if |s| == 0 then "" else (if IsAlnum(s[0]) then [s[0]] else "") + AlnumOnly(s[1..])
  }

  function RemoveDashes(s: string): string
  {
    if |s| == 0 then "" else (if s[0] == '-' then "" else [s[0]]) + RemoveDashes(s[1..])
  }

  /** Each character outside `[a-zA-Z0-9]` replaced by a dash, one for one. */
  function Dashify(s: string): (r: string)
    ensures |r| == |s|
    ensures forall i :: 0 <= i < |s| ==> r[i] == (if IsAlnum(s[i]) then s[i] else '-')
  {
    seq(|s|, i requires 0 <= i < |s| => if IsAlnum(s[i]) then s[i] else '-')
  }

  lemma {:induction false} CollapseAlphabet(s: string)
    requires forall i :: 0 <= i < |s| ==> !IsUpper(s[i])
    ensures IsSlug(CollapseRuns(s))
    decreases |s|
  {
    if |s| > 0 {
      var r := CollapseRuns(s);
      var k := if IsAlnum(s[0]) then 1 else RunLength(s);
      var t := s[k..];
      CollapseAlphabet(t);
      var rest := CollapseRuns(t);
      assert r == [r[0]] + rest;
      assert IsSlugChar(r[0]);
      if |rest| > 0 && r[0] == '-' {
        assert !IsAlnum(s[0]);
        assert rest[0] != '-' by {
          assert IsAlnum(t[0]);
        }
      }
      assert forall i :: 1 <= i < |r| ==> r[i] == rest[i - 1];
    }
  }

  /** The slug contains only `a-z`, `0-9` and `-`, never two dashes in a row. */
  lemma AnchorIsSlug(text: string)
    ensures IsSlug(Anchor(text))
  {
    CollapseAlphabet(Lower(text));
  }

  lemma {:induction false} AlnumOnlySkipsRun(s: string, k: nat)
    requires k <= |s|
    requires forall j :: 0 <= j < k ==> !IsAlnum(s[j])
    ensures AlnumOnly(s) == AlnumOnly(s[k..])
  {
    if k > 0 {
      AlnumOnlySkipsRun(s[1..], k - 1);
      assert s[1..][k - 1..] == s[k..];
    }
  }

  /** Deleting the dashes of the collapsed text leaves its `[a-zA-Z0-9]` characters. */
  lemma {:induction false} CollapseKeepsAlnum(s: string)
    ensures RemoveDashes(CollapseRuns(s)) == AlnumOnly(s)
    decreases |s|
  {
    if |s| > 0 {
      if IsAlnum(s[0]) {
        CollapseKeepsAlnum(s[1..]);
        var r := [s[0]] + CollapseRuns(s[1..]);
        assert r[1..] == CollapseRuns(s[1..]);
      } else {
        var k := RunLength(s);
        CollapseKeepsAlnum(s[k..]);
        AlnumOnlySkipsRun(s, k);
        var r := "-" + CollapseRuns(s[k..]);
        assert r[1..] == CollapseRuns(s[k..]);
      }
    }
  }

  /** Dropping every dash of the slug gives the text's ASCII letters and digits,
      lower-cased, in their original order. */
  lemma AnchorKeepsAlnum(text: string)
    ensures RemoveDashes(Anchor(text)) == AlnumOnly(Lower(text))
  {
    CollapseKeepsAlnum(Lower(text));
  }

  /** A slug is left alone by the collapsing pass. */
  lemma {:induction false} CollapseFixesSlug(s: string)
    requires IsSlug(s)
    ensures CollapseRuns(s) == s
    decreases |s|
  {
    if |s| > 0 {
      assert IsSlug(s[1..]);
      if IsAlnum(s[0]) {
        CollapseFixesSlug(s[1..]);
      } else {
        assert s[0] == '-';
        assert RunLength(s) == 1 by {
          if |s| > 1 {
            assert s[1] != '-';
            assert IsSlugChar(s[1]);
          }
        }
        CollapseFixesSlug(s[1..]);
      }
    }
  }

  /** `anchor` is idempotent. */
  lemma AnchorIdempotent(text: string)
    ensures Anchor(Anchor(text)) == Anchor(text)
  {
    var a := Anchor(text);
    AnchorIsSlug(text);
    assert Lower(a) == a;
    CollapseFixesSlug(a);
  }

  /** The degenerate inputs: nothing gives nothing, and a non-empty text without a single
      letter or digit gives one dash. */
  lemma {:induction false} AnchorDegenerate(text: string)
    ensures Anchor(text) == "" <==> text == ""
    ensures |text| > 0 && (forall i :: 0 <= i < |text| ==> !IsAlnum(text[i])) ==> Anchor(text) == "-"
  {
    if |text| > 0 && (forall i :: 0 <= i < |text| ==> !IsAlnum(text[i])) {
      var l := Lower(text);
      assert RunLength(l) == |l|;
      assert l[|l|..] == "";
    }
  }

  /** When no two characters outside `[a-zA-Z0-9]` are adjacent, every run has length one
      and collapsing is a one-for-one replacement by dashes. */
  lemma {:induction false} CollapseIsolated(s: string)
    requires forall i :: 0 <= i < |s| - 1 ==> IsAlnum(s[i]) || IsAlnum(s[i + 1])
    ensures CollapseRuns(s) == Dashify(s)
    decreases |s|
  {
    if |s| > 0 {
      assert RunLength(s) == 1 || IsAlnum(s[0]) by {
        if !IsAlnum(s[0]) && |s| > 1 {
          assert IsAlnum(s[1]);
        }
      }
      CollapseIsolated(s[1..]);
      assert Dashify(s) == [Dashify(s)[0]] + Dashify(s[1..]);
    }
  }
}
