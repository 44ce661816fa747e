/** The reference collector builds its link destinations directly rather than through the
    slug function of the HTML converter; the two agree when the type and every name on the
    path consist of ASCII letters and digits only. */
module AnchorAgreement {
  import opened Text
  import opened Doc2Md
  import opened Md2Html

  predicate AllAlnum(s: string) {
    forall i :: 0 <= i < |s| ==> IsAlnum(s[i])
  }

  /** A non-empty dotted id whose segments are non-empty runs of letters and digits. */
  predicate DottedPath(id: string) {
    && |id| > 0
    && IsAlnum(id[0])
    && IsAlnum(id[|id| - 1])
    && forall i :: 0 <= i < |id| ==> IsAlnum(id[i]) || (id[i] == '.' && 0 < i < |id| - 1 && IsAlnum(id[i + 1]))
  }

  lemma {:induction false} DottedNamesArePaths(names: seq<string>)
    requires |names| > 0
    requires forall i :: 0 <= i < |names| ==> |names[i]| > 0 && AllAlnum(names[i])
    ensures DottedPath(Dotted(names))
  {
    if |names| > 1 {
      var init := names[..|names| - 1];
      var last := names[|names| - 1];
      DottedNamesArePaths(init);
      var a := Dotted(init);
      var d := a + "." + last;
      assert d == Dotted(names);
      forall i | 0 <= i < |d|
        ensures IsAlnum(d[i]) || (d[i] == '.' && 0 < i < |d| - 1 && IsAlnum(d[i + 1]))
      {
        if i < |a| {
          assert d[i] == a[i];
          if i + 1 < |a| {
            assert d[i + 1] == a[i + 1];
          }
        } else if i == |a| {
          assert d[i + 1] == last[0];
        } else {
          assert d[i] == last[i - |a| - 1];
        }
      }
      assert d[|d| - 1] == last[|last| - 1];
    }
  }

  lemma PathChar(id: string, j: nat)
    requires DottedPath(id) && j < |id|
    ensures IsAlnum(id[j]) || id[j] == '.'
  {
    assert IsAlnum(id[j]) || (id[j] == '.' && 0 < j < |id| - 1 && IsAlnum(id[j + 1]));
  }

  /** The slug of a header's text `"{type} {id}"` equals the destination `collect_refs`
      stores for that id. */
  lemma SlugAgreesWithRefAnchor(kind: string, id: string)
    requires AllAlnum(kind)
    requires DottedPath(id)
    ensures Anchor(kind + " " + id) == RefAnchor(kind, id)
  {
    var s := kind + " " + id;
    var t := kind + "-" + id;
    var l := Lower(s);
    assert forall i :: 0 <= i < |l| - 1 ==> IsAlnum(l[i]) || IsAlnum(l[i + 1]) by {
      forall i | 0 <= i < |l| - 1 ensures IsAlnum(l[i]) || IsAlnum(l[i + 1]) {
        if i < |kind| {
          assert s[i] == kind[i];
        } else if i == |kind| {
          assert s[i + 1] == id[0];
        } else {
          assert s[i] == id[i - |kind| - 1];
          assert s[i + 1] == id[i - |kind|];
        }
      }
    }
    CollapseIsolated(l);
    var r := RefAnchor(kind, id);
    RefAnchorChars(kind, id);
    assert |r| == |l|;
    forall i | 0 <= i < |l| ensures Dashify(l)[i] == r[i] {
      assert l[i] == LowerChar(s[i]);
      if i < |kind| {
        assert s[i] == kind[i] && t[i] == kind[i];
      } else if i == |kind| {
        assert s[i] == ' ' && t[i] == '-';
      } else {
        var j := i - |kind| - 1;
        assert 0 <= j < |id|;
        PathChar(id, j);
        assert s[i] == id[j] && t[i] == id[j];
      }
    }
  }

  /** The same, for a path of names such as a node's ancestors and itself. */
  lemma SlugAgreesOnPath(kind: string, names: seq<string>)
    requires AllAlnum(kind)
    requires |names| > 0
    requires forall i :: 0 <= i < |names| ==> |names[i]| > 0 && AllAlnum(names[i])
    ensures Anchor(kind + " " + Dotted(names)) == RefAnchor(kind, Dotted(names))
  {
    DottedNamesArePaths(names);
    SlugAgreesWithRefAnchor(kind, Dotted(names));
  }

  /** Without the restriction the two part ways: a double dot survives in the stored
      destination but collapses in the slug. */
  lemma DoubleDotDisagrees()
    ensures Anchor("Class a..b") != RefAnchor("Class", "a..b")
  {
    var r := RefAnchor("Class", "a..b");
    RefAnchorChars("Class", "a..b");
    assert r[7] == '-' && r[8] == '-';
    AnchorIsSlug("Class a..b");
  }
}
