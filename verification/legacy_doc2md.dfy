/** The legacy Markdown formatter (`format`, `_format`, `collect_refs`): node texts are chunk
    lists, code chunks are fenced with their language, prose chunks are copied, and the
    reference block is keyed by each node's short name. */
module LegacyDoc2Md {
  import opened Results
  import opened Text
  import opened DocTree
  import opened RefTable
  import opened Chunks
  import Doc2Md

  type LegacyNode = Node<Chunk>

  /** One chunk: a chunk with a (truthy) language is a fenced code block, any other chunk
      is copied verbatim. */
  function RenderChunk(c: Chunk): (r: string)
    ensures c.tag.None? || c.tag.value == "" ==> r == c.text
    ensures c.tag.Some? && c.tag.value != "" ==>
              && |r| == |c.tag.value| + |c.text| + 8
              && r[..3] == "```" && r[3..3 + |c.tag.value|] == c.tag.value
              && r[3 + |c.tag.value|] == '\n'
              && r[4 + |c.tag.value|..|r| - 4] == c.text
              && r[|r| - 4..] == "```\n"
  {
    if c.tag.Some? && c.tag.value != "" then
      var r := "```" + c.tag.value + "\n" + c.text + "```\n";
      assert r[4 + |c.tag.value|..|r| - 4] == c.text;
      r
    else c.text
  }

  function RenderChunks(cs: seq<Chunk>): (r: seq<string>)
    ensures |r| == |cs|
    ensures forall i :: 0 <= i < |cs| ==> r[i] == RenderChunk(cs[i])
  {
    seq(|cs|, i requires 0 <= i < |cs| => RenderChunk(cs[i]))
  }

  /** Chunks render independently of each other: the pieces of a joined list are the pieces
      of its parts, in order. */
  lemma RenderChunksConcat(a: seq<Chunk>, b: seq<Chunk>)
    ensures RenderChunks(a + b) == RenderChunks(a) + RenderChunks(b)
  {
    var l, r := RenderChunks(a + b), RenderChunks(a) + RenderChunks(b);
    forall i | 0 <= i < |l| ensures l[i] == r[i] {
      if i < |a| {
        assert (a + b)[i] == a[i];
      } else {
        assert (a + b)[i] == b[i - |a|];
      }
    }
  }

  /** The header line: hashes for the level, the type, and the name in backquotes. */
  function Header(level: int, n: LegacyNode): string {
    Doc2Md.Hashes(level) + " " + n.kind + " `" + n.name + "`\n"
  }

  /** `_format`: nothing for a node without text; otherwise the header, each chunk, a blank
      separator, then the children one level deeper. */
  function FormatNode(n: LegacyNode, level: int): seq<string>
    decreases n, 1
  {
    if !HasText(n) then []
    else [Header(level, n)] + RenderChunks(n.text.value) + ["\n\n"] + FormatNodes(n.content, level + 1)
  }

  function FormatNodes(ns: seq<LegacyNode>, level: int): seq<string>
    decreases ns, 0
  {
    if |ns| == 0 then [] else FormatNode(ns[0], level) + FormatNodes(ns[1..], level)
  }

  /** The anchor and title of a node with text: `"{type}-{name}"` lower-cased, and
      `"{type} {name}"`. */
  function RefOf(n: LegacyNode): (r: Doc2Md.Ref)
    ensures |r.destination| == |n.kind| + 1 + |n.name|
    ensures forall i :: 0 <= i < |n.kind| ==> r.destination[i] == LowerChar(n.kind[i])
    ensures r.destination[|n.kind|] == '-'
    ensures forall i :: 0 <= i < |n.name| ==> r.destination[|n.kind| + 1 + i] == LowerChar(n.name[i])
    ensures r.title == n.kind + " " + n.name
  {
    var s := n.kind + "-" + n.name;
    assert forall i :: 0 <= i < |n.name| ==> s[|n.kind| + 1 + i] == n.name[i];
    Doc2Md.Ref(Lower(s), n.kind + " " + n.name)
  }

  /** `_collect_refs`: a node with text assigns its entry under its short name; the children
      are visited whether or not it has text. */
  function CollectInto(n: LegacyNode, refs: Table<Doc2Md.Ref>): Table<Doc2Md.Ref>
    decreases n, 1
  {
    CollectAllInto(n.content, if HasText(n) then Put(refs, n.name, RefOf(n)) else refs)
  }

  function CollectAllInto(ns: seq<LegacyNode>, refs: Table<Doc2Md.Ref>): Table<Doc2Md.Ref>
    decreases ns, 0
  {
    if |ns| == 0 then refs else CollectAllInto(ns[1..], CollectInto(ns[0], refs))
  }

  function CollectRefs(root: LegacyNode): Table<Doc2Md.Ref> {
    CollectInto(root, [])
  }

  /** The definition lines of the reference block: for each entry the backquoted one, then
      the plain one. */
  function RefLines(refs: Table<Doc2Md.Ref>): (r: seq<string>)
    ensures |r| == 2 * |refs|
    ensures forall i :: 0 <= i < |refs| ==>
              r[2 * i] == Doc2Md.TickedDef(refs[i]) && r[2 * i + 1] == Doc2Md.PlainDef(refs[i])
  {
    if |refs| == 0 then []
    else
      var rest := RefLines(refs[1..]);
      var r := [Doc2Md.TickedDef(refs[0]), Doc2Md.PlainDef(refs[0])] + rest;
      assert forall j :: 2 <= j < |r| ==> r[j] == rest[j - 2];
      assert forall i :: 1 <= i < |refs| ==> refs[i] == refs[1..][i - 1];
      r
  }

  /** `format`: the tree from level one, a blank separator, then the reference block. */
  function Format(root: LegacyNode): seq<string> {
    FormatNode(root, 1) + ["\n\n"] + RefLines(CollectRefs(root))
  }

  // ---------------------------------------------------------------------------------------
  // Reference definitions of the output, one per rendered or collected node.

  function Block(p: Placed<Chunk>): seq<string> {
    [Header(p.level, p.node)] + RenderChunks(p.node.text.GetOr([])) + ["\n\n"]
  }

  function Blocks(ps: seq<Placed<Chunk>>): seq<string>
  {
    if |ps| == 0 then [] else Block(ps[0]) + Blocks(ps[1..])
  }

  /** The entries a traversal assigns: one per node with text, in traversal order. */
  function TextEntries(ps: seq<Placed<Chunk>>): (r: seq<(string, Doc2Md.Ref)>)
    ensures |r| <= |ps|
  {
    if |ps| == 0 then []
    else (if HasText(ps[0].node) then [(ps[0].node.name, RefOf(ps[0].node))] else []) + TextEntries(ps[1..])
  }

  lemma {:induction false} BlocksConcat(a: seq<Placed<Chunk>>, b: seq<Placed<Chunk>>)
    ensures Blocks(a + b) == Blocks(a) + Blocks(b)
  {
    if |a| > 0 {
      assert (a + b)[1..] == a[1..] + b;
      BlocksConcat(a[1..], b);
    } else {
      assert a + b == b;
    }
  }

  lemma {:induction false} TextEntriesConcat(a: seq<Placed<Chunk>>, b: seq<Placed<Chunk>>)
    ensures TextEntries(a + b) == TextEntries(a) + TextEntries(b)
  {
    if |a| > 0 {
      assert (a + b)[1..] == a[1..] + b;
      TextEntriesConcat(a[1..], b);
    } else {
      assert a + b == b;
    }
  }

  /** The rendered output of a subtree is one block per node it shows: pre-order, a node
      without text hiding its whole subtree, each block being the header at the node's
      depth, its rendered chunks and a blank separator. */
  lemma {:induction false} FormatNodeIsBlocks(n: LegacyNode, level: int, prefix: string)
    ensures FormatNode(n, level) == Blocks(Visible(n, level, prefix))
    decreases n, 1
  {
    if HasText(n) {
      var id := prefix + n.name;
      FormatNodesIsBlocks(n.content, level + 1, id + ".");
      var p := Placed(n, level, id);
      var rest := VisibleOf(n.content, level + 1, id + ".");
      assert Visible(n, level, prefix) == [p] + rest;
      assert ([p] + rest)[1..] == rest;
    }
  }

  lemma {:induction false} FormatNodesIsBlocks(ns: seq<LegacyNode>, level: int, prefix: string)
    ensures FormatNodes(ns, level) == Blocks(VisibleOf(ns, level, prefix))
    decreases ns, 0
  {
    if |ns| > 0 {
      FormatNodeIsBlocks(ns[0], level, prefix);
      FormatNodesIsBlocks(ns[1..], level, prefix);
      BlocksConcat(Visible(ns[0], level, prefix), VisibleOf(ns[1..], level, prefix));
    }
  }

  lemma {:induction false} HiddenChildren(ns: seq<LegacyNode>, level: int)
    requires forall i :: 0 <= i < |ns| ==> !HasText(ns[i])
    ensures FormatNodes(ns, level) == []
  {
    if |ns| > 0 {
      HiddenChildren(ns[1..], level);
    }
  }

  /** A node without text renders nothing, its descendants included; a node with text whose
      children all lack text renders exactly its own header, chunks and separator. */
  lemma HiddenSubtree(n: LegacyNode, level: int)
    ensures !HasText(n) ==> FormatNode(n, level) == []
    ensures HasText(n) && (forall i :: 0 <= i < |n.content| ==> !HasText(n.content[i])) ==>
              FormatNode(n, level) == [Header(level, n)] + RenderChunks(n.text.value) + ["\n\n"]
  {
    if HasText(n) && (forall i :: 0 <= i < |n.content| ==> !HasText(n.content[i])) {
      HiddenChildren(n.content, level + 1);
    }
  }

  /** `_collect_refs` assigns one entry per node with text, over the full pre-order
      traversal: the text test does not stop the descent. */
  lemma {:induction false} CollectIntoIsPutAll(n: LegacyNode, refs: Table<Doc2Md.Ref>, level: int, prefix: string)
    ensures CollectInto(n, refs) == PutAll(refs, TextEntries(All(n, level, prefix)))
    decreases n, 1
  {
    var id := prefix + n.name;
    var p := Placed(n, level, id);
    var head := TextEntries([p]);
    var tail := TextEntries(AllOf(n.content, level + 1, id + "."));
    var refs' := if HasText(n) then Put(refs, n.name, RefOf(n)) else refs;
    CollectAllIntoIsPutAll(n.content, refs', level + 1, id + ".");
    TextEntriesConcat([p], AllOf(n.content, level + 1, id + "."));
    PutAllConcat(refs, head, tail);
    assert PutAll(refs, head) == refs' by {
      if HasText(n) {
        assert head == [(n.name, RefOf(n))];
        assert head[..0] == [];
      } else {
        assert head == [];
      }
    }
  }

  lemma {:induction false} CollectAllIntoIsPutAll(ns: seq<LegacyNode>, refs: Table<Doc2Md.Ref>, level: int, prefix: string)
    ensures CollectAllInto(ns, refs) == PutAll(refs, TextEntries(AllOf(ns, level, prefix)))
    decreases ns, 0
  {
    if |ns| == 0 {
      assert TextEntries([]) == [];
    } else {
      CollectIntoIsPutAll(ns[0], refs, level, prefix);
      CollectAllIntoIsPutAll(ns[1..], CollectInto(ns[0], refs), level, prefix);
      TextEntriesConcat(All(ns[0], level, prefix), AllOf(ns[1..], level, prefix));
      PutAllConcat(refs, TextEntries(All(ns[0], level, prefix)), TextEntries(AllOf(ns[1..], level, prefix)));
    }
  }

  lemma {:induction false} TextEntriesMembers(ps: seq<Placed<Chunk>>)
    ensures forall p :: p in ps && HasText(p.node) ==> p.node.name in Keys(TextEntries(ps))
    ensures forall k :: k in Keys(TextEntries(ps)) ==> exists p :: p in ps && HasText(p.node) && p.node.name == k
  {
    if |ps| > 0 {
      TextEntriesMembers(ps[1..]);
      var h := if HasText(ps[0].node) then [(ps[0].node.name, RefOf(ps[0].node))] else [];
      assert TextEntries(ps) == h + TextEntries(ps[1..]);
      assert Keys(TextEntries(ps)) == Keys(h) + Keys(TextEntries(ps[1..]));
      forall k | k in Keys(TextEntries(ps))
        ensures exists p :: p in ps && HasText(p.node) && p.node.name == k
      {
        if k in Keys(h) {
          assert ps[0] in ps;
        } else {
          var p :| p in ps[1..] && HasText(p.node) && p.node.name == k;
          assert p in ps;
        }
      }
    }
  }

  /** The legacy reference table: the short names of the nodes with text, anywhere in the
      tree (also below a node without text, which is not rendered), each once at its first
      occurrence and bound to the anchor and title of the last node with that name. */
  lemma CollectRefsSemantics(root: LegacyNode)
    ensures var es := TextEntries(All(root, 1, ""));
            && Keys(CollectRefs(root)) == FirstOccurrences(Keys(es))
            && Distinct(Keys(CollectRefs(root)))
            && (forall k :: Lookup(CollectRefs(root), k) == LastValue(es, k))
    ensures forall p :: p in All(root, 1, "") && HasText(p.node) ==> p.node.name in Keys(CollectRefs(root))
    ensures forall k :: k in Keys(CollectRefs(root)) ==>
              exists p :: p in All(root, 1, "") && HasText(p.node) && p.node.name == k
  {
    var es := TextEntries(All(root, 1, ""));
    CollectIntoIsPutAll(root, [], 1, "");
    PutAllSemantics(es);
    FirstOccurrencesMembers(Keys(es));
    TextEntriesMembers(All(root, 1, ""));
  }

  /** The whole output: the rendered tree, the blank separator, then two definition lines
      per distinct name of a node with text. */
  lemma FormatShape(root: LegacyNode)
    ensures Format(root) == Blocks(Visible(root, 1, "")) + ["\n\n"] + RefLines(CollectRefs(root))
    ensures |RefLines(CollectRefs(root))| == 2 * |FirstOccurrences(Keys(TextEntries(All(root, 1, ""))))|
  {
    FormatNodeIsBlocks(root, 1, "");
    CollectRefsSemantics(root);
  }
}
