/** The documentation tree both tool generations exchange as JSON: nodes
    `{type, name, location, text, content}`. The text is a string in the current format
    (`Node<char>`) and a list of `[tag, text]` chunks in the legacy one (`Node<Chunk>`); in
    both, `None` and the empty value are falsy, so `HasText` is the test `if not node["text"]`
    negated. */
module DocTree {
  import opened Results

  datatype Location = Location(path: string, line: int)

  datatype Node<T> = Node(kind: string, name: string, location: Location,
                          text: Option<seq<T>>, content: seq<Node<T>>)

  predicate HasText<T>(n: Node<T>) {
    n.text.Some? && |n.text.value| > 0
  }

  /** A node together with its header level and its raw dotted id (ancestor names and its
      own name joined by `.`). */
  datatype Placed<T> = Placed(node: Node<T>, level: int, key: string)

  function Size<T>(n: Node<T>): nat
    decreases n, 1
  {
    1 + SizeOf(n.content)
  }

  function SizeOf<T>(ns: seq<Node<T>>): nat
    decreases ns, 0
  {
    if |ns| == 0 then 0 else Size(ns[0]) + SizeOf(ns[1..])
  }

  /** Every node of the subtree, in pre-order, whatever its text: the traversal the
      reference collectors make. */
  function All<T>(n: Node<T>, level: int, prefix: string): seq<Placed<T>>
    decreases n, 1
  {
    [Placed(n, level, prefix + n.name)] + AllOf(n.content, level + 1, prefix + n.name + ".")
  }

  function AllOf<T>(ns: seq<Node<T>>, level: int, prefix: string): seq<Placed<T>>
    decreases ns, 0
  {
    if |ns| == 0 then [] else All(ns[0], level, prefix) + AllOf(ns[1..], level, prefix)
  }

  /** The nodes the formatters render: pre-order, stopping at every node without text, so
      that such a node hides its whole subtree. */
  function Visible<T>(n: Node<T>, level: int, prefix: string): seq<Placed<T>>
    decreases n, 1
  {
    if !HasText(n) then []
    else [Placed(n, level, prefix + n.name)] + VisibleOf(n.content, level + 1, prefix + n.name + ".")
  }

  function VisibleOf<T>(ns: seq<Node<T>>, level: int, prefix: string): seq<Placed<T>>
    decreases ns, 0
  {
    if |ns| == 0 then [] else Visible(ns[0], level, prefix) + VisibleOf(ns[1..], level, prefix)
  }

  /** The full traversal meets every node exactly once. */
  lemma {:induction false} AllSize<T>(n: Node<T>, level: int, prefix: string)
    ensures |All(n, level, prefix)| == Size(n)
    ensures All(n, level, prefix)[0] == Placed(n, level, prefix + n.name)
    decreases n, 1
  {
    AllOfSize(n.content, level + 1, prefix + n.name + ".");
  }

  lemma {:induction false} AllOfSize<T>(ns: seq<Node<T>>, level: int, prefix: string)
    ensures |AllOf(ns, level, prefix)| == SizeOf(ns)
    decreases ns, 0
  {
    if |ns| > 0 {
      AllSize(ns[0], level, prefix);
      AllOfSize(ns[1..], level, prefix);
    }
  }

  /** Every rendered node has text, and is one of the nodes of the full traversal. */
  lemma {:induction false} VisibleInAll<T>(n: Node<T>, level: int, prefix: string)
    ensures forall p :: p in Visible(n, level, prefix) ==> HasText(p.node) && p in All(n, level, prefix)
    decreases n, 1
  {
    if HasText(n) {
      VisibleOfInAllOf(n.content, level + 1, prefix + n.name + ".");
    }
  }

  lemma {:induction false} VisibleOfInAllOf<T>(ns: seq<Node<T>>, level: int, prefix: string)
    ensures forall p :: p in VisibleOf(ns, level, prefix) ==> HasText(p.node) && p in AllOf(ns, level, prefix)
    decreases ns, 0
  {
    if |ns| > 0 {
      VisibleInAll(ns[0], level, prefix);
      VisibleOfInAllOf(ns[1..], level, prefix);
    }
  }

  /** Rendering skips a node exactly when some node of the subtree lacks text: the
      rendered list is the whole traversal iff every node has text, and strictly shorter
      otherwise. */
  lemma {:induction false} VisibleIsAllIffTexts<T>(n: Node<T>, level: int, prefix: string)
    ensures |Visible(n, level, prefix)| <= |All(n, level, prefix)|
    ensures (forall p :: p in All(n, level, prefix) ==> HasText(p.node))
            <==> Visible(n, level, prefix) == All(n, level, prefix)
    decreases n, 1
  {
    var a, v := All(n, level, prefix), Visible(n, level, prefix);
    var ca, cv := AllOf(n.content, level + 1, prefix + n.name + "."), VisibleOf(n.content, level + 1, prefix + n.name + ".");
    VisibleOfIsAllOfIffTexts(n.content, level + 1, prefix + n.name + ".");
    assert a == [a[0]] + ca;
    if HasText(n) {
      assert v == [a[0]] + cv;
      if forall p :: p in a ==> HasText(p.node) {
        assert forall p :: p in ca ==> HasText(p.node) by {
          forall p | p in ca ensures HasText(p.node) {
            assert p in a;
          }
        }
      }
      if v == a {
        assert cv == ca by {
          assert cv == v[1..] && ca == a[1..];
        }
      }
    } else {
      assert a[0].node == n;
    }
  }

  lemma {:induction false} VisibleOfIsAllOfIffTexts<T>(ns: seq<Node<T>>, level: int, prefix: string)
    ensures |VisibleOf(ns, level, prefix)| <= |AllOf(ns, level, prefix)|
    ensures (forall p :: p in AllOf(ns, level, prefix) ==> HasText(p.node))
            <==> VisibleOf(ns, level, prefix) == AllOf(ns, level, prefix)
    decreases ns, 0
  {
    if |ns| > 0 {
      var a1, a2 := All(ns[0], level, prefix), AllOf(ns[1..], level, prefix);
      var v1, v2 := Visible(ns[0], level, prefix), VisibleOf(ns[1..], level, prefix);
      VisibleIsAllIffTexts(ns[0], level, prefix);
      VisibleOfIsAllOfIffTexts(ns[1..], level, prefix);
      if forall p: Placed<T> :: p in a1 + a2 ==> HasText(p.node) {
        assert forall p :: p in a1 ==> HasText(p.node) by {
          forall p | p in a1 ensures HasText(p.node) {
            assert p in a1 + a2;
          }
        }
        assert forall p :: p in a2 ==> HasText(p.node) by {
          forall p | p in a2 ensures HasText(p.node) {
            assert p in a1 + a2;
          }
        }
      }
      if v1 + v2 == a1 + a2 {
        assert |v1| == |a1| && |v2| == |a2|;
        assert v1 == (v1 + v2)[..|v1|] && a1 == (a1 + a2)[..|a1|];
        assert v2 == (v1 + v2)[|v1|..] && a2 == (a1 + a2)[|a1|..];
      }
    }
  }

  /** A rendered list as long as the full traversal is the full traversal. */
  lemma {:induction false} VisibleLengthEq<T>(n: Node<T>, level: int, prefix: string)
    requires |Visible(n, level, prefix)| == |All(n, level, prefix)|
    ensures Visible(n, level, prefix) == All(n, level, prefix)
    decreases n, 1
  {
    var ca := AllOf(n.content, level + 1, prefix + n.name + ".");
    var cv := VisibleOf(n.content, level + 1, prefix + n.name + ".");
    VisibleOfIsAllOfIffTexts(n.content, level + 1, prefix + n.name + ".");
    if HasText(n) {
      VisibleOfLengthEq(n.content, level + 1, prefix + n.name + ".");
    }
  }

  lemma {:induction false} VisibleOfLengthEq<T>(ns: seq<Node<T>>, level: int, prefix: string)
    requires |VisibleOf(ns, level, prefix)| == |AllOf(ns, level, prefix)|
    ensures VisibleOf(ns, level, prefix) == AllOf(ns, level, prefix)
    decreases ns, 0
  {
    if |ns| > 0 {
      VisibleIsAllIffTexts(ns[0], level, prefix);
      VisibleOfIsAllOfIffTexts(ns[1..], level, prefix);
      VisibleLengthEq(ns[0], level, prefix);
      VisibleOfLengthEq(ns[1..], level, prefix);
    }
  }
}
