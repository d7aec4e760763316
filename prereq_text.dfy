/** The prerequisite text in the course info panel (`getPrereqText` in
    website/app/components/HomeClient.tsx), rendered as a sequence of tokens instead of JSX:
    a leaf shows one label, an AND/OR group with children shows its children in parentheses
    separated by its operator, framed by line breaks; an empty group shows nothing. */
module PrereqText {
  import opened Wrappers
  import opened Schema

  datatype Token =
    | Text(s: string)     // a `<span>` with a label (or the literal text "None")
    | Op(name: string)    // `<strong>AND</strong>` or `<strong>OR</strong>` between two children
    | Open                // the coloured "("
    | Close               // the coloured ")"
    | Break               // `<br>`

  function Flatten(xss: seq<seq<Token>>): seq<Token>
  {
    if xss == [] then [] else xss[0] + Flatten(xss[1..])
  }

  /** The rendering of one node. */
  function Render(n: Node): seq<Token>
    decreases n, 1
  {
    match n
    case AndOrNode(op, cs) =>
      if cs == [] then [] else [Break, Open] + Render(cs[0]) + Flatten(Separated(n)) + [Close, Break]
    case CourseNode(course, _) => [Text(course)]
    case PermissionNode(raw, _, _, _, _) => [Text(raw)]
    case PlacementNode(name, _, _, _, _, _, _) => [Text(name)]
    case SkillNode(name) => [Text(name)]
    case StandingNode(standing, _) => [Text(standing)]
  }

  /** The children of a group after the first, each behind the group's operator. */
  function Separated(n: Node): (r: seq<seq<Token>>)
    requires n.AndOrNode? && n.children != []
    ensures |r| == |n.children| - 1
    ensures forall i | 0 <= i < |r| :: r[i] == [Op(Tag(n))] + Render(n.children[i + 1])
    decreases n, 0
  {
    seq(|n.children| - 1, i requires 0 <= i < |n.children| - 1 => [Op(Tag(n))] + Render(n.children[i + 1]))
  }

  /** A missing tree reads "None". */
  function RenderTree(t: Option<Node>): seq<Token>
  {
    if t.None? then [Text("None")] else Render(t.value)
  }

  /** `prerequisitesText`: "None" with no course shown, otherwise the course's prerequisite tree. */
  function PrerequisitesText(info: Option<CourseInfo>): (r: seq<Token>)
    ensures info.None? ==> r == [Text("None")]
    ensures info.Some? && info.value.prereqTree.None? ==> r == [Text("None")]
  {
    if info.None? then [Text("None")] else RenderTree(info.value.prereqTree)
  }

  // ---------------------------------------------------------------------------------------
  // What the rendering shows: every leaf label, in order

  /** The label a leaf is displayed by. */
  function Label(n: Node): string
    requires !n.AndOrNode?
  {
    match n
    case CourseNode(course, _) => course
    case PermissionNode(raw, _, _, _, _) => raw
    case PlacementNode(name, _, _, _, _, _, _) => name
    case SkillNode(name) => name
    case StandingNode(standing, _) => standing
  }

  function Concat(xss: seq<seq<string>>): seq<string>
  {
    if xss == [] then [] else xss[0] + Concat(xss[1..])
  }

  /** The labels of the leaves of a tree, left to right. */
  function Leaves(n: Node): seq<string>
  {
    if n.AndOrNode? then Concat(seq(|n.children|, i requires 0 <= i < |n.children| => Leaves(n.children[i])))
    else [Label(n)]
  }

  /** The labels a token sequence shows. */
  function Texts(ts: seq<Token>): (r: seq<string>)
    ensures |r| <= |ts|
  {
    if ts == [] then [] else (if ts[0].Text? then [ts[0].s] else []) + Texts(ts[1..])
  }

  lemma {:induction false} TextsAppend(a: seq<Token>, b: seq<Token>)
    ensures Texts(a + b) == Texts(a) + Texts(b)
  {
    if a == [] {
      assert a + b == b;
    } else {
      assert (a + b)[0] == a[0] && (a + b)[1..] == a[1..] + b;
      TextsAppend(a[1..], b);
    }
  }

  lemma {:induction false} TextsFlatten(xss: seq<seq<Token>>, labels: seq<seq<string>>)
    requires |labels| == |xss|
    requires forall i | 0 <= i < |xss| :: Texts(xss[i]) == labels[i]
    ensures Texts(Flatten(xss)) == Concat(labels)
  {
    if xss != [] {
      TextsAppend(xss[0], Flatten(xss[1..]));
      TextsFlatten(xss[1..], labels[1..]);
    }
  }

  /** The rendering shows exactly the leaf labels of the tree, in order: no requirement is
      dropped or repeated. */
  lemma {:induction false} RenderShowsLeaves(n: Node)
    ensures Texts(Render(n)) == Leaves(n)
  {
    if n.AndOrNode? && n.children != [] {
      forall i | 0 <= i < |n.children| ensures Texts(Render(n.children[i])) == Leaves(n.children[i]) {
        RenderShowsLeaves(n.children[i]);
      }
      GroupShowsLeaves(n);
    }
  }

  lemma GroupShowsLeaves(n: Node)
    requires n.AndOrNode? && n.children != []
    requires forall i | 0 <= i < |n.children| :: Texts(Render(n.children[i])) == Leaves(n.children[i])
    ensures Texts(Render(n)) == Leaves(n)
  {
    var head := Render(n.children[0]);
    var rest := Separated(n);
    assert Render(n) == [Break, Open] + head + Flatten(rest) + [Close, Break];
    SeparatedShowsLeaves(n, TailLeaves(n));
    TextsFlatten(rest, TailLeaves(n));
    TextsFramed(head, Flatten(rest));
    LeavesOfGroup(n);
  }

  /** The leaf labels of the children after the first. */
  function TailLeaves(n: Node): (r: seq<seq<string>>)
    requires n.AndOrNode? && n.children != []
    ensures |r| == |n.children| - 1
    ensures forall i | 0 <= i < |r| :: r[i] == Leaves(n.children[i + 1])
  {
    seq(|n.children| - 1, i requires 0 <= i < |n.children| - 1 => Leaves(n.children[i + 1]))
  }

  /** A group's leaves are its first child's leaves followed by the others'. */
  lemma LeavesOfGroup(n: Node)
    requires n.AndOrNode? && n.children != []
    ensures Leaves(n) == Leaves(n.children[0]) + Concat(TailLeaves(n))
  {
    var cs := n.children;
    var all := seq(|cs|, i requires 0 <= i < |cs| => Leaves(cs[i]));
    assert Leaves(n) == Concat(all);
    assert all[1..] == TailLeaves(n);
  }

  /** Every child after the first shows its leaves behind the operator. */
  lemma SeparatedShowsLeaves(n: Node, labels: seq<seq<string>>)
    requires n.AndOrNode? && n.children != []
    requires forall i | 0 <= i < |n.children| :: Texts(Render(n.children[i])) == Leaves(n.children[i])
    requires |labels| == |n.children| - 1
    requires forall i | 0 <= i < |labels| :: labels[i] == Leaves(n.children[i + 1])
    ensures forall i | 0 <= i < |Separated(n)| :: Texts(Separated(n)[i]) == labels[i]
  {
    var rest := Separated(n);
    forall i | 0 <= i < |rest| ensures Texts(rest[i]) == labels[i] {
      TextsAppend([Op(Tag(n))], Render(n.children[i + 1]));
      assert Texts([Op(Tag(n))]) == [];
    }
  }

  /** Parentheses and line breaks around a group show no text. */
  lemma TextsFramed(head: seq<Token>, tail: seq<Token>)
    ensures Texts([Break, Open] + head + tail + [Close, Break]) == Texts(head) + Texts(tail)
  {
    TextsAppend(head, tail);
    assert Texts([Break, Open]) == [] && Texts([Close, Break]) == [];
    assert [Break, Open] + head + tail + [Close, Break] == [Break, Open] + (head + tail) + [Close, Break];
    TextsAround([Break, Open], head + tail, [Close, Break]);
  }

  /** Tokens that show no text around `x` leave its text as it is. */
  lemma TextsAround(pre: seq<Token>, x: seq<Token>, post: seq<Token>)
    requires Texts(pre) == [] && Texts(post) == []
    ensures Texts(pre + x + post) == Texts(x)
  {
    TextsAppend(pre, x);
    TextsAppend(pre + x, post);
  }

  // ---------------------------------------------------------------------------------------
  // Parentheses are balanced

  /** Opened minus closed parentheses. */
  function Depth(ts: seq<Token>): int
  {
    if ts == [] then 0 else (if ts[0] == Open then 1 else if ts[0] == Close then -1 else 0) + Depth(ts[1..])
  }

  /** Every ")" closes an earlier "(", and every "(" is closed. */
  predicate Balanced(ts: seq<Token>)
  {
    Depth(ts) == 0 && forall k | 0 <= k <= |ts| :: Depth(ts[..k]) >= 0
  }

  lemma {:induction false} DepthAppend(a: seq<Token>, b: seq<Token>)
    ensures Depth(a + b) == Depth(a) + Depth(b)
  {
    if a == [] {
      assert a + b == b;
    } else {
      assert (a + b)[0] == a[0] && (a + b)[1..] == a[1..] + b;
      DepthAppend(a[1..], b);
    }
  }

  lemma BalancedAppend(a: seq<Token>, b: seq<Token>)
    requires Balanced(a) && Balanced(b)
    ensures Balanced(a + b)
  {
    DepthAppend(a, b);
    forall k | 0 <= k <= |a + b| ensures Depth((a + b)[..k]) >= 0 {
      if k <= |a| {
        assert (a + b)[..k] == a[..k];
      } else {
        assert (a + b)[..k] == a + b[..k - |a|];
        DepthAppend(a, b[..k - |a|]);
      }
    }
  }

  /** Text, operators and line breaks leave the depth alone. */
  lemma NoParens(ts: seq<Token>)
    requires forall i | 0 <= i < |ts| :: ts[i] != Open && ts[i] != Close
    ensures Balanced(ts)
  {
    forall k | 0 <= k <= |ts| ensures Depth(ts[..k]) == 0 {
      ZeroDepth(ts[..k]);
    }
    assert ts[..|ts|] == ts;
  }

  lemma {:induction false} ZeroDepth(ts: seq<Token>)
    requires forall i | 0 <= i < |ts| :: ts[i] != Open && ts[i] != Close
    ensures Depth(ts) == 0
  {
    if ts != [] {
      ZeroDepth(ts[1..]);
    }
  }

  lemma Wrapped(ts: seq<Token>)
    requires Balanced(ts)
    ensures Balanced([Break, Open] + ts + [Close, Break])
  {
    var w := [Break, Open] + ts + [Close, Break];
    assert Depth([Break, Open]) == 1 && Depth([Close, Break]) == -1 && Depth([Close]) == -1;
    assert Depth([Break]) == 0 && Depth([]) == 0;
    DepthAppend([Break, Open], ts);
    DepthAppend([Break, Open] + ts, [Close, Break]);
    forall k | 0 <= k <= |w| ensures Depth(w[..k]) >= 0 {
      if k == 0 {
        assert w[..k] == [];
      } else if k == 1 {
        assert w[..k] == [Break];
      } else if k <= |ts| + 2 {
        assert w[..k] == [Break, Open] + ts[..k - 2];
        DepthAppend([Break, Open], ts[..k - 2]);
        assert Depth(ts[..k - 2]) >= 0;
      } else if k == |ts| + 3 {
        assert w[..k] == ([Break, Open] + ts) + [Close];
        DepthAppend([Break, Open] + ts, [Close]);
      } else {
        assert w[..k] == w;
      }
    }
  }

  lemma {:induction false} BalancedFlatten(xss: seq<seq<Token>>)
    requires forall i | 0 <= i < |xss| :: Balanced(xss[i])
    ensures Balanced(Flatten(xss))
  {
    if xss == [] {
      assert Depth([]) == 0;
    } else {
      BalancedFlatten(xss[1..]);
      BalancedAppend(xss[0], Flatten(xss[1..]));
    }
  }

  /** Every group's parentheses match up. */
  lemma {:induction false} RenderBalanced(n: Node)
    ensures Balanced(Render(n))
  {
    if n.AndOrNode? {
      var cs := n.children;
      if cs == [] {
        NoParens([]);
      } else {
        var rest := Separated(n);
        forall i | 0 <= i < |rest| ensures Balanced(rest[i]) {
          RenderBalanced(cs[i + 1]);
          NoParens([Op(Tag(n))]);
          BalancedAppend([Op(Tag(n))], Render(cs[i + 1]));
        }
        BalancedFlatten(rest);
        RenderBalanced(cs[0]);
        BalancedAppend(Render(cs[0]), Flatten(rest));
        Wrapped(Render(cs[0]) + Flatten(rest));
        assert [Break, Open] + Render(cs[0]) + Flatten(rest) + [Close, Break]
            == [Break, Open] + (Render(cs[0]) + Flatten(rest)) + [Close, Break];
      }
    } else {
      NoParens(Render(n));
    }
  }
}
