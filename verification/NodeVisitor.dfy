/**
  The iterative tree walk of src/config/node-visitor.c, with an explicit stack of child indices.
 */
module NodeVisitors {
  import opened Wrappers
  import opened ConfigTree
  import opened TreePaths
  import opened ConfigDatas

  class NodeVisitor {
    var stack: seq<nat>
    var config: ConfigData
    var init: bool

    ghost const root: ConfigData
    ghost var seen: nat  // how many sections have been returned

    /** The stack is the way from the root to the current section, the last one that was returned. */
    ghost predicate Valid()
      reads this, root, root.Repr
    {
      && root.IsLinked()
      && config in root.Repr
      && stack == config.position
      && if init then 0 < seen <= |Preorder(root.tree)| && Preorder(root.tree)[seen - 1] == config.position
         else seen == 0 && config == root
    }

    constructor (config: ConfigData)
      requires config.IsLinked()
      ensures Valid() && root == config && seen == 0
    {
      stack, this.config, init := [], config, false;
      root, seen := config, 0;
    }

    method PushStack(index: nat)
      modifies this`stack
      ensures stack == old(stack) + [index]
    {
      stack := stack + [index];
    }

    /** Popping an empty stack is a bug of the walk; the precondition says that it does not happen. */
    method PopStack() returns (index: nat)
      requires stack != []
      modifies this`stack
      ensures old(stack) == stack + [index]
    {
      index := stack[|stack| - 1];
      stack := stack[..|stack| - 1];
    }

    /** The next section in preorder, or status 1 when all have been returned. */
    method Next() returns (status: int, next: ConfigData?)
      requires Valid()
      modifies this
      ensures status == if old(seen) < |Preorder(root.tree)| then 0 else 1
      ensures status == 0 ==>
                && Valid() && seen == old(seen) + 1
                && next == config && next in root.Repr
                && next.position == Preorder(root.tree)[old(seen)]
    {
      hide ConfigData.IsLinked, ConfigData.Fields, AllLinked;
      var current := config;
      // when called for the first time, return the root
      if !init {
        root.RootIn();
        init, seen := true, 1;
        return 0, current;
      }
      NextPosition(root.tree, seen);
      next := Advance();
      if next == null {
        return 1, null;
      }
      config, seen := next, seen + 1;
      return 0, next;
    }

    /** The step of `Next` from the current section: down to the first subsection, or else up and on. */
    method Advance() returns (next: ConfigData?)
      requires root.IsLinked() && config in root.Repr && stack == config.position && IsPosition(root.tree, stack)
      modifies this`stack
      ensures var q := FromHere(root.tree, config.position);
              if q.None? then next == null
              else next != null && next in root.Repr && q == Some(next.position) && stack == next.position
    {
      root.Located(config);
      root.AtNode(config);
      if config.subsections != [] {
        // traverse into the first subsection
        PushStack(0);
        return config.subsections[0];
      }
      next := NextSibling();
    }

    /** The loop of `Next`: climb until a section has a further subsection, and step into that. */
    method NextSibling() returns (next: ConfigData?)
      requires root.IsLinked() && config in root.Repr && stack == config.position && IsPosition(root.tree, stack)
      modifies this`stack
      ensures next == null <==> Climb(root.tree, config.position).None?
      ensures next != null ==> next in root.Repr && Climb(root.tree, config.position) == Some(next.position)
      ensures next != null ==> stack == next.position
    {
      hide ConfigData.IsLinked, ConfigData.Fields, Linked, AllLinked;
      var current := config;
      while true
        invariant current in root.Repr && stack == current.position && IsPosition(root.tree, stack)
        invariant Climb(root.tree, current.position) == Climb(root.tree, config.position)
        decreases |stack|
      {
        ClimbFrom(root, current);
        // traverse to the parent
        var parent := current.parent;
        if parent == null {
          return null;
        }
        var index := PopStack();
        assert stack == parent.position;
        index := index + 1;
        // go on with the next subsection of the parent, if there is one
        if index < |parent.subsections| {
          PushStack(index);
          return parent.subsections[index];
        }
        current := parent;
      }
    }
  }

  /** One step of the climb in the links: to the next subsection of the parent, or to the parent. */
  lemma ClimbFrom(root: ConfigData, n: ConfigData)
    requires root.IsLinked() && n in root.Repr && IsPosition(root.tree, n.position)
    ensures n.parent == null ==> Climb(root.tree, n.position).None?
    ensures n.parent != null ==>
              && n.parent in root.Repr && IsPosition(root.tree, n.parent.position) && n.position != []
              && n.position[..|n.position| - 1] == n.parent.position
              && var k := n.position[|n.position| - 1] + 1;
                 if k < |n.parent.subsections| then
                   && n.parent.subsections[k] in root.Repr
                   && n.parent.subsections[k].position == n.parent.position + [k]
                   && Climb(root.tree, n.position) == Some(n.parent.position + [k])
                 else Climb(root.tree, n.position) == Climb(root.tree, n.parent.position)
  {
    root.AtNode(n);
    if n.parent != null {
      root.Located(n.parent);
      root.AtNode(n.parent);
      ClimbStep(root.tree, n.parent.position, n.position[|n.position| - 1]);
    }
  }

  function FromHere(t: Tree, p: Position): Option<Position>
    requires IsPosition(t, p)
  {
    if SubAt(t, p).subs != [] then Some(p + [0]) else Climb(t, p)
  }

  /** From the last section returned, the walk leads to the next one in preorder. */
  lemma NextPosition(t: Tree, seen: nat)
    requires 0 < seen <= |Preorder(t)|
    ensures var p := Preorder(t)[seen - 1];
            IsPosition(t, p) &&
            FromHere(t, p) == if seen < |Preorder(t)| then Some(Preorder(t)[seen]) else None
  {
    PreorderNext(t, seen - 1);
    ClimbIsSuccessor(t, Preorder(t)[seen - 1]);
  }

  lemma ClimbStep(t: Tree, p: Position, k: nat)
    requires IsPosition(t, p + [k]) && IsPosition(t, p)
    ensures Climb(t, p + [k]) ==
            if k + 1 < |SubAt(t, p).subs| then Some(p + [k + 1]) else Climb(t, p)
  {
    assert (p + [k])[..|p|] == p;
  }
}
