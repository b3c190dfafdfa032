/** Set-with-create (`_set_tree_item`) and its parent variant
    (`_set_parent_tree_item`).

    `SetItem` is the reference definition: the tree that a successful call
    leaves, or the exception it raises. `SetTreeItem` follows the source's
    loop statement by statement — it creates each missing parent directory
    before it looks at the next segment — and records the tree as it stands
    when an exception escapes. The theorem `SetTreeItemAllOrNothing` shows
    the two agree: every exception is raised before the first directory is
    created, because once one is created every later segment is missing. */
module Assignment {

  import opened Errors
  import opened Nodes
  import opened Walk
  import opened Paths

  /** What a mutating call leaves behind: the tree as it stands when control
      returns to the caller, and the exception raised, if any. */
  datatype Outcome = Outcome(tree: Node, raised: Option<Error>)

  /** A call that either succeeds with r or raises without touching t. */
  function Lift(r: Result<Node>, t: Node): Outcome {
    match r
    case Ok(n) => Outcome(n, None)
    case Err(e) => Outcome(t, Some(e))
  }

  /** A result computed inside the node at a, put back in place. */
  function Graft(r: Result<Node>, t: Node, a: seq<string>): Result<Node>
    requires Lookup(t, a).Ok?
  {
    match r
    case Ok(n) => Ok(Replace(t, a, n))
    case Err(e) => Err(e)
  }

  /** Reference definition of set-with-create: store v at p, creating
      missing parents as empty dicts; a non-directory parent, or a final
      node of another kind, raises FileNotFoundError; the empty path raises
      IndexError. */
  function SetItem(t: Node, p: seq<string>, v: Node): (r: Result<Node>)
    ensures r.Ok? ==> r.value.Dir? && Lookup(r.value, p) == Ok(v)
    ensures r.Err? ==> r.error in {EmptyPath, TypeErr, NotFound}
    decreases |p|
  {
    if |p| == 0 then Err(EmptyPath)
    else if !t.Dir? then Err(TypeErr)
    else match Child(t.entries, p[0])
      case None => Ok(Dir(Assign(t.entries, p[0], Chain(p[1..], v))))
      case Some(c) =>
        if |p| == 1 then
          if SameKind(c, v) then Ok(Dir(Assign(t.entries, p[0], v))) else Err(NotFound)
        else if !c.Dir? then Err(NotFound)
        else match SetItem(c, p[1..], v)
          case Ok(c') => Ok(Dir(Assign(t.entries, p[0], c')))
          case Err(e) => Err(e)
  }

  /** `_set_tree_item` as the source runs it: IndexError for the empty
      path, TypeError for a root that is not a dict, and otherwise at most
      FileNotFoundError, with v at p when nothing was raised. Whether an
      exception leaves the tree untouched is the all-or-nothing theorem
      below. */
  function SetTreeItem(t: Node, p: seq<string>, v: Node): (o: Outcome)
    ensures o.raised == Some(EmptyPath) <==> |p| == 0
    ensures o.raised == Some(TypeErr) <==> |p| > 0 && !t.Dir?
    ensures o.raised.Some? ==> o.raised.value in {EmptyPath, TypeErr, NotFound}
    ensures o.raised.None? ==> Lookup(o.tree, p) == Ok(v)
  {
    if |p| == 0 then Outcome(t, Some(EmptyPath))
    else if !t.Dir? then Outcome(t, Some(TypeErr))
    else WalkParents(t, p, v, 0)
  }

  /** One turn of the source's loop over `path_parts[:-1]`, at segment i,
      with the current node the directory at p[..i]; at the last segment,
      the final type check and assignment. */
  function WalkParents(t: Node, p: seq<string>, v: Node, i: nat): (o: Outcome)
    requires i < |p| && DirAt(t, p[..i])
    ensures o.raised.Some? ==> o.raised == Some(NotFound)
    ensures o.raised.None? ==> Lookup(o.tree, p) == Ok(v)
    decreases |p| - i
  {
    var es := Lookup(t, p[..i]).value.entries;
    LookupStep(t, p[..i], p[i]);
    assert p[..i + 1] == p[..i] + [p[i]];
    if i == |p| - 1 then
      if Child(es, p[i]).Some? && !SameKind(Child(es, p[i]).value, v) then
        Outcome(t, Some(NotFound))
      else
        LookupReplaceChild(t, p[..i], Dir(Assign(es, p[i], v)), p[i]);
        assert p == p[..i] + [p[i]];
        Outcome(Replace(t, p[..i], Dir(Assign(es, p[i], v))), None)
    else match Child(es, p[i])
      case Some(c) =>
        if c.Dir? then WalkParents(t, p, v, i + 1) else Outcome(t, Some(NotFound))
      case None =>
        var t' := Replace(t, p[..i], Dir(Assign(es, p[i], Dir([]))));
        LookupStep(t', p[..i], p[i]);
        WalkParents(t', p, v, i + 1)
  }

  /** `_set_parent_tree_item`: set-with-create at `PurePath(p).parent`. */
  function SetParentItem(t: Node, p: seq<string>, v: Node): (o: Outcome)
    ensures o.raised.Some? ==> o.tree == t
    ensures o.raised.None? ==> Lookup(o.tree, Parent(p)) == Ok(v)
    ensures o.raised.None? <==> SetItem(t, Parent(p), v).Ok?
  {
    SetTreeItemAllOrNothing(t, Parent(p), v);
    SetTreeItem(t, Parent(p), v)
  }

  // ---- the all-or-nothing theorem ----

  /** Set-with-create at a + b, when a leads to a directory d, is
      set-with-create at b inside d, put back at a. */
  lemma {:induction false} SetItemDescend(t: Node, a: seq<string>, b: seq<string>, v: Node)
    requires DirAt(t, a) && |b| > 0
    ensures SetItem(t, a + b, v) == Graft(SetItem(Lookup(t, a).value, b, v), t, a)
    decreases |a|
  {
    if |a| == 0 {
      assert a + b == b;
    } else {
      var c := Child(t.entries, a[0]).value;
      assert (a + b)[0] == a[0] && (a + b)[1..] == a[1..] + b;
      SetItemDescend(c, a[1..], b, v);
    }
  }

  /** Set-with-create inside a fresh empty dict builds the chain. */
  lemma SetItemEmptyDir(q: seq<string>, v: Node)
    requires |q| > 0
    ensures SetItem(Dir([]), q, v) == Ok(Chain(q, v))
  {
    assert Assign([], q[0], Chain(q[1..], v)) == [Entry(q[0], Chain(q[1..], v))];
  }

  /** The loop from segment i on computes the reference result, and raises
      only on the tree it was given. */
  lemma {:induction false} WalkParentsIsSetItem(t: Node, p: seq<string>, v: Node, i: nat)
    requires i < |p| && DirAt(t, p[..i])
    ensures WalkParents(t, p, v, i) == Lift(SetItem(t, p, v), t)
    decreases |p| - i, 1
  {
    var es := Lookup(t, p[..i]).value.entries;
    if i == |p| - 1 {
      WalkParentsStep(t, p, v, i);
    } else {
      match Child(es, p[i])
      case Some(c) =>
        if c.Dir? {
          LookupStep(t, p[..i], p[i]);
          assert p[..i + 1] == p[..i] + [p[i]];
          WalkParentsIsSetItem(t, p, v, i + 1);
        } else {
          WalkParentsStep(t, p, v, i);
        }
      case None =>
        WalkParentsMissing(t, p, v, i);
    }
  }

  /** The turns of the loop that end it: the last segment, or a parent
      that exists and is not a directory. */
  lemma WalkParentsStep(t: Node, p: seq<string>, v: Node, i: nat)
    requires i < |p| && DirAt(t, p[..i])
    requires var c := Child(Lookup(t, p[..i]).value.entries, p[i]);
      i == |p| - 1 || (c.Some? && !c.value.Dir?)
    ensures WalkParents(t, p, v, i) == Lift(SetItem(t, p, v), t)
  {
    var k := p[i];
    LookupStep(t, p[..i], k);
    assert p[..i] + p[i..] == p;
    assert p[i..][0] == k && p[i..][1..] == p[i + 1..];
    SetItemDescend(t, p[..i], p[i..], v);
  }

  /** The turn of the loop that creates a missing parent: from then on the
      loop builds the same chain as the reference definition. */
  lemma {:induction false} WalkParentsMissing(t: Node, p: seq<string>, v: Node, i: nat)
    requires i < |p| - 1 && DirAt(t, p[..i])
    requires Child(Lookup(t, p[..i]).value.entries, p[i]).None?
    ensures WalkParents(t, p, v, i) == Lift(SetItem(t, p, v), t)
    decreases |p| - i, 0
  {
    var t' := Created(t, p, i);
    WalkParentsCreate(t, p, v, i);
    WalkParentsIsSetItem(t', p, v, i + 1);
    SetItemAfterCreate(t, p, v, i);
    SetItemAtMissing(t, p, v, i);
  }

  /** The tree after the loop creates the missing parent p[..i+1]. */
  function Created(t: Node, p: seq<string>, i: nat): Node
    requires i < |p| && DirAt(t, p[..i])
  {
    Replace(t, p[..i], Dir(Assign(Lookup(t, p[..i]).value.entries, p[i], Dir([]))))
  }

  /** The turn that creates a missing parent leaves an empty directory
      there. */
  lemma CreatedDir(t: Node, p: seq<string>, i: nat)
    requires i < |p| && DirAt(t, p[..i])
    ensures Lookup(Created(t, p, i), p[..i + 1]) == Ok(Dir([]))
  {
    var q := p[..i];
    assert p[..i + 1] == q + [p[i]];
    CreateChild(t, q, p[i]);
  }

  /** Assigning an empty dict under key k of the directory at q puts it at
      q + [k]. */
  lemma CreateChild(t: Node, q: seq<string>, k: string)
    requires DirAt(t, q)
    ensures Lookup(Replace(t, q, Dir(Assign(Lookup(t, q).value.entries, k, Dir([])))), q + [k]) == Ok(Dir([]))
  {
    var d := Dir(Assign(Lookup(t, q).value.entries, k, Dir([])));
    assert Child(d.entries, k) == Some(Dir([]));
    LookupReplaceChild(t, q, d, k);
  }

  /** The turn that creates a missing parent hands the loop on to the
      next segment. */
  lemma WalkParentsCreate(t: Node, p: seq<string>, v: Node, i: nat)
    requires i < |p| - 1 && DirAt(t, p[..i])
    requires Child(Lookup(t, p[..i]).value.entries, p[i]).None?
    ensures DirAt(Created(t, p, i), p[..i + 1])
    ensures WalkParents(t, p, v, i) == WalkParents(Created(t, p, i), p, v, i + 1)
  {
    CreatedDir(t, p, i);
  }

  /** Below a missing key the reference definition stores a chain of fresh
      directories ending in v. */
  lemma SetItemAtMissing(t: Node, p: seq<string>, v: Node, i: nat)
    requires i < |p| - 1 && DirAt(t, p[..i])
    requires Child(Lookup(t, p[..i]).value.entries, p[i]).None?
    ensures SetItem(t, p, v) ==
      Ok(Replace(t, p[..i], Dir(Assign(Lookup(t, p[..i]).value.entries, p[i], Chain(p[i + 1..], v)))))
  {
    assert p == p[..i] + ([p[i]] + p[i + 1..]);
    SetBelowMissing(t, p[..i], p[i], p[i + 1..], v);
  }

  /** The same, with p split as a + [k] + q. */
  lemma SetBelowMissing(t: Node, a: seq<string>, k: string, q: seq<string>, v: Node)
    requires DirAt(t, a) && Child(Lookup(t, a).value.entries, k).None? && |q| > 0
    ensures SetItem(t, a + ([k] + q), v) ==
      Ok(Replace(t, a, Dir(Assign(Lookup(t, a).value.entries, k, Chain(q, v)))))
  {
    assert ([k] + q)[0] == k && ([k] + q)[1..] == q;
    SetItemDescend(t, a, [k] + q, v);
  }

  /** Creating the missing parent first does not change what the reference
      definition then stores. */
  lemma SetItemAfterCreate(t: Node, p: seq<string>, v: Node, i: nat)
    requires i < |p| - 1 && DirAt(t, p[..i])
    requires Child(Lookup(t, p[..i]).value.entries, p[i]).None?
    ensures SetItem(Created(t, p, i), p, v) == SetItem(t, p, v)
  {
    assert p == p[..i] + ([p[i]] + p[i + 1..]);
    SetAfterCreate(t, p[..i], p[i], p[i + 1..], v);
  }

  /** The same, with p split as a + [k] + q. */
  lemma SetAfterCreate(t: Node, a: seq<string>, k: string, q: seq<string>, v: Node)
    requires DirAt(t, a) && Child(Lookup(t, a).value.entries, k).None? && |q| > 0
    ensures SetItem(Replace(t, a, Dir(Assign(Lookup(t, a).value.entries, k, Dir([])))), a + ([k] + q), v)
         == SetItem(t, a + ([k] + q), v)
  {
    var es := Lookup(t, a).value.entries;
    var d' := Dir(Assign(es, k, Dir([])));
    var x := Dir(Assign(es, k, Chain(q, v)));
    SetItemDescend(Replace(t, a, d'), a, [k] + q, v);
    SetItemIntoEmpty(es, k, q, v);
    ReplaceTwice(t, a, d', x);
    SetBelowMissing(t, a, k, q, v);
  }

  /** Storing below a directory just created for the missing key k builds
      the same chain as storing below the missing key itself. */
  lemma SetItemIntoEmpty(es: seq<Entry>, k: string, q: seq<string>, v: Node)
    requires Child(es, k).None? && |q| > 0
    ensures SetItem(Dir(Assign(es, k, Dir([]))), [k] + q, v) == Ok(Dir(Assign(es, k, Chain(q, v))))
  {
    assert ([k] + q)[0] == k && ([k] + q)[1..] == q;
    SetItemEmptyDir(q, v);
    AssignTwice(es, k, Dir([]), Chain(q, v));
  }

  /** Set-with-create is all-or-nothing: run as the source runs it, it
      either leaves exactly the reference result or raises with the tree
      untouched. */
  lemma SetTreeItemAllOrNothing(t: Node, p: seq<string>, v: Node)
    ensures SetTreeItem(t, p, v) == Lift(SetItem(t, p, v), t)
    ensures SetTreeItem(t, p, v).raised.Some? ==> SetTreeItem(t, p, v).tree == t
  {
    if |p| > 0 && t.Dir? {
      assert p[..0] == [];
      WalkParentsIsSetItem(t, p, v, 0);
    }
  }

  // ---- what a successful set-with-create leaves ----

  /** A segment conflicts when it names an existing non-directory above the
      end of p, or when the node at p is of another kind than v. */
  predicate Conflict(t: Node, p: seq<string>, v: Node) {
    || (exists i :: 0 < i < |p| && NonDirAt(t, p[..i]))
    || (Lookup(t, p).Ok? && !SameKind(Lookup(t, p).value, v))
  }

  /** Exactly when set-with-create raises, and which exception. */
  lemma {:induction false} SetItemFailsIff(t: Node, p: seq<string>, v: Node)
    ensures SetItem(t, p, v) == Err(EmptyPath) <==> |p| == 0
    ensures SetItem(t, p, v) == Err(TypeErr) <==> |p| > 0 && !t.Dir?
    ensures SetItem(t, p, v) == Err(NotFound) <==> |p| > 0 && t.Dir? && Conflict(t, p, v)
    ensures SetItem(t, p, v).Ok? <==> |p| > 0 && t.Dir? && !Conflict(t, p, v)
    decreases |p|
  {
    if |p| > 0 && t.Dir? {
      var k := p[0];
      match Child(t.entries, k)
      case None =>
        forall i | 0 < i < |p|
          ensures !NonDirAt(t, p[..i])
        {
          assert p[..i][0] == k;
        }
      case Some(c) =>
        if |p| == 1 {
        } else if !c.Dir? {
          assert p[..1] == [k];
          assert NonDirAt(t, p[..1]);
        } else {
          SetItemFailsIff(c, p[1..], v);
          forall i | 1 < i < |p|
            ensures NonDirAt(t, p[..i]) == NonDirAt(c, p[1..][..i - 1])
          {
            assert p[..i][0] == k && p[..i][1..] == p[1..][..i - 1];
          }
          assert p[..1] == [k];
          assert !NonDirAt(t, p[..1]);
          if exists i :: 0 < i < |p| && NonDirAt(t, p[..i]) {
            var i :| 0 < i < |p| && NonDirAt(t, p[..i]);
            assert NonDirAt(c, p[1..][..i - 1]);
          }
          if exists i :: 0 < i < |p| - 1 && NonDirAt(c, p[1..][..i]) {
            var i :| 0 < i < |p| - 1 && NonDirAt(c, p[1..][..i]);
            assert NonDirAt(t, p[..i + 1]);
          }
        }
    }
  }

  /** Nodes off p's ancestor chain and off p's subtree are unchanged. */
  lemma {:induction false} SetItemFrame(t: Node, p: seq<string>, v: Node, q: seq<string>)
    requires SetItem(t, p, v).Ok?
    requires !(p <= q) && !(q <= p)
    ensures Lookup(SetItem(t, p, v).value, q) == Lookup(t, q)
    decreases |p|
  {
    var k := p[0];
    if q[0] == k {
      assert !(p[1..] <= q[1..]) && !(q[1..] <= p[1..]);
      match Child(t.entries, k)
      case None => ChainOff(p[1..], v, q[1..]);
      case Some(c) => SetItemFrame(c, p[1..], v, q[1..]);
    }
  }

  /** Every directory above p keeps its keys in order, gaining p's next
      segment at the end when it lacked it; a parent that was missing is
      now a directory holding only that segment. */
  lemma {:induction false} SetItemParents(t: Node, p: seq<string>, v: Node, i: nat)
    requires SetItem(t, p, v).Ok? && i < |p|
    ensures DirAt(SetItem(t, p, v).value, p[..i])
    ensures Keys(Lookup(SetItem(t, p, v).value, p[..i]).value.entries) ==
      if DirAt(t, p[..i]) then
        var before := Keys(Lookup(t, p[..i]).value.entries);
        if p[i] in before then before else before + [p[i]]
      else [p[i]]
    decreases |p|
  {
    if i == 0 {
      SetItemParentsRoot(t, p, v);
    } else if Child(t.entries, p[0]).None? {
      SetItemParentsMissing(t, p, v, i);
    } else {
      var c := Child(t.entries, p[0]).value;
      SetItemParents(c, p[1..], v, i - 1);
      SetItemParentsBelow(t, p, v, i);
      var q := p[1..][..i - 1];
      assert DirAt(t, p[..i]) == DirAt(c, q);
      assert p[1..][i - 1] == p[i];
    }
  }

  /** The root keeps its keys, gaining p[0] at the end when it lacked it. */
  lemma SetItemParentsRoot(t: Node, p: seq<string>, v: Node)
    requires SetItem(t, p, v).Ok?
    ensures DirAt(SetItem(t, p, v).value, p[..0])
    ensures Keys(Lookup(SetItem(t, p, v).value, p[..0]).value.entries) ==
      var before := Keys(Lookup(t, p[..0]).value.entries);
      if p[0] in before then before else before + [p[0]]
  {
    assert p[..0] == [];
  }

  /** Below an existing directory child c, the parents of p seen from the
      root are the parents of p[1..] seen from c. */
  lemma SetItemParentsBelow(t: Node, p: seq<string>, v: Node, i: nat)
    requires SetItem(t, p, v).Ok? && 0 < i < |p|
    requires t.Dir? && Child(t.entries, p[0]).Some?
    ensures var c := Child(t.entries, p[0]).value;
      && Lookup(t, p[..i]) == Lookup(c, p[1..][..i - 1])
      && Lookup(SetItem(t, p, v).value, p[..i]) == Lookup(SetItem(c, p[1..], v).value, p[1..][..i - 1])
      && p[1..][i - 1] == p[i]
  {
    assert p[..i][0] == p[0] && p[..i][1..] == p[1..][..i - 1];
  }

  /** Below a missing key, every parent is a fresh directory holding only
      the next segment. */
  lemma SetItemParentsMissing(t: Node, p: seq<string>, v: Node, i: nat)
    requires SetItem(t, p, v).Ok? && 0 < i < |p|
    requires t.Dir? && Child(t.entries, p[0]).None?
    ensures DirAt(SetItem(t, p, v).value, p[..i])
    ensures Keys(Lookup(SetItem(t, p, v).value, p[..i]).value.entries) ==
      if DirAt(t, p[..i]) then
        var before := Keys(Lookup(t, p[..i]).value.entries);
        if p[i] in before then before else before + [p[i]]
      else [p[i]]
  {
    assert p[..i][0] == p[0] && p[..i][1..] == p[1..][..i - 1];
    assert p[1..][i - 1] == p[i];
    ChainAbove(p[1..], v, i - 1);
    assert Lookup(t, p[..i]) == Err(NotFound);
  }

  /** Storing the node that is already at p changes nothing. */
  lemma {:induction false} SetItemSame(t: Node, p: seq<string>)
    requires |p| > 0 && t.Dir? && Lookup(t, p).Ok?
    ensures SetItem(t, p, Lookup(t, p).value) == Ok(t)
    decreases |p|
  {
    var c := Child(t.entries, p[0]).value;
    AssignExisting(t.entries, p[0]);
    if |p| > 1 {
      SetItemSame(c, p[1..]);
    }
  }

  /** Set-with-create is idempotent. */
  lemma SetItemTwice(t: Node, p: seq<string>, v: Node)
    requires SetItem(t, p, v).Ok?
    ensures SetItem(SetItem(t, p, v).value, p, v) == SetItem(t, p, v)
  {
    SetItemSame(SetItem(t, p, v).value, p);
  }

  /** Set-with-create keeps every dict's keys unique. */
  lemma {:induction false} SetItemValid(t: Node, p: seq<string>, v: Node)
    requires Valid(t) && Valid(v) && SetItem(t, p, v).Ok?
    ensures Valid(SetItem(t, p, v).value)
    decreases |p|
  {
    var k := p[0];
    match Child(t.entries, k)
    case None => ChainValid(p[1..], v);
    case Some(c) =>
      if |p| > 1 {
        SetItemValid(c, p[1..], v);
      }
  }

  lemma {:induction false} ChainValid(p: seq<string>, v: Node)
    requires Valid(v)
    ensures Valid(Chain(p, v))
    decreases |p|
  {
    if |p| > 0 {
      ChainValid(p[1..], v);
    }
  }

  /** Below a missing path, set-with-create always succeeds. */
  lemma SetItemMissingOk(t: Node, a: seq<string>, q: seq<string>, v: Node)
    requires Lookup(t, a) == Err(NotFound) && a <= q
    ensures SetItem(t, q, v).Ok?
  {
    SetItemFailsIff(t, q, v);
    LookupTypeErrIff(t, a);
    forall i | 0 < i < |q|
      ensures !NonDirAt(t, q[..i])
    {
      if i < |a| {
        assert q[..i] == a[..i];
      } else {
        LookupBelowMissing(t, a, q[..i]);
      }
    }
    LookupBelowMissing(t, a, q);
  }

  /** Storing a non-directory at q leaves every other existing
      non-directory node where it was. */
  lemma {:induction false} SetItemKeepsLeaf(t: Node, q: seq<string>, v: Node, x: seq<string>)
    requires SetItem(t, q, v).Ok? && !v.Dir?
    requires NonDirAt(t, x) && x != q
    ensures Lookup(SetItem(t, q, v).value, x) == Lookup(t, x)
    decreases |q|
  {
    if |x| > 1 && |q| > 1 && x[0] == q[0] && Child(t.entries, q[0]).Some? {
      var c := Child(t.entries, q[0]).value;
      assert x[1..] != q[1..];
      SetItemKeepsLeaf(c, q[1..], v, x[1..]);
    }
  }

  /** A non-directory never replaces a directory. */
  lemma SetItemOntoDirFails(t: Node, p: seq<string>, v: Node)
    requires DirAt(t, p) && !v.Dir?
    ensures SetItem(t, p, v).Err?
  {
    SetItemFailsIff(t, p, v);
  }
}
