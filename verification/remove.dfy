/** Deleting the last segment (`_remove_tree_item`). */
module Removal {

  import opened Errors
  import opened Nodes
  import opened Walk

  /** `del reduce(getitem, p[:-1], t)[p[-1]]` with every KeyError swallowed:
      the entry at p goes together with its whole subtree; a missing key
      anywhere along p leaves the tree as it was; the empty path raises
      IndexError; a non-directory on the way, or as the parent, raises
      TypeError. */
  function RemoveItem(t: Node, p: seq<string>): (r: Result<Node>)
    ensures r.Err? ==> r.error in {EmptyPath, TypeErr}
    ensures r.Ok? ==> r.value.Dir?
    decreases |p|
  {
    if |p| == 0 then Err(EmptyPath)
    else if !t.Dir? then Err(TypeErr)
    else match Child(t.entries, p[0])
      case None => Ok(t)
      case Some(c) =>
        if |p| == 1 then Ok(Dir(Delete(t.entries, p[0])))
        else match RemoveItem(c, p[1..])
          case Ok(c') => Ok(Dir(Assign(t.entries, p[0], c')))
          case Err(e) => Err(e)
  }

  /** Removing a path that does not exist leaves the tree identical. */
  lemma {:induction false} RemoveMissing(t: Node, p: seq<string>)
    requires Lookup(t, p) == Err(NotFound)
    ensures RemoveItem(t, p) == Ok(t)
    decreases |p|
  {
    match Child(t.entries, p[0])
    case None =>
    case Some(c) =>
      RemoveMissing(c, p[1..]);
      AssignExisting(t.entries, p[0]);
  }

  /** Exactly when removal raises: never once the parent is a directory or
      is missing. */
  lemma {:induction false} RemoveFailsIff(t: Node, p: seq<string>)
    ensures RemoveItem(t, p) == Err(EmptyPath) <==> |p| == 0
    ensures RemoveItem(t, p).Ok? <==>
      |p| > 0 && (DirAt(t, p[..|p| - 1]) || Lookup(t, p[..|p| - 1]) == Err(NotFound))
    decreases |p|
  {
    if |p| > 1 && t.Dir? {
      var k := p[0];
      assert p[..|p| - 1][0] == k && p[..|p| - 1][1..] == p[1..][..|p| - 2];
      match Child(t.entries, k)
      case None =>
      case Some(c) => RemoveFailsIff(c, p[1..]);
    }
  }

  /** After removing an existing path from a valid tree, nothing is left at
      it or below it, and its parent lost exactly that key. */
  lemma {:induction false} RemoveGone(t: Node, p: seq<string>)
    requires Valid(t) && Lookup(t, p).Ok? && |p| > 0
    ensures RemoveItem(t, p).Ok?
    ensures Lookup(RemoveItem(t, p).value, p) == Err(NotFound)
    ensures DirAt(t, p[..|p| - 1]) && DirAt(RemoveItem(t, p).value, p[..|p| - 1])
    ensures Keys(Lookup(RemoveItem(t, p).value, p[..|p| - 1]).value.entries) ==
            Keys(Delete(Lookup(t, p[..|p| - 1]).value.entries, p[|p| - 1]))
    decreases |p|
  {
    var k := p[0];
    var c := Child(t.entries, k).value;
    if |p| > 1 {
      assert Entry(k, c) in t.entries;
      RemoveGone(c, p[1..]);
      assert p[..|p| - 1][0] == k && p[..|p| - 1][1..] == p[1..][..|p| - 2];
    }
  }

  /** Removal keeps every dict's keys unique. */
  lemma {:induction false} RemoveValid(t: Node, p: seq<string>)
    requires Valid(t) && RemoveItem(t, p).Ok?
    ensures Valid(RemoveItem(t, p).value)
    decreases |p|
  {
    match Child(t.entries, p[0])
    case None =>
    case Some(c) =>
      var r := RemoveItem(t, p).value;
      if |p| > 1 {
        assert Entry(p[0], c) in t.entries;
        RemoveValid(c, p[1..]);
      }
      forall e | e in r.entries
        ensures Valid(e.node)
      {
        assert e in t.entries || (|p| > 1 && e == Entry(p[0], RemoveItem(c, p[1..]).value));
      }
  }

  /** Nodes off p's ancestor chain and outside its subtree are untouched. */
  lemma {:induction false} RemoveFrame(t: Node, p: seq<string>, q: seq<string>)
    requires RemoveItem(t, p).Ok?
    requires !(p <= q) && !(q <= p)
    ensures Lookup(RemoveItem(t, p).value, q) == Lookup(t, q)
    decreases |p|
  {
    var k := p[0];
    match Child(t.entries, k)
    case None =>
    case Some(c) =>
      if q[0] == k {
        assert !(p[1..] <= q[1..]) && !(q[1..] <= p[1..]);
        RemoveFrame(c, p[1..], q[1..]);
      }
  }
}
