/** The public operations of the in-memory protocol: queries (`ls`,
    `exists`, `is_dir`), structural mutation (`mkdirs`, `mkdir`, `rm`) and
    copy/move (`cp`, `mv`). A mutating operation returns the tree it leaves
    and the exception it raised, if any. */
module Namespace {

  import opened Errors
  import opened Nodes
  import opened Paths
  import opened Walk
  import opened Assignment
  import opened Removal

  /** What `tuple(item)` yields for each kind of node. */
  datatype Listing =
    | Names(names: seq<string>)   // a dict: its keys in insertion order
    | Octets(octets: seq<bv8>)    // bytes: the byte values
    | StreamLines                 // a stored stream object: its remaining lines, not tracked

  // ---- queries ----

  /** `ls`: list the node at p; a missing key raises FileNotFoundError and
      stepping through a file raises TypeError. */
  function Ls(t: Node, p: Path): (r: Result<Listing>)
    ensures r.Err? <==> Lookup(t, p).Err?
    ensures r.Err? ==> r.error == Lookup(t, p).error
    ensures r.Ok? && r.value.Names? <==> DirAt(t, p)
    ensures DirAt(t, p) ==> r == Ok(Names(Keys(Lookup(t, p).value.entries)))
    ensures Lookup(t, p).Ok? && Lookup(t, p).value.File? ==> r == Ok(Octets(Lookup(t, p).value.data))
  {
    var n :- Lookup(t, p);
    match n
    case Dir(es) => Ok(Names(Keys(es)))
    case File(data) => Ok(Octets(data))
    case Opaque => Ok(StreamLines)
  }

  /** `exists`: only FileNotFoundError is caught, so a path through a file
      still raises TypeError. */
  function Exists(t: Node, p: Path): (r: Result<bool>)
    ensures r == Ok(true) <==> Lookup(t, p).Ok?
    ensures r == Ok(false) <==> Lookup(t, p) == Err(NotFound)
    ensures r == Err(TypeErr) <==> Lookup(t, p) == Err(TypeErr)
  {
    match Lookup(t, p)
    case Ok(_) => Ok(true)
    case Err(NotFound) => Ok(false)
    case Err(e) => Err(e)
  }

  /** `is_dir`: whether the node at p is a dict; lookup errors propagate. */
  function IsDir(t: Node, p: Path): (r: Result<bool>)
    ensures r.Ok? <==> Lookup(t, p).Ok?
    ensures r == Ok(true) <==> DirAt(t, p)
    ensures r.Err? ==> r.error == Lookup(t, p).error
  {
    var n :- Lookup(t, p);
    Ok(n.Dir?)
  }

  /** `ls` and `exists` agree: a directory lists exactly the names under
      which `exists` finds a child, in insertion order and without repeats
      in a valid tree. */
  lemma LsExistsAgree(t: Node, p: Path, k: string)
    requires DirAt(t, p)
    ensures Ls(t, p).Ok? && Ls(t, p).value.Names?
    ensures k in Ls(t, p).value.names <==> Exists(t, p + [k]) == Ok(true)
    ensures Valid(t) ==> forall a, b :: 0 <= a < b < |Ls(t, p).value.names| ==>
      Ls(t, p).value.names[a] != Ls(t, p).value.names[b]
  {
    LookupStep(t, p, k);
    if Valid(t) {
      LookupValid(t, p);
    }
  }

  /** `ls` after a store directly below the directory p: the names keep
      their order, and a name that was not there is appended at the end. */
  lemma LsAfterStore(t: Node, p: Path, k: string, v: Node)
    requires DirAt(t, p) && SetItem(t, p + [k], v).Ok?
    ensures var before := Ls(t, p).value.names;
      Ls(SetItem(t, p + [k], v).value, p) == Ok(Names(if k in before then before else before + [k]))
  {
    var q := p + [k];
    assert q[..|p|] == p && q[|p|] == k;
    SetItemParents(t, q, v, |p|);
  }

  /** `ls` after `rm` directly below the directory p in a valid tree: the
      name k is gone and the other names keep their order; `rm` of a name
      that is not there changes nothing. */
  lemma LsAfterRm(t: Node, p: Path, k: string)
    requires Valid(t) && DirAt(t, p)
    ensures Rm(t, p + [k]).raised.None?
    ensures Ls(Rm(t, p + [k]).tree, p) == Ok(Names(Erase(Ls(t, p).value.names, k)))
  {
    var q := p + [k];
    var es := Lookup(t, p).value.entries;
    assert q[..|q| - 1] == p && q[|q| - 1] == k;
    LookupStep(t, p, k);
    LookupValid(t, p);
    KeysDelete(es, k);
    if Child(es, k).Some? {
      RmShape(t, q, q);
    } else {
      EraseAbsent(Keys(es), k);
    }
  }

  /** Which exception a query raises, stated on the path: TypeError exactly
      when a node strictly above the end is not a directory; `exists` is
      false exactly when the walk reaches a directory lacking the next
      segment. */
  lemma ExistsOnPath(t: Node, p: Path)
    ensures Exists(t, p).Err? <==> exists i :: 0 <= i < |p| && NonDirAt(t, p[..i])
    ensures Exists(t, p) == Ok(false) <==> exists i :: 0 <= i < |p| && MissingAt(t, p[..i], p[i])
  {
    LookupTypeErrIff(t, p);
    LookupNotFoundIff(t, p);
  }

  // ---- structural mutation ----

  /** Some node on p, p itself included, exists and is not a directory. */
  predicate LeafOnPath(t: Node, p: Path) {
    exists i :: 0 < i <= |p| && NonDirAt(t, p[..i])
  }

  /** `mkdirs`: set-with-create of an empty dict at p. */
  function Mkdirs(t: Node, p: Path): (o: Outcome)
    ensures o.raised.Some? ==> o.tree == t
    ensures o.raised.None? ==> Lookup(o.tree, p) == Ok(Dir([]))
    ensures o.raised == Some(EmptyPath) <==> |p| == 0
    ensures o.raised == Some(NotFound) <==> |p| > 0 && t.Dir? && LeafOnPath(t, p)
    ensures o.raised.None? <==> |p| > 0 && t.Dir? && !LeafOnPath(t, p)
  {
    SetTreeItemAllOrNothing(t, p, Dir([]));
    SetItemFailsIff(t, p, Dir([]));
    assert p[..|p|] == p;
    SetTreeItem(t, p, Dir([]))
  }

  /** `mkdir`: the same call as `mkdirs`; no shallow variant exists. */
  function Mkdir(t: Node, p: Path): (o: Outcome)
    ensures o.raised.Some? ==> o.tree == t
    ensures o.raised.None? ==> Lookup(o.tree, p) == Ok(Dir([]))
    ensures o.raised == Some(NotFound) <==> |p| > 0 && t.Dir? && LeafOnPath(t, p)
  {
    Mkdirs(t, p)
  }

  /** Two `mkdirs` calls leave what one leaves. */
  lemma MkdirsIdempotent(t: Node, p: Path)
    ensures Mkdirs(Mkdirs(t, p).tree, p) == Mkdirs(t, p)
  {
    SetTreeItemAllOrNothing(t, p, Dir([]));
    if SetItem(t, p, Dir([])).Ok? {
      SetItemTwice(t, p, Dir([]));
      SetTreeItemAllOrNothing(SetItem(t, p, Dir([])).value, p, Dir([]));
    }
  }

  /** An existing directory at p is replaced by an empty one: `mkdirs` leaves
      the tree as it was exactly when that directory was already empty. */
  lemma MkdirsNoOpIff(t: Node, p: Path)
    requires |p| > 0 && t.Dir?
    ensures Mkdirs(t, p) == Outcome(t, None) <==> Lookup(t, p) == Ok(Dir([]))
    ensures DirAt(t, p) ==> Mkdirs(t, p).raised.None?
  {
    SetTreeItemAllOrNothing(t, p, Dir([]));
    SetItemFailsIff(t, p, Dir([]));
    if Lookup(t, p) == Ok(Dir([])) {
      SetItemSame(t, p);
    }
    if Lookup(t, p).Ok? {
      forall i | 0 < i < |p|
        ensures !NonDirAt(t, p[..i])
      {
        LookupPrefixDir(t, p, i);
      }
    }
  }

  /** `mkdirs` keeps the parents' keys in order, appends a missing segment at
      the end of its parent, and touches nothing off p. */
  lemma MkdirsShape(t: Node, p: Path, q: Path, i: nat)
    requires Mkdirs(t, p).raised.None?
    ensures !(p <= q) && !(q <= p) ==> Lookup(Mkdirs(t, p).tree, q) == Lookup(t, q)
    ensures i < |p| ==> (
      && DirAt(Mkdirs(t, p).tree, p[..i])
      && Keys(Lookup(Mkdirs(t, p).tree, p[..i]).value.entries) ==
           if DirAt(t, p[..i]) then
             var before := Keys(Lookup(t, p[..i]).value.entries);
             if p[i] in before then before else before + [p[i]]
           else [p[i]])
  {
    SetTreeItemAllOrNothing(t, p, Dir([]));
    if !(p <= q) && !(q <= p) {
      SetItemFrame(t, p, Dir([]), q);
    }
    if i < |p| {
      SetItemParents(t, p, Dir([]), i);
    }
  }

  /** `rm`: remove the entry at p with its subtree; a missing key anywhere
      along p is silently ignored. */
  function Rm(t: Node, p: Path): (o: Outcome)
    ensures o.raised.Some? ==> o.tree == t
    ensures Lookup(t, p) == Err(NotFound) ==> o == Outcome(t, None)
    ensures o.raised == Some(EmptyPath) <==> |p| == 0
    ensures o.raised.None? <==>
      |p| > 0 && (DirAt(t, p[..|p| - 1]) || Lookup(t, p[..|p| - 1]) == Err(NotFound))
    ensures Valid(t) && |p| > 0 && Lookup(t, p).Ok? ==>
      o.raised.None? && Valid(o.tree) && Lookup(o.tree, p) == Err(NotFound)
  {
    RemoveFacts(t, p);
    Lift(RemoveItem(t, p), t)
  }

  lemma RemoveFacts(t: Node, p: Path)
    ensures RemoveItem(t, p) == Err(EmptyPath) <==> |p| == 0
    ensures RemoveItem(t, p).Ok? <==>
      |p| > 0 && (DirAt(t, p[..|p| - 1]) || Lookup(t, p[..|p| - 1]) == Err(NotFound))
    ensures Lookup(t, p) == Err(NotFound) ==> RemoveItem(t, p) == Ok(t)
    ensures Valid(t) && |p| > 0 && Lookup(t, p).Ok? ==>
      RemoveItem(t, p).Ok? && Valid(RemoveItem(t, p).value) && Lookup(RemoveItem(t, p).value, p) == Err(NotFound)
  {
    RemoveFailsIff(t, p);
    if Lookup(t, p) == Err(NotFound) {
      RemoveMissing(t, p);
    }
    if Valid(t) && |p| > 0 && Lookup(t, p).Ok? {
      RemoveGone(t, p);
      RemoveValid(t, p);
    }
  }

  /** After `rm` of an existing path in a valid tree, nothing is left below
      it, nothing off it changed, and its parent lost exactly that key. */
  lemma RmShape(t: Node, p: Path, q: Path)
    requires Valid(t) && |p| > 0 && Lookup(t, p).Ok?
    ensures p <= q ==> Lookup(Rm(t, p).tree, q) == Err(NotFound)
    ensures !(p <= q) && !(q <= p) ==> Lookup(Rm(t, p).tree, q) == Lookup(t, q)
    ensures DirAt(t, p[..|p| - 1]) && DirAt(Rm(t, p).tree, p[..|p| - 1])
    ensures Keys(Lookup(Rm(t, p).tree, p[..|p| - 1]).value.entries) ==
            Keys(Delete(Lookup(t, p[..|p| - 1]).value.entries, p[|p| - 1]))
  {
    RemoveGone(t, p);
    if p <= q {
      LookupBelowMissing(Rm(t, p).tree, p, q);
    }
    if !(p <= q) && !(q <= p) {
      RemoveFrame(t, p, q);
    }
  }

  // ---- copy and move ----

  /** `cp`: copy the node at src to dst. dstIsDir is true when the caller's
      destination string ended in a separator. */
  function Cp(t: Node, src: Path, dst: Path, dstIsDir: bool): (o: Outcome)
    ensures o.raised.Some? ==> o.tree == t
  {
    match Lookup(t, src)
    case Err(e) => Outcome(t, Some(e))
    case Ok(s) =>
      match Lookup(t, dst)
      case Err(NotFound) => CpIntoMissing(t, s, src, dst, dstIsDir)
      case Err(e) => Outcome(t, Some(e))
      case Ok(d) =>
        var o := CpOntoExisting(t, s, d, src, dst, dstIsDir);
        // the except clause also catches a FileNotFoundError raised by the
        // set-with-create calls inside the try block
        if o.raised == Some(NotFound) then CpIntoMissing(o.tree, s, src, dst, dstIsDir) else o
  }

  /** The try block of `cp` once dst was found to hold d. */
  function CpOntoExisting(t: Node, s: Node, d: Node, src: Path, dst: Path, dstIsDir: bool): (o: Outcome)
    ensures o.raised.Some? ==> o.tree == t
  {
    if d.Dir? then
      if s.Dir? then Outcome(t, None)
      else
        SetTreeItemAllOrNothing(t, Join(dst, Name(src)), s);
        SetTreeItem(t, Join(dst, Name(src)), s)
    else if dstIsDir then Outcome(t, Some(ValueErr))
    else if s.Dir? then Outcome(t, Some(ValueErr))
    else
      SetTreeItemAllOrNothing(t, dst, s);
      var o := SetTreeItem(t, dst, s);
      if o.raised.Some? then o
      else
        // the second store of the same node cannot fail
        SetItemTwice(t, dst, s);
        SetTreeItemAllOrNothing(o.tree, dst, s);
        SetTreeItem(o.tree, dst, s)
  }

  /** The `except FileNotFoundError` clause of `cp`. */
  function CpIntoMissing(t: Node, s: Node, src: Path, dst: Path, dstIsDir: bool): (o: Outcome)
    ensures o.raised.Some? ==> o.tree == t
  {
    if s.Dir? then Outcome(t, None)
    else
      var q := if dstIsDir then Join(dst, Name(src)) else dst;
      SetTreeItemAllOrNothing(t, q, s);
      SetTreeItem(t, q, s)
  }

  /** Where `cp` puts a non-directory source: under its own name inside an
      existing directory, or inside a missing destination written with a
      trailing separator; otherwise at dst itself. */
  function CpTarget(t: Node, src: Path, dst: Path, dstIsDir: bool): Path {
    if DirAt(t, dst) || (Lookup(t, dst) == Err(NotFound) && dstIsDir) then Join(dst, Name(src))
    else dst
  }

  /** The source kinds and destination shapes that `cp` rejects up front. */
  predicate CpRefused(t: Node, src: Path, dst: Path, dstIsDir: bool) {
    || Lookup(t, src).Err?
    || Lookup(t, dst) == Err(TypeErr)
    || (NonDirAt(t, dst) && (dstIsDir || Lookup(t, src).value.Dir?))
  }

  /** `cp` of a non-directory source is set-with-create at CpTarget: it
      succeeds exactly when that does, and then leaves the same tree. */
  lemma CpLeaf(t: Node, src: Path, dst: Path, dstIsDir: bool)
    requires !CpRefused(t, src, dst, dstIsDir) && !Lookup(t, src).value.Dir?
    ensures Cp(t, src, dst, dstIsDir).raised.None? <==>
      SetItem(t, CpTarget(t, src, dst, dstIsDir), Lookup(t, src).value).Ok?
    ensures Cp(t, src, dst, dstIsDir).raised.None? ==>
      Cp(t, src, dst, dstIsDir).tree == SetItem(t, CpTarget(t, src, dst, dstIsDir), Lookup(t, src).value).value
    ensures Cp(t, src, dst, dstIsDir).raised.Some? ==> Cp(t, src, dst, dstIsDir).tree == t
  {
    var s := Lookup(t, src).value;
    if DirAt(t, dst) {
      CpLeafDir(t, src, dst, dstIsDir);
    } else if NonDirAt(t, dst) {
      CpLeafLeaf(t, src, dst);
    } else {
      SetTreeItemAllOrNothing(t, CpTarget(t, src, dst, dstIsDir), s);
    }
  }

  /** `cp` of a non-directory onto an existing directory. */
  lemma CpLeafDir(t: Node, src: Path, dst: Path, dstIsDir: bool)
    requires NonDirAt(t, src) && DirAt(t, dst)
    ensures Cp(t, src, dst, dstIsDir).raised.None? <==>
      SetItem(t, Join(dst, Name(src)), Lookup(t, src).value).Ok?
    ensures Cp(t, src, dst, dstIsDir).raised.None? ==>
      Cp(t, src, dst, dstIsDir).tree == SetItem(t, Join(dst, Name(src)), Lookup(t, src).value).value
    ensures Cp(t, src, dst, dstIsDir).raised.Some? ==> Cp(t, src, dst, dstIsDir).tree == t
  {
    var s := Lookup(t, src).value;
    var q := Join(dst, Name(src));
    var o := CpOntoExisting(t, s, Lookup(t, dst).value, src, dst, dstIsDir);
    assert o == SetTreeItem(t, q, s);
    SetTreeItemAllOrNothing(t, q, s);
    assert Cp(t, src, dst, dstIsDir) ==
      if o.raised == Some(NotFound) then CpIntoMissing(o.tree, s, src, dst, dstIsDir) else o;
    if o.raised == Some(NotFound) && !dstIsDir {
      SetTreeItemAllOrNothing(t, dst, s);
      SetItemOntoDirFails(t, dst, s);
    }
  }

  /** `cp` of a non-directory onto an existing non-directory. */
  lemma CpLeafLeaf(t: Node, src: Path, dst: Path)
    requires NonDirAt(t, src) && NonDirAt(t, dst)
    ensures Cp(t, src, dst, false) == Lift(SetItem(t, dst, Lookup(t, src).value), t)
  {
    var s := Lookup(t, src).value;
    SetTreeItemAllOrNothing(t, dst, s);
    if SetItem(t, dst, s).Ok? {
      SetItemTwice(t, dst, s);
      SetTreeItemAllOrNothing(SetItem(t, dst, s).value, dst, s);
    }
    var o := CpOntoExisting(t, s, Lookup(t, dst).value, src, dst, false);
    assert Cp(t, src, dst, false) ==
      if o.raised == Some(NotFound) then CpIntoMissing(o.tree, s, src, dst, false) else o;
  }

  /** The errors of `cp`: a missing source raises FileNotFoundError; an
      existing file destination raises ValueError when written as a
      directory (checked first) or when the source is a directory; a
      destination below a file raises TypeError. */
  lemma CpErrors(t: Node, src: Path, dst: Path, dstIsDir: bool)
    ensures Lookup(t, src).Err? ==> Cp(t, src, dst, dstIsDir) == Outcome(t, Some(Lookup(t, src).error))
    ensures Lookup(t, src).Ok? && Lookup(t, dst) == Err(TypeErr) ==>
      Cp(t, src, dst, dstIsDir) == Outcome(t, Some(TypeErr))
    ensures Lookup(t, src).Ok? && NonDirAt(t, dst) && dstIsDir ==>
      Cp(t, src, dst, dstIsDir) == Outcome(t, Some(ValueErr))
    ensures DirAt(t, src) && NonDirAt(t, dst) ==>
      Cp(t, src, dst, dstIsDir) == Outcome(t, Some(ValueErr))
  {
  }

  /** A directory source onto an existing directory or a missing path is a
      no-op: directories are never copied. */
  lemma CpDirNoOp(t: Node, src: Path, dst: Path, dstIsDir: bool)
    requires DirAt(t, src)
    requires DirAt(t, dst) || Lookup(t, dst) == Err(NotFound)
    ensures Cp(t, src, dst, dstIsDir) == Outcome(t, None)
  {
  }

  /** A non-directory source onto an existing directory lands at
      dst/name(src) when that slot is free or holds the same kind. */
  lemma CpLeafIntoDir(t: Node, src: Path, dst: Path, dstIsDir: bool)
    requires NonDirAt(t, src) && DirAt(t, dst) && Name(src) != ""
    requires var slot := Lookup(t, dst + [Name(src)]);
      slot == Err(NotFound) || (slot.Ok? && SameKind(slot.value, Lookup(t, src).value))
    ensures Cp(t, src, dst, dstIsDir).raised.None?
    ensures Lookup(Cp(t, src, dst, dstIsDir).tree, dst + [Name(src)]) == Lookup(t, src)
  {
    var s := Lookup(t, src).value;
    var q := dst + [Name(src)];
    assert CpTarget(t, src, dst, dstIsDir) == q;
    CpLeaf(t, src, dst, dstIsDir);
    SetItemFailsIff(t, q, s);
    LookupStep(t, dst, Name(src));
    forall i | 0 < i < |q|
      ensures !NonDirAt(t, q[..i])
    {
      if i < |dst| {
        assert q[..i] == dst[..i];
        LookupPrefixDir(t, dst, i);
      } else {
        assert q[..i] == dst;
      }
    }
  }

  /** A non-directory source onto a missing destination always succeeds,
      creating the missing directories: under dst/name(src) when dst was
      written with a trailing separator, exactly at dst otherwise. */
  lemma CpLeafIntoMissing(t: Node, src: Path, dst: Path, dstIsDir: bool)
    requires NonDirAt(t, src) && Lookup(t, dst) == Err(NotFound)
    ensures Cp(t, src, dst, dstIsDir).raised.None?
    ensures Lookup(Cp(t, src, dst, dstIsDir).tree, if dstIsDir then Join(dst, Name(src)) else dst)
         == Lookup(t, src)
  {
    var s := Lookup(t, src).value;
    CpLeaf(t, src, dst, dstIsDir);
    SetItemMissingOk(t, dst, CpTarget(t, src, dst, dstIsDir), s);
  }

  /** A non-directory source onto an existing non-directory destination
      written without a separator overwrites it in place when the kinds
      match, and raises FileNotFoundError otherwise. */
  lemma CpLeafOntoLeaf(t: Node, src: Path, dst: Path)
    requires NonDirAt(t, src) && NonDirAt(t, dst)
    ensures Cp(t, src, dst, false).raised.None? <==>
      |dst| > 0 && t.Dir? && SameKind(Lookup(t, dst).value, Lookup(t, src).value)
    ensures Cp(t, src, dst, false).raised.None? ==>
      Lookup(Cp(t, src, dst, false).tree, dst) == Lookup(t, src)
    ensures |dst| > 0 && t.Dir? && !SameKind(Lookup(t, dst).value, Lookup(t, src).value) ==>
      Cp(t, src, dst, false) == Outcome(t, Some(NotFound))
  {
    var s := Lookup(t, src).value;
    CpLeafLeaf(t, src, dst);
    CpLeaf(t, src, dst, false);
    SetItemFailsIff(t, dst, s);
    forall i | 0 < i < |dst|
      ensures !NonDirAt(t, dst[..i])
    {
      LookupPrefixDir(t, dst, i);
    }
  }

  /** `cp` never modifies its source. */
  lemma CpPreservesSource(t: Node, src: Path, dst: Path, dstIsDir: bool)
    requires Cp(t, src, dst, dstIsDir).raised.None?
    ensures Lookup(Cp(t, src, dst, dstIsDir).tree, src) == Lookup(t, src)
  {
    var s := Lookup(t, src).value;
    if !s.Dir? {
      CpLeaf(t, src, dst, dstIsDir);
      var target := CpTarget(t, src, dst, dstIsDir);
      if target != src {
        SetItemKeepsLeaf(t, target, s, src);
      }
    }
  }

  /** `mv`: `cp` followed by `rm` of the source. */
  function Mv(t: Node, src: Path, dst: Path, dstIsDir: bool): (o: Outcome)
    ensures Cp(t, src, dst, dstIsDir).raised.Some? ==> o == Outcome(t, Cp(t, src, dst, dstIsDir).raised)
    ensures Cp(t, src, dst, dstIsDir).raised.None? ==> (o.raised.None? <==> |src| > 0)
  {
    RmAfterCp(t, src, dst, dstIsDir);
    var c := Cp(t, src, dst, dstIsDir);
    if c.raised.Some? then c else Rm(c.tree, src)
  }

  /** After a successful `cp`, removing the source fails only for the empty
      path: `cp` left the source in place, so its parent is a directory. */
  lemma RmAfterCp(t: Node, src: Path, dst: Path, dstIsDir: bool)
    ensures Cp(t, src, dst, dstIsDir).raised.None? ==>
      (Rm(Cp(t, src, dst, dstIsDir).tree, src).raised.None? <==> |src| > 0)
  {
    var c := Cp(t, src, dst, dstIsDir);
    if c.raised.None? && |src| > 0 {
      CpPreservesSource(t, src, dst, dstIsDir);
      LookupPrefixDir(c.tree, src, |src| - 1);
    }
  }

  /** After a successful `cp` of a non-directory, the content sits both at
      the source and at CpTarget, and a valid tree stays valid. */
  lemma CpLeafResult(t: Node, src: Path, dst: Path, dstIsDir: bool)
    requires NonDirAt(t, src) && Cp(t, src, dst, dstIsDir).raised.None?
    ensures Lookup(Cp(t, src, dst, dstIsDir).tree, src) == Lookup(t, src)
    ensures Lookup(Cp(t, src, dst, dstIsDir).tree, CpTarget(t, src, dst, dstIsDir)) == Lookup(t, src)
    ensures Cp(t, src, dst, dstIsDir).tree.Dir?
    ensures Valid(t) ==> Valid(Cp(t, src, dst, dstIsDir).tree)
  {
    var s := Lookup(t, src).value;
    var target := CpTarget(t, src, dst, dstIsDir);
    CpErrors(t, src, dst, dstIsDir);
    CpLeaf(t, src, dst, dstIsDir);
    CpPreservesSource(t, src, dst, dstIsDir);
    if Valid(t) {
      LookupValid(t, src);
      SetItemValid(t, target, s);
    }
  }

  /** After moving a non-directory within a valid tree to a target other
      than itself, the source is gone and its content sits at the target. */
  lemma MvLeaf(t: Node, src: Path, dst: Path, dstIsDir: bool)
    requires Valid(t) && NonDirAt(t, src)
    requires Cp(t, src, dst, dstIsDir).raised.None?
    requires CpTarget(t, src, dst, dstIsDir) != src
    ensures Mv(t, src, dst, dstIsDir).raised.None?
    ensures Lookup(Mv(t, src, dst, dstIsDir).tree, src) == Err(NotFound)
    ensures Lookup(Mv(t, src, dst, dstIsDir).tree, CpTarget(t, src, dst, dstIsDir)) == Lookup(t, src)
  {
    var target := CpTarget(t, src, dst, dstIsDir);
    var c := Cp(t, src, dst, dstIsDir).tree;
    CpLeafResult(t, src, dst, dstIsDir);
    assert Mv(t, src, dst, dstIsDir) == Rm(c, src);
    RmShape(c, src, src);
    LeavesApart(c, src, target);
    RmShape(c, src, target);
  }

  /** A directory source moved onto an existing directory or a missing path
      is deleted without being copied. */
  lemma MvDirDropsSource(t: Node, src: Path, dst: Path, dstIsDir: bool)
    requires DirAt(t, src)
    requires DirAt(t, dst) || Lookup(t, dst) == Err(NotFound)
    ensures Mv(t, src, dst, dstIsDir) == Rm(t, src)
  {
    CpDirNoOp(t, src, dst, dstIsDir);
  }

  // ---- moving a file onto its own copy target, as written and corrected ----

  /** As written: when `cp` puts a file back at its own path (dst is the
      file itself, or the directory that holds it), `mv` then removes that
      path, so the file is gone from the tree. */
  lemma MvOntoItselfLosesFile(t: Node, src: Path, dst: Path, dstIsDir: bool)
    requires Valid(t) && NonDirAt(t, src)
    requires Cp(t, src, dst, dstIsDir).raised.None?
    requires CpTarget(t, src, dst, dstIsDir) == src
    ensures Mv(t, src, dst, dstIsDir).raised.None?
    ensures Lookup(Mv(t, src, dst, dstIsDir).tree, src) == Err(NotFound)
  {
    CpLeafResult(t, src, dst, dstIsDir);
    RmShape(Cp(t, src, dst, dstIsDir).tree, src, src);
  }

  /** `b'data data data'`. */
  const SuiteData: seq<bv8> :=
    [0x64, 0x61, 0x74, 0x61, 0x20, 0x64, 0x61, 0x74, 0x61, 0x20, 0x64, 0x61, 0x74, 0x61]

  /** The tree the test suite starts from:
      `{'/': {'tmp': {'xxx': {}, 'a.txt': b'data data data'}}}`. */
  const SuiteTree: Node :=
    Dir([Entry("/", Dir([Entry("tmp", Dir([Entry("xxx", Dir([])), Entry("a.txt", File(SuiteData))]))]))])

  /** The suite's tree is valid, `/tmp` is a directory and `/tmp/a.txt`
      holds the data. */
  lemma SuiteTreeShape()
    ensures Valid(SuiteTree)
    ensures Lookup(SuiteTree, ["/", "tmp"]) == Ok(Dir([Entry("xxx", Dir([])), Entry("a.txt", File(SuiteData))]))
    ensures Lookup(SuiteTree, ["/", "tmp", "a.txt"]) == Ok(File(SuiteData))
  {
    var tmp := Dir([Entry("xxx", Dir([])), Entry("a.txt", File(SuiteData))]);
    var root := Dir([Entry("tmp", tmp)]);
    assert "xxx"[0] != "a.txt"[0];
    assert tmp.entries[1..] == [Entry("a.txt", File(SuiteData))];
    assert IndexOf(tmp.entries[1..], "a.txt") == 0;
    assert IndexOf(tmp.entries, "a.txt") == 1;
    assert Child(tmp.entries, "a.txt") == Some(File(SuiteData));
    assert Child(root.entries, "tmp") == Some(tmp);
    assert Child(SuiteTree.entries, "/") == Some(root);
    assert Lookup(tmp, ["a.txt"]) == Ok(File(SuiteData));
    assert ["/", "tmp", "a.txt"][1..] == ["tmp", "a.txt"] && ["tmp", "a.txt"][1..] == ["a.txt"];
    assert ["/", "tmp"][1..] == ["tmp"] && ["tmp"][1..] == [];
    assert Valid(tmp);
  }

  /** `ls('/tmp')` on that tree lists the names in insertion order. */
  lemma LsSuiteExample()
    ensures Ls(SuiteTree, ["/", "tmp"]) == Ok(Names(["xxx", "a.txt"]))
  {
    SuiteTreeShape();
    var es := [Entry("xxx", Dir([])), Entry("a.txt", File(SuiteData))];
    assert Keys(es) == ["xxx", "a.txt"];
  }

  /** `mv('/tmp/a.txt', '/tmp')` on that tree deletes the file. */
  lemma MvIntoOwnDirectoryExample()
    ensures Lookup(SuiteTree, ["/", "tmp", "a.txt"]) == Ok(File(SuiteData))
    ensures Mv(SuiteTree, ["/", "tmp", "a.txt"], ["/", "tmp"], false).raised.None?
    ensures Lookup(Mv(SuiteTree, ["/", "tmp", "a.txt"], ["/", "tmp"], false).tree, ["/", "tmp", "a.txt"]) == Err(NotFound)
  {
    var src := ["/", "tmp", "a.txt"];
    var dst := ["/", "tmp"];
    SuiteTreeShape();
    assert CpTarget(SuiteTree, src, dst, false) == src;
    SetItemSame(SuiteTree, src);
    CpLeaf(SuiteTree, src, dst, false);
    MvOntoItselfLosesFile(SuiteTree, src, dst, false);
  }

  /** Corrected `mv`: when `cp` put a file back at its own path there is
      nothing left to remove. */
  function MvSafe(t: Node, src: Path, dst: Path, dstIsDir: bool): (o: Outcome)
    ensures Cp(t, src, dst, dstIsDir).raised.Some? ==> o == Outcome(t, Cp(t, src, dst, dstIsDir).raised)
    ensures |src| > 0 && Cp(t, src, dst, dstIsDir).raised.None? ==> o.raised.None?
  {
    RmAfterCp(t, src, dst, dstIsDir);
    var c := Cp(t, src, dst, dstIsDir);
    if c.raised.Some? then c
    else if NonDirAt(t, src) && CpTarget(t, src, dst, dstIsDir) == src then c
    else Rm(c.tree, src)
  }

  /** With the corrected `mv`, a moved file always ends up at the copy
      target, and the source is gone whenever it differs from the target. */
  lemma MvSafeKeepsFile(t: Node, src: Path, dst: Path, dstIsDir: bool)
    requires Valid(t) && NonDirAt(t, src)
    requires Cp(t, src, dst, dstIsDir).raised.None?
    ensures MvSafe(t, src, dst, dstIsDir).raised.None?
    ensures Lookup(MvSafe(t, src, dst, dstIsDir).tree, CpTarget(t, src, dst, dstIsDir)) == Lookup(t, src)
    ensures CpTarget(t, src, dst, dstIsDir) != src ==>
      Lookup(MvSafe(t, src, dst, dstIsDir).tree, src) == Err(NotFound)
  {
    if CpTarget(t, src, dst, dstIsDir) == src {
      CpLeafResult(t, src, dst, dstIsDir);
    } else {
      MvLeaf(t, src, dst, dstIsDir);
    }
  }
}
